/** What the manifest update promises, stated over UpdatedManifest, the
    value the manifest task of index.mjs writes back (or its failure). */
module ManifestProperties {
  import opened JsonValue
  import opened JsText
  import opened BundleLinking
  import opened ManifestUpdate

  /** `packageJson.exports` is there and truthy, so the assertion passes. */
  predicate HasExports(doc: Json) {
    ExportsOf(doc).Some? && Truthy(ExportsOf(doc).value)
  }

  /** The task fails at the assertion exactly when the document is an object
      (or any non-null value) without a truthy `exports`, and fails reading
      `exports` exactly when the document is `null`. Either way nothing is
      written. */
  lemma FailsWithoutExports(doc: Json)
    ensures UpdatedManifest(doc) == Err(NullDocument) <==> doc.JNull?
    ensures UpdatedManifest(doc) == Err(MissingExports) <==> !doc.JNull? && !HasExports(doc)
  {
    if !doc.JNull? && HasExports(doc) {
      var r := RewriteFields(Entries(ExportsOf(doc).value));
      assert r.Err? ==> r.error.NullConditions? || r.error.UnconvertibleDefault?;
    }
  }

  /** The task succeeds exactly when `exports` is truthy and no entry of it
      throws (a `null` entry, or a `default` that cannot be converted to a
      string); otherwise it stops at the first entry that throws. */
  lemma SucceedsUnlessEntryThrows(doc: Json)
    ensures UpdatedManifest(doc).Ok? <==>
              HasExports(doc) && forall f :: f in Entries(ExportsOf(doc).value) ==> !EntryThrows(f.1)
    ensures UpdatedManifest(doc).Err? &&
            (UpdatedManifest(doc).error.NullConditions? || UpdatedManifest(doc).error.UnconvertibleDefault?) ==>
              HasExports(doc) &&
              exists j :: FirstThrowing(Entries(ExportsOf(doc).value), j) &&
                          UpdatedManifest(doc).error == EntryFailure(Entries(ExportsOf(doc).value)[j])
  {
    if !doc.JNull? && HasExports(doc) {
      var es := Entries(ExportsOf(doc).value);
      assert (forall f :: f in es ==> !EntryThrows(f.1)) <==> (forall i :: 0 <= i < |es| ==> !EntryThrows(es[i].1)) by {
        if forall i :: 0 <= i < |es| ==> !EntryThrows(es[i].1) {
          forall f | f in es ensures !EntryThrows(f.1) {
            var i :| 0 <= i < |es| && es[i] == f;
          }
        }
      }
    }
  }

  /** The top level keeps its keys in their order, and every field other
      than `exports` keeps its value: in particular the top-level
      `sideEffects` is neither read nor changed. */
  lemma TopLevelPreserved(doc: Json)
    requires WellFormed(doc)
    requires UpdatedManifest(doc).Ok?
    ensures UpdatedManifest(doc).value.JObj? && doc.JObj?
    ensures Keys(UpdatedManifest(doc).value.fields) == Keys(doc.fields)
    ensures forall k :: k != EXPORTS_KEY ==> Get(UpdatedManifest(doc).value.fields, k) == Get(doc.fields, k)
  {
    var rewritten := RewrittenExports(ExportsOf(doc).value).value;
    assert UpdatedManifest(doc) == Ok(JObj(Put(doc.fields, EXPORTS_KEY, rewritten)));
    PutKeepsKeys(doc.fields, EXPORTS_KEY, rewritten);
  }

  /** `exports` keeps its subpaths in their order and each one ends up with
      the value LinkedConditions gives it; an entry that does not link a
      bundle (no `default`, a `default` without "fesm2022", or a string entry)
      keeps its value. Exports that are an array keep their length; exports
      that are a string, a number or `true` are unchanged. */
  lemma SubpathsPreserved(doc: Json)
    requires UpdatedManifest(doc).Ok?
    ensures HasExports(doc) && ExportsOf(UpdatedManifest(doc).value).Some?
    ensures var before, after := ExportsOf(doc).value, ExportsOf(UpdatedManifest(doc).value).value;
      && (before.JObj? ==>
            && after.JObj?
            && Keys(after.fields) == Keys(before.fields)
            && (forall i :: 0 <= i < |before.fields| ==> after.fields[i].1 == LinkedConditions(before.fields[i].1))
            && (forall i :: 0 <= i < |before.fields| && !LinksBundle(before.fields[i].1) ==>
                  after.fields[i].1 == before.fields[i].1))
      && (before.JArr? ==>
            && after.JArr?
            && |after.items| == |before.items|
            && forall i :: 0 <= i < |before.items| ==> after.items[i] == LinkedConditions(before.items[i]))
      && (!before.JObj? && !before.JArr? ==> after == before)
  {
    var before := ExportsOf(doc).value;
    var entries := RewriteFields(Entries(before)).value;
    var after := RewrittenExports(before).value;
    assert Get(Put(doc.fields, EXPORTS_KEY, after), EXPORTS_KEY) == Some(after);
    if before.JObj? {
      assert Keys(entries) == Keys(before.fields) by {
        forall i | 0 <= i < |entries| ensures Keys(entries)[i] == Keys(before.fields)[i] {
        }
      }
    }
    if before.JArr? {
      forall i | 0 <= i < |before.items| ensures after.items[i] == LinkedConditions(before.items[i]) {
        assert Entries(before)[i].1 == before.items[i];
      }
    }
  }

  /** A record that links a bundle becomes `ng-linked` followed by its other
      conditions in their order; `ng-linked` keeps the record's own value if
      it had one (the spread writes it over the literal's), and is the
      linked artifact of `default` otherwise. */
  lemma LinkedRecordShape(conditions: Json)
    requires conditions.JObj? && DistinctKeys(conditions.fields)
    requires LinksBundle(conditions)
    ensures var own := Get(conditions.fields, LINK_CONDITION);
            var linked := JStr(LinkedName(Text(DefaultCondition(conditions).value)));
            LinkedConditions(conditions)
            == JObj([(LINK_CONDITION, if own.Some? then own.value else linked)] + Without(conditions.fields, LINK_CONDITION))
  {
    var d := Text(DefaultCondition(conditions).value);
    SpreadAfterOne(LINK_CONDITION, JStr(LinkedName(d)), conditions.fields);
    assert LinkedConditions(conditions) == JObj(LinkRecord(conditions.fields, d));
  }

  /** A record with a `default` that contains fesm2022 and no `ng-linked`
      of its own gains `"ng-linked": default + ".linked.mjs"` as its first key, followed
      by all its keys in their order with their values: one key more, and
      every old pair kept. */
  lemma LinkedRecordAddsCondition(conditions: Json)
    requires conditions.JObj? && DistinctKeys(conditions.fields)
    requires LinksBundle(conditions)
    requires LINK_CONDITION !in Keys(conditions.fields)
    ensures var d := Text(DefaultCondition(conditions).value);
            LinkedConditions(conditions)
            == JObj([(LINK_CONDITION, JStr(d + ".linked.mjs"))] + conditions.fields)
    ensures |LinkedConditions(conditions).fields| == |conditions.fields| + 1
    ensures Get(LinkedConditions(conditions).fields, LINK_CONDITION)
            == Some(JStr(LinkedName(Text(DefaultCondition(conditions).value))))
    ensures forall k :: k != LINK_CONDITION ==>
              Get(LinkedConditions(conditions).fields, k) == Get(conditions.fields, k)
  {
    LinkedRecordShape(conditions);
    assert Get(conditions.fields, LINK_CONDITION) == None;
  }

  /** A record that already has `ng-linked` keeps exactly its own keys and
      values; only `ng-linked` moves to the front. */
  lemma LinkedRecordKeepsOwnCondition(conditions: Json)
    requires conditions.JObj? && DistinctKeys(conditions.fields)
    requires LinksBundle(conditions)
    requires LINK_CONDITION in Keys(conditions.fields)
    ensures LinkedConditions(conditions).JObj?
    ensures |LinkedConditions(conditions).fields| == |conditions.fields| > 0
    ensures LinkedConditions(conditions).fields[0] == (LINK_CONDITION, Get(conditions.fields, LINK_CONDITION).value)
    ensures forall k :: Get(LinkedConditions(conditions).fields, k) == Get(conditions.fields, k)
    ensures forall k :: k in Keys(LinkedConditions(conditions).fields) <==> k in Keys(conditions.fields)
    ensures LinkedConditions(conditions).fields[1..] == Without(conditions.fields, LINK_CONDITION)
  {
    LinkedRecordShape(conditions);
    var own := Get(conditions.fields, LINK_CONDITION).value;
    var rest := Without(conditions.fields, LINK_CONDITION);
    WithoutDistinct(conditions.fields, LINK_CONDITION);
    var fields := [(LINK_CONDITION, own)] + rest;
    forall k ensures Get(fields, k) == Get(conditions.fields, k) {
      if k != LINK_CONDITION {
        assert fields[1..] == rest;
      }
    }
    forall k ensures k in Keys(fields) <==> k in Keys(conditions.fields) {
      assert Get(fields, k).Some? <==> Get(conditions.fields, k).Some?;
    }
  }

  /** The test at line 43 is containment anywhere in the text of `default`,
      not a prefix or a path check. */
  lemma LinksBundleIsContainment(conditions: Json)
    requires DefaultCondition(conditions).Some?
    ensures LinksBundle(conditions) <==>
              Truthy(DefaultCondition(conditions).value) &&
              exists i :: OccursAt(Text(DefaultCondition(conditions).value), BUNDLE_DIR, i)
  {
    var d := DefaultCondition(conditions).value;
    ContainsIffOccurs(Text(d), BUNDLE_DIR);
    assert LinksBundle(conditions) <==> Truthy(d) && Contains(Text(d), BUNDLE_DIR);
  }

  /** An array `default` is tested, and spliced into the new condition,
      through its text: a record whose `default` is ["./fesm2022/a.mjs"] and
      that has no `ng-linked` of its own gains
      "./fesm2022/a.mjs.linked.mjs" in front of its conditions. */
  lemma ArrayDefaultLinks(conditions: Json, path: string)
    requires conditions.JObj? && DistinctKeys(conditions.fields)
    requires Get(conditions.fields, DEFAULT_KEY) == Some(JArr([JStr(path)]))
    requires LINK_CONDITION !in Keys(conditions.fields)
    requires Contains(path, BUNDLE_DIR)
    ensures LinksBundle(conditions)
    ensures LinkedConditions(conditions) == JObj([(LINK_CONDITION, JStr(LinkedName(path)))] + conditions.fields)
  {
    var parts := seq(1, i requires 0 <= i < 1 => if [JStr(path)][i].JNull? then "" else Text([JStr(path)][i]));
    assert parts == [path];
    assert Text(JArr([JStr(path)])) == path;
    assert path != "";
    LinkedRecordAddsCondition(conditions);
  }

  /** For instance "./x/fesm2022-old/a.js" links, as "fesm2022" occurs at
      position 4. */
  lemma SubstringAnywhereLinks()
    ensures LinksBundle(JObj([(DEFAULT_KEY, JStr("./x/fesm2022-old/a.js"))]))
  {
    var c := JObj([(DEFAULT_KEY, JStr("./x/fesm2022-old/a.js"))]);
    assert DefaultCondition(c) == Some(JStr("./x/fesm2022-old/a.js"));
    assert OccursAt("./x/fesm2022-old/a.js", BUNDLE_DIR, 4);
    LinksBundleIsContainment(c);
  }

  /** A string `default` is tested as it is. */
  lemma StringDefaultText(s: string)
    ensures Text(JStr(s)) == s
    ensures LinksBundle(JObj([(DEFAULT_KEY, JStr(s))])) <==> Contains(s, BUNDLE_DIR)
  {
    var d := JObj([(DEFAULT_KEY, JStr(s))]);
    assert DefaultCondition(d) == Some(JStr(s));
    if Contains(s, BUNDLE_DIR) {
      ContainsIffOccurs(s, BUNDLE_DIR);
      var i :| OccursAt(s, BUNDLE_DIR, i);
      assert s != "";
    }
  }

  /** An array `default` links as soon as one of its elements' text
      contains "fesm2022", since `String` joins the elements' texts. */
  lemma ArrayDefaultLinksByElement(conditions: Json, items: seq<Json>, i: int)
    requires DefaultCondition(conditions) == Some(JArr(items))
    requires 0 <= i < |items| && !items[i].JNull? && Contains(Text(items[i]), BUNDLE_DIR)
    ensures LinksBundle(conditions)
  {
    ArrayTextHasElements(items, i);
    var k :| OccursAt(Text(JArr(items)), Text(items[i]), k);
    ContainsIffOccurs(Text(items[i]), BUNDLE_DIR);
    var m :| OccursAt(Text(items[i]), BUNDLE_DIR, m);
    OccursWithin(Text(JArr(items)), Text(items[i]), BUNDLE_DIR, k, m);
    ContainsIffOccurs(Text(JArr(items)), BUNDLE_DIR);
  }

  /** A `default` that is an object with its own `toString` property, such
      as {"toString": "q"}, makes the test at line 43 throw. When the first
      entry that throws is such an entry, the update stops with a TypeError
      naming its subpath and writes nothing. */
  lemma OwnToStringDefaultThrows(doc: Json, j: nat)
    requires HasExports(doc)
    requires var es := Entries(ExportsOf(doc).value);
             j < |es| && DefaultCondition(es[j].1).Some? && DefaultCondition(es[j].1).value.JObj? &&
             TO_STRING_KEY in Keys(DefaultCondition(es[j].1).value.fields) &&
             forall k :: 0 <= k < j ==> !EntryThrows(es[k].1)
    ensures UpdatedManifest(doc) == Err(UnconvertibleDefault(Entries(ExportsOf(doc).value)[j].0))
  {
    var es := Entries(ExportsOf(doc).value);
    assert FirstThrowing(es, j);
    assert es[j] in es;
    SucceedsUnlessEntryThrows(doc);
    FailsWithoutExports(doc);
    var i :| FirstThrowing(es, i) && UpdatedManifest(doc).error == EntryFailure(es[i]);
    assert i == j;
  }

  /** Rewriting an entry keeps its `default`, so it throws on the second
      pass exactly when it threw on the first. */
  lemma LinkedKeepsDefault(conditions: Json)
    requires conditions.JObj? ==> DistinctKeys(conditions.fields)
    ensures DefaultCondition(LinkedConditions(conditions)) == DefaultCondition(conditions)
    ensures EntryThrows(LinkedConditions(conditions)) == EntryThrows(conditions)
  {
    if LinksBundle(conditions) {
      LinkedRecordShape(conditions);
      var rest := Without(conditions.fields, LINK_CONDITION);
      var fields := LinkedConditions(conditions).fields;
      assert fields[1..] == rest;
      assert Get(fields, DEFAULT_KEY) == Get(rest, DEFAULT_KEY);
    }
  }

  /** Rewriting an entry twice is rewriting it once: the second spread finds
      `ng-linked` already first and keeps its value. */
  lemma LinkedConditionsIdempotent(conditions: Json)
    requires conditions.JObj? ==> DistinctKeys(conditions.fields)
    ensures LinkedConditions(LinkedConditions(conditions)) == LinkedConditions(conditions)
  {
    if LinksBundle(conditions) {
      LinkedRecordShape(conditions);
      var once := LinkedConditions(conditions);
      var rest := Without(conditions.fields, LINK_CONDITION);
      var head := once.fields[0];
      WithoutDistinct(conditions.fields, LINK_CONDITION);
      assert once.fields == [head] + rest;
      assert once.fields[1..] == rest;
      assert DefaultCondition(once) == DefaultCondition(conditions);
      ConsDistinct(head, rest);
      LinkedRecordShape(once);
      assert Without(once.fields, LINK_CONDITION) == Without(rest, LINK_CONDITION) == rest;
    }
  }

  /** No entry of a string, a number or `true` links a bundle, so the loop
      assigns nothing there. */
  lemma ExportsWithoutRecordsUnchanged(exports: Json)
    requires !exports.JObj? && !exports.JArr?
    ensures RewriteFields(Entries(exports)) == Ok(Entries(exports))
  {
    var es := Entries(exports);
    var r := RewriteFields(es);
    assert forall i :: 0 <= i < |es| ==> es[i].1.JStr?;
    assert r.Ok? && |r.value| == |es|;
    assert r.value == es;
  }

  lemma RewrittenExportsIdempotent(exports: Json)
    requires WellFormed(exports)
    requires RewrittenExports(exports).Ok?
    ensures RewrittenExports(RewrittenExports(exports).value) == RewrittenExports(exports)
  {
    var once := RewrittenExports(exports).value;
    var es := Entries(exports);
    var fs := RewriteFields(es).value;
    var es' := Entries(once);
    var fs' := RewriteFields(es');
    if exports.JObj? {
      forall i | 0 <= i < |es| ensures fs[i].1 == LinkedConditions(fs[i].1) && !EntryThrows(fs[i].1) {
        assert WellFormed(es[i].1);
        LinkedConditionsIdempotent(es[i].1);
        LinkedKeepsDefault(es[i].1);
      }
      assert fs'.Ok? && fs'.value == fs;
    } else if exports.JArr? {
      forall i | 0 <= i < |es| ensures fs[i].1 == LinkedConditions(fs[i].1) && !EntryThrows(fs[i].1) {
        assert es[i].1 == exports.items[i] && WellFormed(exports.items[i]);
        LinkedConditionsIdempotent(es[i].1);
        LinkedKeepsDefault(es[i].1);
      }
      assert |es'| == |es|;
      forall i | 0 <= i < |es'| ensures es'[i] == fs[i] {
      }
      assert fs'.Ok?;
      assert Values(fs'.value) == Values(fs);
    }
  }

  /** Running the manifest update on its own output changes nothing. */
  lemma UpdateIdempotent(doc: Json)
    requires WellFormed(doc)
    requires UpdatedManifest(doc).Ok?
    ensures UpdatedManifest(UpdatedManifest(doc).value) == UpdatedManifest(doc)
  {
    var exports := ExportsOf(doc).value;
    GetWellFormed(doc.fields, EXPORTS_KEY);
    var once := RewrittenExports(exports).value;
    RewrittenExportsIdempotent(exports);
    var fields := Put(doc.fields, EXPORTS_KEY, once);
    assert ExportsOf(JObj(fields)) == Some(once);
    assert Truthy(once);
    PutSame(fields, EXPORTS_KEY);
  }
}
