/** The side-effects step as its comment at index.mjs:52 describes it ("also
    update side effects to include the new linked bundles"): every literal
    pattern under "./fesm2022/" in the top-level `sideEffects` array gains its
    linked artifact at the end of the array. The code as written does
    nothing (ManifestUpdate.ExtendSideEffects); this module states the
    intended step, proves what it appends, and exhibits a document on which
    the two differ. */
module SideEffectsFix {
  import opened JsonValue
  import opened JsText
  import opened BundleLinking
  import opened ManifestUpdate
  import opened ManifestProperties

  const WILDCARD: string := "*"

  /** A pattern the step extends: a string with no wildcard that starts with
      "./fesm2022/" (the test at line 56 applied to the element). */
  predicate IsLiteralBundlePath(pattern: Json) {
    pattern.JStr? && !Contains(pattern.s, WILDCARD) && StartsWith(pattern.s, BUNDLE_PATH_PREFIX)
  }

  /** The linked artifacts of the literal bundle paths among `patterns`, in
      their order */
  function LinkedPatterns(patterns: seq<Json>): (linked: seq<Json>)
    ensures |linked| <= |patterns|
    decreases |patterns|
  {
    if patterns == [] then []
    else
      var init, last := patterns[..|patterns| - 1], patterns[|patterns| - 1];
      assert patterns == init + [last];
      LinkedPatterns(init) + if IsLiteralBundlePath(last) then [JStr(LinkedName(last.s))] else []
  }

  /** Every appended name is the artifact of a literal bundle path in the
      list, and every literal bundle path in the list has its artifact
      appended. */
  lemma {:induction false} LinkedPatternsMembers(patterns: seq<Json>)
    ensures forall x :: x in LinkedPatterns(patterns) ==>
              exists p :: p in patterns && IsLiteralBundlePath(p) && x == JStr(LinkedName(p.s))
    ensures forall p :: p in patterns && IsLiteralBundlePath(p) ==> JStr(LinkedName(p.s)) in LinkedPatterns(patterns)
    decreases |patterns|
  {
    if patterns != [] {
      var init, last := patterns[..|patterns| - 1], patterns[|patterns| - 1];
      assert patterns == init + [last];
      LinkedPatternsMembers(init);
    }
  }

  /** The corrected step: walk the elements of the top-level `sideEffects`
      array as they were before the step (`for...of` over a copy) and push
      the linked name of each literal bundle path. Walking the live array
      instead would also visit the pushed names, which qualify again
      (LinkedPatternQualifies), and never finish. */
  method ExtendSideEffectsIntended(sideEffects: seq<Json>) returns (extended: seq<Json>)
    ensures extended == sideEffects + LinkedPatterns(sideEffects)
  {
    extended := sideEffects;
    for i := 0 to |sideEffects|
      invariant extended == sideEffects + LinkedPatterns(sideEffects[..i])
    {
      var pattern := sideEffects[i];
      assert sideEffects[..i + 1][..i] == sideEffects[..i];
      if IsLiteralBundlePath(pattern) {
        extended := extended + [JStr(LinkedName(pattern.s))];
      }
    }
    assert sideEffects[..|sideEffects|] == sideEffects;
  }

  /** `s.includes(c)` for a one-character `c`: the character is one of `s`'s. */
  lemma ContainsChar(s: string, c: char)
    ensures Contains(s, [c]) <==> c in s
  {
    ContainsIffOccurs(s, [c]);
    OccursCharAt(s, c);
    if c in s {
      var i :| 0 <= i < |s| && s[i] == c;
      assert s[i..i + 1] == [c];
      assert OccursAt(s, [c], i);
    }
  }

  lemma OccursCharAt(s: string, c: char)
    ensures forall i :: OccursAt(s, [c], i) ==> 0 <= i < |s| && s[i] == c
  {
    forall i | OccursAt(s, [c], i) ensures 0 <= i < |s| && s[i] == c {
      assert s[i..i + 1][0] == s[i];
    }
  }

  /** The linked name of a literal bundle path is again one. */
  lemma LinkedPatternQualifies(pattern: Json)
    requires IsLiteralBundlePath(pattern)
    ensures IsLiteralBundlePath(JStr(LinkedName(pattern.s)))
  {
    var s := pattern.s;
    ContainsChar(s, '*');
    ContainsChar(s + LINKED_SUFFIX, '*');
    assert (s + LINKED_SUFFIX)[..|BUNDLE_PATH_PREFIX|] == s[..|BUNDLE_PATH_PREFIX|];
  }

  /** The linked patterns of a concatenation are those of its parts. */
  lemma {:induction false} LinkedPatternsAppend(p: seq<Json>, q: seq<Json>)
    ensures LinkedPatterns(p + q) == LinkedPatterns(p) + LinkedPatterns(q)
    decreases |q|
  {
    if q == [] {
      assert p + q == p;
    } else {
      var init, last := q[..|q| - 1], q[|q| - 1];
      assert (p + q)[..|p + q| - 1] == p + init;
      assert (p + q)[|p + q| - 1] == last;
      LinkedPatternsAppend(p, init);
    }
  }

  /** One pattern is extended exactly when it is a literal bundle path. */
  lemma LinkedPatternsOne(pattern: Json)
    ensures LinkedPatterns([pattern])
         == if IsLiteralBundlePath(pattern) then [JStr(LinkedName(pattern.s))] else []
  {
    assert [pattern][..0] == [];
  }

  /** A mixed `sideEffects` list (a literal path under "./fesm2022/", a
      wildcard pattern there, a path elsewhere): only the literal path under
      "./fesm2022/" gains a linked entry; the wildcard pattern and the path
      elsewhere are kept and not extended. */
  lemma IntendedStepSelects(literal: string, wildcard: string, elsewhere: string)
    requires StartsWith(literal, BUNDLE_PATH_PREFIX) && '*' !in literal
    requires '*' in wildcard
    requires !StartsWith(elsewhere, BUNDLE_PATH_PREFIX)
    ensures LinkedPatterns([JStr(literal), JStr(wildcard), JStr(elsewhere)]) == [JStr(LinkedName(literal))]
  {
    var a, w, o := JStr(literal), JStr(wildcard), JStr(elsewhere);
    ContainsChar(literal, '*');
    ContainsChar(wildcard, '*');
    LinkedPatternsOne(a);
    LinkedPatternsOne(w);
    LinkedPatternsOne(o);
    assert [a, w, o] == [a] + [w] + [o];
    LinkedPatternsAppend([a] + [w], [o]);
    LinkedPatternsAppend([a], [w]);
  }

  /** The manifest the update is meant to produce: the update as written,
      followed by the intended side-effects step on the top-level
      `sideEffects` array when there is one. */
  function IntendedManifest(doc: Json): Result<Json> {
    match UpdatedManifest(doc)
    case Err(e) => Err(e)
    case Ok(updated) =>
      if updated.JObj? then
        (match Get(updated.fields, SIDE_EFFECTS_KEY)
         case Some(JArr(patterns)) =>
           Ok(JObj(Put(updated.fields, SIDE_EFFECTS_KEY, JArr(patterns + LinkedPatterns(patterns)))))
         case _ => Ok(updated))
      else Ok(updated)
  }

  /** The intended manifest differs from the written one only in
      `sideEffects`, which gains the linked names of its literal bundle paths
      after its original patterns. */
  lemma IntendedManifestExtends(doc: Json, patterns: seq<Json>)
    requires WellFormed(doc) && doc.JObj? && UpdatedManifest(doc).Ok?
    requires Get(doc.fields, SIDE_EFFECTS_KEY) == Some(JArr(patterns))
    ensures IntendedManifest(doc).Ok? && IntendedManifest(doc).value.JObj?
    ensures Get(IntendedManifest(doc).value.fields, SIDE_EFFECTS_KEY)
         == Some(JArr(patterns + LinkedPatterns(patterns)))
    ensures forall k :: k != SIDE_EFFECTS_KEY ==>
              Get(IntendedManifest(doc).value.fields, k) == Get(UpdatedManifest(doc).value.fields, k)
  {
    TopLevelPreserved(doc);
  }

  /** The update as written on a package whose top-level `sideEffects` lists
      a literal bundle path, for instance ./fesm2022/a.mjs: it succeeds,
      leaves `sideEffects` as it was, and so misses the linked name the
      intended step appends. */
  lemma AsWrittenKeepsSideEffects(doc: Json, patterns: seq<Json>, pattern: Json)
    requires WellFormed(doc) && doc.JObj? && UpdatedManifest(doc).Ok?
    requires Get(doc.fields, SIDE_EFFECTS_KEY) == Some(JArr(patterns))
    requires pattern in patterns && IsLiteralBundlePath(pattern)
    ensures Get(UpdatedManifest(doc).value.fields, SIDE_EFFECTS_KEY) == Some(JArr(patterns))
    ensures JStr(LinkedName(pattern.s)) in LinkedPatterns(patterns)
    ensures IntendedManifest(doc) != UpdatedManifest(doc)
  {
    TopLevelPreserved(doc);
    IntendedManifestExtends(doc, patterns);
    LinkedPatternsMembers(patterns);
    var appended := LinkedPatterns(patterns);
    assert JStr(LinkedName(pattern.s)) in appended;
    assert JArr(patterns + appended) != JArr(patterns) by {
      assert |patterns + appended| > |patterns|;
    }
  }
}
