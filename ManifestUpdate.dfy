/** The manifest task of index.mjs (lines 32-63): given the parsed
    `package.json`, check that it has `exports`, give every export whose
    `default` contains `fesm2022` an extra `ng-linked` condition
    pointing at the linked artifact, run the side-effects step, and produce
    the document that is written back. Reading and writing the file and the
    JSON text format are outside the model: the update starts from the parsed
    value and ends with the value handed to `JSON.stringify`. */
module ManifestUpdate {
  import opened JsonValue
  import opened JsText
  import opened BundleLinking

  const EXPORTS_KEY: string := "exports"
  const DEFAULT_KEY: string := "default"
  /** An own key that hides `Object.prototype.toString` */
  const TO_STRING_KEY: string := "toString"
  const SIDE_EFFECTS_KEY: string := "sideEffects"
  /** The resolution condition added to a linked export */
  const LINK_CONDITION: string := "ng-linked"
  /** The pattern `/fesm2022/` that a `default` target is tested against */
  const BUNDLE_DIR: string := "fesm2022"
  /** The prefix a side-effects pattern is checked for */
  const BUNDLE_PATH_PREFIX: string := "./fesm2022/"

  /** Why the manifest task rejects; in every case nothing is written. */
  datatype Failure =
    | NullDocument                    // `packageJson.exports` on a `null` document throws a TypeError
    | MissingExports                  // the assertion that `exports` is truthy fails
    | NullConditions(subpath: string) // `conditions.default` on a `null` entry throws a TypeError
    | UnconvertibleDefault(subpath: string) // `String(default)` throws a TypeError (see ToStringThrows)

  datatype Result<T> = Ok(value: T) | Err(error: Failure)

  /** `packageJson.exports`; `None` stands for `undefined`. Only an object
      has an `exports` property. */
  function ExportsOf(doc: Json): Option<Json> {
    if doc.JObj? then Get(doc.fields, EXPORTS_KEY) else None
  }

  /** `Object.entries(v)`: an object's own properties in order; an array's
      elements, and a string's characters, under their index keys; nothing
      for a number or a boolean. */
  function Entries(v: Json): seq<Field> {
    match v
    case JObj(fields) => fields
    case JArr(items) => IndexedEntries(items)
    case JStr(s) => IndexedEntries(Characters(s))
    case _ => []
  }

  /** Elements under their index keys "0", "1", ... */
  function IndexedEntries(elements: seq<Json>): (es: seq<Field>)
    ensures |es| == |elements|
    ensures forall i :: 0 <= i < |elements| ==> es[i] == (NatToString(i), elements[i])
  {
    seq(|elements|, i requires 0 <= i < |elements| => (NatToString(i), elements[i]))
  }

  /** The one-character strings a string is made of */
  function Characters(s: string): (cs: seq<Json>)
    ensures |cs| == |s|
    ensures forall i :: 0 <= i < |s| ==> cs[i] == JStr([s[i]])
  {
    seq(|s|, i requires 0 <= i < |s| => JStr([s[i]]))
  }

  /** `conditions.default` for an entry that is not `null`: of the values
      `JSON.parse` builds, only an object can have a `default` property. */
  function DefaultCondition(conditions: Json): Option<Json> {
    if conditions.JObj? then Get(conditions.fields, DEFAULT_KEY) else None
  }

  /** `String(v)`: the text that both `/fesm2022/.test(v)` and the template
      literal `${v}` see. An array joins the texts of its elements with ","
      (a `null` element gives ""); an object is "[object Object]". Where the
      conversion throws instead (ToStringThrows), the loop stops before the
      text is used. */
  function Text(v: Json): string {
    match v
    case JNull => "null"
    case JBool(b) => if b then "true" else "false"
    case JNum(n) => IntToString(n)
    case JStr(s) => s
    case JArr(items) => Join(seq(|items|, i requires 0 <= i < |items| => if items[i].JNull? then "" else Text(items[i])))
    case JObj(_) => "[object Object]"
  }

  /** `String(v)` throws a TypeError: a parsed object with its own
      `toString` property has no callable `toString` (JSON holds no
      functions), and its inherited `valueOf` returns the object itself, so
      no primitive is found. An array throws when one of its elements does,
      as `join` converts each element. Every other value converts as Text
      says. */
  predicate ToStringThrows(v: Json) {
    match v
    case JObj(fields) => TO_STRING_KEY in Keys(fields)
    case JArr(items) => exists i :: 0 <= i < |items| && ToStringThrows(items[i])
    case _ => false
  }

  /** `parts.join(",")` */
  function Join(parts: seq<string>): string {
    if parts == [] then ""
    else if |parts| == 1 then parts[0]
    else Join(parts[..|parts| - 1]) + "," + parts[|parts| - 1]
  }

  /** Every part occurs in the joined text. */
  lemma {:induction false} JoinHasParts(parts: seq<string>, i: int)
    requires 0 <= i < |parts|
    ensures exists k :: OccursAt(Join(parts), parts[i], k)
    decreases |parts|
  {
    if |parts| == 1 {
      assert OccursAt(Join(parts), parts[i], 0);
    } else {
      var init, last := parts[..|parts| - 1], parts[|parts| - 1];
      var joined := Join(init);
      assert Join(parts) == joined + "," + last;
      if i == |parts| - 1 {
        assert (joined + "," + last)[|joined| + 1..|joined| + 1 + |last|] == last;
        assert OccursAt(Join(parts), parts[i], |joined| + 1);
      } else {
        assert init[i] == parts[i];
        JoinHasParts(init, i);
        var k :| OccursAt(joined, parts[i], k);
        assert (joined + "," + last)[k..k + |parts[i]|] == joined[k..k + |parts[i]|];
        assert OccursAt(Join(parts), parts[i], k);
      }
    }
  }

  /** The text of an array holds the text of each of its non-null elements. */
  lemma ArrayTextHasElements(items: seq<Json>, i: int)
    requires 0 <= i < |items| && !items[i].JNull?
    ensures exists k :: OccursAt(Text(JArr(items)), Text(items[i]), k)
  {
    var parts := seq(|items|, j requires 0 <= j < |items| => if items[j].JNull? then "" else Text(items[j]));
    assert Text(JArr(items)) == Join(parts);
    assert parts[i] == Text(items[i]);
    JoinHasParts(parts, i);
  }

  /** The test at line 43 lets the entry through: its `default` is truthy and
      its text contains `fesm2022`. */
  predicate LinksBundle(conditions: Json) {
    var d := DefaultCondition(conditions);
    d.Some? && Truthy(d.value) && Contains(Text(d.value), BUNDLE_DIR)
  }

  /** The literal `{ "ng-linked": `${defaultCondition}.linked.mjs`, ...conditions }` */
  function LinkRecord(conditions: seq<Field>, defaultPath: string): seq<Field> {
    Spread([(LINK_CONDITION, JStr(LinkedName(defaultPath)))], conditions)
  }

  /** The value an export entry has once the loop has passed it: the new
      record if the entry links a bundle, the entry itself otherwise. */
  function LinkedConditions(conditions: Json): Json {
    if LinksBundle(conditions)
    then JObj(LinkRecord(conditions.fields, Text(DefaultCondition(conditions).value)))
    else conditions
  }

  /** The test at line 43 reaches `String(default)` and it throws: the
      `default` is truthy, so `!defaultCondition` does not short-circuit. */
  predicate DefaultThrows(conditions: Json) {
    var d := DefaultCondition(conditions);
    d.Some? && Truthy(d.value) && ToStringThrows(d.value)
  }

  /** The loop body throws on this entry, at line 42 or at line 43. */
  predicate EntryThrows(conditions: Json) {
    conditions.JNull? || DefaultThrows(conditions)
  }

  /** The TypeError an entry that throws stops the loop with */
  function EntryFailure(entry: Field): Failure {
    if entry.1.JNull? then NullConditions(entry.0) else UnconvertibleDefault(entry.0)
  }

  /** Entry `j` is the first entry on which the loop body throws. */
  predicate FirstThrowing(entries: seq<Field>, j: int) {
    0 <= j < |entries| && EntryThrows(entries[j].1) &&
    forall k :: 0 <= k < j ==> !EntryThrows(entries[k].1)
  }

  /** The entries after the loop at lines 41-50, taken in order: the first
      entry that is `null`, or whose `default` cannot be converted to a
      string, stops the loop with a TypeError; otherwise every entry keeps
      its key and takes the value LinkedConditions gives it. */
  function RewriteFields(entries: seq<Field>): (r: Result<seq<Field>>)
    ensures r.Ok? <==> forall i :: 0 <= i < |entries| ==> !EntryThrows(entries[i].1)
    ensures r.Ok? ==> |r.value| == |entries|
    ensures r.Ok? ==> forall i :: 0 <= i < |entries| ==> r.value[i] == (entries[i].0, LinkedConditions(entries[i].1))
    ensures r.Err? ==> exists j :: FirstThrowing(entries, j) && r.error == EntryFailure(entries[j])
    decreases |entries|
  {
    if entries == [] then Ok([])
    else
      var n := |entries| - 1;
      var init := entries[..n];
      match RewriteFields(init)
      case Err(e) =>
        assert exists j :: FirstThrowing(entries, j) && e == EntryFailure(entries[j]) by {
          var j :| FirstThrowing(init, j) && e == EntryFailure(init[j]);
          PrefixThrowing(entries, n, j);
        }
        Err(e)
      case Ok(done) =>
        assert forall k :: 0 <= k < n ==> init[k] == entries[k];
        if EntryThrows(entries[n].1) then
          assert FirstThrowing(entries, n);
          Err(EntryFailure(entries[n]))
        else
          Ok(done + [(entries[n].0, LinkedConditions(entries[n].1))])
  }

  /** The first entry of a prefix that throws is the first of the whole. */
  lemma PrefixThrowing(entries: seq<Field>, n: int, j: int)
    requires 0 <= n <= |entries| && FirstThrowing(entries[..n], j)
    ensures FirstThrowing(entries, j) && entries[..n][j] == entries[j]
  {
    assert forall k :: 0 <= k <= j ==> entries[..n][k] == entries[k];
  }

  /** The loop at lines 41-50 over the snapshot `Object.entries(exports)`:
      each entry reads `conditions.default`, and an entry that links a
      bundle is reassigned with `exports[subpath] = ...`. */
  method RewriteEntries(entries: seq<Field>) returns (r: Result<seq<Field>>)
    requires DistinctKeys(entries)
    ensures r == RewriteFields(entries)
  {
    var exports := entries;
    var i := 0;
    while i < |entries|
      invariant 0 <= i <= |entries|
      invariant |exports| == |entries|
      invariant forall j :: 0 <= j < i ==> !EntryThrows(entries[j].1)
      invariant forall j :: 0 <= j < i ==> exports[j] == (entries[j].0, LinkedConditions(entries[j].1))
      invariant forall j :: i <= j < |entries| ==> exports[j] == entries[j]
    {
      var (subpath, conditions) := entries[i];
      if conditions.JNull? {
        FirstThrowingFails(entries, i);
        return Err(NullConditions(subpath));
      }
      var defaultCondition := DefaultCondition(conditions);
      if defaultCondition.Some? && Truthy(defaultCondition.value) && ToStringThrows(defaultCondition.value) {
        FirstThrowingFails(entries, i);
        return Err(UnconvertibleDefault(subpath));
      }
      ghost var before := exports;
      if LinksBundle(conditions) {
        AssignExisting(exports, entries, i, LinkedConditions(conditions));
        exports := Put(exports, subpath, LinkedConditions(conditions));
      } else {
        Unlinked(entries, exports, i);
      }
      LoopStep(entries, before, i, exports);
      i := i + 1;
    }
    AllEntriesLinked(entries, exports);
    return Ok(exports);
  }

  /** Helper for RewriteEntries: the loop stops at the first entry that throws. */
  lemma FirstThrowingFails(entries: seq<Field>, i: int)
    requires FirstThrowing(entries, i)
    ensures RewriteFields(entries) == Err(EntryFailure(entries[i]))
  {
    var r := RewriteFields(entries);
    var j :| FirstThrowing(entries, j) && r.error == EntryFailure(entries[j]);
    assert j == i;
  }

  /** Helper for RewriteEntries: rewriting entry `i` in place extends the
      rewritten prefix by one entry. */
  lemma LoopStep(entries: seq<Field>, exports: seq<Field>, i: int, next: seq<Field>)
    requires 0 <= i < |entries| && |exports| == |entries|
    requires forall j :: 0 <= j < i ==> exports[j] == (entries[j].0, LinkedConditions(entries[j].1))
    requires forall j :: i <= j < |entries| ==> exports[j] == entries[j]
    requires next == exports[i := (entries[i].0, LinkedConditions(entries[i].1))]
    ensures |next| == |entries|
    ensures forall j :: 0 <= j <= i ==> next[j] == (entries[j].0, LinkedConditions(entries[j].1))
    ensures forall j :: i < j < |entries| ==> next[j] == entries[j]
  {
  }

  /** Helper for RewriteEntries: an entry that does not link a bundle is
      already rewritten. */
  lemma Unlinked(entries: seq<Field>, exports: seq<Field>, i: int)
    requires 0 <= i < |entries| == |exports| && exports[i] == entries[i]
    requires !LinksBundle(entries[i].1)
    ensures exports[i := (entries[i].0, LinkedConditions(entries[i].1))] == exports
  {
  }

  /** Helper for RewriteEntries: assigning an existing key of the entries
      being rewritten replaces the value at its position. */
  lemma AssignExisting(exports: seq<Field>, entries: seq<Field>, i: int, v: Json)
    requires DistinctKeys(entries) && |exports| == |entries| && 0 <= i < |entries|
    requires forall j :: 0 <= j < |entries| ==> exports[j].0 == entries[j].0
    ensures Put(exports, entries[i].0, v) == exports[i := (entries[i].0, v)]
  {
    assert DistinctKeys(exports) by {
      forall j, k | 0 <= j < k < |exports| ensures exports[j].0 != exports[k].0 {
        assert exports[j].0 == entries[j].0 && exports[k].0 == entries[k].0;
      }
    }
    PutAt(exports, i, v);
  }

  /** Helper for RewriteEntries: a loop that ran to the end computed RewriteFields. */
  lemma AllEntriesLinked(entries: seq<Field>, exports: seq<Field>)
    requires |exports| == |entries|
    requires forall j :: 0 <= j < |entries| ==> !EntryThrows(entries[j].1)
    requires forall j :: 0 <= j < |entries| ==> exports[j] == (entries[j].0, LinkedConditions(entries[j].1))
    ensures RewriteFields(entries) == Ok(exports)
  {
    var spec := RewriteFields(entries);
    assert spec.Ok? && |spec.value| == |exports|;
    assert exports == spec.value;
  }

  /** `packageJson.exports` after the loop. An array is assigned through its
      index keys; a string, a number or `true` has no entry that links a
      bundle (ExportsWithoutRecordsUnchanged), so it is left as it is. */
  function RewrittenExports(exports: Json): Result<Json> {
    match RewriteFields(Entries(exports))
    case Err(e) => Err(e)
    case Ok(entries) =>
      Ok(match exports
         case JObj(_) => JObj(entries)
         case JArr(_) => JArr(Values(entries))
         case _ => exports)
  }

  /** The document that lines 33-62 write back, or why nothing is written. */
  function UpdatedManifest(doc: Json): Result<Json> {
    if doc.JNull? then Err(NullDocument)
    else
      var exports := ExportsOf(doc);
      if exports.None? || !Truthy(exports.value) then Err(MissingExports)
      else
        match RewrittenExports(exports.value)
        case Err(e) => Err(e)
        case Ok(rewritten) => Ok(JObj(Put(doc.fields, EXPORTS_KEY, rewritten)))
  }

  /** An index key such as "0" or "12" never starts with "./fesm2022/". */
  lemma IndexKeyIsNotBundlePath(index: nat)
    ensures !StartsWith(NatToString(index), BUNDLE_PATH_PREFIX)
  {
    var key := NatToString(index);
    if |BUNDLE_PATH_PREFIX| <= |key| {
      assert key[..|BUNDLE_PATH_PREFIX|][0] == key[0] != '.';
    }
  }

  /** The side-effects step as written (lines 53-59), run on the array found
      at `packageJson.exports.sideEffects`. `for...in` binds `pattern` to the
      index keys "0", "1", ..., never to the elements, so the push is never
      reached and the array comes back as it was. */
  method ExtendSideEffects(sideEffects: seq<Json>) returns (extended: seq<Json>)
    ensures extended == sideEffects
  {
    extended := sideEffects;
    for index := 0 to |sideEffects|
      invariant extended == sideEffects
    {
      var pattern := NatToString(index);
      IndexKeyIsNotBundlePath(index);
      if !Contains(pattern, "*") && StartsWith(pattern, BUNDLE_PATH_PREFIX) {
        extended := extended + [JStr(LinkedName(pattern))];
      }
    }
  }

  /** The entries of a parsed value have distinct keys. */
  lemma EntriesDistinct(v: Json)
    requires WellFormed(v)
    ensures DistinctKeys(Entries(v))
  {
    var es := Entries(v);
    if v.JArr? || v.JStr? {
      forall i, j | 0 <= i < j < |es| ensures es[i].0 != es[j].0 {
        if es[i].0 == es[j].0 {
          NatToStringInjective(i, j);
        }
      }
    }
  }

  /** The entries of an array hold its elements in order, and each element
      is found under the decimal text of its index. */
  lemma IndexedEntriesLookup(elements: seq<Json>)
    ensures Values(IndexedEntries(elements)) == elements
    ensures forall i :: 0 <= i < |elements| ==> Get(IndexedEntries(elements), NatToString(i)) == Some(elements[i])
  {
    var es := IndexedEntries(elements);
    forall i | 0 <= i < |elements| ensures Get(es, NatToString(i)) == Some(elements[i]) {
      assert Keys(es)[i] == NatToString(i);
      var v := Get(es, NatToString(i)).value;
      var j :| 0 <= j < |es| && es[j] == (NatToString(i), v);
      NatToStringInjective(i, j);
    }
  }

  /** A property of a well-formed object is well formed. */
  lemma GetWellFormed(o: seq<Field>, k: string)
    requires forall i :: 0 <= i < |o| ==> WellFormed(o[i].1)
    requires Get(o, k).Some?
    ensures WellFormed(Get(o, k).value)
  {
    var i :| 0 <= i < |o| && o[i] == (k, Get(o, k).value);
  }

  /** The manifest task of lines 33-62: the `exports` assertion, the rewrite
      loop, the side-effects step, and the document handed to
      `JSON.stringify`. */
  method UpdateManifest(doc: Json) returns (r: Result<Json>)
    requires WellFormed(doc)
    ensures r == UpdatedManifest(doc)
  {
    if doc.JNull? {
      return Err(NullDocument);
    }
    var exports := ExportsOf(doc);
    if exports.None? || !Truthy(exports.value) {
      return Err(MissingExports);
    }
    var original := exports.value;
    GetWellFormed(doc.fields, EXPORTS_KEY);
    EntriesDistinct(original);
    var rewritten := RewriteEntries(Entries(original));
    if rewritten.Err? {
      return Err(rewritten.error);
    }
    var newExports := match original
      case JObj(_) => JObj(rewritten.value)
      case JArr(_) => JArr(Values(rewritten.value))
      case _ => original;
    assert RewrittenExports(original) == Ok(newExports);
    if newExports.JObj? {
      var sideEffects := Get(newExports.fields, SIDE_EFFECTS_KEY);
      if sideEffects.Some? && sideEffects.value.JArr? {
        var extended := ExtendSideEffects(sideEffects.value.items);
        PutSame(newExports.fields, SIDE_EFFECTS_KEY);
        newExports := JObj(Put(newExports.fields, SIDE_EFFECTS_KEY, JArr(extended)));
      }
    }
    r := Ok(JObj(Put(doc.fields, EXPORTS_KEY, newExports)));
  }
}
