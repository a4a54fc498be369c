/** A parsed JSON document as the JavaScript program sees it, with the
    object operations the manifest update uses: reading a property,
    assigning one, and spreading one object into another. An object is the
    sequence of its own properties in insertion order, which is the order
    `Object.entries`, spreading and `JSON.stringify` all follow for keys that
    are not array indices. */
module JsonValue {

  datatype Option<T> = None | Some(value: T)

  /** A value produced by `JSON.parse`. Numbers are integers in this model. */
  datatype Json =
    | JNull
    | JBool(b: bool)
    | JNum(n: int)
    | JStr(s: string)
    | JArr(items: seq<Json>)
    | JObj(fields: seq<Field>)

  /** One own property of an object: its key and its value */
  type Field = (string, Json)

  /** JavaScript truthiness: `null`, `false`, `0` and `""` are falsy;
      every array and every object is truthy. */
  predicate Truthy(v: Json) {
    match v
    case JNull => false
    case JBool(b) => b
    case JNum(n) => n != 0
    case JStr(s) => s != ""
    case JArr(_) => true
    case JObj(_) => true
  }

  /** The keys of an object, in order */
  function Keys(o: seq<Field>): (ks: seq<string>)
    ensures |ks| == |o|
    ensures forall i :: 0 <= i < |o| ==> ks[i] == o[i].0
  {
    if o == [] then [] else [o[0].0] + Keys(o[1..])
  }

  /** The values of an object (or the elements of an array seen as an object), in order */
  function Values(o: seq<Field>): (vs: seq<Json>)
    ensures |vs| == |o|
    ensures forall i :: 0 <= i < |o| ==> vs[i] == o[i].1
  {
    seq(|o|, i requires 0 <= i < |o| => o[i].1)
  }

  predicate DistinctKeys(o: seq<Field>) {
    forall i, j :: 0 <= i < j < |o| ==> o[i].0 != o[j].0
  }

  /** Every object in the value has distinct keys, as every value that
      `JSON.parse` returns does. */
  predicate WellFormed(v: Json) {
    match v
    case JArr(items) => forall i :: 0 <= i < |items| ==> WellFormed(items[i])
    case JObj(fields) => DistinctKeys(fields) && forall i :: 0 <= i < |fields| ==> WellFormed(fields[i].1)
    case _ => true
  }

  /** The property read `o[k]`; `None` stands for `undefined`. */
  function Get(o: seq<Field>, k: string): (r: Option<Json>)
    ensures r.Some? <==> k in Keys(o)
    ensures r.Some? ==> (k, r.value) in o
  {
    if o == [] then None
    else if o[0].0 == k then Some(o[0].1)
    else Get(o[1..], k)
  }

  /** The assignment `o[k] = v`: an existing key keeps its position and takes
      the new value, a new key is added last. */
  function Put(o: seq<Field>, k: string, v: Json): (r: seq<Field>)
    ensures Get(r, k) == Some(v)
    ensures forall k' :: k' != k ==> Get(r, k') == Get(o, k')
  {
    if o == [] then [(k, v)]
    else if o[0].0 == k then [(k, v)] + o[1..]
    else [o[0]] + Put(o[1..], k, v)
  }

  /** The properties of `o` other than `k`, in their order */
  function Without(o: seq<Field>, k: string): (r: seq<Field>)
    ensures Get(r, k) == None
    ensures forall k' :: k' != k ==> Get(r, k') == Get(o, k')
    ensures k !in Keys(o) ==> r == o
  {
    if o == [] then []
    else if o[0].0 == k then Without(o[1..], k)
    else [o[0]] + Without(o[1..], k)
  }

  /** Dropping a key from an object with distinct keys leaves distinct keys
      and one property fewer. */
  lemma {:induction false} WithoutDistinct(o: seq<Field>, k: string)
    requires DistinctKeys(o)
    ensures DistinctKeys(Without(o, k))
    ensures k in Keys(o) ==> |Without(o, k)| == |o| - 1
  {
    if o != [] {
      TailDistinct(o);
      WithoutDistinct(o[1..], k);
      if o[0].0 == k {
        assert Without(o[1..], k) == o[1..];
      } else {
        var rest := Without(o[1..], k);
        assert Get(rest, o[0].0) == None;
        ConsDistinct(o[0], rest);
        assert k in Keys(o[1..]) <== k in Keys(o);
      }
    }
  }

  /** Dropping the first property of an object with distinct keys leaves
      distinct keys, none of them the dropped one. */
  lemma TailDistinct(o: seq<Field>)
    requires o != [] && DistinctKeys(o)
    ensures DistinctKeys(o[1..]) && o[0].0 !in Keys(o[1..])
  {
    forall i | 0 <= i < |o| - 1 ensures o[1..][i].0 != o[0].0 {
      assert o[1..][i] == o[i + 1];
    }
  }

  /** A property whose key is new may be put in front. */
  lemma ConsDistinct(f: Field, o: seq<Field>)
    requires DistinctKeys(o) && f.0 !in Keys(o)
    ensures DistinctKeys([f] + o)
  {
    forall i, j | 0 <= i < j < |o| + 1 ensures ([f] + o)[i].0 != ([f] + o)[j].0 {
      if i == 0 {
        assert ([f] + o)[j] == o[j - 1] && Keys(o)[j - 1] == o[j - 1].0;
      } else {
        assert ([f] + o)[i] == o[i - 1] && ([f] + o)[j] == o[j - 1];
      }
    }
  }

  /** The object literal `{ ...target-properties, ...src }`: each own property
      of `src` is assigned in turn onto the properties already written. */
  function Spread(target: seq<Field>, src: seq<Field>): seq<Field>
    decreases |src|
  {
    if src == [] then target
    else Spread(Put(target, src[0].0, src[0].1), src[1..])
  }

  /** Assigning a key that is not there appends it. */
  lemma {:induction false} PutNewKey(o: seq<Field>, k: string, v: Json)
    requires k !in Keys(o)
    ensures Put(o, k, v) == o + [(k, v)]
  {
    if o != [] {
      var head, rest := o[0], o[1..];
      assert o == [head] + rest;
      assert head.0 != k && Get(rest, k) == None by {
        assert Get(o, k) == None;
      }
      PutNewKey(rest, k, v);
      PutPastHead(head, rest, k, v);
      ConsAppend(head, rest, (k, v));
    }
  }

  lemma PutPastHead(head: Field, rest: seq<Field>, k: string, v: Json)
    requires head.0 != k
    ensures Put([head] + rest, k, v) == [head] + Put(rest, k, v)
  {
    assert ([head] + rest)[1..] == rest;
  }

  lemma ConsAppend<T>(head: T, rest: seq<T>, last: T)
    ensures [head] + (rest + [last]) == ([head] + rest) + [last]
  {
  }

  /** Assigning the key at position `i` of an object with distinct keys
      changes that value and nothing else. */
  lemma {:induction false} PutAt(o: seq<Field>, i: nat, v: Json)
    requires DistinctKeys(o) && i < |o|
    ensures Put(o, o[i].0, v) == o[i := (o[i].0, v)]
  {
    var k := o[i].0;
    if i == 0 {
      UpdateFirst(o, (k, v));
    } else {
      TailDistinct(o);
      PutAt(o[1..], i - 1, v);
      UpdateLater(o, i, (k, v));
      PutPastHead(o[0], o[1..], k, v);
    }
  }

  lemma UpdateFirst<T>(s: seq<T>, x: T)
    requires |s| > 0
    ensures [x] + s[1..] == s[0 := x]
  {
  }

  lemma UpdateLater<T>(s: seq<T>, i: nat, x: T)
    requires 0 < i < |s|
    ensures s == [s[0]] + s[1..]
    ensures s[1..][i - 1] == s[i]
    ensures [s[0]] + s[1..][i - 1 := x] == s[i := x]
  {
  }

  /** Assigning an existing key of an object with distinct keys keeps the
      keys and their order. */
  lemma PutKeepsKeys(o: seq<Field>, k: string, v: Json)
    requires DistinctKeys(o) && k in Keys(o)
    ensures Keys(Put(o, k, v)) == Keys(o)
  {
    var i :| 0 <= i < |o| && Keys(o)[i] == k;
    PutAt(o, i, v);
    KeysAfterUpdate(o, i, v);
  }

  lemma KeysAfterUpdate(o: seq<Field>, i: int, v: Json)
    requires 0 <= i < |o|
    ensures Keys(o[i := (o[i].0, v)]) == Keys(o)
  {
    var after := o[i := (o[i].0, v)];
    assert |Keys(after)| == |Keys(o)|;
    forall j | 0 <= j < |o| ensures Keys(after)[j] == Keys(o)[j] {
    }
  }

  /** Assigning a key the value it already has leaves the object as it is. */
  lemma {:induction false} PutSame(o: seq<Field>, k: string)
    requires k in Keys(o)
    ensures Put(o, k, Get(o, k).value) == o
  {
    if o[0].0 != k {
      assert Keys(o) == [o[0].0] + Keys(o[1..]);
      PutSame(o[1..], k);
    }
  }

  /** What spreading produces after a first property `(n, w)` and further
      properties `a` that `src` does not share: `n` stays first and takes the
      value `src` gives it, if any; `a` follows, and then the properties of
      `src` other than `n`, in their order. */
  lemma {:induction false} SpreadAfterHead(n: string, w: Json, a: seq<Field>, src: seq<Field>)
    requires DistinctKeys(src)
    requires n !in Keys(a)
    requires forall k :: k in Keys(a) ==> k !in Keys(src)
    ensures Spread([(n, w)] + a, src)
         == [(n, if Get(src, n).Some? then Get(src, n).value else w)] + a + Without(src, n)
    decreases |src|, 1
  {
    if src != [] {
      var k, x, rest := src[0].0, src[0].1, src[1..];
      assert Keys(src) == [k] + Keys(rest);
      assert DistinctKeys(rest) by {
        forall i, j | 0 <= i < j < |rest| ensures rest[i].0 != rest[j].0 {
          assert rest[i] == src[i + 1] && rest[j] == src[j + 1];
        }
      }
      assert k !in Keys(rest) by {
        forall i | 0 <= i < |rest| ensures Keys(rest)[i] != k {
          assert src[i + 1] == rest[i];
        }
      }
      assert Spread([(n, w)] + a, src) == Spread(Put([(n, w)] + a, k, x), rest);
      if k == n {
        SpreadHeadKey(n, w, x, a, rest);
      } else {
        SpreadOtherKey(n, w, k, x, a, rest);
      }
    }
  }

  /** Spreading `src` after the single property `(n, w)`. */
  lemma SpreadAfterOne(n: string, w: Json, src: seq<Field>)
    requires DistinctKeys(src)
    ensures Spread([(n, w)], src)
         == [(n, if Get(src, n).Some? then Get(src, n).value else w)] + Without(src, n)
  {
    SpreadAfterHead(n, w, [], src);
    AppendNothing([(n, w)], []);
    AppendNothing([(n, if Get(src, n).Some? then Get(src, n).value else w)], Without(src, n));
  }

  lemma AppendNothing<T>(s: seq<T>, t: seq<T>)
    ensures s + [] + t == s + t
  {
  }

  lemma {:induction false} SpreadHeadKey(n: string, w: Json, x: Json, a: seq<Field>, rest: seq<Field>)
    requires DistinctKeys(rest)
    requires n !in Keys(a) && n !in Keys(rest)
    requires forall k :: k in Keys(a) ==> k !in Keys(rest)
    ensures Spread(Put([(n, w)] + a, n, x), rest) == [(n, x)] + a + Without([(n, x)] + rest, n)
    decreases |rest| + 1, 0
  {
    assert Put([(n, w)] + a, n, x) == [(n, x)] + a;
    SpreadAfterHead(n, x, a, rest);
    assert Get(rest, n) == None;
    assert Without(rest, n) == rest;
    assert Without([(n, x)] + rest, n) == Without(rest, n);
  }

  lemma {:induction false} SpreadOtherKey(n: string, w: Json, k: string, x: Json, a: seq<Field>, rest: seq<Field>)
    requires DistinctKeys(rest)
    requires n !in Keys(a) && k != n && k !in Keys(rest)
    requires k !in Keys(a)
    requires forall key :: key in Keys(a) ==> key !in Keys(rest)
    ensures Spread(Put([(n, w)] + a, k, x), rest)
         == [(n, if Get(rest, n).Some? then Get(rest, n).value else w)] + a + Without([(k, x)] + rest, n)
    decreases |rest| + 1, 0
  {
    var a' := a + [(k, x)];
    AppendNewKey(n, w, k, x, a, rest);
    SpreadAfterHead(n, w, a', rest);
    var head := (n, if Get(rest, n).Some? then Get(rest, n).value else w);
    var tail := Without(rest, n);
    assert Without([(k, x)] + rest, n) == [(k, x)] + tail;
    Regroup([head], a, [(k, x)], tail);
  }

  /** Helper for SpreadOtherKey: the assignment of a new key `k` after the
      head, and the conditions under which spreading may continue. */
  lemma AppendNewKey(n: string, w: Json, k: string, x: Json, a: seq<Field>, rest: seq<Field>)
    requires n !in Keys(a) && k != n && k !in Keys(rest) && k !in Keys(a)
    requires forall key :: key in Keys(a) ==> key !in Keys(rest)
    ensures Put([(n, w)] + a, k, x) == [(n, w)] + (a + [(k, x)])
    ensures n !in Keys(a + [(k, x)])
    ensures forall key :: key in Keys(a + [(k, x)]) ==> key !in Keys(rest)
  {
    assert Put([(n, w)] + a, k, x) == [(n, w)] + Put(a, k, x);
    PutNewKey(a, k, x);
    KeysAppend(a, (k, x));
  }

  lemma KeysAppend(a: seq<Field>, f: Field)
    ensures Keys(a + [f]) == Keys(a) + [f.0]
  {
    assert |Keys(a + [f])| == |Keys(a) + [f.0]|;
    forall i | 0 <= i < |a| + 1 ensures Keys(a + [f])[i] == (Keys(a) + [f.0])[i] {
    }
  }

  lemma Regroup<T>(p: seq<T>, q: seq<T>, r: seq<T>, s: seq<T>)
    ensures p + (q + r) + s == p + q + (r + s)
  {
  }
}
