/**
 * Parsed JSON values as the translator sees them, and plain JavaScript objects as
 * sequences of own entries in insertion order.  Only what the translator observes of a
 * value is kept: its truthiness and what `String(v)` makes of it.
 */
module Json {

  /**
   * A value produced by `JSON.parse`.  A number and an array are kept as the text
   * `String(v)` gives for them; an object as its own entries in enumeration order.
   */
  datatype JsValue =
    | Null
    | Bool(b: bool)
    | Number(text: string)
    | Str(s: string)
    | Array(text: string)
    | Object(entries: seq<(string, JsValue)>)

  /** The own entries of a plain object, in the order `Object.entries` lists them. */
  type Entries = seq<(string, JsValue)>

  /** JavaScript truthiness: `null`, `false`, `0` (and `-0`, printed "0") and `""` are falsy. */
  predicate Truthy(v: JsValue) {
    match v
    case Null => false
    case Bool(b) => b
    case Number(t) => t != "0"
    case Str(s) => s != ""
    case Array(_) => true
    case Object(_) => true
  }

  /** `String(v)`. */
  function ToStr(v: JsValue): string {
    match v
    case Null => "null"
    case Bool(b) => if b then "true" else "false"
    case Number(t) => t
    case Str(s) => s
    case Array(t) => t
    case Object(_) => "[object Object]"
  }

  /** `String(v || "")`: the text of a truthy value, the empty string for a falsy one. */
  function ToStrOrEmpty(v: JsValue): (r: string)
    ensures Truthy(v) ==> r == ToStr(v)
    ensures !Truthy(v) ==> r == ""
  {
    if Truthy(v) then ToStr(v) else ""
  }

  // ---------------------------------------------------------------------------
  // Objects as entry sequences
  // ---------------------------------------------------------------------------

  /** The own keys of an object. */
  function Keys(o: Entries): (ks: set<string>)
    ensures forall i :: 0 <= i < |o| ==> o[i].0 in ks
    ensures forall k :: k in ks ==> exists i :: 0 <= i < |o| && o[i].0 == k
  {
    if o == [] then {} else Keys(o[..|o| - 1]) + {o[|o| - 1].0}
  }

  /** Every key appears once, as in any JavaScript object. */
  predicate DistinctKeys(o: Entries) {
    forall i, j :: 0 <= i < j < |o| ==> o[i].0 != o[j].0
  }

  /** The object read as a map from key to value. */
  function ToMap(o: Entries): map<string, JsValue>
  {
    if o == [] then map[] else ToMap(o[..|o| - 1])[o[|o| - 1].0 := o[|o| - 1].1]
  }

  /** The position of key `k`, or -1. */
  function Find(o: Entries, k: string): (r: int)
    ensures r == -1 <==> k !in Keys(o)
    ensures r != -1 ==> 0 <= r < |o| && o[r].0 == k
  {
    if o == [] then -1
    else if o[|o| - 1].0 == k then |o| - 1
    else Find(o[..|o| - 1], k)
  }

  /**
   * The key whose assignment on a plain object reaches the `__proto__` accessor that
   * `Object.prototype` provides instead of creating an own property.
   */
  const ProtoKey: string := "__proto__"

  /**
   * `o[k] = v` on a plain object (one created by `{}`): an existing own key keeps its place
   * and takes the new value; a new key goes last, except `__proto__`, which goes to the
   * inherited accessor and never becomes an own key.
   */
  function Set(o: Entries, k: string, v: JsValue): Entries
  {
    var i := Find(o, k);
    if i != -1 then o[i := (k, v)]
    else if k == ProtoKey then o
    else o + [(k, v)]
  }

  /**
   * Defining an own data property, as a spread or `JSON.parse` does: an existing key keeps
   * its place and takes the new value; a new key, `__proto__` included, goes last.
   */
  function Define(o: Entries, k: string, v: JsValue): Entries
  {
    var i := Find(o, k);
    if i == -1 then o + [(k, v)] else o[i := (k, v)]
  }

  /** `{...a, ...b}` applied to `a`: the entries of `b` defined one by one onto `a`. */
  function Spread(a: Entries, b: Entries): Entries
  {
    if b == [] then a else Define(Spread(a, b[..|b| - 1]), b[|b| - 1].0, b[|b| - 1].1)
  }

  // ---------------------------------------------------------------------------
  // Lemmas
  // ---------------------------------------------------------------------------

  /** The keys of the map are the keys of the object. */
  lemma {:induction false} ToMapKeys(o: Entries)
    ensures ToMap(o).Keys == Keys(o)
  {
    if o != [] {
      ToMapKeys(o[..|o| - 1]);
    }
  }

  /** With distinct keys, each entry's value is what the map holds for its key. */
  lemma {:induction false} ToMapAt(o: Entries, i: int)
    requires DistinctKeys(o) && 0 <= i < |o|
    ensures o[i].0 in ToMap(o) && ToMap(o)[o[i].0] == o[i].1
  {
    var p := o[..|o| - 1];
    if i < |o| - 1 {
      assert p[i] == o[i];
      ToMapAt(p, i);
    }
  }

  /** Overwriting the entry at position `i`, which holds key `k`, updates the map at `k` only. */
  lemma {:induction false} ToMapUpdate(o: Entries, i: int, k: string, v: JsValue)
    requires DistinctKeys(o) && 0 <= i < |o| && o[i].0 == k
    ensures ToMap(o[i := (k, v)]) == ToMap(o)[k := v]
  {
    var o' := o[i := (k, v)];
    var p, p' := o[..|o| - 1], o'[..|o'| - 1];
    if i == |o| - 1 {
      assert p' == p;
    } else {
      assert p' == p[i := (k, v)];
      ToMapUpdate(p, i, k, v);
      assert o[|o| - 1].0 != k;
    }
  }

  /**
   * Assignment to a property: the map takes the new value and the key becomes an own key,
   * except that assigning a `__proto__` the object does not own changes nothing; the keys
   * stay distinct either way.
   */
  lemma SetSpec(o: Entries, k: string, v: JsValue)
    requires DistinctKeys(o)
    ensures k == ProtoKey && k !in Keys(o) ==> Set(o, k, v) == o
    ensures k != ProtoKey || k in Keys(o) ==>
              && ToMap(Set(o, k, v)) == ToMap(o)[k := v]
              && Keys(Set(o, k, v)) == Keys(o) + {k}
    ensures DistinctKeys(Set(o, k, v))
  {
    if k != ProtoKey || k in Keys(o) {
      assert Set(o, k, v) == Define(o, k, v);
      DefineSpec(o, k, v);
    }
  }

  /** Defining a property: the map takes the new value, and keys stay distinct. */
  lemma DefineSpec(o: Entries, k: string, v: JsValue)
    requires DistinctKeys(o)
    ensures ToMap(Define(o, k, v)) == ToMap(o)[k := v]
    ensures Keys(Define(o, k, v)) == Keys(o) + {k}
    ensures DistinctKeys(Define(o, k, v))
    ensures |Define(o, k, v)| == if k in Keys(o) then |o| else |o| + 1
  {
    var i := Find(o, k);
    if i == -1 {
      DefineNew(o, k, v);
    } else {
      DefineExisting(o, i, k, v);
    }
  }

  /** Defining a new key appends it. */
  lemma DefineNew(o: Entries, k: string, v: JsValue)
    requires DistinctKeys(o) && Find(o, k) == -1
    ensures ToMap(Define(o, k, v)) == ToMap(o)[k := v]
    ensures Keys(Define(o, k, v)) == Keys(o) + {k}
    ensures DistinctKeys(Define(o, k, v))
  {
    var o' := Define(o, k, v);
    assert o' == o + [(k, v)];
    assert o'[..|o'| - 1] == o;
  }

  /** Defining an existing key, at position `i`, replaces its value in place. */
  lemma DefineExisting(o: Entries, i: int, k: string, v: JsValue)
    requires DistinctKeys(o) && Find(o, k) == i != -1
    ensures ToMap(Define(o, k, v)) == ToMap(o)[k := v]
    ensures Keys(Define(o, k, v)) == Keys(o) + {k}
    ensures DistinctKeys(Define(o, k, v))
  {
    var o' := o[i := (k, v)];
    assert Define(o, k, v) == o';
    ToMapUpdate(o, i, k, v);
    ToMapKeys(o);
    ToMapKeys(o');
    var m := ToMap(o);
    assert ToMap(o').Keys == m.Keys + {k};
    ReplaceKeepsDistinct(o, i, k, v);
  }

  /** Replacing an entry by one with the same key keeps the keys distinct. */
  lemma ReplaceKeepsDistinct(o: Entries, i: int, k: string, v: JsValue)
    requires DistinctKeys(o) && 0 <= i < |o| && o[i].0 == k
    ensures DistinctKeys(o[i := (k, v)])
  {
    var o' := o[i := (k, v)];
    assert forall j :: 0 <= j < |o| ==> o'[j].0 == o[j].0;
  }

  /** Spreading `b` over `a` gives the map of `a` overridden by the map of `b`. */
  lemma {:induction false} SpreadSpec(a: Entries, b: Entries)
    requires DistinctKeys(a)
    ensures ToMap(Spread(a, b)) == ToMap(a) + ToMap(b)
    ensures DistinctKeys(Spread(a, b))
  {
    if b != [] {
      var p := b[..|b| - 1];
      var k, v := b[|b| - 1].0, b[|b| - 1].1;
      var s := Spread(a, p);
      SpreadSpec(a, p);
      DefineSpec(s, k, v);
      assert Spread(a, b) == Define(s, k, v);
      assert ToMap(b) == ToMap(p)[k := v];
      UnionUpdate(ToMap(a), ToMap(p), k, v);
    }
  }

  /** Updating a union updates its right operand. */
  lemma UnionUpdate<K, V>(m1: map<K, V>, m2: map<K, V>, k: K, v: V)
    ensures (m1 + m2)[k := v] == m1 + m2[k := v]
  {
  }

  /** The keys after a spread are the keys of both objects. */
  lemma SpreadKeys(a: Entries, b: Entries)
    requires DistinctKeys(a)
    ensures Keys(Spread(a, b)) == Keys(a) + Keys(b)
  {
    SpreadSpec(a, b);
    ToMapKeys(Spread(a, b));
    ToMapKeys(a);
    ToMapKeys(b);
  }

  /** An object with distinct keys has as many entries as its map has keys. */
  lemma {:induction false} DistinctSize(o: Entries)
    requires DistinctKeys(o)
    ensures |ToMap(o)| == |Keys(o)| == |o|
  {
    ToMapKeys(o);
    if o != [] {
      var p := o[..|o| - 1];
      DistinctSize(p);
      ToMapKeys(p);
      assert o[|o| - 1].0 !in Keys(p);
    }
  }
}
