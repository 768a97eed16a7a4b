/**
 * The three ways the translator turns raw key/value material into a dictionary:
 * `loadDictFromStorage` (stored object to live map), `importDictFromJsonText` (imported
 * object to a cleaned object, merged or replacing the stored one) and the editor's save
 * button (`key = translation` lines to an object), with the editor's entry counter.
 *
 * All three drop pairs with an empty key or value, store keys trimmed and lower-cased,
 * and let a later pair overwrite an earlier one with the same key.  Each is written as
 * "which pair, if any, does this item contribute" followed by a last-wins collection.
 */
module Dictionary {
  import opened Wrappers
  import opened Strings
  import opened Json

  /** A normalised key and its translation. */
  type Pair = (string, string)

  // ---------------------------------------------------------------------------
  // Last-wins collection
  // ---------------------------------------------------------------------------

  /** The map built by setting each contributed pair in turn. */
  function Collect(ps: seq<Option<Pair>>): map<string, string>
  {
    if ps == [] then map[]
    else
      var m := Collect(ps[..|ps| - 1]);
      match ps[|ps| - 1]
      case None => m
      case Some(p) => m[p.0 := p.1]
  }

  /** Collecting one more item. */
  lemma CollectStep(ps: seq<Option<Pair>>, i: nat)
    requires i < |ps|
    ensures Collect(ps[..i + 1]) ==
            if ps[i].None? then Collect(ps[..i]) else Collect(ps[..i])[ps[i].value.0 := ps[i].value.1]
  {
    assert ps[..i + 1][..i] == ps[..i];
  }

  /** Item `i` contributes a pair for key `k`. */
  predicate Defines(ps: seq<Option<Pair>>, i: int, k: string)
    requires 0 <= i < |ps|
  {
    ps[i].Some? && ps[i].value.0 == k
  }

  /**
   * A key is in the collected map exactly when some item contributes it, and then it holds
   * the value of the last item that does.
   */
  lemma {:induction false} CollectLastWins(ps: seq<Option<Pair>>, k: string)
    ensures k in Collect(ps) <==> exists i :: 0 <= i < |ps| && Defines(ps, i, k)
    ensures k in Collect(ps) ==>
              exists i :: 0 <= i < |ps| && Defines(ps, i, k) && Collect(ps)[k] == ps[i].value.1 &&
                          forall j :: i < j < |ps| ==> !Defines(ps, j, k)
  {
    if ps != [] {
      var n := |ps| - 1;
      var q := ps[..n];
      CollectLastWins(q, k);
      DefinesPrefix(ps, k);
      if Defines(ps, n, k) {
        assert Collect(ps)[k] == ps[n].value.1;
      } else {
        KeptByOther(ps, k);
        if k in Collect(q) {
          var i :| 0 <= i < n && Defines(q, i, k) && Collect(q)[k] == q[i].value.1 &&
                   forall j :: i < j < n ==> !Defines(q, j, k);
          assert Defines(ps, i, k) && Collect(ps)[k] == ps[i].value.1;
        }
      }
    }
  }

  /** The items before the last define a key in the prefix exactly as in the whole sequence. */
  lemma DefinesPrefix(ps: seq<Option<Pair>>, k: string)
    requires ps != []
    ensures forall i :: 0 <= i < |ps| - 1 ==> (Defines(ps[..|ps| - 1], i, k) <==> Defines(ps, i, k))
  {
  }

  /** A last item that does not define `k` leaves its entry as the prefix had it. */
  lemma KeptByOther(ps: seq<Option<Pair>>, k: string)
    requires ps != [] && !Defines(ps, |ps| - 1, k)
    ensures (k in Collect(ps)) == (k in Collect(ps[..|ps| - 1]))
    ensures k in Collect(ps) ==> Collect(ps)[k] == Collect(ps[..|ps| - 1])[k]
  {
  }

  /** Every collected key is a normal form when every contributed key is. */
  lemma {:induction false} CollectKeys(ps: seq<Option<Pair>>, P: string -> bool)
    requires forall i :: 0 <= i < |ps| && ps[i].Some? ==> P(ps[i].value.0)
    ensures forall k :: k in Collect(ps) ==> P(k)
  {
    if ps != [] {
      CollectKeys(ps[..|ps| - 1], P);
    }
  }

  /** At most one key per contributing item. */
  lemma {:induction false} CollectSize(ps: seq<Option<Pair>>)
    ensures |Collect(ps)| <= |ps|
  {
    if ps != [] {
      CollectSize(ps[..|ps| - 1]);
    }
  }

  /** A key as every builder stores it: trimmed, then lower-cased. */
  function NormalKey(k: string): string
  {
    Lower(Trim(k))
  }

  /** A normal key is its own normal form. */
  predicate IsNormal(k: string) {
    Trim(k) == k && Lower(k) == k
  }

  lemma NormalKeyIsNormal(k: string)
    ensures IsNormal(NormalKey(k))
  {
    LowerOfTrimmedIsTrimmed(k);
    LowerIdempotent(Trim(k));
  }

  // ---------------------------------------------------------------------------
  // loadDictFromStorage: stored object to live map
  // ---------------------------------------------------------------------------

  /** One entry of the stored object: skipped when `!k || !v`, otherwise a normal key and `String(v)` as is. */
  function LoadPair(e: (string, JsValue)): Option<Pair>
  {
    if e.0 == "" || !Truthy(e.1) then None else Some((NormalKey(e.0), ToStr(e.1)))
  }

  /** `LoadPair` of every entry. */
  function LoadPairs(o: Entries): seq<Option<Pair>>
  {
    seq(|o|, i requires 0 <= i < |o| => LoadPair(o[i]))
  }

  /** The live dictionary `loadDictFromStorage` builds from a stored object. */
  function LoadDict(o: Entries): map<string, string>
  {
    Collect(LoadPairs(o))
  }

  /** Entry `i` of a stored object provides the live key `k`. */
  predicate Loads(o: Entries, i: int, k: string)
    requires 0 <= i < |o|
  {
    o[i].0 != "" && Truthy(o[i].1) && NormalKey(o[i].0) == k
  }

  /**
   * The load path: a key is live exactly when some entry with a non-empty key and a truthy
   * value normalises to it; its translation is `String(v)` of the last such entry, untrimmed;
   * every live key is trimmed and lower-cased.
   */
  lemma LoadDictSpec(o: Entries, k: string)
    ensures k in LoadDict(o) <==> exists i :: 0 <= i < |o| && Loads(o, i, k)
    ensures k in LoadDict(o) ==>
              exists i :: 0 <= i < |o| && Loads(o, i, k) && LoadDict(o)[k] == ToStr(o[i].1) &&
                          forall j :: i < j < |o| ==> !Loads(o, j, k)
    ensures k in LoadDict(o) ==> IsNormal(k)
  {
    var ps := LoadPairs(o);
    assert forall i :: 0 <= i < |o| ==> (Defines(ps, i, k) <==> Loads(o, i, k));
    CollectLastWins(ps, k);
    if k in LoadDict(o) {
      var i :| 0 <= i < |ps| && Defines(ps, i, k);
      NormalKeyIsNormal(o[i].0);
    }
  }

  // ---------------------------------------------------------------------------
  // Objects built by assignment: `out[src] = dst`
  // ---------------------------------------------------------------------------

  /** The object built by assigning each contributed pair in turn, values as strings. */
  function Build(ps: seq<Option<Pair>>): Entries
  {
    if ps == [] then []
    else
      var o := Build(ps[..|ps| - 1]);
      match ps[|ps| - 1]
      case None => o
      case Some(p) => Set(o, p.0, Str(p.1))
  }

  /** A string map read as an object's map of string values. */
  function AsValues(m: map<string, string>): map<string, JsValue>
  {
    map k | k in m :: Str(m[k])
  }

  /** The built object has distinct keys, `__proto__` never among them ... */
  lemma {:induction false} BuildDistinct(ps: seq<Option<Pair>>)
    ensures DistinctKeys(Build(ps))
    ensures ProtoKey !in Keys(Build(ps))
  {
    if ps != [] {
      var q := ps[..|ps| - 1];
      BuildDistinct(q);
      if ps[|ps| - 1].Some? {
        var p := ps[|ps| - 1].value;
        SetSpec(Build(q), p.0, Str(p.1));
      }
    }
  }

  /** ... and holds the last-wins map of the pairs, less a `__proto__` key ... */
  lemma {:induction false} BuildMap(ps: seq<Option<Pair>>)
    ensures ToMap(Build(ps)) == AsValues(Collect(ps) - {ProtoKey})
  {
    if ps != [] {
      var q := ps[..|ps| - 1];
      BuildMap(q);
      BuildDistinct(q);
      var o := Build(q);
      match ps[|ps| - 1]
      case None =>
        assert Build(ps) == o && Collect(ps) == Collect(q);
      case Some(p) =>
        assert Build(ps) == Set(o, p.0, Str(p.1));
        assert Collect(ps) == Collect(q)[p.0 := p.1];
        BuildMapStep(o, Collect(q), p.0, p.1);
    }
  }

  /** Assigning one more pair to a built object updates its map, unless the key is `__proto__`. */
  lemma BuildMapStep(o: Entries, m: map<string, string>, k: string, v: string)
    requires DistinctKeys(o) && ProtoKey !in Keys(o) && ToMap(o) == AsValues(m - {ProtoKey})
    ensures ToMap(Set(o, k, Str(v))) == AsValues(m[k := v] - {ProtoKey})
  {
    SetSpec(o, k, Str(v));
    if k == ProtoKey {
      MinusUpdated(m, k, v);
    } else {
      MinusUpdate(m, k, v);
      AsValuesUpdate(m - {ProtoKey}, k, v);
    }
  }

  lemma MinusUpdated(m: map<string, string>, k: string, v: string)
    requires k == ProtoKey
    ensures m[k := v] - {ProtoKey} == m - {ProtoKey}
  {
  }

  lemma MinusUpdate(m: map<string, string>, k: string, v: string)
    requires k != ProtoKey
    ensures m[k := v] - {ProtoKey} == (m - {ProtoKey})[k := v]
  {
  }

  lemma AsValuesUpdate(m: map<string, string>, k: string, v: string)
    ensures AsValues(m[k := v]) == AsValues(m)[k := Str(v)]
  {
  }

  /** ... and as many entries as that map has keys. */
  lemma BuildSpec(ps: seq<Option<Pair>>)
    ensures DistinctKeys(Build(ps))
    ensures ToMap(Build(ps)) == AsValues(Collect(ps) - {ProtoKey})
    ensures Keys(Build(ps)) == Collect(ps).Keys - {ProtoKey}
    ensures |Build(ps)| == |Collect(ps).Keys - {ProtoKey}|
  {
    BuildDistinct(ps);
    BuildMap(ps);
    ToMapKeys(Build(ps));
    DistinctSize(Build(ps));
    assert AsValues(Collect(ps) - {ProtoKey}).Keys == Collect(ps).Keys - {ProtoKey};
  }

  // ---------------------------------------------------------------------------
  // importDictFromJsonText: cleaning, counting, merging
  // ---------------------------------------------------------------------------

  /** One imported entry: the key trimmed and lower-cased, `String(v || "")` trimmed; skipped if either is empty. */
  function ImportPair(e: (string, JsValue)): Option<Pair>
  {
    var src := NormalKey(e.0);
    var dst := Trim(ToStrOrEmpty(e.1));
    if src == "" || dst == "" then None else Some((src, dst))
  }

  function ImportPairs(o: Entries): seq<Option<Pair>>
  {
    seq(|o|, i requires 0 <= i < |o| => ImportPair(o[i]))
  }

  /** The object `cleaned`. */
  function Clean(data: Entries): Entries
  {
    Build(ImportPairs(data))
  }

  /** Every cleaned key is normal and every cleaned value is a non-empty trimmed string. */
  lemma CleanSpec(data: Entries)
    ensures DistinctKeys(Clean(data))
    ensures forall i :: 0 <= i < |Clean(data)| ==>
              IsNormal(Clean(data)[i].0) && Clean(data)[i].0 != "" &&
              Clean(data)[i].1.Str? && Clean(data)[i].1.s != "" && Trim(Clean(data)[i].1.s) == Clean(data)[i].1.s
  {
    BuildSpec(ImportPairs(data));
    forall i | 0 <= i < |Clean(data)|
      ensures IsNormal(Clean(data)[i].0) && Clean(data)[i].0 != "" &&
              Clean(data)[i].1.Str? && Clean(data)[i].1.s != "" && Trim(Clean(data)[i].1.s) == Clean(data)[i].1.s
    {
      CleanAt(data, i);
    }
  }

  /** One entry of `cleaned` comes from some entry of the data, which makes it normal and trimmed. */
  lemma CleanAt(data: Entries, i: nat)
    requires i < |Clean(data)|
    ensures IsNormal(Clean(data)[i].0) && Clean(data)[i].0 != ""
    ensures Clean(data)[i].1.Str? && Clean(data)[i].1.s != "" && Trim(Clean(data)[i].1.s) == Clean(data)[i].1.s
  {
    var ps := ImportPairs(data);
    var c := Clean(data);
    BuildSpec(ps);
    ToMapAt(c, i);
    var k := c[i].0;
    assert k in Keys(c);
    CollectLastWins(ps, k);
    var j :| 0 <= j < |ps| && Defines(ps, j, k) && Collect(ps)[k] == ps[j].value.1;
    ImportPairSpec(data[j]);
  }

  /** A pair an entry contributes has a normal non-empty key and a non-empty trimmed value. */
  lemma ImportPairSpec(e: (string, JsValue))
    requires ImportPair(e).Some?
    ensures IsNormal(ImportPair(e).value.0) && ImportPair(e).value.0 != ""
    ensures ImportPair(e).value.1 != "" && Trim(ImportPair(e).value.1) == ImportPair(e).value.1
  {
    NormalKeyIsNormal(e.0);
    TrimIdempotent(ToStrOrEmpty(e.1));
  }

  /** The keys of `cleaned`, in order, that `current` does not have as own keys. */
  function CountNew(cleaned: Entries, current: Entries): nat
  {
    if cleaned == [] then 0
    else CountNew(cleaned[..|cleaned| - 1], current) + (if cleaned[|cleaned| - 1].0 in Keys(current) then 0 else 1)
  }

  /** With distinct keys in `cleaned`, the count is the number of keys new to `current`. */
  lemma {:induction false} CountNewSpec(cleaned: Entries, current: Entries)
    requires DistinctKeys(cleaned)
    ensures CountNew(cleaned, current) == |Keys(cleaned) - Keys(current)|
  {
    if cleaned != [] {
      var n := |cleaned| - 1;
      var q := cleaned[..n];
      var k := cleaned[n].0;
      CountNewSpec(q, current);
      assert k !in Keys(q);
      assert Keys(cleaned) == Keys(q) + {k};
      NewKeysStep(Keys(q), Keys(current), k);
    }
  }

  /** Adding a fresh key to a set adds one to its difference with `b` exactly when `b` lacks it. */
  lemma NewKeysStep<T>(a: set<T>, b: set<T>, k: T)
    requires k !in a
    ensures |(a + {k}) - b| == |a - b| + (if k in b then 0 else 1)
  {
    if k in b {
      assert (a + {k}) - b == a - b;
    } else {
      assert (a + {k}) - b == (a - b) + {k};
    }
  }

  /** `mode === "merge" ? "merge" : "replace"`. */
  datatype Mode = Replace | Merge

  function ModeOf(mode: string): Mode
  {
    if mode == "merge" then Merge else Replace
  }

  /** `{ ok: true, count, mode }` or `{ ok: false, error }`. */
  datatype ImportResult = Imported(count: nat, mode: Mode) | Failed(error: string)

  /** The object stored after a successful import. */
  function NextObject(mode: Mode, cleaned: Entries, current: Entries): Entries
  {
    match mode
    case Merge => Spread(Spread([], current), cleaned)
    case Replace => cleaned
  }

  /** The `count` a successful import reports. */
  function AddedCount(mode: Mode, cleaned: Entries, current: Entries): nat
  {
    match mode
    case Merge => CountNew(cleaned, current)
    case Replace => |cleaned|
  }

  /**
   * The outcome of an import of `parsed` (None when `JSON.parse` threw) over the stored
   * object `current`: the result object and, on success, the object to store.
   */
  function Import(parsed: Option<JsValue>, mode: string, current: Entries): (ImportResult, Option<Entries>)
  {
    match parsed
    case None => (Failed("Invalid JSON"), None)
    case Some(v) =>
      if !v.Object? then (Failed("JSON must be an object"), None)
      else
        var m := ModeOf(mode);
        var cleaned := Clean(v.entries);
        (Imported(AddedCount(m, cleaned, current), m), Some(NextObject(m, cleaned, current)))
  }

  /** Only a parsed plain object is accepted; anything else fails and stores nothing. */
  lemma ImportRejects(parsed: Option<JsValue>, mode: string, current: Entries)
    ensures Import(parsed, mode, current).0.Failed? <==> !(parsed.Some? && parsed.value.Object?)
    ensures Import(parsed, mode, current).0.Failed? <==> Import(parsed, mode, current).1.None?
    ensures parsed.None? ==> Import(parsed, mode, current).0.error == "Invalid JSON"
    ensures parsed.Some? && !parsed.value.Object? ==> Import(parsed, mode, current).0.error == "JSON must be an object"
  {
  }

  /** `{...current, ...cleaned}` holds `current` overridden by `cleaned`, under the keys of both. */
  lemma MergedObject(cleaned: Entries, current: Entries)
    ensures var next := NextObject(Merge, cleaned, current);
            && ToMap(next) == ToMap(current) + ToMap(cleaned)
            && Keys(next) == Keys(current) + Keys(cleaned)
            && DistinctKeys(next)
  {
    var copy := Spread([], current);
    SpreadSpec([], current);
    SpreadKeys([], current);
    assert ToMap([]) + ToMap(current) == ToMap(current);
    assert Keys([]) + Keys(current) == Keys(current);
    SpreadSpec(copy, cleaned);
    SpreadKeys(copy, cleaned);
  }

  /**
   * Merge: the stored object becomes `current` overridden by `cleaned`, and the count is
   * the number of cleaned keys `current` did not have.
   */
  lemma ImportMerge(data: Entries, current: Entries)
    ensures var (r, next) := Import(Some(Object(data)), "merge", current);
            && r == Imported(|Keys(Clean(data)) - Keys(current)|, Merge)
            && next.Some?
            && ToMap(next.value) == ToMap(current) + ToMap(Clean(data))
            && Keys(next.value) == Keys(current) + Keys(Clean(data))
            && DistinctKeys(next.value)
  {
    var cleaned := Clean(data);
    CleanSpec(data);
    CountNewSpec(cleaned, current);
    MergedObject(cleaned, current);
    assert Import(Some(Object(data)), "merge", current) ==
           (Imported(CountNew(cleaned, current), Merge), Some(NextObject(Merge, cleaned, current)));
  }

  /** Replace: the stored object becomes `cleaned`, and the count is its number of keys. */
  lemma ImportReplace(data: Entries, mode: string, current: Entries)
    requires mode != "merge"
    ensures var (r, next) := Import(Some(Object(data)), mode, current);
            && r == Imported(|Keys(Clean(data))|, Replace)
            && next == Some(Clean(data))
  {
    CleanSpec(data);
    DistinctSize(Clean(data));
  }

  // ---------------------------------------------------------------------------
  // The editor's `key = translation` text
  // ---------------------------------------------------------------------------

  /** The trimmed line is a comment or blank. */
  predicate Skipped(l: string) {
    l == "" || l[0] == '#'
  }

  /** One line of the save handler's loop: the pair it assigns, if any. */
  function ParseLine(line: string): Option<Pair>
  {
    var l := Trim(line);
    if Skipped(l) then None
    else
      var idx := IndexOfChar(l, '=');
      if idx == -1 then None
      else
        var src := Lower(Trim(l[..idx]));
        var dst := Trim(l[idx + 1..]);
        if src == "" || dst == "" then None else Some((src, dst))
  }

  /** One line of the loop of `updateEntryCount`: whether it is counted. */
  predicate EntryLine(line: string) {
    var l := Trim(line);
    if Skipped(l) then false
    else
      var idx := IndexOfChar(l, '=');
      idx != -1 && Trim(l[..idx]) != "" && Trim(l[idx + 1..]) != ""
  }

  function ParseLines(ls: seq<string>): seq<Option<Pair>>
  {
    seq(|ls|, i requires 0 <= i < |ls| => ParseLine(ls[i]))
  }

  /** The object `out` the save button stores for the editor text. */
  function SaveObject(text: string): Entries
  {
    Build(ParseLines(SplitLines(text)))
  }

  /** The number of counted lines among `ls`. */
  function CountLines(ls: seq<string>): nat
  {
    if ls == [] then 0 else CountLines(ls[..|ls| - 1]) + (if EntryLine(ls[|ls| - 1]) then 1 else 0)
  }

  /** The `n` that `updateEntryCount` shows for the editor text. */
  function EntryCount(text: string): nat
  {
    CountLines(SplitLines(text))
  }

  /** The counter counts exactly the lines the save handler stores a pair for. */
  lemma EntryLineParses(line: string)
    ensures EntryLine(line) <==> ParseLine(line).Some?
  {
  }

  /**
   * A parsed pair is in normal form: the key trimmed and lower-cased, the translation
   * trimmed, both non-empty, the key free of `=` (the split is at the first `=`).
   */
  lemma ParseLineSpec(line: string)
    ensures ParseLine(line).Some? ==>
              var (k, v) := ParseLine(line).value;
              && k != "" && v != "" && IsNormal(k) && Trim(v) == v && '=' !in k
  {
    if ParseLine(line).Some? {
      var l := Trim(line);
      var idx := IndexOfChar(l, '=');
      var left := Trim(l[..idx]);
      NormalKeyIsNormal(l[..idx]);
      TrimIdempotent(l[idx + 1..]);
      assert '=' !in l[..idx];
      assert forall c :: c in left ==> c in l[..idx];
      assert forall c :: c in Lower(left) ==> c in left || 'A' <= c <= 'Z' || c == LowerChar(c) by {
        forall c | c in Lower(left) ensures c in left || 'A' <= c <= 'Z' || c == LowerChar(c) {
          var i :| 0 <= i < |Lower(left)| && Lower(left)[i] == c;
          assert c == LowerChar(left[i]);
        }
      }
      LowerNoEquals(left);
    }
  }

  /** Lower-casing does not create an `=`. */
  lemma LowerNoEquals(s: string)
    requires '=' !in s
    ensures '=' !in Lower(s)
  {
    forall i | 0 <= i < |s| ensures Lower(s)[i] != '=' {
      assert s[i] != '=';
    }
  }

  /** Every counted line contributes at most one key: the stored object has at most `n` keys. */
  lemma {:induction false} CountedBound(ls: seq<string>)
    ensures |Collect(ParseLines(ls))| <= CountLines(ls)
  {
    if ls != [] {
      var q := ls[..|ls| - 1];
      CountedBound(q);
      assert ParseLines(ls)[..|ls| - 1] == ParseLines(q);
      EntryLineParses(ls[|ls| - 1]);
    }
  }

  /**
   * The save path stores a key exactly when some line defines it and it is not `__proto__`,
   * with the translation of the last such line, and never stores more keys than the
   * counter shows.
   */
  lemma SaveObjectSpec(text: string, k: string)
    ensures var ps := ParseLines(SplitLines(text));
            && ToMap(SaveObject(text)) == AsValues(Collect(ps) - {ProtoKey})
            && DistinctKeys(SaveObject(text))
            && (k in Keys(SaveObject(text)) <==> k != ProtoKey && exists i :: 0 <= i < |ps| && Defines(ps, i, k))
    ensures |SaveObject(text)| <= EntryCount(text)
  {
    var ps := ParseLines(SplitLines(text));
    BuildSpec(ps);
    CollectLastWins(ps, k);
    SaveObjectBound(text);
  }

  /** The saved object has no more entries than the counter shows. */
  lemma SaveObjectBound(text: string)
    ensures |SaveObject(text)| <= EntryCount(text)
  {
    var ps := ParseLines(SplitLines(text));
    BuildSpec(ps);
    CountedBound(SplitLines(text));
    assert Collect(ps).Keys - {ProtoKey} <= Collect(ps).Keys;
    SubsetSize(Collect(ps).Keys - {ProtoKey}, Collect(ps).Keys);
  }

  lemma SubsetSize<T>(a: set<T>, b: set<T>)
    requires a <= b
    ensures |a| <= |b|
  {
    assert b == a + (b - a);
  }

  /** `__proto__` is a normal key that a save line can carry. */
  lemma ProtoKeyIsPlain()
    ensures ProtoKey != "" && IsNormal(ProtoKey) && ProtoKey[0] != '#' && '=' !in ProtoKey && '\n' !in ProtoKey
  {
    ProtoKeyChars();
    ProtoKeyTrimmed();
    ProtoKeyLower();
  }

  lemma ProtoKeyChars()
    ensures ProtoKey != "" && ProtoKey[0] != '#' && '=' !in ProtoKey && '\n' !in ProtoKey
  {
  }

  lemma ProtoKeyTrimmed()
    ensures Trim(ProtoKey) == ProtoKey
  {
    var k := ProtoKey;
    assert k[0] == '_' && k[|k| - 1] == '_';
    TrimOfTrimmed(k);
  }

  lemma ProtoKeyLower()
    ensures Lower(ProtoKey) == ProtoKey
  {
    LowerOfLower(ProtoKey);
  }

  /**
   * A `__proto__ = …` line is parsed like any other but stored as nothing: the save button
   * assigns it to the inherited accessor and stores `{}`.
   */
  lemma SaveProtoLine(v: string)
    requires v != "" && Trim(v) == v && '\n' !in v
    ensures SaveObject(ProtoKey + " = " + v) == []
  {
    var line := ProtoKey + " = " + v;
    ProtoKeyIsPlain();
    ParseLineRoundTrip(ProtoKey, v);
    NoLineFeed(ProtoKey, v);
    SaveOneLine(line, ProtoKey, v);
  }

  lemma NoLineFeed(k: string, v: string)
    requires '\n' !in k && '\n' !in v
    ensures '\n' !in k + " = " + v
  {
  }

  /** The save button on a single line assigns that line's pair to an empty object. */
  lemma SaveOneLine(line: string, k: string, v: string)
    requires '\n' !in line && ParseLine(line) == Some((k, v))
    ensures SaveObject(line) == Set([], k, Str(v))
  {
    assert JoinLines([line]) == line;
    SplitJoin([line]);
    var ps := ParseLines([line]);
    assert ps == [Some((k, v))];
    BuildOne(k, v);
  }

  /** An object built from one pair is that pair assigned to an empty object. */
  lemma BuildOne(k: string, v: string)
    ensures Build([Some((k, v))]) == Set([], k, Str(v))
  {
    assert [Some((k, v))][..0] == [];
  }

  /**
   * Importing `{"__proto__": v}` in replace mode stores `{}` and reports a count of 0,
   * since the own key that `JSON.parse` made is assigned to the accessor of `cleaned`.
   */
  lemma ImportProtoOnly(v: string, mode: string, current: Entries)
    requires Trim(v) != "" && mode != "merge"
    ensures Import(Some(Object([(ProtoKey, Str(v))])), mode, current) == (Imported(0, Replace), Some([]))
  {
    ProtoKeyIsPlain();
    CleanOneEntry(ProtoKey, v);
  }

  /** Cleaning a one-entry object with a normal key and a string value assigns the trimmed value to an empty object. */
  lemma CleanOneEntry(k: string, v: string)
    requires k != "" && IsNormal(k) && Trim(v) != ""
    ensures Clean([(k, Str(v))]) == Set([], k, Str(Trim(v)))
  {
    var ps := ImportPairs([(k, Str(v))]);
    assert v != "";
    NormalKeyOfNormal(k);
    assert ImportPair((k, Str(v))) == Some((k, Trim(v)));
    assert ps == [Some((k, Trim(v)))];
    BuildOne(k, Trim(v));
  }

  lemma NormalKeyOfNormal(k: string)
    requires IsNormal(k)
    ensures NormalKey(k) == k
  {
  }

  /** A line written as `key = translation` from a normal pair parses back to that pair. */
  lemma ParseLineRoundTrip(k: string, v: string)
    requires k != "" && IsNormal(k) && k[0] != '#' && '=' !in k
    requires v != "" && Trim(v) == v
    ensures ParseLine(k + " = " + v) == Some((k, v))
  {
    var line := k + " = " + v;
    TrimNonEmptyEnds(k);
    TrimNonEmptyEnds(v);
    LineIsTrimmed(k, v);
    assert !Skipped(line) by { assert line[0] == k[0]; }
    EqualsAfterKey(k, v);
    KeyHalf(k, v);
    ValueHalf(k, v);
    ParseLineParts(line, |k| + 1, k, v);
  }

  /** `ParseLine` of a line whose trimmed form, `=` position and two trimmed halves are known. */
  lemma ParseLineParts(line: string, idx: int, left: string, right: string)
    requires Trim(line) == line && !Skipped(line) && IndexOfChar(line, '=') == idx && 0 <= idx < |line|
    requires Trim(line[..idx]) == left && Trim(line[idx + 1..]) == right
    requires Lower(left) != "" && right != ""
    ensures ParseLine(line) == Some((Lower(left), right))
  {
  }

  lemma KeyHalf(k: string, v: string)
    requires k != "" && !IsSpace(k[0]) && !IsSpace(k[|k| - 1])
    ensures Trim((k + " = " + v)[..|k| + 1]) == k
  {
    assert (k + " = " + v)[..|k| + 1] == "" + k + " ";
    TrimPadded("", k, " ");
  }

  lemma ValueHalf(k: string, v: string)
    requires v != "" && !IsSpace(v[0]) && !IsSpace(v[|v| - 1])
    ensures Trim((k + " = " + v)[|k| + 2..]) == v
  {
    assert (k + " = " + v)[|k| + 2..] == " " + v + "";
    TrimPadded(" ", v, "");
  }

  lemma LineIsTrimmed(k: string, v: string)
    requires k != "" && !IsSpace(k[0]) && v != "" && !IsSpace(v[|v| - 1])
    ensures Trim(k + " = " + v) == k + " = " + v
  {
    var line := k + " = " + v;
    assert line[0] == k[0] && line[|line| - 1] == v[|v| - 1];
    TrimOfTrimmed(line);
  }

  lemma EqualsAfterKey(k: string, v: string)
    requires '=' !in k
    ensures IndexOfChar(k + " = " + v, '=') == |k| + 1
  {
    var line := k + " = " + v;
    assert line[..|k| + 1] == k + " ";
    assert line[|k| + 1] == '=';
  }

  /** A non-empty trimmed string neither starts nor ends with whitespace. */
  lemma TrimNonEmptyEnds(s: string)
    requires s != "" && Trim(s) == s
    ensures !IsSpace(s[0]) && !IsSpace(s[|s| - 1])
  {
  }
}
