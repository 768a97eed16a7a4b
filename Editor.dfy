/**
 * The two paths that write the dictionary from outside the engine: importing a JSON
 * object (`importDictFromJsonText`) and the editor's save button, which parses the
 * `key = translation` text; and the editor's entry counter.  Each builds its object in a
 * loop, as the functions of `Dictionary` describe, stores it and has the engine reload it.
 */
module Editor {
  import opened Wrappers
  import opened Strings
  import opened Json
  import opened Dictionary
  import opened Engine

  /** Building one more pair of a sequence. */
  lemma BuildStep(ps: seq<Option<Pair>>, i: nat)
    requires i < |ps|
    ensures Build(ps[..i + 1]) == if ps[i].None? then Build(ps[..i]) else Set(Build(ps[..i]), ps[i].value.0, Str(ps[i].value.1))
  {
    assert ps[..i + 1][..i] == ps[..i];
  }

  /** The pair an entry contributes, from its normalised key and trimmed value. */
  lemma ImportPairOf(e: (string, JsValue), src: string, dst: string)
    requires src == Lower(Trim(e.0)) && dst == Trim(ToStrOrEmpty(e.1))
    ensures ImportPair(e) == if src == "" || dst == "" then None else Some((src, dst))
  {
  }

  /** Counting one more cleaned entry. */
  lemma CountNewStep(cleaned: Entries, current: Entries, i: nat)
    requires i < |cleaned|
    ensures CountNew(cleaned[..i + 1], current) == CountNew(cleaned[..i], current) + (if cleaned[i].0 in Keys(current) then 0 else 1)
  {
    assert cleaned[..i + 1][..i] == cleaned[..i];
  }

  /** Counting one more editor line. */
  lemma CountLinesStep(ls: seq<string>, i: nat)
    requires i < |ls|
    ensures CountLines(ls[..i + 1]) == CountLines(ls[..i]) + (if EntryLine(ls[i]) then 1 else 0)
  {
    assert ls[..i + 1][..i] == ls[..i];
  }

  /** The loop building `cleaned`: every entry with a non-empty key and value, key normalised, value trimmed. */
  method CleanEntries(data: Entries) returns (cleaned: Entries)
    ensures cleaned == Clean(data)
  {
    cleaned := [];
    ghost var ps := ImportPairs(data);
    for i := 0 to |data|
      invariant cleaned == Build(ps[..i])
    {
      BuildStep(ps, i);
      var src := Lower(Trim(data[i].0));
      var dst := Trim(ToStrOrEmpty(data[i].1));
      ImportPairOf(data[i], src, dst);
      assert ps[i] == ImportPair(data[i]);
      if src == "" || dst == "" {
        continue;
      }
      cleaned := Set(cleaned, src, Str(dst));
    }
    assert ps[..|data|] == ps;
  }

  /** The loop counting, in merge mode, the cleaned keys that the stored object does not have. */
  method CountAdded(cleaned: Entries, current: Entries) returns (n: nat)
    requires DistinctKeys(cleaned)
    ensures n == |Keys(cleaned) - Keys(current)|
  {
    n := 0;
    for i := 0 to |cleaned|
      invariant n == CountNew(cleaned[..i], current)
    {
      CountNewStep(cleaned, current, i);
      if Find(current, cleaned[i].0) == -1 {
        n := n + 1;
      }
    }
    assert cleaned[..|cleaned|] == cleaned;
    CountNewSpec(cleaned, current);
  }

  /**
   * `importDictFromJsonText(jsonText, mode)`, given what `JSON.parse` made of the trimmed
   * text (None when it threw): the result is `Import`'s, and the store takes the new
   * object on success and is left alone on failure.
   */
  method ImportDictFromJsonText(core: Core, store: Store, parsed: Option<JsValue>, mode: string)
    returns (r: ImportResult)
    requires core.Inv()
    modifies store`dict, core`dict, core`enabled, core`applyScheduled, core`applyTimers
    ensures core.Inv()
    ensures r == Import(parsed, mode, StoredObject(old(store.dict))).0
    ensures r.Failed? ==> store.dict == old(store.dict) && unchanged(core)
    ensures r.Imported? ==>
              && store.dict == Import(parsed, mode, StoredObject(old(store.dict))).1
              && core.dict == LoadDict(StoredObject(store.dict)) && core.applyScheduled
              && core.enabled == EnabledOf(store.enabledFlag)
  {
    var m := ModeOf(mode);
    if parsed.None? {
      return Failed("Invalid JSON");
    }
    if !parsed.value.Object? {
      return Failed("JSON must be an object");
    }
    var cleaned := CleanEntries(parsed.value.entries);
    CleanSpec(parsed.value.entries);
    var current := StoredObject(store.dict);
    var added: nat;
    if m == Merge {
      added := CountAdded(cleaned, current);
      CountNewSpec(cleaned, current);
    } else {
      added := |cleaned|;
    }
    var next := if m == Merge then Spread(Spread([], current), cleaned) else cleaned;
    store.dict := Some(next);
    core.ApplyTranslations(store);
    r := Imported(added, m);
  }

  /** One line of the save button's loop: the pair `out[src] = dst` it assigns, if any. */
  method ParseEditorLine(line: string) returns (pair: Option<Pair>)
    ensures pair == ParseLine(line)
  {
    var l := Trim(line);
    if l == "" || l[0] == '#' {
      return None;
    }
    var idx := IndexOfChar(l, '=');
    if idx == -1 {
      return None;
    }
    var src := Lower(Trim(l[..idx]));
    var dst := Trim(l[idx + 1..]);
    if src == "" || dst == "" {
      return None;
    }
    pair := Some((src, dst));
  }

  /** The save button's loop over the editor's lines, building `out`. */
  method ParseEditorText(text: string) returns (out: Entries)
    ensures out == SaveObject(text)
  {
    out := [];
    var lines := SplitLines(text);
    ghost var ps := ParseLines(lines);
    for i := 0 to |lines|
      invariant out == Build(ps[..i])
    {
      BuildStep(ps, i);
      var pair := ParseEditorLine(lines[i]);
      if pair.Some? {
        out := Set(out, pair.value.0, Str(pair.value.1));
      }
    }
    assert ps[..|lines|] == ps;
  }

  /** The save button: the parsed object replaces the stored dictionary, which the engine reloads. */
  method SaveEditorText(core: Core, store: Store, text: string)
    requires core.Inv()
    modifies store`dict, core`dict, core`enabled, core`applyScheduled, core`applyTimers
    ensures core.Inv() && core.applyScheduled
    ensures store.dict == Some(SaveObject(text))
    ensures core.dict == LoadDict(SaveObject(text))
    ensures core.enabled == EnabledOf(store.enabledFlag)
  {
    var out := ParseEditorText(text);
    store.dict := Some(out);
    core.ApplyTranslations(store);
  }

  /** One line of `updateEntryCount`'s loop: whether it counts. */
  method IsEntryLine(line: string) returns (entry: bool)
    ensures entry == EntryLine(line)
  {
    var l := Trim(line);
    if l == "" || l[0] == '#' {
      return false;
    }
    var idx := IndexOfChar(l, '=');
    if idx == -1 {
      return false;
    }
    var left := Trim(l[..idx]);
    var right := Trim(l[idx + 1..]);
    entry := left != "" && right != "";
  }

  /** `updateEntryCount`: the number of lines with a non-empty key and translation around the first `=`. */
  method CountEntries(text: string) returns (n: nat)
    ensures n == EntryCount(text)
  {
    n := 0;
    var lines := SplitLines(text);
    for i := 0 to |lines|
      invariant n == CountLines(lines[..i])
    {
      CountLinesStep(lines, i);
      var entry := IsEntryLine(lines[i]);
      if entry {
        n := n + 1;
      }
    }
    assert lines[..|lines|] == lines;
  }
}
