/**
 * The pure part of the overlay: `core.translateString`, `core._attrKey`, and what one
 * pass of `translateAttributes` / `restoreAttributes` does to one element, first per
 * tracked attribute ("slot": the attribute's value and its stashed original), then per
 * element.
 */
module Translator {
  import opened Wrappers
  import opened Strings

  /** The live dictionary: normalised phrase to translation. */
  type Dict = map<string, string>

  /**
   * `translateString(s)`: an exact, case-insensitive match of the trimmed text; on a hit
   * the first occurrence of the trimmed text in `s` gives way to the translation. An
   * empty translation is falsy in the source and counts as a miss. The translation is
   * inserted literally (see `TranslateStringAsWritten` for what `String.prototype.replace`
   * does with `$` in it).
   */
  function TranslateString(dict: Dict, s: string): Option<string>
  {
    var trimmed := Trim(s);
    if trimmed == "" then None
    else
      var key := Lower(trimmed);
      if key in dict && dict[key] != "" then Some(ReplaceFirst(s, trimmed, dict[key])) else None
  }

  /** `translateString` exactly as written: `s.replace(trimmed, t)` reads `t` as a substitution template. */
  function TranslateStringAsWritten(dict: Dict, s: string): Option<string>
  {
    var trimmed := Trim(s);
    if trimmed == "" then None
    else
      var key := Lower(trimmed);
      if key in dict && dict[key] != "" then Some(JsReplaceFirst(s, trimmed, dict[key])) else None
  }

  /** Because the trimmed text starts with a non-space, its first occurrence is right after the leading whitespace. */
  lemma FirstOccurrenceOfTrim(s: string)
    requires Trim(s) != ""
    ensures IndexOf(s, Trim(s)) == LeadingSpace(s)
  {
    var t, n := Trim(s), LeadingSpace(s);
    assert OccursAt(s, t, n);
    forall i | 0 <= i < n ensures !OccursAt(s, t, i) {
      assert IsSpace(s[..n][i]) && s[..n][i] == s[i];
      OccursHead(s, t, i);
    }
  }

  /**
   * Miss and hit: no match exactly when the text is all whitespace or its lower-cased trim
   * has no (non-empty) translation; on a hit, the leading and trailing whitespace of `s` is
   * kept verbatim around the translation.
   */
  lemma TranslateStringSpec(dict: Dict, s: string)
    ensures TranslateString(dict, s).Some? <==>
              !AllSpace(s) && Lower(Trim(s)) in dict && dict[Lower(Trim(s))] != ""
    ensures var n, t := LeadingSpace(s), Trim(s);
            s == s[..n] + t + s[n + |t|..] && AllSpace(s[..n]) && AllSpace(s[n + |t|..])
    ensures TranslateString(dict, s).Some? ==>
              var n, t := LeadingSpace(s), Trim(s);
              TranslateString(dict, s).value == s[..n] + dict[Lower(t)] + s[n + |t|..]
  {
    var n, t := LeadingSpace(s), Trim(s);
    assert s == s[..n] + s[n..n + |t|] + s[n + |t|..];
    if t != "" {
      FirstOccurrenceOfTrim(s);
    }
  }

  /** A hit never produces the empty string, so the source's `if (replaced)` is the same test as "there was a hit". */
  lemma TranslatedIsNonEmpty(dict: Dict, s: string)
    requires TranslateString(dict, s).Some?
    ensures TranslateString(dict, s).value != ""
  {
    TranslateStringSpec(dict, s);
  }

  /** The two agree whenever no translation holds a `$`. */
  lemma AsWrittenAgreesWithoutDollar(dict: Dict, s: string)
    requires forall k :: k in dict ==> '$' !in dict[k]
    ensures TranslateStringAsWritten(dict, s) == TranslateString(dict, s)
  {
    var t := Trim(s);
    if t != "" && Lower(t) in dict && dict[Lower(t)] != "" {
      JsReplaceLiteral(s, t, dict[Lower(t)]);
    }
  }

  /**
   * A text made of a trimmed phrase between runs of whitespace: on a hit the phrase gives
   * way to its translation and the whitespace stays; as written, the translation is
   * first expanded as a substitution template.
   */
  lemma HitPadded(dict: Dict, pre: string, x: string, post: string, key: string)
    requires AllSpace(pre) && AllSpace(post)
    requires x != "" && !IsSpace(x[0]) && !IsSpace(x[|x| - 1])
    requires Lower(x) == key && key in dict && dict[key] != ""
    ensures TranslateString(dict, pre + x + post) == Some(pre + dict[key] + post)
    ensures TranslateStringAsWritten(dict, pre + x + post) == Some(pre + Expand(dict[key], x, pre, post) + post)
  {
    var s := pre + x + post;
    TrimPadded(pre, x, post);
    FirstOccurrenceOfTrim(s);
    ReplaceAt(s, x, dict[key], pre, post);
    JsReplaceAt(s, x, dict[key], pre, post);
  }

  /** `HitPadded` for a text `s` and an expected output given whole. */
  lemma HitPaddedTo(dict: Dict, pre: string, x: string, post: string, key: string, s: string, out: string)
    requires AllSpace(pre) && AllSpace(post)
    requires x != "" && !IsSpace(x[0]) && !IsSpace(x[|x| - 1])
    requires Lower(x) == key && key in dict && dict[key] != ""
    requires s == pre + x + post && out == pre + dict[key] + post
    ensures TranslateString(dict, s) == Some(out)
  {
    HitPadded(dict, pre, x, post, key);
  }

  /**
   * `{"price": "Prix $$"}` applied to "Price": the code writes "Prix $", while the
   * translation the user stored is "Prix $$".
   */
  lemma DollarInTranslationCounterexample(s: string, tr: string, out: string)
    requires s == "Price" && tr == "Prix $$" && out == "Prix $"
    ensures TranslateStringAsWritten(map["price" := tr], s) == Some(out)
    ensures TranslateString(map["price" := tr], s) == Some(tr)
    ensures out != tr
  {
    PriceIsPlain(s);
    HitWhole(map["price" := tr], s, "price");
    PrixExpands(tr, s, out);
    assert |out| != |tr|;
  }

  /** "Price" is a trimmed phrase whose lower case is "price". */
  lemma PriceIsPlain(s: string)
    requires s == "Price"
    ensures s != "" && !IsSpace(s[0]) && !IsSpace(s[|s| - 1]) && Lower(s) == "price"
  {
    CapitalisedWord(s, "price");
  }

  /** A capital followed by lower-case ASCII letters is a trimmed phrase; its lower case has a small first letter. */
  lemma CapitalisedWord(s: string, key: string)
    requires |s| > 0 && 'A' <= s[0] <= 'Z' && forall i :: 1 <= i < |s| ==> 'a' <= s[i] <= 'z'
    requires key == [LowerChar(s[0])] + s[1..]
    ensures s != "" && !IsSpace(s[0]) && !IsSpace(s[|s| - 1]) && Lower(s) == key
  {
    var l := Lower(s);
    assert |l| == |key|;
    forall i | 0 <= i < |s|
      ensures l[i] == key[i]
    {
      assert l[i] == LowerChar(s[i]);
    }
  }

  /** `HitPadded` without surrounding whitespace. */
  lemma HitWhole(dict: Dict, x: string, key: string)
    requires x != "" && !IsSpace(x[0]) && !IsSpace(x[|x| - 1])
    requires Lower(x) == key && key in dict && dict[key] != ""
    ensures TranslateString(dict, x) == Some(dict[key])
    ensures TranslateStringAsWritten(dict, x) == Some(Expand(dict[key], x, "", ""))
  {
    TrimOfTrimmed(x);
    ReplaceWhole(x, dict[key]);
    JsReplaceWhole(x, dict[key]);
  }

  /** The template "Prix $$" expands to "Prix $": `$$` stands for one `$`. */
  lemma PrixExpands(tr: string, s: string, out: string)
    requires tr == "Prix $$" && out == "Prix $"
    ensures Expand(tr, s, "", "") == out
  {
    assert tr == "Prix " + "$$";
    ExpandLiteralHead("Prix ", "$$", s, "", "");
    assert Expand("$$", s, "", "") == "$" + Expand("", s, "", "") == "$";
  }

  /** `{"hello": "Bonjour"}` turns " Hello " into " Bonjour ". */
  lemma ExactMatchExample()
    ensures TranslateString(map["hello" := "Bonjour"], " Hello ") == Some(" Bonjour ")
  {
    HelloIsPlain("Hello", "hello");
    HitPaddedTo(map["hello" := "Bonjour"], " ", "Hello", " ", "hello", " Hello ", " Bonjour ");
  }

  /** What a text node shows after a translate: the translation of its original, or the original on a miss. */
  function TextTarget(dict: Dict, original: string): string
  {
    TranslateString(dict, original).GetOr(original)
  }

  /** What an attribute shows after a translate: the trimmed translation, or the original on a miss. */
  function AttrTarget(dict: Dict, original: string): string
  {
    match TranslateString(dict, original)
    case Some(r) => Trim(r)
    case None => original
  }

  /** A hit whose result has no surrounding whitespace is written to the attribute as it stands. */
  lemma AttrTargetOfTrimmedHit(dict: Dict, original: string, r: string)
    requires TranslateString(dict, original) == Some(r)
    requires r != "" && !IsSpace(r[0]) && !IsSpace(r[|r| - 1])
    ensures AttrTarget(dict, original) == r
  {
    TrimOfTrimmed(r);
  }

  /** A trimmed phrase whose lower case is a key mapped to a trimmed translation shows that translation. */
  lemma AttrTrimHit(dict: Dict, o: string, key: string, r: string)
    requires o != "" && !IsSpace(o[0]) && !IsSpace(o[|o| - 1]) && Lower(o) == key
    requires key in dict && dict[key] == r
    requires r != "" && !IsSpace(r[0]) && !IsSpace(r[|r| - 1])
    ensures AttrTarget(dict, o) == r
  {
    HitWhole(dict, o, key);
    AttrTargetOfTrimmedHit(dict, o, r);
  }

  /** "Hello" is a trimmed phrase whose lower case is "hello". */
  lemma HelloIsPlain(o: string, key: string)
    requires o == "Hello" && key == "hello"
    ensures o != "" && !IsSpace(o[0]) && !IsSpace(o[|o| - 1]) && Lower(o) == key
  {
    CapitalisedWord(o, key);
  }

  /** "Bonjour" has no surrounding whitespace. */
  lemma BonjourIsTrimmed(r: string)
    requires r == "Bonjour"
    ensures r != "" && !IsSpace(r[0]) && !IsSpace(r[|r| - 1])
  {
  }

  /** `{"hello": "Bonjour"}` turns `title="Hello"` into `title="Bonjour"`. */
  lemma AttrTrimExample()
    ensures AttrTarget(map["hello" := "Bonjour"], "Hello") == "Bonjour"
  {
    HelloIsPlain("Hello", "hello");
    BonjourIsTrimmed("Bonjour");
    AttrTrimHit(map["hello" := "Bonjour"], "Hello", "hello", "Bonjour");
  }

  // ---------------------------------------------------------------------------
  // One text node: its live value and its recorded original
  // ---------------------------------------------------------------------------

  /** A text node's `nodeValue` and its entry in `textOrig` (None when there is none yet). */
  datatype Cell = Cell(value: string, orig: Option<string>)

  /**
   * `translateTextNode`: the live value is recorded as the original the first time only,
   * and the node then shows the translation of the original (or the original on a miss).
   */
  function TranslateCell(dict: Dict, c: Cell): Cell
  {
    var o := c.orig.GetOr(c.value);
    Cell(TextTarget(dict, o), Some(o))
  }

  /** `restoreTextNode`: a recorded original is written back. */
  function RestoreCell(c: Cell): Cell
  {
    if c.orig.Some? then Cell(c.orig.value, c.orig) else c
  }

  /** Translating cell `c` with each dictionary of `ds` in turn. */
  function TranslateCellWith(ds: seq<Dict>, c: Cell): Cell
  {
    if ds == [] then c else TranslateCellWith(ds[1..], TranslateCell(ds[0], c))
  }

  /**
   * No drift: whatever dictionaries were used before, the node shows what a translation
   * with the last dictionary alone would show, because every translation starts from the
   * recorded original.
   */
  lemma {:induction false} CellNoDrift(ds: seq<Dict>, dict: Dict, c: Cell)
    ensures TranslateCell(dict, TranslateCellWith(ds, c)) == TranslateCell(dict, c)
  {
    if ds != [] {
      var c' := TranslateCell(ds[0], c);
      CellNoDrift(ds[1..], dict, c');
      assert TranslateCell(dict, c') == TranslateCell(dict, c);
    }
  }

  /** The recorded original never changes once it exists, and it is the first value seen. */
  lemma {:induction false} CellOriginalKept(ds: seq<Dict>, c: Cell)
    ensures ds != [] || c.orig.Some? ==> TranslateCellWith(ds, c).orig == Some(c.orig.GetOr(c.value))
    ensures ds == [] ==> TranslateCellWith(ds, c) == c
  {
    if ds != [] {
      CellOriginalKept(ds[1..], TranslateCell(ds[0], c));
    }
  }

  /** Exact restore of text: after any sequence of translates, a restore shows the original. */
  lemma CellRoundTrip(ds: seq<Dict>, c: Cell)
    ensures RestoreCell(TranslateCellWith(ds, c)).value == c.orig.GetOr(c.value)
  {
    CellOriginalKept(ds, c);
  }

  /** Translating twice with the same dictionary is translating once. */
  lemma TranslateCellIdempotent(dict: Dict, c: Cell)
    ensures TranslateCell(dict, TranslateCell(dict, c)) == TranslateCell(dict, c)
  {
    CellNoDrift([dict], dict, c);
  }

  // ---------------------------------------------------------------------------
  // Attribute names and their dataset keys
  // ---------------------------------------------------------------------------

  /** The three attributes the overlay translates, in the order the source visits them. */
  const Tracked: seq<string> := ["title", "aria-label", "placeholder"]

  /** `attr.replace(/-([a-z])/g, (_, c) => c.toUpperCase())`. */
  function Camel(s: string): (r: string)
    ensures |s| > 0 ==> |r| > 0
  {
    if s == [] then []
    else if |s| >= 2 && s[0] == '-' && 'a' <= s[1] <= 'z' then [UpperChar(s[1])] + Camel(s[2..])
    else [s[0]] + Camel(s[1..])
  }

  /** `_attrKey(attr)`: the `dataset` key under which the original value of `attr` is stashed. */
  function AttrKey(a: string): string
    requires a != ""
  {
    var c := Camel(a);
    "atOrig" + [UpperChar(c[0])] + c[1..]
  }

  lemma {:induction false} CamelPlain(s: string)
    requires '-' !in s
    ensures Camel(s) == s
  {
    if s != [] {
      assert '-' !in s[1..];
      CamelPlain(s[1..]);
    }
  }

  lemma {:induction false} CamelDash(x: string, c: char, y: string)
    requires '-' !in x && 'a' <= c <= 'z'
    ensures Camel(x + ['-', c] + y) == x + [UpperChar(c)] + Camel(y)
  {
    var s := x + ['-', c] + y;
    if x == [] {
      assert s == ['-', c] + y && s[2..] == y;
    } else {
      assert s[0] == x[0] && s[1..] == x[1..] + ['-', c] + y;
      assert '-' !in x[1..];
      CamelDash(x[1..], c, y);
    }
  }

  /** The key of a dash-free name: `atOrig` followed by the name with its first letter capitalised. */
  lemma KeyOfPlain(a: string, key: string)
    requires a != "" && '-' !in a && key == "atOrig" + [UpperChar(a[0])] + a[1..]
    ensures AttrKey(a) == key
  {
    CamelPlain(a);
  }

  /** The key of a name `x-cy` with dash-free `x` and `y`: the dash goes and `c` is capitalised. */
  lemma KeyOfDash(x: string, c: char, y: string, key: string)
    requires x != "" && '-' !in x && '-' !in y && 'a' <= c <= 'z'
    requires key == "atOrig" + [UpperChar(x[0])] + x[1..] + [UpperChar(c)] + y
    ensures AttrKey(x + ['-', c] + y) == key
  {
    var cam := x + [UpperChar(c)] + y;
    CamelOfDashed(x, c, y);
    KeyOfCamel(x + ['-', c] + y, cam);
    KeyText(x, [UpperChar(c)] + y, cam, key);
  }

  lemma CamelOfDashed(x: string, c: char, y: string)
    requires '-' !in x && '-' !in y && 'a' <= c <= 'z'
    ensures Camel(x + ['-', c] + y) == x + [UpperChar(c)] + y
  {
    CamelDash(x, c, y);
    CamelPlain(y);
  }

  lemma KeyText(x: string, z: string, cam: string, key: string)
    requires x != "" && cam == x + z && key == "atOrig" + [UpperChar(x[0])] + x[1..] + z
    ensures cam != [] && key == "atOrig" + [UpperChar(cam[0])] + cam[1..]
  {
    assert cam[0] == x[0] && cam[1..] == x[1..] + z;
  }

  /** The key of a name whose camel case is `cam`. */
  lemma KeyOfCamel(a: string, cam: string)
    requires a != "" && Camel(a) == cam
    ensures cam != [] && AttrKey(a) == "atOrig" + [UpperChar(cam[0])] + cam[1..]
  {
  }

  /** The stash keys of the three tracked attributes. */
  lemma TrackedKeys()
    ensures AttrKey("title") == "atOrigTitle"
    ensures AttrKey("aria-label") == "atOrigAriaLabel"
    ensures AttrKey("placeholder") == "atOrigPlaceholder"
  {
    TitleKey();
    AriaLabelKey();
    PlaceholderKey();
  }

  lemma TitleKey()
    ensures AttrKey("title") == "atOrigTitle"
  {
    KeyOfPlain("title", "atOrigTitle");
  }

  lemma AriaLabelKey()
    ensures AttrKey("aria-label") == "atOrigAriaLabel"
  {
    KeyOfDash("aria", 'l', "abel", "atOrigAriaLabel");
    assert "aria" + ['-', 'l'] + "abel" == "aria-label";
  }

  lemma PlaceholderKey()
    ensures AttrKey("placeholder") == "atOrigPlaceholder"
  {
    KeyOfPlain("placeholder", "atOrigPlaceholder");
  }

  /** Names that are non-empty, pairwise distinct and have pairwise distinct stash keys. */
  predicate Independent(names: seq<string>) {
    && (forall i :: 0 <= i < |names| ==> names[i] != "")
    && (forall i, j :: 0 <= i < j < |names| ==> names[i] != names[j] && AttrKey(names[i]) != AttrKey(names[j]))
  }

  /** The seventh character of a key is the capitalised first letter of the name. */
  lemma KeyHead(a: string)
    requires a != "" && a[0] != '-'
    ensures |AttrKey(a)| > 6 && AttrKey(a)[6] == UpperChar(a[0])
  {
  }

  /** Lower-case names with pairwise distinct first letters are independent. */
  lemma DistinctHeads(names: seq<string>)
    requires forall i :: 0 <= i < |names| ==> names[i] != "" && 'a' <= names[i][0] <= 'z'
    requires forall i, j :: 0 <= i < j < |names| ==> names[i][0] != names[j][0]
    ensures Independent(names)
  {
    forall i, j | 0 <= i < j < |names|
      ensures AttrKey(names[i]) != AttrKey(names[j])
    {
      KeyHead(names[i]);
      KeyHead(names[j]);
    }
  }

  lemma TrackedIndependent()
    ensures Independent(Tracked)
  {
    DistinctHeads(Tracked);
  }

  // ---------------------------------------------------------------------------
  // One attribute: its live value and its stashed original
  // ---------------------------------------------------------------------------

  /** `el.getAttribute(a)` (None for null) and `el.dataset[_attrKey(a)]` (None for undefined). */
  datatype Slot = Slot(attr: Option<string>, stash: Option<string>)

  /** One iteration of `translateAttributes` for one attribute. */
  function TranslateSlot(dict: Dict, s: Slot): Slot
  {
    var v := s.attr.GetOr("");
    if v == "" then s
    else
      var stash := if s.stash.GetOr("") == "" then v else s.stash.value;
      Slot(Some(AttrTarget(dict, stash)), Some(stash))
  }

  /** This iteration records the original (and so marks the element as touched). */
  predicate Stashes(s: Slot) {
    s.attr.GetOr("") != "" && s.stash.GetOr("") == ""
  }

  /** One iteration of `restoreAttributes`: a stashed original, if any, is written back. */
  function RestoreSlot(s: Slot): Slot
  {
    if s.stash.Some? then Slot(Some(s.stash.value), s.stash) else s
  }

  /** Translating slot `s` with each dictionary of `ds` in turn. */
  function TranslateSlotWith(ds: seq<Dict>, s: Slot): Slot
  {
    if ds == [] then s else TranslateSlotWith(ds[1..], TranslateSlot(ds[0], s))
  }

  /**
   * The original is recorded once: a translate stashes the live value only when nothing is
   * stashed yet, never overwrites a stash, and leaves the slot showing the translation of the
   * stash. Attributes that are absent or empty are not touched.
   */
  lemma TranslateSlotSpec(dict: Dict, s: Slot)
    ensures s.attr.GetOr("") == "" ==> TranslateSlot(dict, s) == s
    ensures s.attr.GetOr("") != "" ==>
              var r := TranslateSlot(dict, s);
              && r.stash == (if Stashes(s) then s.attr else s.stash)
              && r.attr == Some(AttrTarget(dict, r.stash.value))
    ensures s.stash.GetOr("") != "" ==> TranslateSlot(dict, s).stash == s.stash
  {
  }

  /**
   * Exact restore of attributes: once an original is stashed, any sequence of translates,
   * under any dictionaries, followed by a restore shows that original again.
   */
  lemma {:induction false} SlotRoundTrip(ds: seq<Dict>, s: Slot)
    requires s.stash.GetOr("") != "" || (ds != [] && s.attr.GetOr("") != "")
    ensures var o := if s.stash.GetOr("") != "" then s.stash.value else s.attr.value;
            RestoreSlot(TranslateSlotWith(ds, s)).attr == Some(o)
  {
    if ds != [] {
      var t := TranslateSlot(ds[0], s);
      assert t.stash.GetOr("") != "";
      SlotRoundTrip(ds[1..], t);
    }
  }

  /** Translating twice with the same dictionary is translating once. */
  lemma TranslateSlotIdempotent(dict: Dict, s: Slot)
    ensures TranslateSlot(dict, TranslateSlot(dict, s)) == TranslateSlot(dict, s)
  {
  }

  /** A restore shows the stash whenever there is one, and otherwise leaves the slot alone. */
  lemma RestoreSlotSpec(s: Slot)
    ensures RestoreSlot(s).stash == s.stash
    ensures s.stash.Some? ==> RestoreSlot(s).attr == s.stash
    ensures s.stash.None? ==> RestoreSlot(s) == s
    ensures RestoreSlot(RestoreSlot(s)) == RestoreSlot(s)
  {
  }

  // ---------------------------------------------------------------------------
  // One element
  // ---------------------------------------------------------------------------

  /** An element's attributes and its `dataset`. */
  datatype ElemState = ElemState(attrs: map<string, string>, data: map<string, string>)

  function Get(m: map<string, string>, k: string): string {
    if k in m then m[k] else ""
  }

  function SlotOf(st: ElemState, a: string): Slot
    requires a != ""
  {
    Slot(if a in st.attrs then Some(st.attrs[a]) else None,
         var k := AttrKey(a); if k in st.data then Some(st.data[k]) else None)
  }

  /** The body of the loop of `translateAttributes` for attribute `a`: stash, then write. */
  function TranslateAttr(dict: Dict, st: ElemState, a: string): ElemState
    requires a != ""
  {
    var v := Get(st.attrs, a);
    if v == "" then st else WriteAttr(dict, StashAttr(st, a, v), a, v)
  }

  /** `if (!el.dataset[dk]) el.dataset[dk] = v`. */
  function StashAttr(st: ElemState, a: string, v: string): ElemState
    requires a != ""
  {
    var dk := AttrKey(a);
    if Get(st.data, dk) == "" then ElemState(st.attrs, st.data[dk := v]) else st
  }

  /** The attribute takes the translation of `dataset[dk] || v`, written only if it differs. */
  function WriteAttr(dict: Dict, st: ElemState, a: string, v: string): ElemState
    requires a != ""
  {
    var dk := AttrKey(a);
    var original := if Get(st.data, dk) != "" then st.data[dk] else v;
    var target := AttrTarget(dict, original);
    if Get(st.attrs, a) != target then ElemState(st.attrs[a := target], st.data) else st
  }

  /** The body of the loop of `restoreAttributes` for attribute `a`. */
  function RestoreAttr(st: ElemState, a: string): ElemState
    requires a != ""
  {
    var dk := AttrKey(a);
    if dk in st.data && !(a in st.attrs && st.attrs[a] == st.data[dk])
    then ElemState(st.attrs[a := st.data[dk]], st.data)
    else st
  }

  predicate AllNames(names: seq<string>) {
    forall i :: 0 <= i < |names| ==> names[i] != ""
  }

  /** The loop of `translateAttributes` over the attributes `names`. */
  function TranslateAttrs(dict: Dict, st: ElemState, names: seq<string>): ElemState
    requires AllNames(names)
  {
    if names == [] then st else TranslateAttr(dict, TranslateAttrs(dict, st, names[..|names| - 1]), names[|names| - 1])
  }

  /** The loop of `restoreAttributes` over the attributes `names`. */
  function RestoreAttrs(st: ElemState, names: seq<string>): ElemState
    requires AllNames(names)
  {
    if names == [] then st else RestoreAttr(RestoreAttrs(st, names[..|names| - 1]), names[|names| - 1])
  }

  /** `translateAttributes(el)`. */
  function TranslateElem(dict: Dict, st: ElemState): ElemState
  {
    TranslateAttrs(dict, st, Tracked)
  }

  /** `restoreAttributes(el)`. */
  function RestoreElem(st: ElemState): ElemState
  {
    RestoreAttrs(st, Tracked)
  }

  /** The loop over `names` records the original of some attribute (and so marks the element). */
  predicate StashesAmong(st: ElemState, names: seq<string>)
    requires AllNames(names)
  {
    exists i :: 0 <= i < |names| && Stashes(SlotOf(st, names[i]))
  }

  /** Some tracked attribute of the element gets its original recorded by `translateAttributes`. */
  predicate StashesAny(st: ElemState) {
    StashesAmong(st, Tracked)
  }

  /** Extending the loop by one name adds that name's stash to the disjunction. */
  lemma StashesAmongSnoc(st: ElemState, names: seq<string>, i: nat)
    requires AllNames(names) && i < |names|
    ensures AllNames(names[..i]) && AllNames(names[..i + 1])
    ensures StashesAmong(st, names[..i + 1]) <==> StashesAmong(st, names[..i]) || Stashes(SlotOf(st, names[i]))
  {
    StashesAmongGrow(st, names, i);
    StashesAmongShrink(st, names, i);
  }

  lemma StashesAmongGrow(st: ElemState, names: seq<string>, i: nat)
    requires AllNames(names) && i < |names|
    ensures AllNames(names[..i]) && AllNames(names[..i + 1])
    ensures StashesAmong(st, names[..i]) || Stashes(SlotOf(st, names[i])) ==> StashesAmong(st, names[..i + 1])
  {
    var p, q := names[..i], names[..i + 1];
    if StashesAmong(st, p) {
      var j :| 0 <= j < |p| && Stashes(SlotOf(st, p[j]));
      assert q[j] == p[j];
    } else if Stashes(SlotOf(st, names[i])) {
      assert q[i] == names[i];
    }
  }

  lemma StashesAmongShrink(st: ElemState, names: seq<string>, i: nat)
    requires AllNames(names) && i < |names|
    ensures AllNames(names[..i]) && AllNames(names[..i + 1])
    ensures StashesAmong(st, names[..i + 1]) ==> StashesAmong(st, names[..i]) || Stashes(SlotOf(st, names[i]))
  {
    var p, q := names[..i], names[..i + 1];
    if StashesAmong(st, q) && !Stashes(SlotOf(st, names[i])) {
      var j :| 0 <= j < |q| && Stashes(SlotOf(st, q[j]));
      assert j != i;
      assert p[j] == q[j];
    }
  }

  /** Whether the loop body for `a` stashes, read off the attribute and the dataset directly. */
  lemma StashesByGet(st: ElemState, a: string)
    requires a != ""
    ensures Stashes(SlotOf(st, a)) <==> Get(st.attrs, a) != "" && Get(st.data, AttrKey(a)) == ""
  {
  }

  /** The loop body for `a` acts on the slot of `a` as `TranslateSlot` does. */
  lemma TranslateAttrOwnSlot(dict: Dict, st: ElemState, a: string)
    requires a != ""
    ensures SlotOf(TranslateAttr(dict, st, a), a) == TranslateSlot(dict, SlotOf(st, a))
  {
    var v := Get(st.attrs, a);
    if v != "" {
      StashAttrSlot(st, a, v);
      WriteAttrSlot(dict, StashAttr(st, a, v), a, v);
    }
  }

  /** The stash step leaves the attributes alone and holds `dataset[dk] || v` under the key. */
  lemma StashAttrSlot(st: ElemState, a: string, v: string)
    requires a != "" && v != ""
    ensures var st1, dk := StashAttr(st, a, v), AttrKey(a);
            st1.attrs == st.attrs && dk in st1.data && st1.data[dk] == (if Get(st.data, dk) == "" then v else st.data[dk])
  {
  }

  /** With a non-empty stash, the write step shows the target of the stash and keeps the dataset. */
  lemma WriteAttrSlot(dict: Dict, st: ElemState, a: string, v: string)
    requires a != "" && a in st.attrs && AttrKey(a) in st.data && st.data[AttrKey(a)] != ""
    ensures var st2 := WriteAttr(dict, st, a, v);
            st2.data == st.data && a in st2.attrs && st2.attrs[a] == AttrTarget(dict, st.data[AttrKey(a)])
  {
  }

  lemma RestoreAttrOwnSlot(st: ElemState, a: string)
    requires a != ""
    ensures SlotOf(RestoreAttr(st, a), a) == RestoreSlot(SlotOf(st, a))
  {
  }

  /** The loop body for `b` leaves the slot of an attribute with another name and another stash key alone. */
  lemma OtherSlotsUntouched(dict: Dict, st: ElemState, a: string, b: string)
    requires a != "" && b != "" && a != b && AttrKey(a) != AttrKey(b)
    ensures SlotOf(TranslateAttr(dict, st, b), a) == SlotOf(st, a)
    ensures SlotOf(RestoreAttr(st, b), a) == SlotOf(st, a)
  {
  }

  /** After the loop over the first `i` names, the slot of `names[j]` is translated iff `j < i`. */
  lemma {:induction false} TranslateAttrsSlots(dict: Dict, st: ElemState, names: seq<string>, i: nat)
    requires Independent(names) && i <= |names|
    ensures AllNames(names[..i])
    ensures forall j :: 0 <= j < |names| ==>
              SlotOf(TranslateAttrs(dict, st, names[..i]), names[j]) ==
              (if j < i then TranslateSlot(dict, SlotOf(st, names[j])) else SlotOf(st, names[j]))
  {
    if i > 0 {
      TranslateAttrsSlots(dict, st, names, i - 1);
      assert names[..i][..i - 1] == names[..i - 1];
      var prev := TranslateAttrs(dict, st, names[..i - 1]);
      assert TranslateAttrs(dict, st, names[..i]) == TranslateAttr(dict, prev, names[i - 1]);
      forall j | 0 <= j < |names|
        ensures SlotOf(TranslateAttr(dict, prev, names[i - 1]), names[j]) ==
                (if j < i then TranslateSlot(dict, SlotOf(st, names[j])) else SlotOf(st, names[j]))
      {
        if j == i - 1 {
          TranslateAttrOwnSlot(dict, prev, names[j]);
        } else {
          OtherSlotsUntouched(dict, prev, names[j], names[i - 1]);
        }
      }
    }
  }

  /** The slot of the next name is still untouched when the loop reaches it. */
  lemma NextSlotUntouched(dict: Dict, st: ElemState, names: seq<string>, i: nat)
    requires Independent(names) && i < |names|
    ensures AllNames(names[..i])
    ensures SlotOf(TranslateAttrs(dict, st, names[..i]), names[i]) == SlotOf(st, names[i])
  {
    TranslateAttrsSlots(dict, st, names, i);
  }

  /**
   * The loop of `translateAttributes` one name further: the next name is translated on what
   * the earlier ones left, and its slot, still as it was, decides whether it stashes.
   */
  lemma TranslateAttrsSnoc(dict: Dict, st: ElemState, names: seq<string>, i: nat)
    requires Independent(names) && i < |names|
    ensures AllNames(names[..i]) && AllNames(names[..i + 1]) && names[i] != ""
    ensures TranslateAttrs(dict, st, names[..i + 1]) == TranslateAttr(dict, TranslateAttrs(dict, st, names[..i]), names[i])
    ensures Stashes(SlotOf(TranslateAttrs(dict, st, names[..i]), names[i])) == Stashes(SlotOf(st, names[i]))
    ensures StashesAmong(st, names[..i + 1]) == (StashesAmong(st, names[..i]) || Stashes(SlotOf(st, names[i])))
  {
    StashesAmongSnoc(st, names, i);
    NextSlotUntouched(dict, st, names, i);
    assert names[..i + 1][..i] == names[..i] && names[..i + 1][i] == names[i];
  }

  lemma {:induction false} RestoreAttrsSlots(st: ElemState, names: seq<string>, i: nat)
    requires Independent(names) && i <= |names|
    ensures AllNames(names[..i])
    ensures forall j :: 0 <= j < |names| ==>
              SlotOf(RestoreAttrs(st, names[..i]), names[j]) ==
              (if j < i then RestoreSlot(SlotOf(st, names[j])) else SlotOf(st, names[j]))
  {
    if i > 0 {
      RestoreAttrsSlots(st, names, i - 1);
      assert names[..i][..i - 1] == names[..i - 1];
      var prev := RestoreAttrs(st, names[..i - 1]);
      assert RestoreAttrs(st, names[..i]) == RestoreAttr(prev, names[i - 1]);
      forall j | 0 <= j < |names|
        ensures SlotOf(RestoreAttr(prev, names[i - 1]), names[j]) ==
                (if j < i then RestoreSlot(SlotOf(st, names[j])) else SlotOf(st, names[j]))
      {
        if j == i - 1 {
          RestoreAttrOwnSlot(prev, names[j]);
        } else {
          OtherSlotsUntouched(map[], prev, names[j], names[i - 1]);
        }
      }
    }
  }

  /** `translateAttributes` acts on each of the three tracked attributes as `TranslateSlot` says. */
  lemma TranslateElemSpec(dict: Dict, st: ElemState)
    ensures forall j :: 0 <= j < |Tracked| ==>
              SlotOf(TranslateElem(dict, st), Tracked[j]) == TranslateSlot(dict, SlotOf(st, Tracked[j]))
  {
    TrackedIndependent();
    TranslateAttrsSlots(dict, st, Tracked, |Tracked|);
    assert Tracked[..|Tracked|] == Tracked;
  }

  /** `restoreAttributes` writes back every stashed original of the three tracked attributes. */
  lemma RestoreElemSpec(st: ElemState)
    ensures forall j :: 0 <= j < |Tracked| ==>
              SlotOf(RestoreElem(st), Tracked[j]) == RestoreSlot(SlotOf(st, Tracked[j]))
  {
    TrackedIndependent();
    RestoreAttrsSlots(st, Tracked, |Tracked|);
    assert Tracked[..|Tracked|] == Tracked;
  }

  /** A map lookup as `getAttribute` / `dataset[k]` see it. */
  function Look(m: map<string, string>, k: string): Option<string>
  {
    if k in m then Some(m[k]) else None
  }

  /** No name of `names` is `x`. */
  predicate NotAmong(x: string, names: seq<string>) {
    forall i :: 0 <= i < |names| ==> names[i] != x
  }

  /** No name of `names` has `key` as its stash key. */
  predicate NotAKeyOf(key: string, names: seq<string>)
    requires AllNames(names)
  {
    forall i :: 0 <= i < |names| ==> AttrKey(names[i]) != key
  }

  /** Attributes outside `names`, and dataset entries outside their stash keys, are as they were. */
  ghost predicate SameOutside(st: ElemState, r: ElemState, names: seq<string>)
    requires AllNames(names)
  {
    && (forall x :: NotAmong(x, names) ==> Look(r.attrs, x) == Look(st.attrs, x))
    && (forall key :: NotAKeyOf(key, names) ==> Look(r.data, key) == Look(st.data, key))
  }

  /** The loop body for `a` writes only attribute `a` and the dataset entry under its stash key. */
  lemma TranslateAttrFrame(dict: Dict, st: ElemState, a: string)
    requires a != ""
    ensures forall x :: x != a ==> Look(TranslateAttr(dict, st, a).attrs, x) == Look(st.attrs, x)
    ensures forall key :: key != AttrKey(a) ==> Look(TranslateAttr(dict, st, a).data, key) == Look(st.data, key)
  {
  }

  lemma {:induction false} TranslateAttrsFrame(dict: Dict, st: ElemState, names: seq<string>)
    requires AllNames(names)
    ensures SameOutside(st, TranslateAttrs(dict, st, names), names)
  {
    if names != [] {
      var q, a := names[..|names| - 1], names[|names| - 1];
      var prev := TranslateAttrs(dict, st, q);
      TranslateAttrsFrame(dict, st, q);
      TranslateAttrFrame(dict, prev, a);
      var r := TranslateAttrs(dict, st, names);
      assert r == TranslateAttr(dict, prev, a);
      forall x | NotAmong(x, names)
        ensures Look(r.attrs, x) == Look(st.attrs, x)
      {
        assert names[|names| - 1] != x;
        assert NotAmong(x, q);
      }
      forall key | NotAKeyOf(key, names)
        ensures Look(r.data, key) == Look(st.data, key)
      {
        assert AttrKey(names[|names| - 1]) != key;
        assert NotAKeyOf(key, q);
      }
    }
  }

  lemma {:induction false} RestoreAttrsFrame(st: ElemState, names: seq<string>)
    requires AllNames(names)
    ensures SameOutside(st, RestoreAttrs(st, names), names)
  {
    if names != [] {
      var q := names[..|names| - 1];
      RestoreAttrsFrame(st, q);
      assert forall x :: NotAmong(x, names) ==> NotAmong(x, q);
      assert forall key :: NotAKeyOf(key, names) ==> NotAKeyOf(key, q);
    }
  }

  /** Only `title`, `aria-label`, `placeholder` and their three stash keys are ever written. */
  lemma ElemFrame(dict: Dict, st: ElemState)
    ensures AllNames(Tracked)
    ensures SameOutside(st, TranslateElem(dict, st), Tracked)
    ensures SameOutside(st, RestoreElem(st), Tracked)
  {
    TrackedIndependent();
    TranslateElemFrame(dict, st);
    RestoreElemFrame(st);
  }

  lemma TranslateElemFrame(dict: Dict, st: ElemState)
    requires AllNames(Tracked)
    ensures SameOutside(st, TranslateElem(dict, st), Tracked)
  {
    TranslateAttrsFrame(dict, st, Tracked);
  }

  lemma RestoreElemFrame(st: ElemState)
    requires AllNames(Tracked)
    ensures SameOutside(st, RestoreElem(st), Tracked)
  {
    RestoreAttrsFrame(st, Tracked);
  }

  /**
   * Exact restore of an element: after a translate every tracked attribute that had a
   * non-empty value, or had a stash, shows its original again after a restore.
   */
  lemma ElemRoundTrip(dict: Dict, st: ElemState, j: int)
    requires 0 <= j < |Tracked|
    requires var s := SlotOf(st, Tracked[j]); s.stash.GetOr("") != "" || s.attr.GetOr("") != ""
    ensures var s := SlotOf(st, Tracked[j]);
            var o := if s.stash.GetOr("") != "" then s.stash.value else s.attr.value;
            SlotOf(RestoreElem(TranslateElem(dict, st)), Tracked[j]).attr == Some(o)
  {
    var s := SlotOf(st, Tracked[j]);
    TranslateElemSpec(dict, st);
    RestoreElemSpec(TranslateElem(dict, st));
    SlotRoundTrip([dict], s);
    assert TranslateSlotWith([dict], s) == TranslateSlot(dict, s);
  }

  // ---------------------------------------------------------------------------
  // Repeating a pass
  // ---------------------------------------------------------------------------

  /** Maps that look up alike are equal. */
  lemma LookExt(m1: map<string, string>, m2: map<string, string>)
    requires forall x :: Look(m1, x) == Look(m2, x)
    ensures m1 == m2
  {
    assert m1.Keys == m2.Keys by {
      forall x
        ensures x in m1 <==> x in m2
      {
        assert Look(m1, x).Some? <==> Look(m2, x).Some?;
      }
    }
    forall x | x in m1
      ensures m1[x] == m2[x]
    {
      assert Look(m1, x) == Some(m1[x]) && Look(m2, x) == Some(m2[x]);
    }
  }

  /** Two element states that agree outside `names` and on the slot of every name are equal. */
  lemma SameSlotsSame(a: ElemState, b: ElemState, names: seq<string>)
    requires AllNames(names) && SameOutside(a, b, names)
    requires forall j :: 0 <= j < |names| ==> SlotOf(a, names[j]) == SlotOf(b, names[j])
    ensures a == b
  {
    forall x
      ensures Look(a.attrs, x) == Look(b.attrs, x)
    {
      if !NotAmong(x, names) {
        var j :| 0 <= j < |names| && names[j] == x;
        assert SlotOf(a, names[j]).attr == SlotOf(b, names[j]).attr;
      }
    }
    forall key
      ensures Look(a.data, key) == Look(b.data, key)
    {
      if !NotAKeyOf(key, names) {
        var j :| 0 <= j < |names| && AttrKey(names[j]) == key;
        assert SlotOf(a, names[j]).stash == SlotOf(b, names[j]).stash;
      }
    }
    LookExt(a.attrs, b.attrs);
    LookExt(a.data, b.data);
  }

  /** Agreeing outside `names` is transitive. */
  lemma SameOutsideTrans(a: ElemState, b: ElemState, c: ElemState, names: seq<string>)
    requires AllNames(names) && SameOutside(a, b, names) && SameOutside(b, c, names)
    ensures SameOutside(a, c, names)
  {
  }

  /** `translateAttributes` twice with one dictionary is `translateAttributes` once. */
  lemma TranslateElemIdempotent(dict: Dict, st: ElemState)
    ensures TranslateElem(dict, TranslateElem(dict, st)) == TranslateElem(dict, st)
  {
    var a := TranslateElem(dict, st);
    var b := TranslateElem(dict, a);
    TranslateElemSpec(dict, st);
    TranslateElemSpec(dict, a);
    ElemFrame(dict, a);
    forall j | 0 <= j < |Tracked|
      ensures SlotOf(a, Tracked[j]) == SlotOf(b, Tracked[j])
    {
      TranslateSlotIdempotent(dict, SlotOf(st, Tracked[j]));
    }
    SameSlotsSame(a, b, Tracked);
  }

  /**
   * What `applyTouched` leaves on a touched element: its originals written back and, when
   * translation is on, translated again.
   */
  function Reapplied(dict: Dict, on: bool, st: ElemState): ElemState
  {
    if on then TranslateElem(dict, RestoreElem(st)) else RestoreElem(st)
  }

  /** A restore followed by a translate, on one slot, repeated, is done once. */
  lemma ReappliedSlot(dict: Dict, s: Slot)
    ensures RestoreSlot(RestoreSlot(s)) == RestoreSlot(s)
    ensures TranslateSlot(dict, RestoreSlot(TranslateSlot(dict, RestoreSlot(s)))) == TranslateSlot(dict, RestoreSlot(s))
  {
  }

  /** A second `applyTouched` with nothing changed in between changes nothing. */
  lemma ReappliedIdempotent(dict: Dict, on: bool, st: ElemState)
    ensures Reapplied(dict, on, Reapplied(dict, on, st)) == Reapplied(dict, on, st)
  {
    var r := RestoreElem(st);
    RestoreElemSpec(st);
    ElemFrame(dict, st);
    if on {
      var x := TranslateElem(dict, r);
      var rx := RestoreElem(x);
      var y := TranslateElem(dict, rx);
      TranslateElemSpec(dict, r);
      RestoreElemSpec(x);
      TranslateElemSpec(dict, rx);
      ElemFrame(dict, x);
      ElemFrame(dict, rx);
      SameOutsideTrans(x, rx, y, Tracked);
      forall j | 0 <= j < |Tracked|
        ensures SlotOf(x, Tracked[j]) == SlotOf(y, Tracked[j])
      {
        ReappliedSlot(dict, SlotOf(st, Tracked[j]));
      }
      SameSlotsSame(x, y, Tracked);
    } else {
      var rr := RestoreElem(r);
      RestoreElemSpec(r);
      ElemFrame(dict, r);
      forall j | 0 <= j < |Tracked|
        ensures SlotOf(r, Tracked[j]) == SlotOf(rr, Tracked[j])
      {
        ReappliedSlot(dict, SlotOf(st, Tracked[j]));
      }
      SameSlotsSame(r, rr, Tracked);
    }
  }
}
