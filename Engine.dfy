/**
 * The overlay engine `core`: its mutable state, the original-value cache for text nodes
 * and attributes, the enable/disable state machine, the coalesced reapply and the
 * mutation-batch filter of the observer.  The page is a `Dom`, `localStorage` a `Store`;
 * a deferred callback (`setTimeout`, `queueMicrotask`) is a method the environment calls
 * later, and a pending timer is counted in a field.
 */
module Engine {
  import opened Wrappers
  import opened Strings
  import opened Json
  import opened Dictionary
  import opened Translator
  import opened Document

  /** The two `localStorage` entries the engine uses. */
  class Store {
    /** The dictionary entry, parsed; None when it is absent or does not parse. */
    var dict: Option<Entries>
    /** The enabled flag entry, None when absent. */
    var enabledFlag: Option<string>

    constructor(dict: Option<Entries>, enabledFlag: Option<string>)
      ensures this.dict == dict && this.enabledFlag == enabledFlag
    {
      this.dict := dict;
      this.enabledFlag := enabledFlag;
    }
  }

  /** What `loadEnabledFromStorage` makes of the stored flag: absent means on. */
  function EnabledOf(flag: Option<string>): bool
  {
    match flag
    case None => true
    case Some(v) => v == "1" || v == "true"
  }

  /** What `saveEnabledToStorage` writes. */
  function FlagOf(enabled: bool): string
  {
    if enabled then "1" else "0"
  }

  /** The flag the engine writes reads back as the state it was written from. */
  lemma FlagRoundTrip(enabled: bool)
    ensures EnabledOf(Some(FlagOf(enabled))) == enabled
    ensures EnabledOf(None)
    ensures forall v :: EnabledOf(Some(v)) <==> v == "1" || v == "true"
  {
  }

  /** The stored dictionary as `loadDictFromStorage` reads it, `{}` when missing or unparseable. */
  function StoredObject(stored: Option<Entries>): Entries
  {
    stored.GetOr([])
  }

  /** Two updates of one key are the last of them. */
  lemma UpdateTwice<K, V>(m: map<K, V>, k: K, a: V, b: V)
    ensures m[k := a][k := b] == m[k := b]
  {
  }

  /** Updating a key with the value it has changes nothing. */
  lemma UpdateSame<K, V>(m: map<K, V>, k: K)
    requires k in m
    ensures m[k := m[k]] == m
  {
  }

  /** The first `i + 1` items are the first `i` and then item `i`. */
  lemma TakeSnoc<T>(s: seq<T>, i: nat)
    requires i < |s|
    ensures s[..i + 1] == s[..i] + [s[i]]
  {
  }

  /** Appending an item only when it is absent keeps a sequence free of duplicates. */
  lemma AppendedNew<T>(s: seq<T>, x: T, t: seq<T>)
    requires NoDups(s) && (t == s || (x !in s && t == s + [x]))
    ensures NoDups(t) && forall y :: y in t ==> y in s || y == x
  {
  }

  /** Adding `x` on two conditions, each time only when absent, adds it once when either holds. */
  lemma AddedOnce<T>(s: seq<T>, x: T, b1: bool, b2: bool, t1: seq<T>, t2: seq<T>)
    requires t1 == s + (if b1 && x !in s then [x] else [])
    requires t2 == t1 + (if b2 && x !in t1 then [x] else [])
    ensures t2 == s + (if (b1 || b2) && x !in s then [x] else [])
  {
    if b1 && x !in s {
      assert t1[|s|] == x;
    }
  }

  /**
   * The self-write marker after a run of engine writes from texts `t0` to `t1`, with marks
   * going from `m0` to `m1`: marks are only added, only on the nodes `ns`, and every node
   * whose value changed is marked.
   */
  predicate MarksWrites(t0: map<TextNode, string>, t1: map<TextNode, string>, m0: set<TextNode>, m1: set<TextNode>,
                        ns: seq<TextNode>)
  {
    && m0 <= m1
    && (forall n :: n in m1 && n !in m0 ==> n in ns)
    && (forall n :: n in t0 && n in t1 && t1[n] != t0[n] ==> n in m1)
  }

  /** One more write, to node `n`, marked when it changed the value. */
  lemma MarksStep(t0: map<TextNode, string>, t1: map<TextNode, string>, t2: map<TextNode, string>,
                  m0: set<TextNode>, m1: set<TextNode>, m2: set<TextNode>, ns: seq<TextNode>, n: TextNode)
    requires MarksWrites(t0, t1, m0, m1, ns)
    requires t1.Keys == t2.Keys && forall x :: x in t1 && x != n ==> t2[x] == t1[x]
    requires m2 == m1 + (if n in t1 && t2[n] != t1[n] then {n} else {})
    ensures MarksWrites(t0, t2, m0, m2, ns + [n])
  {
  }

  /** The original `translateTextNode` records for `n`: the one recorded in `o0`, else the live value in `t0`. */
  function OrigOf(t0: map<TextNode, string>, o0: map<TextNode, string>, n: TextNode): string
    requires n in o0 || n in t0
  {
    if n in o0 then o0[n] else t0[n]
  }

  /** The nodes of `ns` with no original in `o0`, in order: those a translate pass adds to `touchedText`. */
  function FreshTexts(o0: map<TextNode, string>, ns: seq<TextNode>): seq<TextNode>
  {
    if ns == [] then [] else FreshTexts(o0, ns[..|ns| - 1]) + (if ns[|ns| - 1] in o0 then [] else [ns[|ns| - 1]])
  }

  /**
   * A translate pass over the nodes `ns` after its first `i` steps, from texts `t0`,
   * originals `o0`, touched nodes `k0` and marks `m0` to `text`, `orig`, `touched` and
   * `marks`: see `OrigsSwept` and `ValuesSwept`; every change is marked.
   */
  predicate TextsSwept(dict: Dict, t0: map<TextNode, string>, o0: map<TextNode, string>, k0: seq<TextNode>,
                       m0: set<TextNode>, ns: seq<TextNode>, i: nat,
                       text: map<TextNode, string>, orig: map<TextNode, string>, marks: set<TextNode>)
  {
    && NoDups(ns) && i <= |ns|
    && (forall j :: 0 <= j < |ns| ==> ns[j] in t0)
    && OrigsSwept(t0, o0, ns, i, orig)
    && ValuesSwept(dict, t0, ns, i, text, orig)
    && MarksWrites(t0, text, m0, marks, ns[..i])
  }

  /**
   * The originals of that pass: each of the first `i` nodes has one (the one it had, or
   * else its value in `t0`); originals are only added, and only for those nodes.
   */
  predicate OrigsSwept(t0: map<TextNode, string>, o0: map<TextNode, string>, ns: seq<TextNode>, i: nat,
                       orig: map<TextNode, string>)
    requires i <= |ns| && forall j :: 0 <= j < |ns| ==> ns[j] in t0
  {
    && (forall n :: n in o0 ==> n in orig && orig[n] == o0[n])
    && (forall j :: 0 <= j < i ==> ns[j] in orig && orig[ns[j]] == OrigOf(t0, o0, ns[j]))
    && (forall n :: n in orig ==> n in o0 || n in ns[..i])
  }

  /** The values of that pass: the first `i` nodes show the translation of their originals, the others are as in `t0`. */
  predicate ValuesSwept(dict: Dict, t0: map<TextNode, string>, ns: seq<TextNode>, i: nat,
                        text: map<TextNode, string>, orig: map<TextNode, string>)
    requires i <= |ns|
  {
    && text.Keys == t0.Keys
    && (forall j :: 0 <= j < i ==> ns[j] in orig && ns[j] in text && text[ns[j]] == TextTarget(dict, orig[ns[j]]))
    && (forall n :: n in t0 && n !in ns[..i] ==> n in text && text[n] == t0[n])
  }

  /** One `translateTextNode` on the next node extends the pass by one step. */
  lemma TextsSweptStep(dict: Dict, t0: map<TextNode, string>, o0: map<TextNode, string>, k0: seq<TextNode>,
                       m0: set<TextNode>, ns: seq<TextNode>, i: nat,
                       text: map<TextNode, string>, orig: map<TextNode, string>, marks: set<TextNode>,
                       text': map<TextNode, string>, orig': map<TextNode, string>, marks': set<TextNode>)
    requires TextsSwept(dict, t0, o0, k0, m0, ns, i, text, orig, marks) && i < |ns| && ns[i] in text
    requires var o := OrigOf(text, orig, ns[i]);
             && text' == text[ns[i] := TextTarget(dict, o)]
             && orig' == orig[ns[i] := o]
             && marks' == marks + (if TextTarget(dict, o) == text[ns[i]] then {} else {ns[i]})
    ensures TextsSwept(dict, t0, o0, k0, m0, ns, i + 1, text', orig', marks')
  {
    OrigNotYet(t0, o0, ns, i, text, orig);
    OrigsStep(t0, o0, ns, i, text, orig, orig');
    TextsStep(dict, t0, ns, i, text, orig, text', orig');
    MarksTargetStep(dict, t0, text, text', m0, marks, marks', ns, i, OrigOf(text, orig, ns[i]));
  }

  /** The marks of one step of the pass: the node is marked when its new value differs. */
  lemma MarksTargetStep(dict: Dict, t0: map<TextNode, string>, text: map<TextNode, string>, text': map<TextNode, string>,
                        m0: set<TextNode>, marks: set<TextNode>, marks': set<TextNode>, ns: seq<TextNode>, i: nat, o: string)
    requires i < |ns| && ns[i] in text && MarksWrites(t0, text, m0, marks, ns[..i])
    requires text' == text[ns[i] := TextTarget(dict, o)]
    requires marks' == marks + (if TextTarget(dict, o) == text[ns[i]] then {} else {ns[i]})
    ensures MarksWrites(t0, text', m0, marks', ns[..i + 1])
  {
    TakeSnoc(ns, i);
    MarksStep(t0, text, text', m0, marks, marks', ns[..i], ns[i]);
  }

  /** The next node of the pass has the original it had before the pass, if any. */
  lemma OrigNotYet(t0: map<TextNode, string>, o0: map<TextNode, string>, ns: seq<TextNode>, i: nat,
                   text: map<TextNode, string>, orig: map<TextNode, string>)
    requires NoDups(ns) && i < |ns| && (forall j :: 0 <= j < |ns| ==> ns[j] in t0)
    requires OrigsSwept(t0, o0, ns, i, orig)
    requires ns[i] in text && (forall n :: n in t0 && n !in ns[..i] ==> n in text && text[n] == t0[n])
    ensures OrigOf(text, orig, ns[i]) == OrigOf(t0, o0, ns[i])
  {
    assert ns[i] !in ns[..i];
  }

  /** The touched text nodes after `i` steps of a translate pass started from `k0` and originals `o0`. */
  predicate TouchedTexts(o0: map<TextNode, string>, k0: seq<TextNode>, ns: seq<TextNode>, i: nat, touched: seq<TextNode>)
    requires i <= |ns|
  {
    touched == k0 + FreshTexts(o0, ns[..i])
  }

  /** A node joins `touchedText` exactly when the step records its first original. */
  lemma TouchedTextsStep(o0: map<TextNode, string>, k0: seq<TextNode>, ns: seq<TextNode>, i: nat,
                         touched: seq<TextNode>, touched': seq<TextNode>, isNew: bool)
    requires i < |ns| && TouchedTexts(o0, k0, ns, i, touched)
    requires isNew == (ns[i] !in o0) && touched' == touched + (if isNew then [ns[i]] else [])
    ensures TouchedTexts(o0, k0, ns, i + 1, touched')
  {
    assert ns[..i + 1][..i] == ns[..i];
    var x := if isNew then [ns[i]] else [];
    assert FreshTexts(o0, ns[..i + 1]) == FreshTexts(o0, ns[..i]) + x;
    assert touched' == (k0 + FreshTexts(o0, ns[..i])) + x;
  }

  lemma OrigsStep(t0: map<TextNode, string>, o0: map<TextNode, string>, ns: seq<TextNode>, i: nat,
                  text: map<TextNode, string>, orig: map<TextNode, string>, orig': map<TextNode, string>)
    requires NoDups(ns) && i < |ns| && (forall j :: 0 <= j < |ns| ==> ns[j] in t0)
    requires OrigsSwept(t0, o0, ns, i, orig)
    requires ns[i] in text && OrigOf(text, orig, ns[i]) == OrigOf(t0, o0, ns[i])
    requires orig' == orig[ns[i] := OrigOf(text, orig, ns[i])]
    ensures OrigsSwept(t0, o0, ns, i + 1, orig')
  {
    TakeSnoc(ns, i);
    assert ns[i] !in ns[..i];
  }

  lemma TextsStep(dict: Dict, t0: map<TextNode, string>, ns: seq<TextNode>, i: nat,
                  text: map<TextNode, string>, orig: map<TextNode, string>,
                  text': map<TextNode, string>, orig': map<TextNode, string>)
    requires NoDups(ns) && i < |ns| && (forall j :: 0 <= j < |ns| ==> ns[j] in t0)
    requires ValuesSwept(dict, t0, ns, i, text, orig)
    requires forall n :: n in orig && n != ns[i] ==> n in orig' && orig'[n] == orig[n]
    requires ns[i] in orig' && text' == text[ns[i] := TextTarget(dict, orig'[ns[i]])]
    ensures ValuesSwept(dict, t0, ns, i + 1, text', orig')
  {
    var n := ns[i];
    TakeSnoc(ns, i);
    forall j | 0 <= j < i + 1
      ensures ns[j] in orig' && ns[j] in text' && text'[ns[j]] == TextTarget(dict, orig'[ns[j]])
    {
      if j < i {
        assert ns[j] != n;
      }
    }
    forall m | m in t0 && m !in ns[..i + 1]
      ensures m in text' && text'[m] == t0[m]
    {
      assert m != n && m !in ns[..i];
    }
  }

  /**
   * A restore pass over the nodes `ns`, all with originals in `orig`, after its first `i`
   * steps, from texts `t0` and marks `m0` to `text` and `marks`: the first `i` nodes show
   * their originals, the other nodes are as they were, and every change is marked.
   */
  predicate TextsRestored(t0: map<TextNode, string>, m0: set<TextNode>, orig: map<TextNode, string>,
                          ns: seq<TextNode>, i: nat, text: map<TextNode, string>, marks: set<TextNode>)
  {
    && NoDups(ns) && i <= |ns|
    && (forall j :: 0 <= j < |ns| ==> ns[j] in orig && ns[j] in t0)
    && text.Keys == t0.Keys
    && (forall j :: 0 <= j < i ==> text[ns[j]] == orig[ns[j]])
    && (forall n :: n in t0 && n !in ns[..i] ==> text[n] == t0[n])
    && MarksWrites(t0, text, m0, marks, ns[..i])
  }

  /** The elements of `es`, in order, that a translate pass from `e0` adds to `touchedEls`, which started as `k0`. */
  function FreshElems(e0: map<Element, ElemState>, k0: seq<Element>, es: seq<Element>): seq<Element>
    requires forall j :: 0 <= j < |es| ==> es[j] in e0
  {
    if es == [] then []
    else
      var e := es[|es| - 1];
      FreshElems(e0, k0, es[..|es| - 1]) + (if StashesAny(e0[e]) && e !in k0 then [e] else [])
  }

  lemma {:induction false} FreshElemsWithin(e0: map<Element, ElemState>, k0: seq<Element>, es: seq<Element>)
    requires forall j :: 0 <= j < |es| ==> es[j] in e0
    ensures forall x :: x in FreshElems(e0, k0, es) ==> x in es && x !in k0
  {
    if es != [] {
      var q := es[..|es| - 1];
      FreshElemsWithin(e0, k0, q);
      assert forall x :: x in q ==> x in es;
    }
  }

  /** A pass over elements that are all touched already touches nothing new. */
  lemma {:induction false} FreshElemsNone(e0: map<Element, ElemState>, k0: seq<Element>, es: seq<Element>)
    requires forall j :: 0 <= j < |es| ==> es[j] in e0 && es[j] in k0
    ensures FreshElems(e0, k0, es) == []
  {
    if es != [] {
      FreshElemsNone(e0, k0, es[..|es| - 1]);
    }
  }

  /** A pass over text nodes that all have originals records no new one. */
  lemma {:induction false} FreshTextsNone(o0: map<TextNode, string>, ns: seq<TextNode>)
    requires forall j :: 0 <= j < |ns| ==> ns[j] in o0
    ensures FreshTexts(o0, ns) == []
  {
    if ns != [] {
      FreshTextsNone(o0, ns[..|ns| - 1]);
    }
  }

  /**
   * A pass applying `f` to each of the elements `es`, after its first `i` steps, from `e0`
   * to `elems`: each of the first `i` elements is `f` of what it was, the others are as
   * they were.  `f` is what `translateAttributes` or `restoreAttributes` does to one element.
   */
  predicate ElemsMapped(f: ElemState -> ElemState, e0: map<Element, ElemState>, es: seq<Element>, i: nat,
                        elems: map<Element, ElemState>)
  {
    && NoDups(es) && i <= |es|
    && (forall j :: 0 <= j < |es| ==> es[j] in e0)
    && elems.Keys == e0.Keys
    && (forall j :: 0 <= j < i ==> elems[es[j]] == f(e0[es[j]]))
    && (forall e :: e in e0 && e !in es[..i] ==> elems[e] == e0[e])
  }

  lemma ElemsMappedStep(f: ElemState -> ElemState, e0: map<Element, ElemState>, es: seq<Element>, i: nat,
                        elems: map<Element, ElemState>, elems': map<Element, ElemState>)
    requires ElemsMapped(f, e0, es, i, elems) && i < |es|
    requires elems' == elems[es[i] := f(elems[es[i]])]
    ensures ElemsMapped(f, e0, es, i + 1, elems')
  {
    TakeSnoc(es, i);
    assert es[i] !in es[..i];
  }

  /** `translateAttributes` with the dictionary `dict`, as a function on one element. */
  function Translating(dict: Dict): ElemState -> ElemState
  {
    x => TranslateElem(dict, x)
  }

  /** The touched elements after `i` steps of that pass, started from `k0`. */
  predicate TouchedElems(e0: map<Element, ElemState>, k0: seq<Element>, es: seq<Element>, i: nat, touched: seq<Element>)
    requires i <= |es| && forall j :: 0 <= j < |es| ==> es[j] in e0
  {
    touched == k0 + FreshElems(e0, k0, es[..i])
  }

  /** An element joins `touchedEls` when its step records an original and it is not there yet. */
  lemma TouchedElemsStep(e0: map<Element, ElemState>, k0: seq<Element>, es: seq<Element>, i: nat,
                         touched: seq<Element>, touched': seq<Element>)
    requires NoDups(es) && i < |es| && forall j :: 0 <= j < |es| ==> es[j] in e0
    requires TouchedElems(e0, k0, es, i, touched)
    requires touched' == touched + (if StashesAny(e0[es[i]]) && es[i] !in touched then [es[i]] else [])
    ensures TouchedElems(e0, k0, es, i + 1, touched')
  {
    var e := es[i];
    assert es[..i + 1][..i] == es[..i] && es[..i + 1][i] == e;
    FreshElemsWithin(e0, k0, es[..i]);
    assert e !in es[..i];
    assert e in touched <==> e in k0;
  }

  /** One `translateAttributes` on the next element extends the pass and its touched elements by one step. */
  lemma ElemsTranslatedStep(dict: Dict, e0: map<Element, ElemState>, k0: seq<Element>, es: seq<Element>, i: nat,
                            el1: map<Element, ElemState>, k1: seq<Element>, el2: map<Element, ElemState>, k2: seq<Element>)
    requires ElemsMapped(Translating(dict), e0, es, i, el1) && TouchedElems(e0, k0, es, i, k1) && i < |es|
    requires el2 == el1[es[i] := TranslateElem(dict, el1[es[i]])]
    requires k2 == k1 + (if StashesAny(el1[es[i]]) && es[i] !in k1 then [es[i]] else [])
    requires NoDups(k1) && forall j :: 0 <= j < |k1| ==> k1[j] in el1
    ensures ElemsMapped(Translating(dict), e0, es, i + 1, el2) && TouchedElems(e0, k0, es, i + 1, k2)
    ensures NoDups(k2) && forall j :: 0 <= j < |k2| ==> k2[j] in el2
  {
    AppendedNew(k1, es[i], k2);
    assert el1[es[i]] == e0[es[i]] by {
      assert es[i] !in es[..i];
    }
    ElemsMappedStep(Translating(dict), e0, es, i, el1, el2);
    TouchedElemsStep(e0, k0, es, i, k1, k2);
  }

  /** At the end of a pass applying `f` to `es`, each element is `f` of what it was exactly when it is in `es`. */
  lemma ElemsMappedAll(f: ElemState -> ElemState, e0: map<Element, ElemState>, es: seq<Element>,
                       elems: map<Element, ElemState>)
    requires ElemsMapped(f, e0, es, |es|, elems)
    ensures elems.Keys == e0.Keys
    ensures forall e :: e in e0 ==> elems[e] == if e in es then f(e0[e]) else e0[e]
  {
    assert es[..|es|] == es;
    forall e | e in e0 && e in es
      ensures elems[e] == f(e0[e])
    {
      var j :| 0 <= j < |es| && es[j] == e;
    }
  }

  /** Marks of two runs of writes, one after the other, are the marks of one run. */
  lemma MarksCompose(t0: map<TextNode, string>, t1: map<TextNode, string>, t2: map<TextNode, string>,
                     m0: set<TextNode>, m1: set<TextNode>, m2: set<TextNode>, ns: seq<TextNode>)
    requires t1.Keys == t0.Keys
    requires MarksWrites(t0, t1, m0, m1, ns) && MarksWrites(t1, t2, m1, m2, ns)
    ensures MarksWrites(t0, t2, m0, m2, ns)
  {
  }

  /**
   * What `applyTouched`, with translation `on` or off, and `disable` (off) leave on the
   * text nodes, from texts `t0`: a node with an original shows its translation, or the
   * original itself; every other node is as it was.
   */
  predicate TextsShown(dict: Dict, on: bool, orig: map<TextNode, string>, t0: map<TextNode, string>,
                       text: map<TextNode, string>)
  {
    && text.Keys == t0.Keys
    && forall n :: n in t0 ==>
         text[n] == if n in orig then (if on then TextTarget(dict, orig[n]) else orig[n]) else t0[n]
  }

  /** The same for the elements, from `e0`: a touched element is `Reapplied`, the others as they were. */
  predicate ElemsShown(dict: Dict, on: bool, touched: seq<Element>, e0: map<Element, ElemState>,
                       elems: map<Element, ElemState>)
  {
    && elems.Keys == e0.Keys
    && forall e :: e in e0 ==> elems[e] == if e in touched then Reapplied(dict, on, e0[e]) else e0[e]
  }

  /** A finished restore pass over all the nodes with originals shows the originals. */
  lemma TextsRestoredShown(dict: Dict, t0: map<TextNode, string>, m0: set<TextNode>, orig: map<TextNode, string>,
                           ns: seq<TextNode>, text: map<TextNode, string>, marks: set<TextNode>)
    requires forall n :: n in orig <==> n in ns
    requires TextsRestored(t0, m0, orig, ns, |ns|, text, marks)
    ensures TextsShown(dict, false, orig, t0, text)
    ensures MarksWrites(t0, text, m0, marks, ns)
  {
    assert ns[..|ns|] == ns;
    forall n | n in t0 && n in ns
      ensures text[n] == orig[n]
    {
      var j :| 0 <= j < |ns| && ns[j] == n;
    }
  }

  /**
   * A finished translate pass over all the nodes with originals `o0` shows their
   * translations, records no original and touches no node.
   */
  lemma TextsSweptShown(dict: Dict, t0: map<TextNode, string>, o0: map<TextNode, string>, k0: seq<TextNode>,
                        m0: set<TextNode>, text: map<TextNode, string>, orig: map<TextNode, string>,
                        touched: seq<TextNode>, marks: set<TextNode>)
    requires forall n :: n in o0 <==> n in k0
    requires TextsSwept(dict, t0, o0, k0, m0, k0, |k0|, text, orig, marks)
    requires TouchedTexts(o0, k0, k0, |k0|, touched)
    ensures orig == o0 && touched == k0
    ensures TextsShown(dict, true, o0, t0, text)
    ensures MarksWrites(t0, text, m0, marks, k0)
  {
    assert k0[..|k0|] == k0;
    FreshTextsNone(o0, k0);
    OriginalsKept(o0, orig, k0);
    forall n | n in t0 && n in k0
      ensures text[n] == TextTarget(dict, o0[n])
    {
      var j :| 0 <= j < |k0| && k0[j] == n;
    }
  }

  /** Originals only added, only for nodes of `ns`, which all had one, are the originals as they were. */
  lemma OriginalsKept(o0: map<TextNode, string>, orig: map<TextNode, string>, ns: seq<TextNode>)
    requires forall n :: n in o0 <==> n in ns
    requires forall n :: n in o0 ==> n in orig && orig[n] == o0[n]
    requires forall n :: n in orig ==> n in o0 || n in ns
    ensures orig == o0
  {
    assert orig.Keys == o0.Keys;
  }

  /** Translating the restored touched elements gives what `applyTouched` promises with translation on. */
  lemma ElemsReapplied(dict: Dict, touched: seq<Element>, e0: map<Element, ElemState>,
                       e1: map<Element, ElemState>, e2: map<Element, ElemState>)
    requires ElemsShown(dict, false, touched, e0, e1)
    requires ElemsMapped(Translating(dict), e1, touched, |touched|, e2)
    ensures ElemsShown(dict, true, touched, e0, e2)
  {
    ElemsMappedAll(Translating(dict), e1, touched, e2);
  }

  /**
   * What the observer callback may do, from texts `t0`, originals `o0` and elements `e0`
   * to `t1`, `o1` and `e1`: originals are only added, each one the value its node had;
   * every text node keeps its value or shows the translation of its original; every
   * element is kept or translated.  Nothing is restored and nothing drifts.
   */
  predicate Observed(dict: Dict, t0: map<TextNode, string>, o0: map<TextNode, string>, e0: map<Element, ElemState>,
                     t1: map<TextNode, string>, o1: map<TextNode, string>, e1: map<Element, ElemState>)
  {
    && t1.Keys == t0.Keys && e1.Keys == e0.Keys
    && (forall n :: n in o0 ==> n in o1 && o1[n] == o0[n])
    && (forall n :: n in o1 && n !in o0 ==> n in t0 && o1[n] == t0[n])
    && (forall n :: n in t0 ==> t1[n] == t0[n] || (n in o1 && t1[n] == TextTarget(dict, o1[n])))
    && (forall e :: e in e0 ==> e1[e] == e0[e] || e1[e] == Translating(dict)(e0[e]))
  }

  /** The touched sequences only grow at the end, marks are only added, and every changed text node is marked. */
  predicate Grown(k0: seq<TextNode>, k1: seq<TextNode>, ke0: seq<Element>, ke1: seq<Element>,
                  t0: map<TextNode, string>, t1: map<TextNode, string>, m0: set<TextNode>, m1: set<TextNode>)
  {
    && k0 <= k1 && ke0 <= ke1 && m0 <= m1
    && (forall n :: n in t0 && n in t1 && t1[n] != t0[n] ==> n in m1)
  }

  lemma ObservedRefl(dict: Dict, t: map<TextNode, string>, o: map<TextNode, string>, e: map<Element, ElemState>,
                     k: seq<TextNode>, ke: seq<Element>, m: set<TextNode>)
    ensures Observed(dict, t, o, e, t, o, e) && Grown(k, k, ke, ke, t, t, m, m)
  {
  }

  /** Two runs of the callback, one after the other, are within what one run may do. */
  lemma ObservedTrans(dict: Dict, t0: map<TextNode, string>, o0: map<TextNode, string>, e0: map<Element, ElemState>,
                      t1: map<TextNode, string>, o1: map<TextNode, string>, e1: map<Element, ElemState>,
                      t2: map<TextNode, string>, o2: map<TextNode, string>, e2: map<Element, ElemState>)
    requires Observed(dict, t0, o0, e0, t1, o1, e1) && Observed(dict, t1, o1, e1, t2, o2, e2)
    ensures Observed(dict, t0, o0, e0, t2, o2, e2)
  {
    forall e | e in e0
      ensures e2[e] == e0[e] || e2[e] == Translating(dict)(e0[e])
    {
      TranslateElemIdempotent(dict, e0[e]);
    }
  }

  lemma GrownTrans(k0: seq<TextNode>, k1: seq<TextNode>, k2: seq<TextNode>, ke0: seq<Element>, ke1: seq<Element>,
                   ke2: seq<Element>, t0: map<TextNode, string>, t1: map<TextNode, string>, t2: map<TextNode, string>,
                   m0: set<TextNode>, m1: set<TextNode>, m2: set<TextNode>)
    requires t1.Keys == t0.Keys
    requires Grown(k0, k1, ke0, ke1, t0, t1, m0, m1) && Grown(k1, k2, ke1, ke2, t1, t2, m1, m2)
    ensures Grown(k0, k2, ke0, ke2, t0, t2, m0, m2)
  {
  }

  /** A `scanTranslate` (elements, then text nodes) is within what the callback may do. */
  lemma ScanObserved(dict: Dict, t0: map<TextNode, string>, o0: map<TextNode, string>, k0: seq<TextNode>,
                     m0: set<TextNode>, e0: map<Element, ElemState>, ke0: seq<Element>,
                     ts: seq<TextNode>, es: seq<Element>,
                     t1: map<TextNode, string>, o1: map<TextNode, string>, k1: seq<TextNode>,
                     m1: set<TextNode>, e1: map<Element, ElemState>, ke1: seq<Element>)
    requires ElemsMapped(Translating(dict), e0, es, |es|, e1) && TouchedElems(e0, ke0, es, |es|, ke1)
    requires TextsSwept(dict, t0, o0, k0, m0, ts, |ts|, t1, o1, m1) && TouchedTexts(o0, k0, ts, |ts|, k1)
    ensures Observed(dict, t0, o0, e0, t1, o1, e1) && Grown(k0, k1, ke0, ke1, t0, t1, m0, m1)
  {
    ScanElemsObserved(dict, e0, ke0, es, e1, ke1);
    ScanTextsObserved(dict, t0, o0, k0, m0, ts, t1, o1, k1, m1);
  }

  /** The element traversal of a scan keeps or translates every element and only extends `touchedEls`. */
  lemma ScanElemsObserved(dict: Dict, e0: map<Element, ElemState>, ke0: seq<Element>, es: seq<Element>,
                          e1: map<Element, ElemState>, ke1: seq<Element>)
    requires ElemsMapped(Translating(dict), e0, es, |es|, e1) && TouchedElems(e0, ke0, es, |es|, ke1)
    ensures e1.Keys == e0.Keys && ke0 <= ke1
    ensures forall e :: e in e0 ==> e1[e] == e0[e] || e1[e] == Translating(dict)(e0[e])
  {
    ElemsMappedAll(Translating(dict), e0, es, e1);
  }

  /**
   * The text traversal of a scan records originals only for nodes of the page, from their
   * live values, leaves every node as it was or showing its translation, and only extends
   * `touchedText` and the marks.
   */
  lemma ScanTextsObserved(dict: Dict, t0: map<TextNode, string>, o0: map<TextNode, string>, k0: seq<TextNode>,
                          m0: set<TextNode>, ts: seq<TextNode>,
                          t1: map<TextNode, string>, o1: map<TextNode, string>, k1: seq<TextNode>, m1: set<TextNode>)
    requires TextsSwept(dict, t0, o0, k0, m0, ts, |ts|, t1, o1, m1) && TouchedTexts(o0, k0, ts, |ts|, k1)
    ensures t1.Keys == t0.Keys && k0 <= k1 && m0 <= m1
    ensures forall n :: n in o0 ==> n in o1 && o1[n] == o0[n]
    ensures forall n :: n in o1 && n !in o0 ==> n in t0 && o1[n] == t0[n]
    ensures forall n :: n in t0 ==> t1[n] == t0[n] || (n in o1 && t1[n] == TextTarget(dict, o1[n]))
    ensures forall n :: n in t0 && n in t1 && t1[n] != t0[n] ==> n in m1
  {
    assert ts[..|ts|] == ts;
    OrigsObserved(t0, o0, ts, o1);
    ValuesObserved(dict, t0, ts, t1, o1);
  }

  /** The originals after a whole pass: the old ones kept, the new ones from the live values of `t0`. */
  lemma OrigsObserved(t0: map<TextNode, string>, o0: map<TextNode, string>, ts: seq<TextNode>, o1: map<TextNode, string>)
    requires (forall j :: 0 <= j < |ts| ==> ts[j] in t0) && OrigsSwept(t0, o0, ts, |ts|, o1)
    ensures forall n :: n in o0 ==> n in o1 && o1[n] == o0[n]
    ensures forall n :: n in o1 && n !in o0 ==> n in t0 && o1[n] == t0[n]
  {
    assert ts[..|ts|] == ts;
    forall n | n in o1 && n !in o0
      ensures n in t0 && o1[n] == t0[n]
    {
      var j :| 0 <= j < |ts| && ts[j] == n;
    }
  }

  /** The values after a whole pass: each node is as it was, or shows the translation of its original. */
  lemma ValuesObserved(dict: Dict, t0: map<TextNode, string>, ts: seq<TextNode>,
                       t1: map<TextNode, string>, o1: map<TextNode, string>)
    requires ValuesSwept(dict, t0, ts, |ts|, t1, o1)
    ensures forall n :: n in t0 ==> t1[n] == t0[n] || (n in o1 && t1[n] == TextTarget(dict, o1[n]))
  {
    assert ts[..|ts|] == ts;
    forall n | n in t0 && n in ts
      ensures n in o1 && t1[n] == TextTarget(dict, o1[n])
    {
      var j :| 0 <= j < |ts| && ts[j] == n;
    }
  }

  /** A `translateTextNode` of a node of the page is within what the callback may do. */
  lemma TextObserved(dict: Dict, t0: map<TextNode, string>, o0: map<TextNode, string>, k0: seq<TextNode>,
                     m0: set<TextNode>, e: map<Element, ElemState>, ke: seq<Element>, n: TextNode,
                     t1: map<TextNode, string>, o1: map<TextNode, string>, k1: seq<TextNode>, m1: set<TextNode>)
    requires n in t0
    requires var o := OrigOf(t0, o0, n);
             && t1 == t0[n := TextTarget(dict, o)] && o1 == o0[n := o]
             && k1 == k0 + (if n in o0 then [] else [n])
             && m1 == m0 + (if TextTarget(dict, o) == t0[n] then {} else {n})
    ensures Observed(dict, t0, o0, e, t1, o1, e) && Grown(k0, k1, ke, ke, t0, t1, m0, m1)
  {
  }

  // ---------------------------------------------------------------------------
  // What the observer callback leaves settled
  // ---------------------------------------------------------------------------

  type Texts = map<TextNode, string>
  type Elems = map<Element, ElemState>

  /** Text node `n` has an original and shows its translation, as a translate leaves it. */
  predicate TextSettled(dict: Dict, text: Texts, orig: Texts, n: TextNode) {
    n in orig && n in text && text[n] == TextTarget(dict, orig[n])
  }

  /** Element `e` is as `translateAttributes` leaves it: translating it again changes nothing. */
  predicate ElemSettled(dict: Dict, elems: Elems, e: Element) {
    e in elems && elems[e] == TranslateElem(dict, elems[e])
  }

  /** Every element and every text node a scan of `r` visits is settled. */
  predicate SubtreeSettled(dict: Dict, text: Texts, orig: Texts, elems: Elems, r: Subtree) {
    && (forall j :: 0 <= j < |ScanTexts(r)| ==> TextSettled(dict, text, orig, ScanTexts(r)[j]))
    && (forall j :: 0 <= j < |ScanElems(r)| ==> ElemSettled(dict, elems, ScanElems(r)[j]))
  }

  /** Every node marked since `m0` is settled: the engine marks only nodes it has just translated. */
  predicate MarksSettled(dict: Dict, text: Texts, orig: Texts, m0: set<TextNode>, marks: set<TextNode>) {
    forall n :: n in marks && n !in m0 ==> TextSettled(dict, text, orig, n)
  }

  /**
   * Record `m`, received when the texts were `t0` and the marks `m0`, has been handled:
   * a changed text node that existed and that the engine had not just written is settled,
   * and so is every subtree the record adds.
   */
  predicate Handled(dict: Dict, t0: Texts, m0: set<TextNode>, text: Texts, orig: Texts, elems: Elems, m: Mutation) {
    match m
    case CharacterData(t) => t in t0 && t !in m0 ==> TextSettled(dict, text, orig, t)
    case ChildList(added) => forall k :: 0 <= k < |added| ==> SubtreeSettled(dict, text, orig, elems, added[k])
  }

  /** What the callback does afterwards keeps a settled text node settled. */
  lemma TextSettledKept(dict: Dict, t1: Texts, o1: Texts, e1: Elems, t2: Texts, o2: Texts, e2: Elems, n: TextNode)
    requires Observed(dict, t1, o1, e1, t2, o2, e2) && TextSettled(dict, t1, o1, n)
    ensures TextSettled(dict, t2, o2, n)
  {
  }

  /** What the callback does afterwards keeps a settled element settled, since translating is idempotent. */
  lemma ElemSettledKept(dict: Dict, t1: Texts, o1: Texts, e1: Elems, t2: Texts, o2: Texts, e2: Elems, e: Element)
    requires Observed(dict, t1, o1, e1, t2, o2, e2) && ElemSettled(dict, e1, e)
    ensures ElemSettled(dict, e2, e)
  {
  }

  lemma SubtreeSettledKept(dict: Dict, t1: Texts, o1: Texts, e1: Elems, t2: Texts, o2: Texts, e2: Elems, r: Subtree)
    requires Observed(dict, t1, o1, e1, t2, o2, e2) && SubtreeSettled(dict, t1, o1, e1, r)
    ensures SubtreeSettled(dict, t2, o2, e2, r)
  {
    forall j | 0 <= j < |ScanTexts(r)| ensures TextSettled(dict, t2, o2, ScanTexts(r)[j]) {
      TextSettledKept(dict, t1, o1, e1, t2, o2, e2, ScanTexts(r)[j]);
    }
    forall j | 0 <= j < |ScanElems(r)| ensures ElemSettled(dict, e2, ScanElems(r)[j]) {
      ElemSettledKept(dict, t1, o1, e1, t2, o2, e2, ScanElems(r)[j]);
    }
  }

  lemma MarksSettledKept(dict: Dict, t1: Texts, o1: Texts, e1: Elems, t2: Texts, o2: Texts, e2: Elems,
                         m0: set<TextNode>, marks: set<TextNode>)
    requires Observed(dict, t1, o1, e1, t2, o2, e2) && MarksSettled(dict, t1, o1, m0, marks)
    ensures MarksSettled(dict, t2, o2, m0, marks)
  {
    forall n | n in marks && n !in m0 ensures TextSettled(dict, t2, o2, n) {
      TextSettledKept(dict, t1, o1, e1, t2, o2, e2, n);
    }
  }

  /** A handled record stays handled whatever the callback does afterwards. */
  lemma HandledKept(dict: Dict, t0: Texts, m0: set<TextNode>, t1: Texts, o1: Texts, e1: Elems,
                    t2: Texts, o2: Texts, e2: Elems, m: Mutation)
    requires Observed(dict, t1, o1, e1, t2, o2, e2) && Handled(dict, t0, m0, t1, o1, e1, m)
    ensures Handled(dict, t0, m0, t2, o2, e2, m)
  {
    match m
    case CharacterData(t) =>
      if t in t0 && t !in m0 {
        TextSettledKept(dict, t1, o1, e1, t2, o2, e2, t);
      }
    case ChildList(added) =>
      forall k | 0 <= k < |added| ensures SubtreeSettled(dict, t2, o2, e2, added[k]) {
        SubtreeSettledKept(dict, t1, o1, e1, t2, o2, e2, added[k]);
      }
  }

  /** Marks settled from `m0` to `m1` and from `m1` to `m2` are settled from `m0` to `m2`. */
  lemma MarksSettledTrans(dict: Dict, text: Texts, orig: Texts, m0: set<TextNode>, m1: set<TextNode>, m2: set<TextNode>)
    requires MarksSettled(dict, text, orig, m0, m1) && MarksSettled(dict, text, orig, m1, m2)
    ensures MarksSettled(dict, text, orig, m0, m2)
  {
  }

  /**
   * A scan settles what it visits: each visited text node shows the translation of its
   * original, each visited element is a translation and so its own translation, and
   * every node it marks is one it visited.
   */
  lemma ScanSettled(dict: Dict, t0: Texts, o0: Texts, k0: seq<TextNode>, m0: set<TextNode>, e0: Elems,
                    r: Subtree, t1: Texts, o1: Texts, m1: set<TextNode>, e1: Elems)
    requires ElemsMapped(Translating(dict), e0, ScanElems(r), |ScanElems(r)|, e1)
    requires TextsSwept(dict, t0, o0, k0, m0, ScanTexts(r), |ScanTexts(r)|, t1, o1, m1)
    ensures SubtreeSettled(dict, t1, o1, e1, r)
    ensures MarksSettled(dict, t1, o1, m0, m1)
  {
    var ts, es := ScanTexts(r), ScanElems(r);
    forall j | 0 <= j < |es| ensures ElemSettled(dict, e1, es[j]) {
      TranslateElemIdempotent(dict, e0[es[j]]);
    }
    assert ts[..|ts|] == ts;
    forall n | n in m1 && n !in m0 ensures TextSettled(dict, t1, o1, n) {
      var j :| 0 <= j < |ts| && ts[j] == n;
    }
  }

  /** The loop over added subtrees: one more subtree settled, the earlier ones kept. */
  lemma AddedStep(dict: Dict, added: seq<Subtree>, k: nat, m0: set<TextNode>,
                  t1: Texts, o1: Texts, e1: Elems, m1: set<TextNode>, t2: Texts, o2: Texts, e2: Elems, m2: set<TextNode>)
    requires k < |added|
    requires forall j :: 0 <= j < k ==> SubtreeSettled(dict, t1, o1, e1, added[j])
    requires MarksSettled(dict, t1, o1, m0, m1)
    requires Observed(dict, t1, o1, e1, t2, o2, e2)
    requires SubtreeSettled(dict, t2, o2, e2, added[k]) && MarksSettled(dict, t2, o2, m1, m2)
    ensures forall j :: 0 <= j < k + 1 ==> SubtreeSettled(dict, t2, o2, e2, added[j])
    ensures MarksSettled(dict, t2, o2, m0, m2)
  {
    forall j | 0 <= j < k ensures SubtreeSettled(dict, t2, o2, e2, added[j]) {
      SubtreeSettledKept(dict, t1, o1, e1, t2, o2, e2, added[j]);
    }
    MarksSettledKept(dict, t1, o1, e1, t2, o2, e2, m0, m1);
    MarksSettledTrans(dict, t2, o2, m0, m1, m2);
  }

  /**
   * The loop over a batch: one more record handled, the earlier ones kept.  A text node
   * the engine marked earlier in the same batch is skipped by the record, and it is
   * settled because the engine marked it.
   */
  lemma BatchStep(dict: Dict, batch: seq<Mutation>, i: nat, t0: Texts, m0: set<TextNode>,
                  t1: Texts, o1: Texts, e1: Elems, m1: set<TextNode>, t2: Texts, o2: Texts, e2: Elems, m2: set<TextNode>)
    requires i < |batch| && t1.Keys == t0.Keys
    requires forall j :: 0 <= j < i ==> Handled(dict, t0, m0, t1, o1, e1, batch[j])
    requires MarksSettled(dict, t1, o1, m0, m1)
    requires Observed(dict, t1, o1, e1, t2, o2, e2)
    requires Handled(dict, t1, m1, t2, o2, e2, batch[i]) && MarksSettled(dict, t2, o2, m1, m2)
    ensures forall j :: 0 <= j < i + 1 ==> Handled(dict, t0, m0, t2, o2, e2, batch[j])
    ensures MarksSettled(dict, t2, o2, m0, m2)
  {
    forall j | 0 <= j < i ensures Handled(dict, t0, m0, t2, o2, e2, batch[j]) {
      HandledKept(dict, t0, m0, t1, o1, e1, t2, o2, e2, batch[j]);
    }
    MarksSettledKept(dict, t1, o1, e1, t2, o2, e2, m0, m1);
    MarksSettledTrans(dict, t2, o2, m0, m1, m2);
  }

  /** A text node as a translation cell: its value and its recorded original, if any. */
  function CellOf(text: map<TextNode, string>, orig: map<TextNode, string>, n: TextNode): Cell
    requires n in text
  {
    Cell(text[n], if n in orig then Some(orig[n]) else None)
  }

  /** The value `translateTextNode` writes for an original: its translation when non-empty, else itself. */
  method TextTargetOf(dict: Dict, original: string) returns (target: string)
    ensures target == TextTarget(dict, original)
  {
    var replaced := TranslateString(dict, original);
    if replaced.Some? {
      TranslatedIsNonEmpty(dict, original);
    }
    target := if replaced.Some? && replaced.value != "" then replaced.value else original;
  }

  class Core {
    /** The live dictionary: normalised phrase to translation. */
    var dict: Dict
    var enabled: bool
    /** `textOrig`: the first value seen of every text node the engine touched. */
    var textOrig: map<TextNode, string>
    /** `touchedText`, in insertion order. */
    var touchedText: seq<TextNode>
    /** `touchedEls`, in insertion order. */
    var touchedEls: seq<Element>
    /** `mutatingText`: text nodes written by the engine whose clearing microtask has not run. */
    var mutatingText: set<TextNode>
    /** Whether the mutation observer is connected (`obs !== null`). */
    var obs: bool
    var isApplying: bool
    var applyScheduled: bool
    /** Reapply timers queued and not yet run. */
    ghost var applyTimers: nat
    /** Scan timers queued by `enable` and not yet run. */
    ghost var scanTimers: nat

    /** The structural invariant, which holds even inside `applyTouched` and `disable`. */
    ghost predicate Inv()
      reads this`touchedText, this`touchedEls, this`textOrig, this`applyTimers, this`applyScheduled
    {
      && NoDups(touchedText) && NoDups(touchedEls)
      && (forall n :: n in textOrig <==> n in touchedText)
      && applyTimers == (if applyScheduled then 1 else 0)
    }

    /** Between two engine calls: the invariant holds and the `isApplying` guard is released. */
    ghost predicate Valid()
      reads this`touchedText, this`touchedEls, this`textOrig, this`applyTimers, this`applyScheduled, this`isApplying
    {
      Inv() && !isApplying
    }

    /** Every touched node is a node of the page. */
    ghost predicate Attached(dom: Dom)
      reads this`textOrig, this`touchedEls, dom`text, dom`elems
    {
      && (forall n :: n in textOrig ==> n in dom.text)
      && (forall i :: 0 <= i < |touchedEls| ==> touchedEls[i] in dom.elems)
    }

    /** The state of the object literal: empty caches, enabled, no observer, nothing pending. */
    constructor()
      ensures Valid()
      ensures dict == map[] && enabled && textOrig == map[] && touchedText == [] && touchedEls == []
      ensures mutatingText == {} && !obs && !applyScheduled && scanTimers == 0
    {
      dict := map[];
      enabled := true;
      textOrig := map[];
      touchedText := [];
      touchedEls := [];
      mutatingText := {};
      obs := false;
      isApplying := false;
      applyScheduled := false;
      applyTimers := 0;
      scanTimers := 0;
    }

    // -------------------------------------------------------------------------
    // Storage
    // -------------------------------------------------------------------------

    /** `loadEnabledFromStorage`. */
    method LoadEnabledFromStorage(store: Store) returns (r: bool)
      modifies this`enabled
      ensures enabled == EnabledOf(store.enabledFlag) && r == enabled
    {
      match store.enabledFlag {
        case None =>
          enabled := true;
        case Some(v) =>
          enabled := v == "1" || v == "true";
      }
      r := enabled;
    }

    /** `saveEnabledToStorage`. */
    method SaveEnabledToStorage(store: Store)
      modifies store`enabledFlag
      ensures store.enabledFlag == Some(FlagOf(enabled))
    {
      store.enabledFlag := Some(if enabled then "1" else "0");
    }

    /** `loadDictFromStorage`: rebuilds the live dictionary from the stored object and returns its size. */
    method LoadDictFromStorage(store: Store) returns (n: nat)
      modifies this`dict
      ensures dict == LoadDict(StoredObject(store.dict)) && n == |dict|
    {
      var userDict := match store.dict case None => [] case Some(o) => o;
      var next: map<string, string> := map[];
      var i := 0;
      while i < |userDict|
        invariant i <= |userDict|
        invariant next == Collect(LoadPairs(userDict)[..i])
      {
        var k, v := userDict[i].0, userDict[i].1;
        CollectStep(LoadPairs(userDict), i);
        assert LoadPairs(userDict)[i] == LoadPair(userDict[i]);
        if k == "" || !Truthy(v) {
        } else {
          next := next[Lower(Trim(k)) := ToStr(v)];
        }
        i := i + 1;
      }
      assert LoadPairs(userDict)[..i] == LoadPairs(userDict);
      dict := next;
      n := |next|;
    }

    /**
     * `applyTranslations`, which the import and save paths run after storing the dictionary:
     * both entries are read again and a reapply is queued.
     */
    method ApplyTranslations(store: Store)
      requires Inv()
      modifies this`dict, this`enabled, this`applyScheduled, this`applyTimers
      ensures Inv() && applyScheduled
      ensures dict == LoadDict(StoredObject(store.dict)) && enabled == EnabledOf(store.enabledFlag)
    {
      var _ := LoadDictFromStorage(store);
      var _ := LoadEnabledFromStorage(store);
      ScheduleApplyTouched();
    }

    // -------------------------------------------------------------------------
    // Text nodes
    // -------------------------------------------------------------------------

    /**
     * `setText`: writes only on change, and marks the node as written by the engine when it
     * does (the clearing microtask is `ClearMark`).
     */
    method SetText(dom: Dom, node: TextNode, value: string)
      requires node in dom.text
      modifies this`mutatingText, dom`text
      ensures dom.text == old(dom.text)[node := value]
      ensures mutatingText == old(mutatingText) + (if old(dom.text)[node] == value then {} else {node})
      ensures old(dom.text)[node] == value ==> dom.text == old(dom.text)
    {
      if dom.text[node] == value {
        return;
      }
      mutatingText := mutatingText + {node};
      dom.SetNodeValue(node, value);
    }

    /** The microtask queued by `setText`. */
    method ClearMark(node: TextNode)
      modifies this`mutatingText
      ensures mutatingText == old(mutatingText) - {node}
    {
      mutatingText := mutatingText - {node};
    }

    /**
     * `translateTextNode`: a text node of the page is recorded on first sight and then shows
     * `TranslateCell` of its cell; a node that is not a text node of the page is ignored.
     */
    method TranslateTextNode(dom: Dom, node: TextNode)
      requires Inv() && Attached(dom)
      modifies this`textOrig, this`touchedText, this`mutatingText, dom`text
      ensures Inv() && Attached(dom)
      ensures node !in old(dom.text) ==>
                textOrig == old(textOrig) && touchedText == old(touchedText) &&
                mutatingText == old(mutatingText) && dom.text == old(dom.text)
      ensures node in old(dom.text) ==>
                var c := TranslateCell(dict, CellOf(old(dom.text), old(textOrig), node));
                && dom.text == old(dom.text)[node := c.value]
                && textOrig == old(textOrig)[node := c.orig.value]
                && touchedText == old(touchedText) + (if node in old(textOrig) then [] else [node])
                && mutatingText == old(mutatingText) + (if c.value == old(dom.text)[node] then {} else {node})
    {
      if node !in dom.text {
        return;
      }
      RecordOriginal(dom, node);
      var original := textOrig[node];
      var target := TextTargetOf(dict, original);
      SetText(dom, node, target);
    }

    /** The first step of `translateTextNode`: record the live value unless an original exists. */
    method RecordOriginal(dom: Dom, node: TextNode)
      requires Inv() && Attached(dom) && node in dom.text
      modifies this`textOrig, this`touchedText
      ensures Inv() && Attached(dom)
      ensures textOrig == old(textOrig)[node := CellOf(dom.text, old(textOrig), node).orig.GetOr(dom.text[node])]
      ensures touchedText == old(touchedText) + (if node in old(textOrig) then [] else [node])
    {
      if node !in textOrig {
        textOrig := textOrig[node := dom.text[node]];
        touchedText := touchedText + [node];
      }
    }

    /** The loop of `scanTranslate` over the text nodes `ns`, and of `applyTouched` over the touched ones. */
    method TranslateTextsOver(dom: Dom, ns: seq<TextNode>)
      requires Inv() && Attached(dom) && NoDups(ns) && forall j :: 0 <= j < |ns| ==> ns[j] in dom.text
      modifies this`textOrig, this`touchedText, this`mutatingText, dom`text
      ensures TranslatedTexts(dom, old(dom.text), old(textOrig), old(touchedText), old(mutatingText), ns, |ns|)
    {
      ghost var t0, o0, k0, m0 := dom.text, textOrig, touchedText, mutatingText;
      for i := 0 to |ns|
        invariant TranslatedTexts(dom, t0, o0, k0, m0, ns, i)
      {
        TranslateTextStep(dom, t0, o0, k0, m0, ns, i);
      }
    }

    /** The invariant of that loop, on the live state: see `TextsSwept`. */
    ghost predicate TranslatedTexts(dom: Dom, t0: map<TextNode, string>, o0: map<TextNode, string>, k0: seq<TextNode>,
                                    m0: set<TextNode>, ns: seq<TextNode>, i: nat)
      reads this`touchedText, this`touchedEls, this`textOrig, this`applyTimers, this`applyScheduled, this`dict, this`mutatingText, dom`text, dom`elems
    {
      && Inv() && Attached(dom)
      && TextsSwept(dict, t0, o0, k0, m0, ns, i, dom.text, textOrig, mutatingText)
      && TouchedTexts(o0, k0, ns, i, touchedText)
    }

    method TranslateTextStep(dom: Dom, ghost t0: map<TextNode, string>, ghost o0: map<TextNode, string>,
                             ghost k0: seq<TextNode>, ghost m0: set<TextNode>, ns: seq<TextNode>, i: nat)
      requires TranslatedTexts(dom, t0, o0, k0, m0, ns, i) && i < |ns|
      modifies this`textOrig, this`touchedText, this`mutatingText, dom`text
      ensures TranslatedTexts(dom, t0, o0, k0, m0, ns, i + 1)
    {
      ghost var t1, o1, k1, mk1 := dom.text, textOrig, touchedText, mutatingText;
      TranslateTextNode(dom, ns[i]);
      assert TranslateCell(dict, CellOf(t1, o1, ns[i])) ==
             Cell(TextTarget(dict, OrigOf(t1, o1, ns[i])), Some(OrigOf(t1, o1, ns[i])));
      TextsSweptStep(dict, t0, o0, k0, m0, ns, i, t1, o1, mk1, dom.text, textOrig, mutatingText);
      assert ns[i] in o1 <==> ns[i] in o0 by {
        assert ns[i] !in ns[..i];
      }
      TouchedTextsStep(o0, k0, ns, i, k1, touchedText, ns[i] !in o0);
    }

    /** `restoreTextNode`: a recorded original is written back; any other node is left alone. */
    method RestoreTextNode(dom: Dom, node: TextNode)
      requires Attached(dom)
      modifies this`mutatingText, dom`text
      ensures Attached(dom)
      ensures node in textOrig ==> dom.text == old(dom.text)[node := textOrig[node]]
      ensures node !in textOrig ==> dom.text == old(dom.text)
      ensures node in old(dom.text) ==> dom.text[node] == RestoreCell(CellOf(old(dom.text), textOrig, node)).value
      ensures mutatingText == old(mutatingText) +
                (if node in textOrig && old(dom.text)[node] != textOrig[node] then {node} else {})
    {
      if node in textOrig {
        var original := textOrig[node];
        SetText(dom, node, original);
      }
    }

    /** The loop of `applyTouched` and `disable` over the touched text nodes `ns`. */
    method RestoreTextsOver(dom: Dom, ns: seq<TextNode>)
      requires Attached(dom) && NoDups(ns) && forall j :: 0 <= j < |ns| ==> ns[j] in textOrig
      modifies this`mutatingText, dom`text
      ensures RestoredTexts(dom, old(dom.text), old(mutatingText), ns, |ns|)
    {
      ghost var t0, m0 := dom.text, mutatingText;
      for i := 0 to |ns|
        invariant RestoredTexts(dom, t0, m0, ns, i)
      {
        RestoreTextStep(dom, t0, m0, ns, i);
      }
    }

    /** The invariant of that loop, on the live state: see `TextsRestored`. */
    ghost predicate RestoredTexts(dom: Dom, t0: map<TextNode, string>, m0: set<TextNode>, ns: seq<TextNode>, i: nat)
      reads this`textOrig, this`touchedEls, dom`text, dom`elems, this`mutatingText
    {
      && Attached(dom)
      && TextsRestored(t0, m0, textOrig, ns, i, dom.text, mutatingText)
    }

    method RestoreTextStep(dom: Dom, ghost t0: map<TextNode, string>, ghost m0: set<TextNode>, ns: seq<TextNode>, i: nat)
      requires RestoredTexts(dom, t0, m0, ns, i) && i < |ns|
      modifies this`mutatingText, dom`text
      ensures RestoredTexts(dom, t0, m0, ns, i + 1)
    {
      var n := ns[i];
      TakeSnoc(ns, i);
      assert n !in ns[..i];
      ghost var t1, mk1 := dom.text, mutatingText;
      RestoreTextNode(dom, n);
      MarksStep(t0, t1, dom.text, m0, mk1, mutatingText, ns[..i], n);
    }

    // -------------------------------------------------------------------------
    // Attributes
    // -------------------------------------------------------------------------

    /** One iteration of the loop of `translateAttributes`, for attribute `a`. */
    method TranslateAttribute(dom: Dom, el: Element, a: string)
      requires el in dom.elems && a != ""
      modifies dom`elems, this`touchedEls
      ensures dom.elems == old(dom.elems)[el := TranslateAttr(dict, old(dom.elems)[el], a)]
      ensures touchedEls == old(touchedEls) +
                (if Stashes(SlotOf(old(dom.elems)[el], a)) && el !in old(touchedEls) then [el] else [])
    {
      StashesByGet(dom.elems[el], a);
      var v := Get(dom.elems[el].attrs, a);
      if v != "" {
        ghost var e0 := dom.elems;
        StashAttribute(dom, el, a, v);
        ghost var mid := dom.elems[el];
        WriteAttribute(dom, el, a, v);
        UpdateTwice(e0, el, mid, WriteAttr(dict, mid, a, v));
      }
    }

    /** Records `v` as the original of `a` unless one is stashed, marking the element as touched. */
    method StashAttribute(dom: Dom, el: Element, a: string, v: string)
      requires el in dom.elems && a != ""
      modifies dom`elems, this`touchedEls
      ensures dom.elems == old(dom.elems)[el := StashAttr(old(dom.elems)[el], a, v)]
      ensures touchedEls == old(touchedEls) +
                (if Get(old(dom.elems)[el].data, AttrKey(a)) == "" && el !in old(touchedEls) then [el] else [])
    {
      var dk := AttrKey(a);
      if Get(dom.elems[el].data, dk) == "" {
        dom.SetData(el, dk, v);
        if el !in touchedEls {
          touchedEls := touchedEls + [el];
        }
      }
    }

    /** Writes the trimmed translation of the stashed original (or the original) when it differs. */
    method WriteAttribute(dom: Dom, el: Element, a: string, v: string)
      requires el in dom.elems && a != ""
      modifies dom`elems
      ensures dom.elems == old(dom.elems)[el := WriteAttr(dict, old(dom.elems)[el], a, v)]
    {
      var dk := AttrKey(a);
      var st := dom.elems[el];
      var original := if Get(st.data, dk) != "" then st.data[dk] else v;
      var replaced := TranslateString(dict, original);
      if replaced.Some? {
        TranslatedIsNonEmpty(dict, original);
      }
      var target := if replaced.Some? && replaced.value != "" then Trim(replaced.value) else original;
      assert target == AttrTarget(dict, original);
      assert WriteAttr(dict, st, a, v) == if Get(st.attrs, a) != target then ElemState(st.attrs[a := target], st.data) else st;
      if Get(st.attrs, a) != target {
        dom.SetAttribute(el, a, target);
      } else {
        UpdateSame(dom.elems, el);
      }
    }

    /** The loop of `translateAttributes` over the independent attribute names `names`. */
    method TranslateAttributesOver(dom: Dom, el: Element, names: seq<string>)
      requires el in dom.elems && Independent(names)
      modifies dom`elems, this`touchedEls
      ensures dom.elems == old(dom.elems)[el := TranslateAttrs(dict, old(dom.elems)[el], names)]
      ensures touchedEls == old(touchedEls) +
                (if StashesAmong(old(dom.elems)[el], names) && el !in old(touchedEls) then [el] else [])
    {
      ghost var st, e0, t0 := dom.elems[el], dom.elems, touchedEls;
      assert names[..0] == [];
      assert e0[el := TranslateAttrs(dict, st, names[..0])] == e0;
      for i := 0 to |names|
        invariant TranslateAttrsLoop(dom, el, st, e0, t0, names, i)
      {
        TranslateNextAttribute(dom, el, st, e0, t0, names, i);
      }
      assert names[..|names|] == names;
    }

    /** The invariant of that loop after the first `i` names. */
    ghost predicate TranslateAttrsLoop(dom: Dom, el: Element, st: ElemState, e0: map<Element, ElemState>,
                                       t0: seq<Element>, names: seq<string>, i: nat)
      reads this`dict, this`touchedEls, dom`elems
    {
      && el in dom.elems && Independent(names) && i <= |names|
      && AllNames(names[..i])
      && dom.elems == e0[el := TranslateAttrs(dict, st, names[..i])]
      && touchedEls == t0 + (if StashesAmong(st, names[..i]) && el !in t0 then [el] else [])
    }

    /** The step of that loop: the attribute `names[i]`, whose slot the earlier steps left alone. */
    method TranslateNextAttribute(dom: Dom, el: Element, ghost st: ElemState, ghost e0: map<Element, ElemState>,
                                  ghost t0: seq<Element>, names: seq<string>, i: nat)
      requires TranslateAttrsLoop(dom, el, st, e0, t0, names, i) && i < |names|
      modifies dom`elems, this`touchedEls
      ensures TranslateAttrsLoop(dom, el, st, e0, t0, names, i + 1)
    {
      var a := names[i];
      ghost var cur := TranslateAttrs(dict, st, names[..i]);
      TranslateAttrsSnoc(dict, st, names, i);
      ghost var k1 := touchedEls;
      TranslateAttribute(dom, el, a);
      UpdateTwice(e0, el, cur, TranslateAttr(dict, cur, a));
      AddedOnce(t0, el, StashesAmong(st, names[..i]), Stashes(SlotOf(st, a)), k1, touchedEls);
    }

    /**
     * `translateAttributes`: the element ends up as `TranslateElem` says, and it joins the
     * touched elements when one of its three attributes has its original recorded now.
     */
    method TranslateAttributes(dom: Dom, el: Element)
      requires el in dom.elems
      modifies dom`elems, this`touchedEls
      ensures dom.elems == old(dom.elems)[el := TranslateElem(dict, old(dom.elems)[el])]
      ensures touchedEls == old(touchedEls) + (if StashesAny(old(dom.elems)[el]) && el !in old(touchedEls) then [el] else [])
    {
      TrackedIndependent();
      TranslateAttributesOver(dom, el, Tracked);
    }

    /** One iteration of the loop of `restoreAttributes`, for attribute `a`. */
    method RestoreAttribute(dom: Dom, el: Element, a: string)
      requires el in dom.elems && a != ""
      modifies dom`elems
      ensures dom.elems == old(dom.elems)[el := RestoreAttr(old(dom.elems)[el], a)]
    {
      var dk := AttrKey(a);
      var original := Look(dom.elems[el].data, dk);
      if original.Some? && Look(dom.elems[el].attrs, a) != original {
        dom.SetAttribute(el, a, original.value);
      }
    }

    /** The loop of `restoreAttributes` over the attribute names `names`. */
    method RestoreAttributesOver(dom: Dom, el: Element, names: seq<string>)
      requires el in dom.elems && AllNames(names)
      modifies dom`elems
      ensures dom.elems == old(dom.elems)[el := RestoreAttrs(old(dom.elems)[el], names)]
    {
      ghost var st := dom.elems[el];
      for i := 0 to |names|
        invariant el in dom.elems
        invariant AllNames(names[..i])
        invariant dom.elems == old(dom.elems)[el := RestoreAttrs(st, names[..i])]
      {
        assert names[..i + 1][..i] == names[..i];
        ghost var cur := RestoreAttrs(st, names[..i]);
        RestoreAttribute(dom, el, names[i]);
        UpdateTwice(old(dom.elems), el, cur, RestoreAttr(cur, names[i]));
      }
      assert names[..|names|] == names;
    }

    /** `restoreAttributes`: the element ends up as `RestoreElem` says. */
    method RestoreAttributes(dom: Dom, el: Element)
      requires el in dom.elems
      modifies dom`elems
      ensures dom.elems == old(dom.elems)[el := RestoreElem(old(dom.elems)[el])]
    {
      TrackedIndependent();
      RestoreAttributesOver(dom, el, Tracked);
    }
    /** The loop of `scanTranslate` over the elements `es`, and of `applyTouched` over the touched ones. */
    method TranslateElemsOver(dom: Dom, es: seq<Element>)
      requires Inv() && Attached(dom) && NoDups(es) && forall j :: 0 <= j < |es| ==> es[j] in dom.elems
      modifies dom`elems, this`touchedEls
      ensures Inv() && Attached(dom)
      ensures TranslatedElems(dom, old(dom.elems), old(touchedEls), es, |es|)
    {
      ghost var e0, k0 := dom.elems, touchedEls;
      assert es[..0] == [];
      for i := 0 to |es|
        invariant TranslatedElems(dom, e0, k0, es, i)
      {
        TranslateElemStep(dom, e0, k0, es, i);
      }
    }

    /** The invariant of that loop, on the live state: see `ElemsMapped` and `TouchedElems`. */
    ghost predicate TranslatedElems(dom: Dom, e0: map<Element, ElemState>, k0: seq<Element>, es: seq<Element>, i: nat)
      reads this`dict, this`touchedEls, dom`elems
    {
      && NoDups(touchedEls) && (forall j :: 0 <= j < |touchedEls| ==> touchedEls[j] in dom.elems)
      && ElemsMapped(Translating(dict), e0, es, i, dom.elems)
      && TouchedElems(e0, k0, es, i, touchedEls)
    }

    method TranslateElemStep(dom: Dom, ghost e0: map<Element, ElemState>, ghost k0: seq<Element>, es: seq<Element>, i: nat)
      requires TranslatedElems(dom, e0, k0, es, i) && i < |es|
      modifies dom`elems, this`touchedEls
      ensures TranslatedElems(dom, e0, k0, es, i + 1)
    {
      ghost var el1, k1 := dom.elems, touchedEls;
      TranslateAttributes(dom, es[i]);
      ElemsTranslatedStep(dict, e0, k0, es, i, el1, k1, dom.elems, touchedEls);
    }

    /** The loop of `applyTouched` and `disable` over the touched elements `es`. */
    method RestoreElemsOver(dom: Dom, es: seq<Element>)
      requires NoDups(es) && forall j :: 0 <= j < |es| ==> es[j] in dom.elems
      modifies dom`elems
      ensures ElemsMapped(RestoreElem, old(dom.elems), es, |es|, dom.elems)
    {
      ghost var e0 := dom.elems;
      assert es[..0] == [];
      for i := 0 to |es|
        invariant ElemsMapped(RestoreElem, e0, es, i, dom.elems)
      {
        ghost var el1 := dom.elems;
        RestoreAttributes(dom, es[i]);
        ElemsMappedStep(RestoreElem, e0, es, i, el1, dom.elems);
      }
    }
    // -------------------------------------------------------------------------
    // Reapplying to everything touched
    // -------------------------------------------------------------------------

    /** The first two loops of `applyTouched`, and the loops of `disable`: every touched node shows its original. */
    method RestoreTouched(dom: Dom)
      requires Inv() && Attached(dom)
      modifies this`mutatingText, dom`text, dom`elems
      ensures Inv() && Attached(dom)
      ensures TextsShown(dict, false, textOrig, old(dom.text), dom.text)
      ensures ElemsShown(dict, false, touchedEls, old(dom.elems), dom.elems)
      ensures MarksWrites(old(dom.text), dom.text, old(mutatingText), mutatingText, touchedText)
    {
      RestoreTextsOver(dom, touchedText);
      TextsRestoredShown(dict, old(dom.text), old(mutatingText), textOrig, touchedText, dom.text, mutatingText);
      RestoreElemsOver(dom, touchedEls);
      ElemsMappedAll(RestoreElem, old(dom.elems), touchedEls, dom.elems);
    }

    /** The last two loops of `applyTouched`: every touched node is translated again from its original. */
    method TranslateTouched(dom: Dom)
      requires Inv() && Attached(dom)
      modifies this`textOrig, this`touchedText, this`touchedEls, this`mutatingText, dom`text, dom`elems
      ensures Inv() && Attached(dom)
      ensures textOrig == old(textOrig) && touchedText == old(touchedText) && touchedEls == old(touchedEls)
      ensures TextsShown(dict, true, textOrig, old(dom.text), dom.text)
      ensures ElemsMapped(Translating(dict), old(dom.elems), touchedEls, |touchedEls|, dom.elems)
      ensures MarksWrites(old(dom.text), dom.text, old(mutatingText), mutatingText, touchedText)
    {
      TranslateTouchedTexts(dom);
      TranslateTouchedElems(dom);
    }

    /** The third loop of `applyTouched`: every touched text node shows the translation of its original. */
    method TranslateTouchedTexts(dom: Dom)
      requires Inv() && Attached(dom)
      modifies this`textOrig, this`touchedText, this`mutatingText, dom`text
      ensures Inv() && Attached(dom)
      ensures textOrig == old(textOrig) && touchedText == old(touchedText)
      ensures TextsShown(dict, true, textOrig, old(dom.text), dom.text)
      ensures MarksWrites(old(dom.text), dom.text, old(mutatingText), mutatingText, touchedText)
    {
      ghost var t0, o0, k0, m0 := dom.text, textOrig, touchedText, mutatingText;
      TranslateTextsOver(dom, touchedText);
      TextsSweptShown(dict, t0, o0, k0, m0, dom.text, textOrig, touchedText, mutatingText);
    }

    /** The fourth loop of `applyTouched`: every touched element is translated again. */
    method TranslateTouchedElems(dom: Dom)
      requires Inv() && Attached(dom)
      modifies this`touchedEls, dom`elems
      ensures Inv() && Attached(dom)
      ensures touchedEls == old(touchedEls)
      ensures ElemsMapped(Translating(dict), old(dom.elems), touchedEls, |touchedEls|, dom.elems)
    {
      ghost var e0, ke0 := dom.elems, touchedEls;
      TranslateElemsOver(dom, touchedEls);
      assert ke0[..|ke0|] == ke0;
      FreshElemsNone(e0, ke0, ke0);
    }

    /**
     * `applyTouched`: with a body, every touched text node and element shows its translation
     * when translation is on (`enabled` and a non-empty dictionary) and its original
     * otherwise, computed from the recorded originals alone; nothing else changes, and the
     * guard is released at the end.
     */
    method ApplyTouched(dom: Dom)
      requires Valid() && Attached(dom)
      modifies this`isApplying, this`textOrig, this`touchedText, this`touchedEls, this`mutatingText, dom`text, dom`elems
      ensures Valid() && Attached(dom)
      ensures textOrig == old(textOrig) && touchedText == old(touchedText) && touchedEls == old(touchedEls)
      ensures dom.body.None? ==> dom.text == old(dom.text) && dom.elems == old(dom.elems) && mutatingText == old(mutatingText)
      ensures dom.body.Some? ==> ShowsTouched(dom, old(dom.text), old(dom.elems), old(mutatingText), enabled && |dict| > 0)
    {
      if dom.body.None? {
        return;
      }
      isApplying := true;
      Reapply(dom);
      isApplying := false;
    }

    /** The four loops of `applyTouched`, run under the guard. */
    method Reapply(dom: Dom)
      requires Inv() && Attached(dom)
      modifies this`textOrig, this`touchedText, this`touchedEls, this`mutatingText, dom`text, dom`elems
      ensures Inv() && Attached(dom)
      ensures textOrig == old(textOrig) && touchedText == old(touchedText) && touchedEls == old(touchedEls)
      ensures ShowsTouched(dom, old(dom.text), old(dom.elems), old(mutatingText), enabled && |dict| > 0)
    {
      if enabled && |dict| > 0 {
        RestoreAndTranslate(dom);
      } else {
        RestoreTouched(dom);
      }
    }

    /** `applyTouched` with translation on: restore every touched node, then translate it again. */
    method RestoreAndTranslate(dom: Dom)
      requires Inv() && Attached(dom)
      modifies this`textOrig, this`touchedText, this`touchedEls, this`mutatingText, dom`text, dom`elems
      ensures Inv() && Attached(dom)
      ensures textOrig == old(textOrig) && touchedText == old(touchedText) && touchedEls == old(touchedEls)
      ensures ShowsTouched(dom, old(dom.text), old(dom.elems), old(mutatingText), true)
    {
      RestoreTouched(dom);
      ghost var t1, e1, m1 := dom.text, dom.elems, mutatingText;
      TranslateTouched(dom);
      MarksCompose(old(dom.text), t1, dom.text, old(mutatingText), m1, mutatingText, touchedText);
      ElemsReapplied(dict, touchedEls, old(dom.elems), e1, dom.elems);
    }

    /** What `applyTouched` and `disable` leave: see `TextsShown` and `ElemsShown`; every change is marked. */
    ghost predicate ShowsTouched(dom: Dom, t0: map<TextNode, string>, e0: map<Element, ElemState>, m0: set<TextNode>, on: bool)
      reads this`dict, this`textOrig, this`touchedEls, this`touchedText, this`mutatingText, dom`text, dom`elems
    {
      && TextsShown(dict, on, textOrig, t0, dom.text)
      && ElemsShown(dict, on, touchedEls, e0, dom.elems)
      && MarksWrites(t0, dom.text, m0, mutatingText, touchedText)
    }
    /** `scheduleApplyTouched`: queues a reapply unless one is pending, so at most one ever is. */
    method ScheduleApplyTouched()
      requires Inv()
      modifies this`applyScheduled, this`applyTimers
      ensures Inv() && applyScheduled && applyTimers == 1
      ensures old(applyScheduled) ==> applyTimers == old(applyTimers)
    {
      if applyScheduled {
        return;
      }
      applyScheduled := true;
      applyTimers := applyTimers + 1;
    }

    /**
     * The timer queued by `scheduleApplyTouched`. It clears the flag before it applies, so
     * the next request queues a new run.
     */
    method RunScheduledApply(dom: Dom)
      requires Valid() && Attached(dom) && applyScheduled
      modifies this`applyScheduled, this`applyTimers, this`isApplying, this`textOrig, this`touchedText,
               this`touchedEls, this`mutatingText, dom`text, dom`elems
      ensures Valid() && Attached(dom) && !applyScheduled && applyTimers == 0
      ensures textOrig == old(textOrig) && touchedText == old(touchedText) && touchedEls == old(touchedEls)
      ensures dom.body.None? ==> dom.text == old(dom.text) && dom.elems == old(dom.elems) && mutatingText == old(mutatingText)
      ensures dom.body.Some? ==> ShowsTouched(dom, old(dom.text), old(dom.elems), old(mutatingText), enabled && |dict| > 0)
    {
      applyScheduled := false;
      applyTimers := applyTimers - 1;
      ApplyTouched(dom);
    }

    // -------------------------------------------------------------------------
    // Enabling and disabling
    // -------------------------------------------------------------------------

    /** `ensureObserver`: connects the observer when enabled, not yet connected and there is a body. */
    method EnsureObserver(dom: Dom)
      modifies this`obs
      ensures obs == (old(obs) || (enabled && dom.body.Some?))
    {
      if !enabled {
        return;
      }
      if obs || dom.body.None? {
        return;
      }
      obs := true;
    }

    /**
     * `disable`: saves the flag, disconnects the observer and writes every original back,
     * under the `isApplying` guard, which is released on exit.
     */
    method Disable(dom: Dom, store: Store)
      requires Valid() && Attached(dom)
      modifies this`enabled, this`obs, this`isApplying, this`mutatingText, store`enabledFlag, dom`text, dom`elems
      ensures Valid() && Attached(dom) && !enabled && !obs
      ensures store.enabledFlag == Some(FlagOf(false))
      ensures ShowsTouched(dom, old(dom.text), old(dom.elems), old(mutatingText), false)
    {
      enabled := false;
      SaveEnabledToStorage(store);
      obs := false;
      isApplying := true;
      RestoreTouched(dom);
      isApplying := false;
    }

    /**
     * `enable`: saves the flag, reloads the dictionary and connects the observer; then, with a
     * non-empty dictionary and a body, queues a scan of the body, and otherwise a reapply.
     */
    method Enable(dom: Dom, store: Store)
      requires Valid() && Attached(dom)
      modifies this`enabled, this`dict, this`obs, this`scanTimers, this`applyScheduled, this`applyTimers, store`enabledFlag
      ensures Valid() && Attached(dom) && enabled
      ensures store.enabledFlag == Some(FlagOf(true))
      ensures dict == LoadDict(StoredObject(store.dict))
      ensures obs == (old(obs) || dom.body.Some?)
      ensures |dict| > 0 && dom.body.Some? ==>
                scanTimers == old(scanTimers) + 1 && applyScheduled == old(applyScheduled) && applyTimers == old(applyTimers)
      ensures !(|dict| > 0 && dom.body.Some?) ==> scanTimers == old(scanTimers) && applyScheduled
    {
      SwitchOn(dom, store);
      if |dict| > 0 && dom.body.Some? {
        scanTimers := scanTimers + 1;
      } else {
        ScheduleApplyTouched();
      }
    }

    /** The first steps of `enable`: the flag is saved, the dictionary reloaded and the observer connected. */
    method SwitchOn(dom: Dom, store: Store)
      modifies this`enabled, this`dict, this`obs, store`enabledFlag
      ensures enabled && store.enabledFlag == Some(FlagOf(true))
      ensures dict == LoadDict(StoredObject(store.dict))
      ensures obs == (old(obs) || dom.body.Some?)
    {
      enabled := true;
      SaveEnabledToStorage(store);
      var _ := LoadDictFromStorage(store);
      EnsureObserver(dom);
    }

    /**
     * `setEnabled(v)`: a no-op when `!!v` is the current state; otherwise `enable` or
     * `disable`. Returns the new state, which is `!!v`.
     */
    method SetEnabled(dom: Dom, store: Store, v: JsValue) returns (r: bool)
      requires Valid() && Attached(dom)
      modifies this`enabled, this`dict, this`obs, this`scanTimers, this`applyScheduled, this`applyTimers,
               this`isApplying, this`mutatingText, store`enabledFlag, dom`text, dom`elems
      ensures Valid() && Attached(dom)
      ensures r == enabled && enabled == Truthy(v)
      ensures Truthy(v) == old(enabled) ==> unchanged(this) && unchanged(store) && unchanged(dom)
      ensures Truthy(v) && !old(enabled) ==>
                && store.enabledFlag == Some(FlagOf(true)) && dict == LoadDict(StoredObject(store.dict))
                && obs == (old(obs) || dom.body.Some?)
                && dom.text == old(dom.text) && dom.elems == old(dom.elems)
                && mutatingText == old(mutatingText) && isApplying == old(isApplying)
                && (|dict| > 0 && dom.body.Some? ==>
                      scanTimers == old(scanTimers) + 1 && applyScheduled == old(applyScheduled) &&
                      applyTimers == old(applyTimers))
                && (!(|dict| > 0 && dom.body.Some?) ==> scanTimers == old(scanTimers) && applyScheduled)
      ensures !Truthy(v) && old(enabled) ==>
                store.enabledFlag == Some(FlagOf(false)) && !obs &&
                ShowsTouched(dom, old(dom.text), old(dom.elems), old(mutatingText), false)
    {
      var next := Truthy(v);
      if next == enabled {
        return enabled;
      }
      if next {
        Enable(dom, store);
      } else {
        Disable(dom, store);
      }
      r := enabled;
    }

    // -------------------------------------------------------------------------
    // Scanning and observing
    // -------------------------------------------------------------------------

    /**
     * `scanTranslate(root)`: when enabled, the elements of the subtree are translated as
     * `translateAttributes` says, then its text nodes as `translateTextNode` says; when
     * disabled nothing happens.
     */
    method ScanTranslate(dom: Dom, r: Subtree)
      requires Inv() && Attached(dom) && HoldsIn(r, dom.text.Keys, dom.elems.Keys)
      modifies this`textOrig, this`touchedText, this`touchedEls, this`mutatingText, dom`text, dom`elems
      ensures Inv() && Attached(dom)
      ensures !enabled ==>
                dom.text == old(dom.text) && dom.elems == old(dom.elems) && textOrig == old(textOrig) &&
                touchedText == old(touchedText) && touchedEls == old(touchedEls) && mutatingText == old(mutatingText)
      ensures enabled ==>
                Scanned(dom, r, old(dom.text), old(textOrig), old(touchedText), old(mutatingText), old(dom.elems), old(touchedEls))
    {
      if !enabled {
        return;
      }
      ScanSubtree(dom, r);
    }

    /** The two traversals of `scanTranslate`, once it has decided to run. */
    method ScanSubtree(dom: Dom, r: Subtree)
      requires Inv() && Attached(dom) && HoldsIn(r, dom.text.Keys, dom.elems.Keys)
      modifies this`textOrig, this`touchedText, this`touchedEls, this`mutatingText, dom`text, dom`elems
      ensures Inv() && Attached(dom)
      ensures Scanned(dom, r, old(dom.text), old(textOrig), old(touchedText), old(mutatingText), old(dom.elems), old(touchedEls))
    {
      TranslateElemsThenTexts(dom, ScanElems(r), ScanTexts(r));
    }

    /** The element traversal over `es` followed by the text traversal over `ts`. */
    method TranslateElemsThenTexts(dom: Dom, es: seq<Element>, ts: seq<TextNode>)
      requires Inv() && Attached(dom) && NoDups(es) && NoDups(ts)
      requires (forall j :: 0 <= j < |es| ==> es[j] in dom.elems) && (forall j :: 0 <= j < |ts| ==> ts[j] in dom.text)
      modifies this`textOrig, this`touchedText, this`touchedEls, this`mutatingText, dom`text, dom`elems
      ensures TranslatedElems(dom, old(dom.elems), old(touchedEls), es, |es|)
      ensures TranslatedTexts(dom, old(dom.text), old(textOrig), old(touchedText), old(mutatingText), ts, |ts|)
    {
      TranslateElemsOver(dom, es);
      TranslateTextsOver(dom, ts);
    }

    /** What a scan of `r` leaves: see `ElemsMapped`, `TouchedElems`, `TextsSwept` and `TouchedTexts`. */
    ghost predicate Scanned(dom: Dom, r: Subtree, t0: map<TextNode, string>, o0: map<TextNode, string>,
                            k0: seq<TextNode>, m0: set<TextNode>, e0: map<Element, ElemState>, ke0: seq<Element>)
      reads this`dict, this`textOrig, this`touchedEls, this`touchedText, this`mutatingText, dom`text, dom`elems
    {
      && ElemsMapped(Translating(dict), e0, ScanElems(r), |ScanElems(r)|, dom.elems)
      && TouchedElems(e0, ke0, ScanElems(r), |ScanElems(r)|, touchedEls)
      && TextsSwept(dict, t0, o0, k0, m0, ScanTexts(r), |ScanTexts(r)|, dom.text, textOrig, mutatingText)
      && TouchedTexts(o0, k0, ScanTexts(r), |ScanTexts(r)|, touchedText)
    }

    /** The timer queued by `enable`: scans the body if still enabled. */
    method RunScheduledScan(dom: Dom)
      requires Valid() && Attached(dom) && scanTimers > 0
      requires dom.body.Some? ==> HoldsIn(dom.body.value, dom.text.Keys, dom.elems.Keys)
      modifies this`scanTimers, this`textOrig, this`touchedText, this`touchedEls, this`mutatingText, dom`text, dom`elems
      ensures Valid() && Attached(dom) && scanTimers == old(scanTimers) - 1
      ensures !enabled || dom.body.None? ==>
                dom.text == old(dom.text) && dom.elems == old(dom.elems) && textOrig == old(textOrig) &&
                touchedText == old(touchedText) && touchedEls == old(touchedEls) && mutatingText == old(mutatingText)
      ensures enabled && dom.body.Some? ==>
                Scanned(dom, dom.body.value, old(dom.text), old(textOrig), old(touchedText), old(mutatingText),
                        old(dom.elems), old(touchedEls))
    {
      scanTimers := scanTimers - 1;
      if !enabled {
        return;
      }
      match dom.body {
        case None =>
        case Some(b) =>
          ScanTranslate(dom, b);
      }
    }
    /**
     * One record of a batch, once the guards have passed: a text change to a node the
     * engine did not just write is translated again from its original; a node the engine
     * just wrote (one in `mutatingText`) is skipped; every added subtree is scanned.
     */
    method HandleMutation(dom: Dom, m: Mutation)
      requires Inv() && Attached(dom) && enabled && Delivered(m, dom.text.Keys, dom.elems.Keys)
      modifies this`textOrig, this`touchedText, this`touchedEls, this`mutatingText, dom`text, dom`elems
      ensures Inv() && Attached(dom)
      ensures Observed(dict, old(dom.text), old(textOrig), old(dom.elems), dom.text, textOrig, dom.elems)
      ensures Grown(old(touchedText), touchedText, old(touchedEls), touchedEls, old(dom.text), dom.text,
                    old(mutatingText), mutatingText)
      ensures m.CharacterData? && m.target in old(mutatingText) ==>
                dom.text == old(dom.text) && textOrig == old(textOrig) && mutatingText == old(mutatingText)
      ensures Handled(dict, old(dom.text), old(mutatingText), dom.text, textOrig, dom.elems, m)
      ensures MarksSettled(dict, dom.text, textOrig, old(mutatingText), mutatingText)
    {
      ghost var t0, o0, k0, m0, e0, ke0 := dom.text, textOrig, touchedText, mutatingText, dom.elems, touchedEls;
      match m {
        case CharacterData(t) =>
          if t in mutatingText {
            ObservedRefl(dict, t0, o0, e0, k0, ke0, m0);
            return;
          }
          TranslateTextNode(dom, t);
          if t in t0 {
            TextObserved(dict, t0, o0, k0, m0, e0, ke0, t, dom.text, textOrig, touchedText, mutatingText);
          } else {
            ObservedRefl(dict, t0, o0, e0, k0, ke0, m0);
          }
        case ChildList(added) =>
          ObservedRefl(dict, t0, o0, e0, k0, ke0, m0);
          for k := 0 to |added|
            invariant Inv() && Attached(dom)
            invariant Observed(dict, t0, o0, e0, dom.text, textOrig, dom.elems)
            invariant Grown(k0, touchedText, ke0, touchedEls, t0, dom.text, m0, mutatingText)
            invariant forall j :: 0 <= j < k ==> SubtreeSettled(dict, dom.text, textOrig, dom.elems, added[j])
            invariant MarksSettled(dict, dom.text, textOrig, m0, mutatingText)
          {
            ScanAdded(dom, added, k, t0, o0, k0, m0, e0, ke0);
          }
      }
    }

    /** One added subtree of a `childList` record, inside the loop of `HandleMutation`. */
    method ScanAdded(dom: Dom, added: seq<Subtree>, k: nat, ghost t0: map<TextNode, string>, ghost o0: map<TextNode, string>,
                     ghost k0: seq<TextNode>, ghost m0: set<TextNode>, ghost e0: map<Element, ElemState>,
                     ghost ke0: seq<Element>)
      requires Inv() && Attached(dom) && enabled && k < |added| && HoldsIn(added[k], t0.Keys, e0.Keys)
      requires Observed(dict, t0, o0, e0, dom.text, textOrig, dom.elems)
      requires Grown(k0, touchedText, ke0, touchedEls, t0, dom.text, m0, mutatingText)
      requires forall j :: 0 <= j < k ==> SubtreeSettled(dict, dom.text, textOrig, dom.elems, added[j])
      requires MarksSettled(dict, dom.text, textOrig, m0, mutatingText)
      modifies this`textOrig, this`touchedText, this`touchedEls, this`mutatingText, dom`text, dom`elems
      ensures Inv() && Attached(dom)
      ensures Observed(dict, t0, o0, e0, dom.text, textOrig, dom.elems)
      ensures Grown(k0, touchedText, ke0, touchedEls, t0, dom.text, m0, mutatingText)
      ensures forall j :: 0 <= j < k + 1 ==> SubtreeSettled(dict, dom.text, textOrig, dom.elems, added[j])
      ensures MarksSettled(dict, dom.text, textOrig, m0, mutatingText)
    {
      ghost var t1, o1, k1, m1, e1, ke1 := dom.text, textOrig, touchedText, mutatingText, dom.elems, touchedEls;
      var r := added[k];
      ScanSubtree(dom, r);
      ScanObserved(dict, t1, o1, k1, m1, e1, ke1, ScanTexts(r), ScanElems(r),
                   dom.text, textOrig, touchedText, mutatingText, dom.elems, touchedEls);
      ScanSettled(dict, t1, o1, k1, m1, e1, r, dom.text, textOrig, mutatingText, dom.elems);
      AddedStep(dict, added, k, m0, t1, o1, e1, m1, dom.text, textOrig, dom.elems, mutatingText);
      ObservedTrans(dict, t0, o0, e0, t1, o1, e1, dom.text, textOrig, dom.elems);
      GrownTrans(k0, k1, touchedText, ke0, ke1, touchedEls, t0, t1, dom.text, m0, m1, mutatingText);
    }

    /**
     * The observer callback on a batch of records: nothing happens when disabled, while
     * `applyTouched` or `disable` runs, or with an empty dictionary; otherwise each record is
     * handled in order (see `Handled`), and the batch as a whole only adds originals and
     * translations.
     */
    method OnMutations(dom: Dom, batch: seq<Mutation>)
      requires Inv() && Attached(dom)
      requires forall i :: 0 <= i < |batch| ==> Delivered(batch[i], dom.text.Keys, dom.elems.Keys)
      modifies this`textOrig, this`touchedText, this`touchedEls, this`mutatingText, dom`text, dom`elems
      ensures Inv() && Attached(dom)
      ensures !enabled || isApplying || |dict| == 0 ==>
                dom.text == old(dom.text) && dom.elems == old(dom.elems) && textOrig == old(textOrig) &&
                touchedText == old(touchedText) && touchedEls == old(touchedEls) && mutatingText == old(mutatingText)
      ensures enabled && !isApplying && |dict| > 0 ==>
                forall i :: 0 <= i < |batch| ==>
                  Handled(dict, old(dom.text), old(mutatingText), dom.text, textOrig, dom.elems, batch[i])
      ensures Observed(dict, old(dom.text), old(textOrig), old(dom.elems), dom.text, textOrig, dom.elems)
      ensures Grown(old(touchedText), touchedText, old(touchedEls), touchedEls, old(dom.text), dom.text,
                    old(mutatingText), mutatingText)
    {
      ghost var t0, o0, k0, m0, e0, ke0 := dom.text, textOrig, touchedText, mutatingText, dom.elems, touchedEls;
      ObservedRefl(dict, t0, o0, e0, k0, ke0, m0);
      if !enabled || isApplying || |dict| == 0 {
        return;
      }
      for i := 0 to |batch|
        invariant Inv() && Attached(dom)
        invariant Observed(dict, t0, o0, e0, dom.text, textOrig, dom.elems)
        invariant Grown(k0, touchedText, ke0, touchedEls, t0, dom.text, m0, mutatingText)
        invariant forall j :: 0 <= j < i ==> Handled(dict, t0, m0, dom.text, textOrig, dom.elems, batch[j])
        invariant MarksSettled(dict, dom.text, textOrig, m0, mutatingText)
      {
        HandleNext(dom, batch, i, t0, o0, k0, m0, e0, ke0);
      }
    }

    /** One record of the batch, inside the loop of `OnMutations`. */
    method HandleNext(dom: Dom, batch: seq<Mutation>, i: nat, ghost t0: map<TextNode, string>,
                      ghost o0: map<TextNode, string>, ghost k0: seq<TextNode>, ghost m0: set<TextNode>,
                      ghost e0: map<Element, ElemState>, ghost ke0: seq<Element>)
      requires Inv() && Attached(dom) && enabled && i < |batch| && Delivered(batch[i], t0.Keys, e0.Keys)
      requires Observed(dict, t0, o0, e0, dom.text, textOrig, dom.elems)
      requires Grown(k0, touchedText, ke0, touchedEls, t0, dom.text, m0, mutatingText)
      requires forall j :: 0 <= j < i ==> Handled(dict, t0, m0, dom.text, textOrig, dom.elems, batch[j])
      requires MarksSettled(dict, dom.text, textOrig, m0, mutatingText)
      modifies this`textOrig, this`touchedText, this`touchedEls, this`mutatingText, dom`text, dom`elems
      ensures Inv() && Attached(dom)
      ensures Observed(dict, t0, o0, e0, dom.text, textOrig, dom.elems)
      ensures Grown(k0, touchedText, ke0, touchedEls, t0, dom.text, m0, mutatingText)
      ensures forall j :: 0 <= j < i + 1 ==> Handled(dict, t0, m0, dom.text, textOrig, dom.elems, batch[j])
      ensures MarksSettled(dict, dom.text, textOrig, m0, mutatingText)
    {
      ghost var t1, o1, k1, m1, e1, ke1 := dom.text, textOrig, touchedText, mutatingText, dom.elems, touchedEls;
      HandleMutation(dom, batch[i]);
      BatchStep(dict, batch, i, t0, m0, t1, o1, e1, m1, dom.text, textOrig, dom.elems, mutatingText);
      ObservedTrans(dict, t0, o0, e0, t1, o1, e1, dom.text, textOrig, dom.elems);
      GrownTrans(k0, k1, touchedText, ke0, ke1, touchedEls, t0, t1, dom.text, m0, m1, mutatingText);
    }
  }
}
