/**
 * The part of the page the overlay reads and writes: text nodes with their `nodeValue`,
 * elements with their attributes and `dataset`, the subtrees a scan walks and the
 * mutation records the observer receives.  Nodes are abstract identities.
 */
module Document {
  import opened Wrappers
  import opened Translator

  datatype TextNode = TextNode(id: nat)
  datatype Element = Element(id: nat)

  /**
   * A node handed to `scanTranslate`, with what the traversal finds under it: an element
   * with its descendant elements (`querySelectorAll("*")`) and the text nodes a
   * `SHOW_TEXT` tree walker visits, both in document order; a text node, which has no
   * descendants, so the walker (which never yields its root) visits nothing; or any other
   * node (a comment, say), which the scan ignores in the same way.
   */
  datatype Subtree =
    | ElemTree(root: Element, descendants: seq<Element>, texts: seq<TextNode>)
    | TextLeaf(node: TextNode)
    | OtherLeaf

  /**
   * A mutation record of a type the observer subscribes to.  The target of a
   * `characterData` record is any character-data node whose data changed: a text node, or
   * a comment (or other character-data node) under the body, which the callback records and
   * translates exactly like a text node.  A `TextNode` identity stands for either.
   */
  datatype Mutation =
    | CharacterData(target: TextNode)
    | ChildList(added: seq<Subtree>)

  /** Each item of `s` occurs once. */
  predicate NoDups<T(==)>(s: seq<T>) {
    forall i, j :: 0 <= i < j < |s| ==> s[i] != s[j]
  }

  /** The elements `scanTranslate` passes to `translateAttributes`, in order. */
  function ScanElems(r: Subtree): seq<Element>
  {
    match r
    case ElemTree(root, ds, _) => [root] + ds
    case TextLeaf(_) => []
    case OtherLeaf => []
  }

  /** The text nodes `scanTranslate` passes to `translateTextNode`, in order. */
  function ScanTexts(r: Subtree): seq<TextNode>
  {
    match r
    case ElemTree(_, _, ts) => ts
    case TextLeaf(_) => []
    case OtherLeaf => []
  }

  /** The traversal of `r` names existing text nodes and elements only, each once. */
  predicate HoldsIn(r: Subtree, texts: set<TextNode>, elems: set<Element>) {
    && (forall i :: 0 <= i < |ScanElems(r)| ==> ScanElems(r)[i] in elems)
    && (forall i :: 0 <= i < |ScanTexts(r)| ==> ScanTexts(r)[i] in texts)
    && NoDups(ScanElems(r)) && NoDups(ScanTexts(r))
  }

  /** A record the observer can receive about existing nodes: every added subtree holds in the page. */
  predicate Delivered(m: Mutation, texts: set<TextNode>, elems: set<Element>) {
    match m
    case CharacterData(_) => true
    case ChildList(added) => forall k :: 0 <= k < |added| ==> HoldsIn(added[k], texts, elems)
  }

  /** The page: every existing text node and element, attached or not. */
  class Dom {
    /** `document.body` and its subtree, if there is a body yet. */
    var body: Option<Subtree>
    /** `nodeValue` of every text node. */
    var text: map<TextNode, string>
    /** Attributes and `dataset` of every element. */
    var elems: map<Element, ElemState>

    constructor(body: Option<Subtree>, text: map<TextNode, string>, elems: map<Element, ElemState>)
      ensures this.body == body && this.text == text && this.elems == elems
    {
      this.body := body;
      this.text := text;
      this.elems := elems;
    }

    /** `node.nodeValue = value`. */
    method SetNodeValue(node: TextNode, value: string)
      requires node in text
      modifies this`text
      ensures text == old(text)[node := value]
    {
      text := text[node := value];
    }

    /** `el.setAttribute(a, value)`. */
    method SetAttribute(el: Element, a: string, value: string)
      requires el in elems
      modifies this`elems
      ensures elems == old(elems)[el := ElemState(old(elems)[el].attrs[a := value], old(elems)[el].data)]
    {
      elems := elems[el := ElemState(elems[el].attrs[a := value], elems[el].data)];
    }

    /** `el.dataset[key] = value`. */
    method SetData(el: Element, key: string, value: string)
      requires el in elems
      modifies this`elems
      ensures elems == old(elems)[el := ElemState(old(elems)[el].attrs, old(elems)[el].data[key := value])]
    {
      elems := elems[el := ElemState(elems[el].attrs, elems[el].data[key := value])];
    }
  }
}
