/**
 * The page as the content script sees it: a finite tree of element records
 * and an abstract CSS engine.
 *
 * Each element keeps its lower-cased tag name, its `id`, its attributes and
 * its class list in document order, its parent and its element children.
 * `hrefPath` is what the anchor tier reads from `el.href`: the path, query
 * and fragment of the resolved URL, or None when the element has no href or
 * the URL does not parse.
 */
module Dom {
  import opened Wrappers
  import opened Util

  type ElemId = nat

  /** Marker class of elements the extension has hidden (content.js:9). */
  const HideClass := "element-blocker-hidden"
  /** Marker class of the element under the pointer in blocking mode (content.js:10). */
  const HighlightClass := "element-blocker-highlight"

  datatype Attr = Attr(name: string, value: string)

  datatype Element = Element(
    tag: string,
    id: string,
    attrs: seq<Attr>,
    classes: seq<string>,
    parent: Option<ElemId>,
    children: seq<ElemId>,
    hrefPath: Option<string>)

  type Tree = map<ElemId, Element>

  /**
   * `document.querySelectorAll` as an oracle over the current tree: None when
   * the selector throws, otherwise the matching elements, all of them in the tree.
   */
  type Query = q: (Tree, string) -> Option<set<ElemId>> | forall t, s :: q(t, s).Some? ==> q(t, s).value <= t.Keys
    witness (t: Tree, s: string) => None

  /** The target of a DOM event: an element of the document, or a node that is not an element. */
  datatype Target = ElementNode(e: ElemId) | OtherNode

  /** `isUniqueSelector`: the query succeeds and finds exactly one element (content.js:32-38). */
  predicate IsUnique(query: Query, t: Tree, sel: string)
  {
    query(t, sel).Some? && |query(t, sel).value| == 1
  }

  /** The query succeeds and finds at least one element. */
  predicate MatchesSome(query: Query, t: Tree, sel: string)
  {
    query(t, sel).Some? && |query(t, sel).value| > 0
  }

  /** A lower-case tag name: non-empty, letters, digits and hyphens. */
  predicate IsTagName(tag: string)
  {
    tag != [] && forall i :: 0 <= i < |tag| ==> 'a' <= tag[i] <= 'z' || IsDigit(tag[i]) || tag[i] == '-'
  }

  /** Parent and child links agree, children lists are duplicate-free and tags are tag names. */
  ghost predicate WellFormed(t: Tree)
  {
    && (forall e | e in t && t[e].parent.Some? :: t[e].parent.value in t && e in t[t[e].parent.value].children)
    && (forall e, i | e in t && 0 <= i < |t[e].children| ::
          t[e].children[i] in t && t[t[e].children[i]].parent == Some(e))
    && (forall e | e in t :: NoDup(t[e].children))
    && (forall e | e in t :: IsTagName(t[e].tag))
  }

  // ---- class lists (DOMTokenList) ----

  predicate HasClass(el: Element, c: string)
  {
    c in el.classes
  }

  predicate Hidden(el: Element)
  {
    HasClass(el, HideClass)
  }

  /** `classList.add(c)`: appends `c` unless it is already present. */
  function AddClass(cs: seq<string>, c: string): (r: seq<string>)
    ensures forall x :: x in r <==> x in cs || x == c
    ensures c in cs ==> r == cs
  {
    if c in cs then cs else cs + [c]
  }

  /** `classList.remove(c)`: drops `c`, keeping the other classes in order. */
  function RemoveClass(cs: seq<string>, c: string): (r: seq<string>)
    ensures forall x :: x in r <==> x in cs && x != c
    ensures c !in cs ==> r == cs
  {
    if cs == [] then []
    else if cs[0] == c then RemoveClass(cs[1..], c)
    else [cs[0]] + RemoveClass(cs[1..], c)
  }

  /** The elements of the tree whose class list holds `c`. */
  function WithClass(t: Tree, c: string): set<ElemId>
  {
    set e | e in t && HasClass(t[e], c)
  }

  // ---- attributes ----

  /** `getAttribute(name)`: the value of the first attribute of that name. */
  function GetAttr(attrs: seq<Attr>, name: string): Option<string>
  {
    if attrs == [] then None
    else if attrs[0].name == name then Some(attrs[0].value)
    else GetAttr(attrs[1..], name)
  }

  /**
   * `setAttribute(name, value)`: the attribute keeps its place if present and
   * is appended otherwise; every other attribute reads as before.
   */
  function SetAttr(attrs: seq<Attr>, name: string, value: string): (r: seq<Attr>)
    ensures GetAttr(r, name) == Some(value)
    ensures forall n :: n != name ==> GetAttr(r, n) == GetAttr(attrs, n)
    ensures |r| == if GetAttr(attrs, name).Some? then |attrs| else |attrs| + 1
  {
    if attrs == [] then [Attr(name, value)]
    else if attrs[0].name == name then [Attr(name, value)] + attrs[1..]
    else [attrs[0]] + SetAttr(attrs[1..], name, value)
  }
}
