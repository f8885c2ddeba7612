/**
 * The selector synthesizer of `buildStableSelector` (content.js:42-122) as
 * functions of the tree and the query oracle. The imperative walk that
 * computes the same thing is `Content.Page.CandidateSelector`.
 *
 * Tiers, first success wins: 1. `#id`; 2. `tag[data-x="v"]` over the data
 * attributes in order; 3. `a[href="path"]`; 4. the ancestor path of at most
 * six `tag.class:nth-of-type(k)` segments joined by " > "; 5. a fresh token
 * written into `data-element-blocker-id` on the element itself. Tiers 1 to 4
 * count only if the oracle finds exactly one element.
 */
module Synth {
  import opened Wrappers
  import opened Util
  import opened Dom
  import opened Escape

  /** Ceiling of the ancestor walk, the element itself included (content.js:74). */
  const MaxDepth: nat := 6
  /** Attribute written by the last-resort tier (content.js:117). */
  const BlockerAttr := "data-element-blocker-id"
  /** Child combinator used to join path segments, section 8.2 of W3C Selectors Level 3. */
  const ChildCombinator := " > "

  function IdSelector(id: string): (r: string)
    ensures |r| > 0 && r[0] == '#'
  {
    "#" + EscapeSelector(id)
  }

  /** Attributes tier 2 considers: the name starts with `data-` and the value is non-empty. */
  predicate IsDataAttr(a: Attr)
  {
    StartsWith(a.name, "data-") && a.value != ""
  }

  function DataSelector(tag: string, a: Attr): string
  {
    tag + "[" + a.name + "=\"" + EscapeSelector(a.value) + "\"]"
  }

  function HrefSelector(path: string): string
  {
    "a[href=\"" + EscapeSelector(path) + "\"]"
  }

  function TokenSelector(token: string): string
  {
    "[" + BlockerAttr + "=\"" + token + "\"]"
  }

  // ---- tier 4: segments of the ancestor path ----

  /** The classes the script itself puts on elements. */
  predicate IsMarker(c: string)
  {
    c == HideClass || c == HighlightClass
  }

  /**
   * The heuristic against generated names: longer than one UTF-16 code unit
   * (so a single astral character passes) and not all digits.
   */
  predicate Meaningful(c: string)
  {
    LongerThanOneUnit(c) && !AllDigits(c)
  }

  /** `Meaningful` is the source's test on JavaScript lengths. */
  lemma MeaningfulByLength(c: string)
    ensures Meaningful(c) <==> Utf16Length(c) > 1 && !AllDigits(c)
  {
    LongerThanOneUnitLength(c);
  }

  /** Classes a segment may use: meaningful, and not one of the script's own markers. */
  predicate Eligible(c: string)
  {
    Meaningful(c) && !IsMarker(c)
  }

  /** The class a segment uses: the first eligible one in class-list order. */
  function ChosenClass(cs: seq<string>): (r: Option<string>)
    ensures r.Some? ==> r.value in cs && Eligible(r.value)
    ensures r.Some? ==> forall j :: 0 <= j < IndexOf(cs, r.value) ==> !Eligible(cs[j])
    ensures r.None? <==> forall j :: 0 <= j < |cs| ==> !Eligible(cs[j])
  {
    if cs == [] then None
    else if Eligible(cs[0]) then Some(cs[0])
    else
      var r := ChosenClass(cs[1..]);
      assert r.Some? ==> IndexOf(cs, r.value) == IndexOf(cs[1..], r.value) + 1;
      r
  }

  /** The class choice as content.js:90-93 writes it: the first meaningful class, markers included. */
  function ChosenClassAsWritten(cs: seq<string>): (r: Option<string>)
    ensures r.Some? ==> r.value in cs && Meaningful(r.value)
    ensures r.None? <==> forall j :: 0 <= j < |cs| ==> !Meaningful(cs[j])
  {
    if cs == [] then None
    else if Meaningful(cs[0]) then Some(cs[0])
    else ChosenClassAsWritten(cs[1..])
  }

  /** `c.split(' ')[0]`: the text before the first space. */
  function FirstWord(c: string): (r: string)
    ensures ' ' !in r
    ensures ' ' !in c ==> r == c
  {
    if c == [] || c[0] == ' ' then [] else [c[0]] + FirstWord(c[1..])
  }

  /** The elements of `cs` that carry tag `tag`, in order (`siblings.filter`, content.js:101). */
  function SameTag(t: Tree, cs: seq<ElemId>, tag: string): (r: seq<ElemId>)
    ensures forall x :: x in r <==> x in cs && x in t && t[x].tag == tag
    ensures |r| <= |cs|
  {
    if cs == [] then []
    else (if cs[0] in t && t[cs[0]].tag == tag then [cs[0]] else []) + SameTag(t, cs[1..], tag)
  }

  /** The parent's element children with the node's tag; none for a node without parent. */
  function SameTagSiblings(t: Tree, n: ElemId): seq<ElemId>
    requires n in t
  {
    match t[n].parent
    case None => []
    case Some(p) => if p in t then SameTag(t, t[p].children, t[n].tag) else []
  }

  /** `:nth-of-type(k)` only when more than one sibling shares the tag; k is `indexOf + 1`. */
  function NthOfType(t: Tree, n: ElemId): Option<nat>
    requires n in t
  {
    var sibs := SameTagSiblings(t, n);
    if |sibs| > 1 then Some((IndexOf(sibs, n) + 1) as nat) else None
  }

  /** A path segment: the tag, `.class` for a chosen class, `:nth-of-type(k)` for a position. */
  function SegmentText(tag: string, chosen: Option<string>, nth: Option<nat>): string
  {
    tag
    + (if chosen.Some? then "." + EscapeSelector(FirstWord(chosen.value)) else "")
    + (if nth.Some? then ":nth-of-type(" + NatToString(nth.value) + ")" else "")
  }

  function Segment(t: Tree, n: ElemId): string
    requires n in t
  {
    SegmentText(t[n].tag, ChosenClass(t[n].classes), NthOfType(t, n))
  }

  /** What the walk puts on the path for a node: its `#id` if it has one, else its segment. */
  function Part(t: Tree, n: ElemId): string
    requires n in t
  {
    if t[n].id != "" then IdSelector(t[n].id) else Segment(t, n)
  }

  /** The nodes the walk of content.js:77-108 visits, top-down. */
  function PathNodes(t: Tree, node: Option<ElemId>, depth: nat): seq<ElemId>
    decreases MaxDepth - depth
  {
    if node.None? || node.value !in t || depth >= MaxDepth then []
    else if t[node.value].id != "" then [node.value]
    else PathNodes(t, t[node.value].parent, depth + 1) + [node.value]
  }

  /** The `parts` array the walk builds by `unshift`, from `node` at `depth` upwards. */
  function PathParts(t: Tree, node: Option<ElemId>, depth: nat): seq<string>
    decreases MaxDepth - depth
  {
    if node.None? || node.value !in t || depth >= MaxDepth then []
    else if t[node.value].id != "" then [IdSelector(t[node.value].id)]
    else PathParts(t, t[node.value].parent, depth + 1) + [Segment(t, node.value)]
  }

  /** One step of the walk: an element with an id ends it, any other adds its segment below its parent's path. */
  lemma PathPartsStep(t: Tree, n: ElemId, depth: nat)
    requires n in t && depth < MaxDepth
    ensures t[n].id != "" ==> PathParts(t, Some(n), depth) == [IdSelector(t[n].id)]
    ensures t[n].id == "" ==> PathParts(t, Some(n), depth) == PathParts(t, t[n].parent, depth + 1) + [Segment(t, n)]
  {
  }

  /** A walk that puts `n`'s segment in front of the parts already built continues from `n`'s parent. */
  lemma PathPartsPrepend(t: Tree, n: ElemId, depth: nat, part: string, parts: seq<string>)
    requires n in t && depth < MaxDepth && t[n].id == "" && part == Segment(t, n)
    ensures PathParts(t, Some(n), depth) + parts == PathParts(t, t[n].parent, depth + 1) + ([part] + parts)
  {
    PathPartsStep(t, n, depth);
    ConcatAssoc(PathParts(t, t[n].parent, depth + 1), [part], parts);
  }

  /** Where the walk stops: an element with an id adds `#id` and ends it, the root or depth six ends it. */
  lemma PathPartsFinish(t: Tree, node: Option<ElemId>, depth: nat, parts: seq<string>)
    requires !(node.Some? && node.value in t && depth < MaxDepth && t[node.value].id == "")
    ensures node.Some? && node.value in t && depth < MaxDepth ==>
      PathParts(t, node, depth) + parts == [IdSelector(t[node.value].id)] + parts
    ensures !(node.Some? && node.value in t && depth < MaxDepth) ==> PathParts(t, node, depth) + parts == parts
  {
    if node.Some? && node.value in t && depth < MaxDepth {
      PathPartsStep(t, node.value, depth);
    } else {
      assert [] + parts == parts;
    }
  }

  function PathSelector(t: Tree, e: ElemId): string
  {
    Join(PathParts(t, Some(e), 0), ChildCombinator)
  }

  // ---- the tiers ----

  function IdTier(q: Query, t: Tree, e: ElemId): Option<string>
    requires e in t
  {
    if t[e].id != "" && IsUnique(q, t, IdSelector(t[e].id)) then Some(IdSelector(t[e].id)) else None
  }

  predicate DataHit(q: Query, t: Tree, tag: string, a: Attr)
  {
    IsDataAttr(a) && IsUnique(q, t, DataSelector(tag, a))
  }

  /** Tier 2: the selector of the first data attribute whose selector is unique. */
  function DataTier(q: Query, t: Tree, tag: string, attrs: seq<Attr>): (r: Option<string>)
    ensures r.Some? ==> IsUnique(q, t, r.value) && r.value != ""
    ensures r.None? <==> forall i :: 0 <= i < |attrs| ==> !DataHit(q, t, tag, attrs[i])
    ensures forall i :: 0 <= i < |attrs| && DataHit(q, t, tag, attrs[i])
                        && (forall j :: 0 <= j < i ==> !DataHit(q, t, tag, attrs[j]))
                        ==> r == Some(DataSelector(tag, attrs[i]))
  {
    if attrs == [] then None
    else if DataHit(q, t, tag, attrs[0]) then Some(DataSelector(tag, attrs[0]))
    else
      var r := DataTier(q, t, tag, attrs[1..]);
      assert forall i :: 1 <= i < |attrs| ==> attrs[i] == attrs[1..][i - 1];
      r
  }

  function HrefTier(q: Query, t: Tree, e: ElemId): (r: Option<string>)
    requires e in t
    ensures r.Some? ==> IsUnique(q, t, r.value) && r.value != ""
  {
    if t[e].tag == "a" && t[e].hrefPath.Some? && IsUnique(q, t, HrefSelector(t[e].hrefPath.value))
    then Some(HrefSelector(t[e].hrefPath.value))
    else None
  }

  function PathTier(q: Query, t: Tree, e: ElemId): (r: Option<string>)
    ensures r.Some? ==> IsUnique(q, t, r.value) && r.value != ""
  {
    var c := PathSelector(t, e);
    if c != "" && IsUnique(q, t, c) then Some(c) else None
  }

  /** Tiers 1 to 4 in order; whatever they return is unique, and a unique id wins outright. */
  function Candidate(q: Query, t: Tree, e: ElemId): (r: Option<string>)
    requires e in t
    ensures r.Some? ==> IsUnique(q, t, r.value) && r.value != ""
    ensures t[e].id != "" && IsUnique(q, t, IdSelector(t[e].id)) ==> r == Some(IdSelector(t[e].id))
  {
    if IdTier(q, t, e).Some? then IdTier(q, t, e)
    else if DataTier(q, t, t[e].tag, t[e].attrs).Some? then DataTier(q, t, t[e].tag, t[e].attrs)
    else if HrefTier(q, t, e).Some? then HrefTier(q, t, e)
    else PathTier(q, t, e)
  }

  // ---- the whole synthesis, last resort included ----

  /** The selector returned and the tree after the call (tier 5 writes an attribute). */
  datatype Synthesis = Synthesis(selector: Option<string>, tree: Tree)

  /**
   * `buildStableSelector(el)` with `token` standing for the generated id and
   * `writable` for whether `setAttribute` succeeds.
   */
  function Synthesize(q: Query, t: Tree, target: Target, token: string, writable: bool): (r: Synthesis)
    ensures r.tree.Keys == t.Keys
    ensures forall x | x in t :: r.tree[x].classes == t[x].classes
  {
    match target
    case OtherNode => Synthesis(None, t)
    case ElementNode(e) =>
      if e !in t then Synthesis(None, t)
      else
        var c := Candidate(q, t, e);
        if c.Some? then Synthesis(c, t)
        else if writable then Synthesis(Some(TokenSelector(token)), t[e := t[e].(attrs := SetAttr(t[e].attrs, BlockerAttr, token))])
        else Synthesis(None, t)
  }

  /**
   * Null only for a non-element or when setAttribute fails; a selector from
   * tiers 1 to 4 is unique and leaves the tree alone; otherwise the token is
   * written on the element itself and nothing else changes.
   */
  lemma SynthesizeOutcome(q: Query, t: Tree, target: Target, token: string, writable: bool)
    requires target.ElementNode? ==> target.e in t
    ensures var r := Synthesize(q, t, target, token, writable);
      && (r.selector.None? <==> target.OtherNode? || (Candidate(q, t, target.e).None? && !writable))
      && r.tree.Keys == t.Keys
      && (target.ElementNode? && Candidate(q, t, target.e).Some? ==>
            r.tree == t && IsUnique(q, t, r.selector.value))
      && (target.ElementNode? && Candidate(q, t, target.e).None? && writable ==>
            && r.selector == Some(TokenSelector(token))
            && GetAttr(r.tree[target.e].attrs, BlockerAttr) == Some(token)
            && r.tree[target.e] == t[target.e].(attrs := r.tree[target.e].attrs)
            && forall x :: x in t && x != target.e ==> r.tree[x] == t[x])
  {
  }

  /** An element with a non-empty id whose `#id` selector is unique gets exactly that selector. */
  lemma SynthesizeUniqueId(q: Query, t: Tree, e: ElemId, token: string, writable: bool)
    requires e in t && t[e].id != ""
    requires IsUnique(q, t, IdSelector(t[e].id))
    ensures Synthesize(q, t, ElementNode(e), token, writable) == Synthesis(Some("#" + EscapeSelector(t[e].id)), t)
  {
  }

  /** Elements carrying `token` in the blocker attribute. */
  function Carrying(t: Tree, token: string): set<ElemId>
  {
    set e | e in t && GetAttr(t[e].attrs, BlockerAttr) == Some(token)
  }

  /** The engine evaluates attribute-equality selectors on the blocker attribute as CSS defines them. */
  ghost predicate TokenSound(q: Query)
  {
    forall t, token :: q(t, TokenSelector(token)) == Some(Carrying(t, token))
  }

  /** With a faithful engine and a token no element carries yet, the last resort is unique. */
  lemma LastResortUnique(q: Query, t: Tree, e: ElemId, token: string)
    requires TokenSound(q)
    requires e in t && Carrying(t, token) == {}
    requires Candidate(q, t, e).None?
    ensures var r := Synthesize(q, t, ElementNode(e), token, true);
      r.selector == Some(TokenSelector(token)) && IsUnique(q, r.tree, r.selector.value)
  {
    var t' := Synthesize(q, t, ElementNode(e), token, true).tree;
    assert Carrying(t', token) == {e} by {
      forall x | x in t' ensures x in Carrying(t', token) <==> x == e {
        if x != e {
          assert x !in Carrying(t, token);
        }
      }
    }
  }

  // ---- shape of the ancestor path ----

  /**
   * A top-down chain of parent links, all in the tree, where only the first
   * node may have an id.
   */
  predicate ParentChain(t: Tree, ns: seq<ElemId>)
  {
    && (forall i :: 0 <= i < |ns| ==> ns[i] in t)
    && (forall i :: 0 <= i < |ns| - 1 ==> t[ns[i + 1]].parent == Some(ns[i]))
    && (forall i :: 0 < i < |ns| ==> t[ns[i]].id == "")
  }

  lemma ParentChainAppend(t: Tree, ns: seq<ElemId>, n: ElemId)
    requires ParentChain(t, ns) && n in t && t[n].id == ""
    requires ns != [] ==> t[n].parent == Some(ns[|ns| - 1])
    ensures ParentChain(t, ns + [n])
  {
    var r := ns + [n];
    assert forall i :: 0 <= i < |ns| ==> r[i] == ns[i];
  }

  /**
   * The walk from `n` at `depth` visits a chain of one to MaxDepth - depth
   * ancestors ending in `n`, and stops at an id, at the depth ceiling or at
   * the root.
   */
  lemma {:induction false} PathNodesShape(t: Tree, n: ElemId, depth: nat)
    requires n in t && depth < MaxDepth
    ensures var ns := PathNodes(t, Some(n), depth);
      && 1 <= |ns| <= MaxDepth - depth
      && ns[|ns| - 1] == n
      && ParentChain(t, ns)
      && (t[ns[0]].id != "" || |ns| == MaxDepth - depth || t[ns[0]].parent.None? || t[ns[0]].parent.value !in t)
    decreases MaxDepth - depth
  {
    var p := t[n].parent;
    if t[n].id == "" && p.Some? && p.value in t && depth + 1 < MaxDepth {
      var rest := PathNodes(t, p, depth + 1);
      PathNodesShape(t, p.value, depth + 1);
      ParentChainAppend(t, rest, n);
      assert PathNodes(t, Some(n), depth) == rest + [n];
      assert (rest + [n])[0] == rest[0];
    } else if t[n].id == "" {
      assert PathNodes(t, p, depth + 1) == [];
      assert PathNodes(t, Some(n), depth) == [n];
    }
  }

  /** `ps` holds the parts of the nodes `ns`, one each, in order. */
  predicate PartsOf(t: Tree, ns: seq<ElemId>, ps: seq<string>)
  {
    |ps| == |ns| && forall i :: 0 <= i < |ns| ==> ns[i] in t && ps[i] == Part(t, ns[i])
  }

  lemma PartsOfAppend(t: Tree, ns: seq<ElemId>, ps: seq<string>, n: ElemId)
    requires PartsOf(t, ns, ps) && n in t && t[n].id == ""
    ensures PartsOf(t, ns + [n], ps + [Segment(t, n)])
  {
    assert Part(t, n) == Segment(t, n);
    forall i | 0 <= i < |ns|
      ensures (ns + [n])[i] == ns[i] && (ps + [Segment(t, n)])[i] == ps[i]
    {
    }
  }

  /** The parts are the visited nodes' parts, one each, top-down. */
  lemma {:induction false} PathPartsOfNodes(t: Tree, node: Option<ElemId>, depth: nat)
    ensures PartsOf(t, PathNodes(t, node, depth), PathParts(t, node, depth))
    decreases MaxDepth - depth
  {
    if node.Some? && node.value in t && depth < MaxDepth {
      var n := node.value;
      var p := t[n].parent;
      if t[n].id == "" {
        PathPartsOfNodes(t, p, depth + 1);
        PartsOfAppend(t, PathNodes(t, p, depth + 1), PathParts(t, p, depth + 1), n);
      } else {
        assert Part(t, n) == IdSelector(t[n].id);
      }
    }
  }

  /** The path has one to six parts; an element with an id is its own path `#id`. */
  lemma PathSelectorShape(t: Tree, e: ElemId)
    requires e in t
    ensures 1 <= |PathParts(t, Some(e), 0)| <= MaxDepth
    ensures t[e].id != "" ==> PathSelector(t, e) == IdSelector(t[e].id)
    ensures t[e].id == "" ==> PathParts(t, Some(e), 0)[|PathParts(t, Some(e), 0)| - 1] == Segment(t, e)
  {
    PathNodesShape(t, e, 0);
    PathPartsOfNodes(t, Some(e), 0);
  }

  // ---- :nth-of-type ----

  lemma {:induction false} SameTagAppend(t: Tree, a: seq<ElemId>, b: seq<ElemId>, tag: string)
    ensures SameTag(t, a + b, tag) == SameTag(t, a, tag) + SameTag(t, b, tag)
  {
    if a == [] {
      assert a + b == b;
    } else {
      var head := if a[0] in t && t[a[0]].tag == tag then [a[0]] else [];
      assert (a + b)[0] == a[0] && (a + b)[1..] == a[1..] + b;
      SameTagAppend(t, a[1..], b, tag);
      calc {
        SameTag(t, a + b, tag);
        head + SameTag(t, a[1..] + b, tag);
        head + (SameTag(t, a[1..], tag) + SameTag(t, b, tag));
        { ConcatAssoc(head, SameTag(t, a[1..], tag), SameTag(t, b, tag)); }
        (head + SameTag(t, a[1..], tag)) + SameTag(t, b, tag);
      }
    }
  }

  lemma {:induction false} IndexOfAfter<T>(a: seq<T>, x: T, b: seq<T>)
    requires x !in a
    ensures IndexOf(a + [x] + b, x) == |a|
  {
    if a != [] {
      assert (a + [x] + b)[1..] == a[1..] + [x] + b;
      IndexOfAfter(a[1..], x, b);
    }
  }

  /** A list is its part before the first occurrence of `x`, then `x`, then the rest. */
  lemma SplitAtFirst<T>(cs: seq<T>, x: T)
    requires x in cs
    ensures var pos := IndexOf(cs, x);
      cs == cs[..pos] + [x] + cs[pos + 1..] && x !in cs[..pos]
  {
  }

  lemma SameTagAround(t: Tree, left: seq<ElemId>, n: ElemId, right: seq<ElemId>, tag: string)
    requires n in t && t[n].tag == tag
    ensures SameTag(t, left + [n] + right, tag) == SameTag(t, left, tag) + [n] + SameTag(t, right, tag)
  {
    SameTagAppend(t, left + [n], right, tag);
    SameTagAppend(t, left, [n], tag);
    assert SameTag(t, [n], tag) == [n] by {
      assert [n][1..] == [];
    }
  }

  /** Among the same-tag elements of a list, `n` comes right after those before its first occurrence. */
  lemma SameTagPosition(t: Tree, cs: seq<ElemId>, n: ElemId)
    requires n in cs && n in t
    ensures IndexOf(SameTag(t, cs, t[n].tag), n) == |SameTag(t, cs[..IndexOf(cs, n)], t[n].tag)|
  {
    var tag := t[n].tag;
    var pos := IndexOf(cs, n);
    SplitAtFirst(cs, n);
    var left := cs[..pos];
    var right := cs[pos + 1..];
    SameTagAround(t, left, n, right, tag);
    var before := SameTag(t, left, tag);
    assert n !in before;
    IndexOfAfter(before, n, SameTag(t, right, tag));
  }

  /**
   * When more than one sibling shares its tag, `n` gets `:nth-of-type(k)`
   * where k - 1 is the number of same-tag siblings before it: the 1-based
   * position of section 6.6.5.4 of W3C Selectors Level 3.
   */
  lemma NthOfTypePosition(t: Tree, n: ElemId)
    requires WellFormed(t) && n in t
    ensures NthOfType(t, n).Some? <==> |SameTagSiblings(t, n)| > 1
    ensures NthOfType(t, n).Some? ==>
      && t[n].parent.Some?
      && var cs := t[t[n].parent.value].children;
      && var pos := IndexOf(cs, n);
      && 0 <= pos
      && NthOfType(t, n).value == |SameTag(t, cs[..pos], t[n].tag)| + 1
      && SameTagSiblings(t, n)[NthOfType(t, n).value - 1] == n
  {
    if NthOfType(t, n).Some? {
      var p := t[n].parent.value;
      assert p in t && n in t[p].children;
      SameTagPosition(t, t[p].children, n);
    }
  }

  // ---- the script's own markers do not influence the path ----

  /** The class list without the script's markers. */
  function Unmarked(cs: seq<string>): (r: seq<string>)
    ensures forall x :: x in r <==> x in cs && !IsMarker(x)
  {
    if cs == [] then []
    else (if IsMarker(cs[0]) then [] else [cs[0]]) + Unmarked(cs[1..])
  }

  /** Two element records that agree on everything but marker classes. */
  predicate ElemSameButMarks(a: Element, b: Element)
  {
    && a.tag == b.tag && a.id == b.id && a.attrs == b.attrs
    && a.parent == b.parent && a.children == b.children && a.hrefPath == b.hrefPath
    && Unmarked(a.classes) == Unmarked(b.classes)
  }

  /** Two trees that differ at most in which elements carry marker classes. */
  ghost predicate SameButMarks(t: Tree, t': Tree)
  {
    t.Keys == t'.Keys && forall e | e in t :: ElemSameButMarks(t[e], t'[e])
  }

  lemma {:induction false} ChosenClassUnmarked(cs: seq<string>)
    ensures ChosenClass(Unmarked(cs)) == ChosenClass(cs)
  {
    if cs != [] {
      var u := Unmarked(cs[1..]);
      ChosenClassUnmarked(cs[1..]);
      if IsMarker(cs[0]) {
        assert Unmarked(cs) == u;
      } else {
        assert Unmarked(cs) == [cs[0]] + u;
        assert ([cs[0]] + u)[1..] == u;
      }
    }
  }

  lemma {:induction false} SameTagSameButMarks(t: Tree, t': Tree, cs: seq<ElemId>, tag: string)
    requires SameButMarks(t, t')
    ensures SameTag(t, cs, tag) == SameTag(t', cs, tag)
  {
    if cs != [] {
      if cs[0] in t {
        assert ElemSameButMarks(t[cs[0]], t'[cs[0]]);
      }
      SameTagSameButMarks(t, t', cs[1..], tag);
    }
  }

  /** The position depends only on the tag, the parent and the parent's same-tag children. */
  lemma NthOfTypeCongruent(t: Tree, t': Tree, n: ElemId)
    requires n in t && n in t' && t[n].tag == t'[n].tag && t[n].parent == t'[n].parent
    requires SameTagSiblings(t, n) == SameTagSiblings(t', n)
    ensures NthOfType(t, n) == NthOfType(t', n)
  {
  }

  lemma SameTagSiblingsSameButMarks(t: Tree, t': Tree, n: ElemId)
    requires SameButMarks(t, t') && n in t
    ensures n in t' && t[n].tag == t'[n].tag && t[n].parent == t'[n].parent
    ensures SameTagSiblings(t, n) == SameTagSiblings(t', n)
  {
    assert ElemSameButMarks(t[n], t'[n]);
    var par := t[n].parent;
    if par.Some? && par.value in t {
      var p := par.value;
      assert ElemSameButMarks(t[p], t'[p]);
      SameTagSameButMarks(t, t', t[p].children, t[n].tag);
      assert SameTagSiblings(t, n) == SameTag(t, t[p].children, t[n].tag);
      assert SameTagSiblings(t', n) == SameTag(t', t'[p].children, t[n].tag);
    }
  }

  lemma SegmentSameButMarks(t: Tree, t': Tree, n: ElemId)
    requires SameButMarks(t, t') && n in t
    ensures Segment(t, n) == Segment(t', n)
  {
    assert ElemSameButMarks(t[n], t'[n]);
    ChosenClassUnmarked(t[n].classes);
    ChosenClassUnmarked(t'[n].classes);
    SameTagSiblingsSameButMarks(t, t', n);
    NthOfTypeCongruent(t, t', n);
  }

  /** Two trees with the same nodes, ids, parents and segments give every node the same path. */
  lemma {:induction false} PathPartsCongruent(t: Tree, t': Tree, node: Option<ElemId>, depth: nat)
    requires t.Keys == t'.Keys
    requires forall e | e in t :: t[e].id == t'[e].id && t[e].parent == t'[e].parent && Segment(t, e) == Segment(t', e)
    ensures PathParts(t, node, depth) == PathParts(t', node, depth)
    decreases MaxDepth - depth
  {
    if node.Some? && node.value in t && depth < MaxDepth && t[node.value].id == "" {
      PathPartsCongruent(t, t', t[node.value].parent, depth + 1);
    }
  }

  /**
   * Hiding or highlighting elements never changes the ancestor path of any
   * element: the class choice skips the script's marker classes, which the
   * written heuristic can pick up.
   */
  lemma PathIgnoresMarks(t: Tree, t': Tree, node: Option<ElemId>, depth: nat)
    requires SameButMarks(t, t')
    ensures PathParts(t, node, depth) == PathParts(t', node, depth)
  {
    forall e | e in t
      ensures t[e].id == t'[e].id && t[e].parent == t'[e].parent && Segment(t, e) == Segment(t', e)
    {
      assert ElemSameButMarks(t[e], t'[e]);
      SegmentSameButMarks(t, t', e);
    }
    PathPartsCongruent(t, t', node, depth);
  }

  /** Adding a marker class to one element gives a tree that differs only in marks. */
  lemma {:induction false} UnmarkedAddMarker(cs: seq<string>, m: string)
    requires IsMarker(m)
    ensures Unmarked(AddClass(cs, m)) == Unmarked(cs)
  {
    if m !in cs {
      UnmarkedAppend(cs, [m]);
    }
  }

  /** Removing a marker class from one element gives a tree that differs only in marks. */
  lemma {:induction false} UnmarkedRemoveMarker(cs: seq<string>, m: string)
    requires IsMarker(m)
    ensures Unmarked(RemoveClass(cs, m)) == Unmarked(cs)
  {
    if cs != [] {
      UnmarkedRemoveMarker(cs[1..], m);
      if cs[0] != m {
        var rest := RemoveClass(cs[1..], m);
        assert ([cs[0]] + rest)[0] == cs[0] && ([cs[0]] + rest)[1..] == rest;
      }
    }
  }

  lemma {:induction false} UnmarkedAppend(a: seq<string>, b: seq<string>)
    ensures Unmarked(a + b) == Unmarked(a) + Unmarked(b)
  {
    if a == [] {
      assert a + b == b;
    } else {
      assert (a + b)[0] == a[0] && (a + b)[1..] == a[1..] + b;
      UnmarkedAppend(a[1..], b);
    }
  }

  /** A word of lower-case letters and hyphens is neither split nor escaped. */
  lemma LowerWordPlain(s: string)
    requires forall i :: 0 <= i < |s| ==> 'a' <= s[i] <= 'z' || s[i] == '-'
    ensures FirstWord(s) == s && EscapeSelector(s) == s
  {
    assert forall i :: 0 <= i < |s| ==> s[i] != ' ';
    EscapePlain(s);
  }

  /** The highlight marker is one word that escaping leaves as it is. */
  lemma HighlightPlain()
    ensures FirstWord(HighlightClass) == HighlightClass && EscapeSelector(HighlightClass) == HighlightClass
  {
    LowerWordPlain(HighlightClass);
  }

  /** The highlight marker passes the as-written heuristic: long, and not all digits. */
  lemma HighlightMeaningful()
    ensures Meaningful(HighlightClass) && IsMarker(HighlightClass)
  {
    assert !IsDigit(HighlightClass[0]);
  }

  /** A root element has no `:nth-of-type` position. */
  lemma RootUnpositioned(t: Tree, n: ElemId)
    requires n in t && t[n].parent.None?
    ensures NthOfType(t, n).None?
  {
    assert SameTagSiblings(t, n) == [];
  }

  /** The choice, both as corrected and as written, over a single class. */
  lemma ChosenSingle(c: string)
    ensures ChosenClass([c]) == if Eligible(c) then Some(c) else None
    ensures ChosenClassAsWritten([c]) == if Meaningful(c) then Some(c) else None
  {
    assert [c][1..] == [];
  }

  /** Without a position, a segment is the tag, followed by the class when one is chosen. */
  lemma UnpositionedSegment(tag: string, chosen: Option<string>)
    ensures chosen.None? ==> SegmentText(tag, chosen, None) == tag
    ensures chosen.Some? ==> SegmentText(tag, chosen, None) == tag + "." + EscapeSelector(FirstWord(chosen.value))
  {
  }

  /**
   * As written, a highlighted element whose only class is the highlight marker
   * gets the marker in its segment, `div.element-blocker-highlight`: the
   * selector names a class the element loses as soon as the highlight is
   * removed (content.js:92, 277). The corrected choice gives the plain `div`.
   */
  lemma HighlightCapturedAsWritten()
    ensures var el := Element("div", "", [], [HighlightClass], None, [], None);
      var t := map[0 := el];
      && ChosenClassAsWritten(el.classes) == Some(HighlightClass)
      && SegmentText(el.tag, ChosenClassAsWritten(el.classes), NthOfType(t, 0)) == "div" + "." + HighlightClass
      && !HasClass(el.(classes := RemoveClass(el.classes, HighlightClass)), HighlightClass)
      && Segment(t, 0) == "div"
  {
    var el := Element("div", "", [], [HighlightClass], None, [], None);
    var t := map[0 := el];
    HighlightMeaningful();
    HighlightPlain();
    ChosenSingle(HighlightClass);
    RootUnpositioned(t, 0);
    UnpositionedSegment("div", Some(HighlightClass));
    UnpositionedSegment("div", None);
  }
}
