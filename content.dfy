/**
 * The content script as a stateful object: one `Page` per document holds the
 * script's globals (content.js:6-12, 237) and the handlers that update them in
 * place. Every method is proved to leave the state the matching function of
 * `Session` describes, and to keep `Valid`: exactly the hovered element is
 * highlighted, and nothing is hovered outside blocking mode.
 */
module Content {
  import opened Wrappers
  import opened Util
  import opened Dom
  import opened Escape
  import opened Synth
  import opened Store
  import opened Session

  /** A runtime message; `NoAction` is a missing request or one without an `action`. */
  datatype Request =
    | ToggleBlock(enabled: bool)
    | ClearBlocks
    | GetState
    | ApplyQuickOptions(options: seq<(string, bool)>)
    | OtherAction
    | NoAction

  datatype Response = Response(success: bool, isBlocking: Option<bool>)

  class Page {
    const hostname: string
    const query: Query
    const storage: Storage
    var dom: Tree
    var blockedSelectors: seq<string>
    var isBlocking: bool
    var hovered: Option<ElemId>
    var rafScheduled: bool
    /** The event whose frame callback is pending: the first one since the last frame. */
    var pendingMove: Option<Target>

    ghost predicate Valid()
      reads this`dom, this`hovered, this`isBlocking, this`rafScheduled, this`pendingMove
    {
      Marked() && (!isBlocking ==> hovered.None?)
    }

    /** Exactly the hovered element is highlighted, and a pending frame has an event of this page. */
    ghost predicate Marked()
      reads this`dom, this`hovered, this`rafScheduled, this`pendingMove
    {
      && WithClass(dom, HighlightClass) == OptSet(hovered)
      && (rafScheduled <==> pendingMove.Some?)
      && (pendingMove.Some? && pendingMove.value.ElementNode? ==> pendingMove.value.e in dom)
    }

    function Snapshot(): Session
      reads this`dom, this`blockedSelectors, storage`blockedElements
    {
      Session(dom, blockedSelectors, storage.blockedElements)
    }

    function IoOf(): Io
      reads storage`readFails, storage`writeFails
    {
      Io(storage.readFails, storage.writeFails)
    }

    /** Script start-up: the cache is loaded and applied (content.js:147-155, 488). */
    constructor (hostname: string, query: Query, storage: Storage, dom: Tree)
      requires WithClass(dom, HighlightClass) == {}
      modifies storage`blockedElements
      ensures this.hostname == hostname && this.query == query && this.storage == storage
      ensures blockedSelectors == LoadCache(old(storage.blockedElements), hostname, old(storage.readFails))
      ensures this.dom == Reapply(query, dom, blockedSelectors)
      ensures storage.blockedElements == old(storage.blockedElements)
      ensures !isBlocking && hovered.None? && !rafScheduled
      ensures Valid()
    {
      this.hostname := hostname;
      this.query := query;
      this.storage := storage;
      this.dom := dom;
      blockedSelectors := [];
      isBlocking := false;
      hovered := None;
      rafScheduled := false;
      pendingMove := None;
      new;
      LoadBlockedSelectorsFromStorage();
    }

    /** `loadBlockedSelectorsFromStorage`: the host's stored list, or none after a read error, then a reapply. */
    method LoadBlockedSelectorsFromStorage()
      requires Valid()
      modifies this`dom, this`blockedSelectors, storage`blockedElements
      ensures blockedSelectors == LoadCache(old(storage.blockedElements), hostname, old(storage.readFails))
      ensures dom == Reapply(query, old(dom), blockedSelectors)
      ensures storage.blockedElements == old(storage.blockedElements)
      ensures Valid()
    {
      var stored := storage.Get();
      blockedSelectors := if stored.Some? && hostname in stored.value then stored.value[hostname] else [];
      ReapplyAllBlockedSelectors();
    }

    // ---- tiers 1 to 4 of buildStableSelector (content.js:42-111) ----

    /** The walk over attributes, class list and ancestors; it returns what `Candidate` specifies. */
    method CandidateSelector(e: ElemId) returns (r: Option<string>)
      requires e in dom
      ensures r == Candidate(query, dom, e)
    {
      var el := dom[e];
      if el.id != "" {
        var s := IdSelector(el.id);
        if IsUnique(query, dom, s) {
          return Some(s);
        }
      }

      var data := DataAttributeSelector(el.tag, el.attrs);
      if data.Some? {
        return data;
      }

      if el.tag == "a" && el.hrefPath.Some? {
        var s := HrefSelector(el.hrefPath.value);
        if IsUnique(query, dom, s) {
          return Some(s);
        }
      }

      var parts := AncestorParts(e);
      var candidate := Join(parts, ChildCombinator);
      if candidate != "" && IsUnique(query, dom, candidate) {
        return Some(candidate);
      }
      return None;
    }

    /** The attribute loop of tier 2 (content.js:52-59). */
    method DataAttributeSelector(tag: string, attrs: seq<Attr>) returns (r: Option<string>)
      ensures r == DataTier(query, dom, tag, attrs)
    {
      var i := 0;
      while i < |attrs|
        invariant 0 <= i <= |attrs|
        invariant DataTier(query, dom, tag, attrs) == DataTier(query, dom, tag, attrs[i..])
      {
        var a := attrs[i];
        assert attrs[i..][0] == a && attrs[i..][1..] == attrs[i + 1..];
        if StartsWith(a.name, "data-") && a.value != "" {
          var s := DataSelector(tag, a);
          if IsUnique(query, dom, s) {
            return Some(s);
          }
        }
        i := i + 1;
      }
      return None;
    }

    /**
     * The upward walk of tier 4 (content.js:73-108): `parts` built by
     * `unshift`; the loop stops at an element with an id, whose `#id` becomes
     * the first part.
     */
    method AncestorParts(e: ElemId) returns (parts: seq<string>)
      ensures parts == PathParts(dom, Some(e), 0)
    {
      parts := [];
      var node: Option<ElemId> := Some(e);
      var depth: nat := 0;
      while node.Some? && node.value in dom && depth < MaxDepth && dom[node.value].id == ""
        invariant PathParts(dom, node, depth) + parts == PathParts(dom, Some(e), 0)
        decreases MaxDepth - depth
      {
        var n := node.value;
        var part := SegmentOf(n);
        PathPartsPrepend(dom, n, depth, part, parts);
        parts := [part] + parts;
        node := dom[n].parent;
        depth := depth + 1;
      }
      PathPartsFinish(dom, node, depth, parts);
      if node.Some? && node.value in dom && depth < MaxDepth {
        parts := [IdSelector(dom[node.value].id)] + parts;
      }
    }

    /** One segment of the walk: tag, chosen class, `:nth-of-type` (content.js:78-105). */
    method SegmentOf(n: ElemId) returns (part: string)
      requires n in dom
      ensures part == Segment(dom, n)
    {
      var chosen := ChooseClass(dom[n].classes);
      var cls := "";
      if chosen.Some? {
        cls := "." + EscapeSelector(FirstWord(chosen.value));
      }
      var nth := "";
      var sameTag := SameTagSiblings(dom, n);
      if |sameTag| > 1 {
        nth := ":nth-of-type(" + NatToString((IndexOf(sameTag, n) + 1) as nat) + ")";
      }
      part := dom[n].tag + cls + nth;
    }

    /** The class loop of content.js:89-94, with the script's markers skipped. */
    static method ChooseClass(cs: seq<string>) returns (chosen: Option<string>)
      ensures chosen == ChosenClass(cs)
    {
      chosen := None;
      var j := 0;
      while j < |cs| && chosen.None?
        invariant 0 <= j <= |cs|
        invariant chosen.None? ==> ChosenClass(cs) == ChosenClass(cs[j..])
        invariant chosen.Some? ==> chosen == ChosenClass(cs)
      {
        assert cs[j..][0] == cs[j] && cs[j..][1..] == cs[j + 1..];
        if Eligible(cs[j]) {
          chosen := Some(cs[j]);
        }
        j := j + 1;
      }
    }

    /** `buildStableSelector(el)`, the last resort writing `token` when `writable` (content.js:42-122). */
    method BuildStableSelector(target: Target, token: string, writable: bool) returns (r: Option<string>)
      requires Valid()
      modifies this`dom
      ensures Synthesis(r, dom) == Synthesize(query, old(dom), target, token, writable)
      ensures Valid()
    {
      if target.OtherNode? || target.e !in dom {
        return None;
      }
      var e := target.e;
      r := CandidateSelector(e);
      if r.Some? {
        return;
      }
      if writable {
        ghost var d0 := dom;
        dom := dom[e := dom[e].(attrs := SetAttr(dom[e].attrs, BlockerAttr, token))];
        SameClassesWithClass(d0, dom, HighlightClass);
        return Some(TokenSelector(token));
      }
      return None;
    }

    // ---- storage and the cache ----

    /** `saveSelectorForHost(sel)`; after a failed read nothing is written, so the stored map of every host is kept. */
    method SaveSelectorForHost(sel: string)
      modifies this`blockedSelectors, storage`blockedElements
      ensures Snapshot() == Save(old(Snapshot()), hostname, IoOf(), sel)
    {
      if sel == "" || sel in blockedSelectors {
        return;
      }
      blockedSelectors := blockedSelectors + [sel];
      var stored := storage.Get();
      if stored.Some? {
        storage.Set(AddSelector(stored.value, hostname, sel));
      }
    }

    /** The `forEach` that hides every element of a match set. */
    method HideAllIn(S: set<ElemId>)
      requires Valid() && S <= dom.Keys
      modifies this`dom
      ensures dom == MarkAll(old(dom), S, HideClass)
      ensures Valid()
    {
      ghost var d0 := dom;
      var d := dom;
      var rest := S;
      while rest != {}
        invariant rest <= S
        invariant d == MarkAll(d0, S - rest, HideClass)
        decreases rest
      {
        var e :| e in rest;
        MarkNext(d0, S, rest, e, HideClass);
        if !Hidden(d[e]) {
          d := d[e := d[e].(classes := AddClass(d[e].classes, HideClass))];
        }
        rest := rest - {e};
      }
      assert S - rest == S;
      HidingKeepsHighlight(d0, S);
      dom := d;
    }

    /** The `forEach` of `clearAllBlocks` that shows every element of a set again. */
    method ShowAllIn(S: set<ElemId>)
      requires Valid() && S <= dom.Keys
      modifies this`dom
      ensures dom == UnmarkAll(old(dom), S, HideClass)
      ensures Valid()
    {
      ghost var d0 := dom;
      var d := dom;
      var rest := S;
      while rest != {}
        invariant rest <= S
        invariant d == UnmarkAll(d0, S - rest, HideClass)
        decreases rest
      {
        var e :| e in rest;
        UnmarkNext(d0, S, rest, e, HideClass);
        d := d[e := d[e].(classes := RemoveClass(d[e].classes, HideClass))];
        rest := rest - {e};
      }
      assert S - rest == S;
      HidingKeepsHighlight(d0, S);
      dom := d;
    }

    /** `applySelector(sel, {save})` (content.js:198-219). */
    method ApplySelector(sel: string, save: bool) returns (found: bool)
      requires Valid()
      modifies this`dom, this`blockedSelectors, storage`blockedElements
      ensures Applied(found, Snapshot()) == Apply(query, hostname, IoOf(), old(Snapshot()), sel, save)
      ensures Valid()
    {
      if sel == "" {
        return false;
      }
      found := false;
      var els := query(dom, sel);
      if els.Some? && |els.value| > 0 {
        HideAllIn(els.value);
        found := true;
        if save {
          SaveSelectorForHost(sel);
        }
      }
    }

    /** `reapplyAllBlockedSelectors` (content.js:222-225). */
    method ReapplyAllBlockedSelectors()
      requires Valid()
      modifies this`dom, this`blockedSelectors, storage`blockedElements
      ensures dom == Reapply(query, old(dom), old(blockedSelectors))
      ensures blockedSelectors == old(blockedSelectors)
      ensures storage.blockedElements == old(storage.blockedElements)
      ensures Valid()
    {
      if |blockedSelectors| == 0 {
        return;
      }
      var sels := blockedSelectors;
      var i := 0;
      while i < |sels|
        invariant 0 <= i <= |sels|
        invariant Reapply(query, old(dom), sels) == Reapply(query, dom, sels[i..])
        invariant blockedSelectors == sels
        invariant storage.blockedElements == old(storage.blockedElements)
        invariant Valid()
      {
        var found := ApplySelector(sels[i], false);
        assert sels[i..][0] == sels[i] && sels[i..][1..] == sels[i + 1..];
        i := i + 1;
      }
    }

    /** `clearAllBlocks` (content.js:173-195); after a failed read nothing is written, so the stored map of every host is kept. */
    method ClearAllBlocks()
      requires Valid()
      modifies this`dom, this`blockedSelectors, this`hovered, storage`blockedElements
      ensures var c := ClearHost(old(Snapshot()), hostname, IoOf());
        Snapshot() == c.(dom := DropHighlight(c.dom, old(hovered)))
      ensures hovered.None?
      ensures Valid()
    {
      blockedSelectors := [];
      var stored := storage.Get();
      if stored.Some? {
        storage.Set(stored.value - {hostname});
      }
      ShowAllIn(WithClass(dom, HideClass));
      RemoveHighlight();
    }

    // ---- highlight and blocking ----

    /** `removeHighlight` (content.js:257-262). */
    method RemoveHighlight()
      requires Marked()
      modifies this`dom, this`hovered
      ensures dom == DropHighlight(old(dom), old(hovered))
      ensures hovered.None? && WithClass(dom, HighlightClass) == {}
      ensures Valid()
    {
      if hovered.Some? {
        var h := hovered.value;
        assert h in WithClass(dom, HighlightClass);
        MarkOne(dom, h, HighlightClass);
        dom := dom[h := dom[h].(classes := RemoveClass(dom[h].classes, HighlightClass))];
        hovered := None;
      }
    }

    /** `blockElement(target)` (content.js:265-278). */
    method BlockElement(target: Target, token: string, writable: bool)
      requires Valid() && (target.ElementNode? ==> target.e in dom)
      modifies this`dom, this`blockedSelectors, this`hovered, storage`blockedElements
      ensures Snapshot() == Block(query, hostname, IoOf(), old(Snapshot()), old(hovered), target, token, writable)
      ensures hovered == if Acts(query, old(dom), target, token, writable) then None else old(hovered)
      ensures Valid()
    {
      if target.OtherNode? {
        return;
      }
      if Hidden(dom[target.e]) {
        return;
      }
      var sel := BuildStableSelector(target, token, writable);
      if sel.None? {
        return;
      }
      var found := ApplySelector(sel.value, true);
      RemoveHighlight();
    }

    // ---- quick options ----

    /** The `forEach` callback of `applyQuickOptions` for one option (content.js:342-389). */
    method ApplyQuickOption(id: string, enabled: bool)
      requires Valid()
      modifies this`dom, this`blockedSelectors, storage`blockedElements
      ensures Snapshot() == QuickStep(query, hostname, IoOf(), old(Snapshot()), id, enabled)
      ensures Valid()
    {
      if !enabled {
        return;
      }
      var matched := false;
      if id in PrimarySelectors && PrimarySelectors[id] != "" {
        matched := HideAndSave(PrimarySelectors[id]);
      }
      if !matched && id in FallbackSelectors && FallbackSelectors[id] != "" {
        matched := HideAndSave(FallbackSelectors[id]);
      }
    }

    /** The `try` block of one quick selector: hide and save it when it matches something. */
    method HideAndSave(sel: string) returns (matched: bool)
      requires Valid() && sel != ""
      modifies this`dom, this`blockedSelectors, storage`blockedElements
      ensures matched <==> MatchesSome(query, old(dom), sel)
      ensures matched ==> Snapshot() == Save(old(Snapshot()).(dom := HideMatches(query, old(dom), sel)), hostname, IoOf(), sel)
      ensures !matched ==> Snapshot() == old(Snapshot())
      ensures Valid()
    {
      matched := false;
      var els := query(dom, sel);
      if els.Some? && |els.value| > 0 {
        HideAllIn(els.value);
        SaveSelectorForHost(sel);
        matched := true;
      }
    }

    /** `applyQuickOptions(options)` (content.js:334-396). */
    method ApplyQuickOptions(options: seq<(string, bool)>)
      requires Valid()
      modifies this`dom, this`blockedSelectors, storage`blockedElements
      ensures Snapshot() == QuickAll(query, hostname, IoOf(), old(Snapshot()), options)
      ensures Valid()
    {
      if !Contains(hostname, "youtube.com") {
        return;
      }
      ghost var s0 := Snapshot();
      ghost var io := IoOf();
      var i := 0;
      while i < |options|
        invariant 0 <= i <= |options|
        invariant io == IoOf()
        invariant QuickFold(query, hostname, io, s0, options) == QuickFold(query, hostname, io, Snapshot(), options[i..])
        invariant Valid()
      {
        ghost var before := Snapshot();
        QuickFoldAt(query, hostname, io, before, options, i);
        ApplyQuickOption(options[i].0, options[i].1);
        i := i + 1;
      }
      assert options[i..] == [];
    }

    // ---- event and message handlers ----

    /** The `toggleBlock` message: the mode becomes the flag; leaving it drops the highlight. */
    method ToggleBlocking(enabled: bool)
      requires Valid()
      modifies this`dom, this`hovered, this`isBlocking
      ensures isBlocking == enabled
      ensures enabled ==> dom == old(dom) && hovered == old(hovered)
      ensures !enabled ==> dom == DropHighlight(old(dom), old(hovered)) && hovered.None?
      ensures Valid()
    {
      isBlocking := enabled;
      if !isBlocking {
        RemoveHighlight();
      }
    }

    /** The `clearBlocks` message: everything cleared for the host, and blocking mode left. */
    method ClearAndLeave()
      requires Valid()
      modifies this`dom, this`blockedSelectors, this`hovered, this`isBlocking, storage`blockedElements
      ensures !isBlocking && hovered.None?
      ensures var c := ClearHost(old(Snapshot()), hostname, IoOf());
        Snapshot() == c.(dom := DropHighlight(c.dom, old(hovered)))
      ensures Valid()
    {
      ClearAllBlocks();
      isBlocking := false;
      RemoveHighlight();
    }

    /** The runtime message listener (content.js:281-310). */
    method HandleMessage(req: Request) returns (resp: Response)
      requires Valid()
      modifies this`dom, this`blockedSelectors, this`hovered, this`isBlocking, storage`blockedElements
      ensures req.ToggleBlock? ==>
        && resp == Response(true, Some(req.enabled)) && isBlocking == req.enabled
        && blockedSelectors == old(blockedSelectors) && storage.blockedElements == old(storage.blockedElements)
        && (req.enabled ==> dom == old(dom) && hovered == old(hovered))
        && (!req.enabled ==> dom == DropHighlight(old(dom), old(hovered)) && hovered.None?)
      ensures req.ClearBlocks? ==>
        && resp == Response(true, None) && !isBlocking && hovered.None?
        && var c := ClearHost(old(Snapshot()), hostname, IoOf());
           Snapshot() == c.(dom := DropHighlight(c.dom, old(hovered)))
      ensures req.GetState? ==> resp == Response(true, Some(isBlocking))
      ensures req.ApplyQuickOptions? ==>
        && resp == Response(true, None) && isBlocking == old(isBlocking) && hovered == old(hovered)
        && Snapshot() == QuickAll(query, hostname, IoOf(), old(Snapshot()), req.options)
      ensures req.OtherAction? || req.NoAction? ==> resp == Response(false, None)
      ensures req.GetState? || req.OtherAction? || req.NoAction? ==>
        Snapshot() == old(Snapshot()) && isBlocking == old(isBlocking) && hovered == old(hovered)
      ensures Valid()
    {
      match req {
        case NoAction =>
          resp := Response(false, None);
        case ToggleBlock(enabled) =>
          ToggleBlocking(enabled);
          resp := Response(true, Some(isBlocking));
        case ClearBlocks =>
          ClearAndLeave();
          resp := Response(true, None);
        case GetState =>
          resp := Response(true, Some(isBlocking));
        case ApplyQuickOptions(options) =>
          ApplyQuickOptions(options);
          resp := Response(true, None);
        case OtherAction =>
          resp := Response(false, None);
      }
    }

    /** The mousemove listener with `scheduleMouseMove`: at most one frame is pending (content.js:238-245, 438-440). */
    method OnMouseMove(target: Target)
      requires Valid() && (target.ElementNode? ==> target.e in dom)
      modifies this`rafScheduled, this`pendingMove
      ensures isBlocking && !old(rafScheduled) ==> rafScheduled && pendingMove == Some(target)
      ensures !isBlocking || old(rafScheduled) ==> rafScheduled == old(rafScheduled) && pendingMove == old(pendingMove)
      ensures Valid()
    {
      if !isBlocking {
        return;
      }
      if rafScheduled {
        return;
      }
      rafScheduled := true;
      pendingMove := Some(target);
    }

    /**
     * The frame callback (content.js:241-243, 441-456), re-checking the mode
     * first: a frame that runs after blocking mode was left does nothing,
     * unlike the written callback, which highlights the target regardless.
     */
    method OnAnimationFrame()
      requires Valid() && rafScheduled
      modifies this`dom, this`hovered, this`rafScheduled, this`pendingMove
      ensures !rafScheduled && pendingMove.None?
      ensures isBlocking && old(pendingMove).value.ElementNode? ==>
        var e := old(pendingMove).value.e;
        dom == MoveHighlight(old(dom), old(hovered), e) && hovered == Some(e)
      ensures !isBlocking || old(pendingMove).value.OtherNode? ==> dom == old(dom) && hovered == old(hovered)
      ensures Valid()
    {
      rafScheduled := false;
      var target := pendingMove.value;
      pendingMove := None;
      if !isBlocking || target.OtherNode? {
        return;
      }
      var e := target.e;
      ghost var d0 := dom;
      ghost var gone: set<ElemId> := {};
      if hovered.Some? && hovered.value != e {
        var h := hovered.value;
        assert h in WithClass(dom, HighlightClass);
        MarkOne(dom, h, HighlightClass);
        dom := dom[h := dom[h].(classes := RemoveClass(dom[h].classes, HighlightClass))];
        gone := {h};
      }
      assert dom == UnmarkAll(d0, gone, HighlightClass);
      hovered := Some(e);
      MarkOne(dom, e, HighlightClass);
      dom := dom[e := dom[e].(classes := AddClass(dom[e].classes, HighlightClass))];
      SingleHighlight(d0, old(hovered), e);
    }

    /** The click listener: while blocking, a primary-button click is suppressed and blocks its target (content.js:461-477). */
    method OnClick(target: Target, button: int, token: string, writable: bool) returns (suppressed: bool)
      requires Valid() && (target.ElementNode? ==> target.e in dom)
      modifies this`dom, this`blockedSelectors, this`hovered, storage`blockedElements
      ensures suppressed <==> isBlocking && button == 0
      ensures suppressed ==> Snapshot() == Block(query, hostname, IoOf(), old(Snapshot()), old(hovered), target, token, writable)
      ensures !suppressed ==> Snapshot() == old(Snapshot()) && hovered == old(hovered)
      ensures Valid()
    {
      if !isBlocking || button != 0 {
        return false;
      }
      suppressed := true;
      BlockElement(target, token, writable);
    }

    /** The keydown listener: Escape leaves blocking mode (content.js:480-485). */
    method OnKeyDown(key: string)
      requires Valid()
      modifies this`dom, this`hovered, this`isBlocking
      ensures key == "Escape" && old(isBlocking) ==>
        !isBlocking && dom == DropHighlight(old(dom), old(hovered)) && hovered.None?
      ensures !(key == "Escape" && old(isBlocking)) ==>
        isBlocking == old(isBlocking) && dom == old(dom) && hovered == old(hovered)
      ensures Valid()
    {
      if key == "Escape" && isBlocking {
        isBlocking := false;
        RemoveHighlight();
      }
    }
  }
}
