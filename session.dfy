/**
 * The content script's state changes as pure functions over a snapshot: the
 * page's elements, the cached selector list of the current host
 * (`blockedSelectors`) and the persisted map. The `Page` class in
 * content.dfy performs the same steps in place and is proved equal to these.
 */
module Session {
  import opened Wrappers
  import opened Util
  import opened Dom
  import opened Synth
  import opened Store

  /** Whether the storage `get` and `set` of one persisting step report an error. */
  datatype Io = Io(readFails: bool, writeFails: bool)

  predicate IoOk(io: Io)
  {
    !io.readFails && !io.writeFails
  }

  datatype Session = Session(dom: Tree, cache: seq<string>, stored: Blocked)

  // ---- adding and removing a class on a set of elements ----

  /** `classList.add(c)` on every element of `S`. */
  function MarkAll(t: Tree, S: set<ElemId>, c: string): (r: Tree)
    ensures r.Keys == t.Keys
    ensures forall e | e in t && e in S :: HasClass(r[e], c)
    ensures forall e | e in t && (e !in S || HasClass(t[e], c)) :: r[e] == t[e]
    ensures (forall e | e in t && e in S :: HasClass(t[e], c)) ==> r == t
  {
    map e | e in t :: if e in S then t[e].(classes := AddClass(t[e].classes, c)) else t[e]
  }

  /** `classList.remove(c)` on every element of `S`. */
  function UnmarkAll(t: Tree, S: set<ElemId>, c: string): (r: Tree)
    ensures r.Keys == t.Keys
    ensures forall e | e in t && e in S :: !HasClass(r[e], c)
    ensures forall e | e in t && (e !in S || !HasClass(t[e], c)) :: r[e] == t[e]
    ensures (forall e | e in t && e in S :: !HasClass(t[e], c)) ==> r == t
  {
    map e | e in t :: if e in S then t[e].(classes := RemoveClass(t[e].classes, c)) else t[e]
  }

  /** Which elements carry a class after marking or unmarking a set. */
  lemma WithClassMarking(t: Tree, S: set<ElemId>, c: string, d: string)
    ensures WithClass(MarkAll(t, S, c), d) == if d == c then WithClass(t, c) + (S * t.Keys) else WithClass(t, d)
    ensures WithClass(UnmarkAll(t, S, c), d) == if d == c then WithClass(t, c) - S else WithClass(t, d)
  {
  }

  lemma MarkersDistinct()
    ensures HideClass != HighlightClass
  {
    assert |HideClass| != |HighlightClass|;
  }

  /** Hiding and showing never change which elements are highlighted. */
  lemma HidingKeepsHighlight(t: Tree, S: set<ElemId>)
    ensures WithClass(MarkAll(t, S, HideClass), HighlightClass) == WithClass(t, HighlightClass)
    ensures WithClass(UnmarkAll(t, S, HideClass), HighlightClass) == WithClass(t, HighlightClass)
  {
    MarkersDistinct();
    WithClassMarking(t, S, HideClass, HighlightClass);
  }

  /** Highlighting and unhighlighting never change which elements are hidden. */
  lemma HighlightingKeepsHidden(t: Tree, S: set<ElemId>)
    ensures WithClass(MarkAll(t, S, HighlightClass), HideClass) == WithClass(t, HideClass)
    ensures WithClass(UnmarkAll(t, S, HighlightClass), HideClass) == WithClass(t, HideClass)
  {
    MarkersDistinct();
    WithClassMarking(t, S, HighlightClass, HideClass);
  }

  /** Marking or unmarking a single element is an update of that element alone. */
  lemma MarkOne(t: Tree, x: ElemId, c: string)
    requires x in t
    ensures MarkAll(t, {x}, c) == t[x := t[x].(classes := AddClass(t[x].classes, c))]
    ensures UnmarkAll(t, {x}, c) == t[x := t[x].(classes := RemoveClass(t[x].classes, c))]
  {
  }

  /** Marking a set one element at a time, as the `forEach` loops do. */
  lemma MarkStep(t: Tree, A: set<ElemId>, x: ElemId, c: string)
    requires x in t && x !in A
    ensures var m := MarkAll(t, A, c);
      MarkAll(t, A + {x}, c) == m[x := m[x].(classes := AddClass(m[x].classes, c))]
  {
    var m := MarkAll(t, A, c);
    var l := MarkAll(t, A + {x}, c);
    var r := m[x := m[x].(classes := AddClass(m[x].classes, c))];
    forall y | y in l
      ensures l[y] == r[y]
    {
    }
    assert l.Keys == r.Keys;
  }

  lemma UnmarkStep(t: Tree, A: set<ElemId>, x: ElemId, c: string)
    requires x in t && x !in A
    ensures var u := UnmarkAll(t, A, c);
      UnmarkAll(t, A + {x}, c) == u[x := u[x].(classes := RemoveClass(u[x].classes, c))]
  {
    var u := UnmarkAll(t, A, c);
    var l := UnmarkAll(t, A + {x}, c);
    var r := u[x := u[x].(classes := RemoveClass(u[x].classes, c))];
    forall y | y in l
      ensures l[y] == r[y]
    {
    }
    assert l.Keys == r.Keys;
  }

  /** One step of a loop that marks `S` element by element, `rest` still to do. */
  lemma MarkNext(t: Tree, S: set<ElemId>, rest: set<ElemId>, e: ElemId, c: string)
    requires rest <= S && S <= t.Keys && e in rest
    ensures var m := MarkAll(t, S - rest, c);
      && e in m
      && (!HasClass(m[e], c) ==> MarkAll(t, S - (rest - {e}), c) == m[e := m[e].(classes := AddClass(m[e].classes, c))])
      && (HasClass(m[e], c) ==> MarkAll(t, S - (rest - {e}), c) == m)
  {
    var m := MarkAll(t, S - rest, c);
    assert S - (rest - {e}) == (S - rest) + {e};
    MarkStep(t, S - rest, e, c);
    if HasClass(m[e], c) {
      assert m[e].(classes := AddClass(m[e].classes, c)) == m[e];
    }
  }

  /** One step of a loop that unmarks `S` element by element, `rest` still to do. */
  lemma UnmarkNext(t: Tree, S: set<ElemId>, rest: set<ElemId>, e: ElemId, c: string)
    requires rest <= S && S <= t.Keys && e in rest
    ensures var u := UnmarkAll(t, S - rest, c);
      e in u && UnmarkAll(t, S - (rest - {e}), c) == u[e := u[e].(classes := RemoveClass(u[e].classes, c))]
  {
    assert S - (rest - {e}) == (S - rest) + {e};
    UnmarkStep(t, S - rest, e, c);
  }

  lemma SameClassesWithClass(t: Tree, t': Tree, c: string)
    requires t'.Keys == t.Keys && forall x | x in t :: t'[x].classes == t[x].classes
    ensures WithClass(t', c) == WithClass(t, c)
  {
  }

  lemma SameButMarksRefl(t: Tree)
    ensures SameButMarks(t, t)
  {
  }

  lemma SameButMarksTrans(t1: Tree, t2: Tree, t3: Tree)
    requires SameButMarks(t1, t2) && SameButMarks(t2, t3)
    ensures SameButMarks(t1, t3)
  {
    forall e | e in t1
      ensures t3[e].(classes := []) == t1[e].(classes := []) && Unmarked(t3[e].classes) == Unmarked(t1[e].classes)
    {
      assert e in t2;
    }
  }

  /** Adding or removing one of the script's marker classes changes nothing else about the page. */
  lemma MarkingSameButMarks(t: Tree, S: set<ElemId>, c: string)
    requires IsMarker(c)
    ensures SameButMarks(t, MarkAll(t, S, c))
    ensures SameButMarks(t, UnmarkAll(t, S, c))
  {
    var m := MarkAll(t, S, c);
    var u := UnmarkAll(t, S, c);
    forall e | e in t
      ensures m[e].(classes := []) == t[e].(classes := []) && Unmarked(m[e].classes) == Unmarked(t[e].classes)
      ensures u[e].(classes := []) == t[e].(classes := []) && Unmarked(u[e].classes) == Unmarked(t[e].classes)
    {
      UnmarkedAddMarker(t[e].classes, c);
      UnmarkedRemoveMarker(t[e].classes, c);
    }
  }

  /** The oracle's answer for `sel` does not depend on the script's own marker classes. */
  ghost predicate MarkInsensitive(q: Query, sel: string)
  {
    forall t, t' | SameButMarks(t, t') :: q(t, sel) == q(t', sel)
  }

  // ---- saving a selector (content.js:158-170) ----

  /**
   * `saveSelectorForHost(sel)`: an empty or already cached selector is
   * ignored; otherwise it joins the cache and is persisted for `host`.
   */
  function Save(s: Session, host: string, io: Io, sel: string): (r: Session)
    ensures r.dom == s.dom
    ensures sel == "" || sel in s.cache ==> r == s
    ensures sel != "" ==> sel in r.cache
    ensures forall x :: x in r.cache <==> x in s.cache || (x == sel && sel != "")
    ensures s.cache <= r.cache
    ensures forall h | h != host :: (h in r.stored <==> h in s.stored) && (h in s.stored ==> r.stored[h] == s.stored[h])
    ensures !IoOk(io) ==> r.stored == s.stored
    ensures IoOk(io) && sel != "" && sel !in s.cache ==> host in r.stored && sel in r.stored[host]
    ensures forall x | host in s.stored && x in s.stored[host] :: host in r.stored && x in r.stored[host]
  {
    if sel == "" || sel in s.cache then s
    else s.(cache := s.cache + [sel], stored := PersistSave(s.stored, host, sel, io.readFails, io.writeFails))
  }

  /** The cache never holds a selector twice: after a save, `sel` is in it exactly once. */
  lemma SaveOnce(s: Session, host: string, io: Io, sel: string)
    requires NoDup(s.cache) && sel != ""
    ensures NoDup(Save(s, host, io, sel).cache)
    ensures Count(Save(s, host, io, sel).cache, sel) == 1
  {
    var r := Save(s, host, io, sel);
    assert NoDup(r.cache);
    NoDupCount(r.cache, sel);
  }

  /** With storage working, a save keeps the cache and the stored list of the host equal. */
  lemma SaveConverges(s: Session, host: string, io: Io, sel: string)
    requires IoOk(io) && Converged(s.cache, s.stored, host)
    ensures Converged(Save(s, host, io, sel).cache, Save(s, host, io, sel).stored, host)
  {
  }

  /** `saveSelectorForHost(sel)` called `n` times in a row. */
  function SaveTimes(s: Session, host: string, io: Io, sel: string, n: nat): Session
    decreases n
  {
    if n == 0 then s else SaveTimes(Save(s, host, io, sel), host, io, sel, n - 1)
  }

  /**
   * Saving the same selector any positive number of times leaves it exactly
   * once in the cache and, when storage works, exactly once in the host's
   * stored list.
   */
  lemma {:induction false} SaveRepeated(s: Session, host: string, io: Io, sel: string, n: nat)
    requires n >= 1 && sel != ""
    requires NoDup(s.cache) && Converged(s.cache, s.stored, host)
    ensures SaveTimes(s, host, io, sel, n) == Save(s, host, io, sel)
    ensures Count(SaveTimes(s, host, io, sel, n).cache, sel) == 1
    ensures IoOk(io) ==> host in SaveTimes(s, host, io, sel, n).stored
                         && Count(SaveTimes(s, host, io, sel, n).stored[host], sel) == 1
    decreases n
  {
    var s1 := Save(s, host, io, sel);
    if n > 1 {
      SaveFixed(s1, host, io, sel, n - 1);
    }
    SaveOnce(s, host, io, sel);
    if IoOk(io) {
      SaveConverges(s, host, io, sel);
    }
  }

  lemma {:induction false} SaveFixed(s: Session, host: string, io: Io, sel: string, n: nat)
    requires sel == "" || sel in s.cache
    ensures SaveTimes(s, host, io, sel, n) == s
    decreases n
  {
    if n > 0 {
      SaveFixed(Save(s, host, io, sel), host, io, sel, n - 1);
    }
  }

  // ---- applying a selector (content.js:198-219) ----

  /** The elements `applySelector` hides: every match of a non-empty selector whose query succeeds. */
  function Matched(q: Query, t: Tree, sel: string): (r: set<ElemId>)
    ensures r <= t.Keys
    ensures r != {} <==> sel != "" && MatchesSome(q, t, sel)
  {
    if sel != "" && q(t, sel).Some? then q(t, sel).value else {}
  }

  function HideMatches(q: Query, t: Tree, sel: string): (r: Tree)
    ensures r.Keys == t.Keys
    ensures SameButMarks(t, r)
    ensures forall e | e in Matched(q, t, sel) :: Hidden(r[e])
    ensures forall e | e in t && Hidden(t[e]) :: r[e] == t[e]
    ensures forall e | e in t && e !in Matched(q, t, sel) :: r[e] == t[e]
  {
    MarkingSameButMarks(t, Matched(q, t, sel), HideClass);
    MarkAll(t, Matched(q, t, sel), HideClass)
  }

  datatype Applied = Applied(found: bool, session: Session)

  /**
   * `applySelector(sel, {save})`: found exactly when the selector is non-empty
   * and its query succeeds with at least one match; every match is then
   * hidden and, when `save` is set, the selector is saved.
   */
  function Apply(q: Query, host: string, io: Io, s: Session, sel: string, save: bool): (r: Applied)
    ensures r.found <==> sel != "" && MatchesSome(q, s.dom, sel)
    ensures q(s.dom, sel).None? ==> r == Applied(false, s)
    ensures !r.found ==> r.session == s
    ensures r.session.dom == HideMatches(q, s.dom, sel)
    ensures r.found && save ==> r.session == Save(s.(dom := r.session.dom), host, io, sel)
    ensures !save ==> r.session.cache == s.cache && r.session.stored == s.stored
  {
    if sel == "" then Applied(false, s)
    else
      match q(s.dom, sel)
      case None => Applied(false, s)
      case Some(els) =>
        if |els| > 0 then
          var s' := s.(dom := HideMatches(q, s.dom, sel));
          Applied(true, if save then Save(s', host, io, sel) else s')
        else Applied(false, s)
  }

  /** Applying a selector twice changes nothing the second time. */
  lemma ApplyIdempotent(q: Query, host: string, io: Io, s: Session, sel: string, save: bool)
    requires MarkInsensitive(q, sel)
    ensures var r := Apply(q, host, io, s, sel, save);
      Apply(q, host, io, r.session, sel, save) == r
  {
    var r := Apply(q, host, io, s, sel, save);
    assert q(r.session.dom, sel) == q(s.dom, sel);
  }

  // ---- re-applying the cache (content.js:221-225) ----

  /** `reapplyAllBlockedSelectors`: every cached selector applied in order, nothing saved. */
  function Reapply(q: Query, t: Tree, sels: seq<string>): (r: Tree)
    ensures SameButMarks(t, r)
    ensures forall e | e in t && Hidden(t[e]) :: Hidden(r[e])
    decreases |sels|
  {
    if sels == [] then SameButMarksRefl(t); t
    else
      var t1 := HideMatches(q, t, sels[0]);
      var r := Reapply(q, t1, sels[1..]);
      SameButMarksTrans(t, t1, r);
      r
  }

  /** After a reapply, every element matched by any cached selector is hidden. */
  lemma {:induction false} ReapplyCovers(q: Query, t: Tree, sels: seq<string>)
    requires forall i | 0 <= i < |sels| :: MarkInsensitive(q, sels[i])
    ensures forall i, e | 0 <= i < |sels| && e in Matched(q, t, sels[i]) :: Hidden(Reapply(q, t, sels)[e])
    decreases |sels|
  {
    if sels != [] {
      var t1 := HideMatches(q, t, sels[0]);
      ReapplyCovers(q, t1, sels[1..]);
      forall i, e | 0 <= i < |sels| && e in Matched(q, t, sels[i])
        ensures Hidden(Reapply(q, t, sels)[e])
      {
        if i > 0 {
          assert sels[1..][i - 1] == sels[i];
          assert q(t1, sels[i]) == q(t, sels[i]);
        }
      }
    }
  }

  /** A tree in which every match of every selector is already hidden is left as it is. */
  lemma {:induction false} ReapplyFixed(q: Query, t: Tree, sels: seq<string>)
    requires forall i, e | 0 <= i < |sels| && e in Matched(q, t, sels[i]) :: Hidden(t[e])
    ensures Reapply(q, t, sels) == t
    decreases |sels|
  {
    if sels != [] {
      assert HideMatches(q, t, sels[0]) == t;
      forall i, e | 0 <= i < |sels[1..]| && e in Matched(q, t, sels[1..][i])
        ensures Hidden(t[e])
      {
        assert sels[1..][i] == sels[i + 1];
      }
      ReapplyFixed(q, t, sels[1..]);
    }
  }

  /** Reapplying twice is the same as reapplying once, as the mutation observer relies on. */
  lemma ReapplyIdempotent(q: Query, t: Tree, sels: seq<string>)
    requires forall i | 0 <= i < |sels| :: MarkInsensitive(q, sels[i])
    ensures Reapply(q, Reapply(q, t, sels), sels) == Reapply(q, t, sels)
  {
    var r := Reapply(q, t, sels);
    ReapplyCovers(q, t, sels);
    forall i, e | 0 <= i < |sels| && e in Matched(q, r, sels[i])
      ensures Hidden(r[e])
    {
      assert q(r, sels[i]) == q(t, sels[i]);
    }
    ReapplyFixed(q, r, sels);
  }

  // ---- loading and clearing ----

  /** The cache `loadBlockedSelectorsFromStorage` reads (content.js:148-155). */
  function LoadCache(m: Blocked, host: string, readFails: bool): (r: seq<string>)
    ensures !readFails ==> Converged(r, m, host)
    ensures readFails ==> r == []
  {
    if !readFails && host in m then m[host] else []
  }

  /**
   * `clearAllBlocks` apart from the highlight (content.js:173-193): the cache
   * empties, every hidden element is shown again and the host's key is deleted.
   */
  function ClearHost(s: Session, host: string, io: Io): (r: Session)
    ensures r.cache == []
    ensures WithClass(r.dom, HideClass) == {}
    ensures SameButMarks(s.dom, r.dom)
    ensures forall e | e in s.dom && !Hidden(s.dom[e]) :: r.dom[e] == s.dom[e]
    ensures forall h | h != host :: (h in r.stored <==> h in s.stored) && (h in s.stored ==> r.stored[h] == s.stored[h])
    ensures IoOk(io) ==> Converged(r.cache, r.stored, host)
  {
    MarkingSameButMarks(s.dom, WithClass(s.dom, HideClass), HideClass);
    Session(UnmarkAll(s.dom, WithClass(s.dom, HideClass), HideClass), [], PersistClear(s.stored, host, io.readFails, io.writeFails))
  }

  // ---- the highlight (content.js:256-262, 437-458) ----

  function OptSet(o: Option<ElemId>): set<ElemId>
  {
    if o.Some? then {o.value} else {}
  }

  /** `removeHighlight`: the hovered element loses the highlight class. */
  function DropHighlight(t: Tree, hovered: Option<ElemId>): (r: Tree)
    ensures hovered.None? ==> r == t
    ensures WithClass(r, HighlightClass) == WithClass(t, HighlightClass) - OptSet(hovered)
    ensures SameButMarks(t, r)
    ensures WithClass(r, HideClass) == WithClass(t, HideClass)
  {
    MarkingSameButMarks(t, OptSet(hovered), HighlightClass);
    WithClassMarking(t, OptSet(hovered), HighlightClass, HighlightClass);
    HighlightingKeepsHidden(t, OptSet(hovered));
    UnmarkAll(t, OptSet(hovered), HighlightClass)
  }

  /**
   * The frame callback of the mousemove handler: the previously hovered
   * element, when it is another one, loses the highlight, and the target gains it.
   */
  function MoveHighlight(t: Tree, hovered: Option<ElemId>, target: ElemId): (r: Tree)
    requires target in t
    ensures WithClass(r, HighlightClass)
            == (WithClass(t, HighlightClass) - (if hovered.Some? && hovered.value != target then {hovered.value} else {})) + {target}
    ensures SameButMarks(t, r)
    ensures WithClass(r, HideClass) == WithClass(t, HideClass)
  {
    var gone := if hovered.Some? && hovered.value != target then {hovered.value} else {};
    var t1 := UnmarkAll(t, gone, HighlightClass);
    MoveHighlightMarks(t, gone, target);
    MoveHighlightSets(t, gone, target);
    MarkAll(t1, {target}, HighlightClass)
  }

  lemma MoveHighlightMarks(t: Tree, gone: set<ElemId>, target: ElemId)
    ensures SameButMarks(t, MarkAll(UnmarkAll(t, gone, HighlightClass), {target}, HighlightClass))
  {
    var t1 := UnmarkAll(t, gone, HighlightClass);
    MarkingSameButMarks(t, gone, HighlightClass);
    MarkingSameButMarks(t1, {target}, HighlightClass);
    SameButMarksTrans(t, t1, MarkAll(t1, {target}, HighlightClass));
  }

  lemma MoveHighlightSets(t: Tree, gone: set<ElemId>, target: ElemId)
    requires target in t
    ensures var r := MarkAll(UnmarkAll(t, gone, HighlightClass), {target}, HighlightClass);
      && WithClass(r, HighlightClass) == (WithClass(t, HighlightClass) - gone) + {target}
      && WithClass(r, HideClass) == WithClass(t, HideClass)
  {
    var t1 := UnmarkAll(t, gone, HighlightClass);
    WithClassMarking(t, gone, HighlightClass, HighlightClass);
    HighlightingKeepsHidden(t, gone);
    WithClassMarking(t1, {target}, HighlightClass, HighlightClass);
    HighlightingKeepsHidden(t1, {target});
    assert {target} * t1.Keys == {target};
  }

  /** If only the hovered element was highlighted, only the new target is. */
  lemma SingleHighlight(t: Tree, hovered: Option<ElemId>, target: ElemId)
    requires target in t && WithClass(t, HighlightClass) == OptSet(hovered)
    ensures WithClass(MoveHighlight(t, hovered, target), HighlightClass) == {target}
    ensures WithClass(DropHighlight(t, hovered), HighlightClass) == {}
  {
  }

  /** The frame callback as content.js:440-457 writes it: it highlights the target whatever the mode is by now. */
  function FrameAsWritten(t: Tree, hovered: Option<ElemId>, target: Target): (r: (Tree, Option<ElemId>))
    requires target.ElementNode? ==> target.e in t
  {
    match target
    case OtherNode => (t, hovered)
    case ElementNode(e) => (MoveHighlight(t, hovered, e), Some(e))
  }

  /**
   * A mousemove schedules a frame, Escape leaves blocking mode and drops the
   * highlight, then the frame runs: an element is highlighted although
   * blocking mode is off, and no handler removes it until the mode is
   * entered and left again.
   */
  lemma StaleFrameAsWritten(t: Tree, e: ElemId)
    requires e in t && WithClass(t, HighlightClass) == {}
    ensures var afterEscape := DropHighlight(t, None);
      var r := FrameAsWritten(afterEscape, None, ElementNode(e));
      WithClass(r.0, HighlightClass) == {e} && r.1 == Some(e)
  {
  }

  // ---- blocking a clicked element (content.js:264-278) ----

  /** Whether `blockElement(target)` gets past its guards to a selector. */
  predicate Acts(q: Query, t: Tree, target: Target, token: string, writable: bool)
  {
    && target.ElementNode? && target.e in t
    && !Hidden(t[target.e])
    && Synthesize(q, t, target, token, writable).selector.Some?
  }

  /**
   * `blockElement(target)`: a non-element, an element already hidden, or one
   * no selector can be made for changes nothing; otherwise the selector is
   * applied and saved, and the highlight is dropped.
   */
  function Block(q: Query, host: string, io: Io, s: Session, hovered: Option<ElemId>,
                 target: Target, token: string, writable: bool): (r: Session)
    ensures r.dom.Keys == s.dom.Keys
    ensures !Acts(q, s.dom, target, token, writable) ==> r == s
    ensures Acts(q, s.dom, target, token, writable) ==>
      WithClass(r.dom, HighlightClass) == WithClass(s.dom, HighlightClass) - OptSet(hovered)
    ensures WithClass(s.dom, HideClass) <= WithClass(r.dom, HideClass)
  {
    if !Acts(q, s.dom, target, token, writable) then s
    else BlockWith(q, host, io, s, hovered, Synthesize(q, s.dom, target, token, writable))
  }

  /** The rest of `blockElement` once the selector is made: apply and save it, then drop the highlight. */
  function BlockWith(q: Query, host: string, io: Io, s: Session, hovered: Option<ElemId>, syn: Synthesis): (r: Session)
    requires syn.selector.Some? && syn.tree.Keys == s.dom.Keys
    requires forall x | x in s.dom :: syn.tree[x].classes == s.dom[x].classes
    ensures r.dom.Keys == s.dom.Keys
    ensures WithClass(r.dom, HighlightClass) == WithClass(s.dom, HighlightClass) - OptSet(hovered)
    ensures WithClass(r.dom, HideClass) == WithClass(s.dom, HideClass) + Matched(q, syn.tree, syn.selector.value)
    ensures Matched(q, syn.tree, syn.selector.value) != {} ==> syn.selector.value in r.cache
  {
    var sel := syn.selector.value;
    var a := Apply(q, host, io, s.(dom := syn.tree), sel, true);
    BlockWithSets(q, s.dom, syn.tree, sel);
    a.session.(dom := DropHighlight(a.session.dom, hovered))
  }

  lemma BlockWithSets(q: Query, t: Tree, t': Tree, sel: string)
    requires t'.Keys == t.Keys && forall x | x in t :: t'[x].classes == t[x].classes
    ensures WithClass(HideMatches(q, t', sel), HighlightClass) == WithClass(t, HighlightClass)
    ensures WithClass(HideMatches(q, t', sel), HideClass) == WithClass(t, HideClass) + Matched(q, t', sel)
  {
    var m := Matched(q, t', sel);
    SameClassesWithClass(t, t', HighlightClass);
    SameClassesWithClass(t, t', HideClass);
    HidingKeepsHighlight(t', m);
    WithClassMarking(t', m, HideClass, HideClass);
    assert m * t'.Keys == m;
  }

  /**
   * A selector from tiers 1 to 4 matches exactly one element; blocking hides
   * it and saves the selector, and every other element keeps its visibility.
   */
  lemma BlockCandidate(q: Query, host: string, io: Io, s: Session, hovered: Option<ElemId>,
                       e: ElemId, token: string, writable: bool)
    requires e in s.dom && !Hidden(s.dom[e]) && Candidate(q, s.dom, e).Some?
    ensures var sel := Candidate(q, s.dom, e).value;
      var r := Block(q, host, io, s, hovered, ElementNode(e), token, writable);
      && sel in r.cache
      && |q(s.dom, sel).value| == 1
      && WithClass(r.dom, HideClass) == WithClass(s.dom, HideClass) + q(s.dom, sel).value
  {
    var sel := Candidate(q, s.dom, e).value;
    var syn := Synthesize(q, s.dom, ElementNode(e), token, writable);
    assert syn == Synthesis(Some(sel), s.dom);
    assert Acts(q, s.dom, ElementNode(e), token, writable);
    assert Matched(q, s.dom, sel) == q(s.dom, sel).value;
  }

  /**
   * With an engine that evaluates the blocker attribute faithfully and a fresh
   * token, the last resort hides exactly the clicked element and saves its
   * selector.
   */
  lemma BlockLastResort(q: Query, host: string, io: Io, s: Session, hovered: Option<ElemId>, e: ElemId, token: string)
    requires TokenSound(q)
    requires e in s.dom && !Hidden(s.dom[e]) && Candidate(q, s.dom, e).None?
    requires Carrying(s.dom, token) == {}
    ensures var r := Block(q, host, io, s, hovered, ElementNode(e), token, true);
      && TokenSelector(token) in r.cache
      && WithClass(r.dom, HideClass) == WithClass(s.dom, HideClass) + {e}
  {
    var syn := Synthesize(q, s.dom, ElementNode(e), token, true);
    LastResortUnique(q, s.dom, e, token);
    assert Acts(q, s.dom, ElementNode(e), token, true);
    assert Matched(q, syn.tree, TokenSelector(token)) == {e} by {
      assert Carrying(syn.tree, token) == {e} by {
        forall x | x in syn.tree ensures x in Carrying(syn.tree, token) <==> x == e {
          if x != e {
            assert x !in Carrying(s.dom, token);
          }
        }
      }
    }
  }

  // ---- quick options (content.js:312-396) ----

  /** The primary selector of each quick option. */
  const PrimarySelectors: map<string, string> := map[
    "hideNotificationBell" := "ytd-notification-topbar-button-renderer, #notification-icon, button#notifications-button",
    "hideFeed" := "ytd-rich-grid-renderer, #contents, #primary #contents, ytd-browse[page-subtype=\"home\"] #contents",
    "disableAutoplay" := ".ytp-autonav-toggle-button, .ytp-autonav-toggle",
    "hideShorts" := "a[href*=\"/shorts\"], ytd-rich-shelf-renderer[href*=\"/shorts\"], tp-yt-paper-tab a[href*=\"/shorts\"]",
    "hideSubBar" := "[href*=\"/feed/subscriptions\"], a[href*=\"/feed/subscriptions\"]",
    "hideComments" := "ytd-comments#comments, #comments, ytd-comments",
    "hideSidebar" := "#secondary, ytd-watch-next-secondary-results-renderer, .secondary"
  ]

  /** The broader selector tried when the primary finds nothing; autoplay has none. */
  const FallbackSelectors: map<string, string> := map[
    "hideNotificationBell" := "[id*=\"notification\"], [class*=\"notification\"]",
    "hideFeed" := "[id*=\"contents\"], [class*=\"feed\"]",
    "hideShorts" := "[href*=\"shorts\"], [title*=\"Shorts\"]",
    "hideSubBar" := "[href*=\"subscription\"], [title*=\"Subscription\"]",
    "hideComments" := "[id*=\"comment\"], [class*=\"comment\"]",
    "hideSidebar" := "[id*=\"secondary\"], [class*=\"secondary\"]"
  ]

  /** One of the selectors of the two tables. */
  predicate Catalogued(sel: string)
  {
    sel in PrimarySelectors.Values || sel in FallbackSelectors.Values
  }

  /** A catalogued selector that matches something on the page. */
  predicate Usable(q: Query, t: Tree, table: map<string, string>, id: string)
  {
    id in table && table[id] != "" && MatchesSome(q, t, table[id])
  }

  /**
   * The selector an enabled option hides and saves: the primary when it
   * matches something, else the fallback when that does, else none.
   */
  function QuickChoice(q: Query, t: Tree, id: string): (r: Option<string>)
    ensures r.Some? ==> MatchesSome(q, t, r.value) && r.value != ""
    ensures Usable(q, t, PrimarySelectors, id) ==> r == Some(PrimarySelectors[id])
    ensures !Usable(q, t, PrimarySelectors, id) && Usable(q, t, FallbackSelectors, id) ==> r == Some(FallbackSelectors[id])
    ensures r.None? <==> !Usable(q, t, PrimarySelectors, id) && !Usable(q, t, FallbackSelectors, id)
  {
    if Usable(q, t, PrimarySelectors, id) then Some(PrimarySelectors[id])
    else if Usable(q, t, FallbackSelectors, id) then Some(FallbackSelectors[id])
    else None
  }

  /** One option: a disabled one, or one whose selectors match nothing, changes nothing. */
  function QuickStep(q: Query, host: string, io: Io, s: Session, id: string, enabled: bool): (r: Session)
    ensures r.dom.Keys == s.dom.Keys
    ensures !enabled || QuickChoice(q, s.dom, id).None? ==> r == s
    ensures enabled && QuickChoice(q, s.dom, id).Some? ==>
      var sel := QuickChoice(q, s.dom, id).value;
      && (forall e | e in Matched(q, s.dom, sel) :: Hidden(r.dom[e]))
      && sel in r.cache
    ensures SameButMarks(s.dom, r.dom)
    ensures forall x | x in r.cache && x !in s.cache :: Catalogued(x)
    ensures s.cache <= r.cache
    ensures forall h | h != host :: (h in r.stored <==> h in s.stored) && (h in s.stored ==> r.stored[h] == s.stored[h])
    ensures forall x | host in s.stored && x in s.stored[host] :: host in r.stored && x in r.stored[host]
    ensures IoOk(io) ==> forall x | x in r.cache && x !in s.cache :: host in r.stored && x in r.stored[host]
  {
    if !enabled then SameButMarksRefl(s.dom); s
    else
      match QuickChoice(q, s.dom, id)
      case None => SameButMarksRefl(s.dom); s
      case Some(sel) => Save(s.(dom := HideMatches(q, s.dom, sel)), host, io, sel)
  }

  function QuickFold(q: Query, host: string, io: Io, s: Session, options: seq<(string, bool)>): Session
    decreases |options|
  {
    if options == [] then s
    else QuickFold(q, host, io, QuickStep(q, host, io, s, options[0].0, options[0].1), options[1..])
  }

  /** Folding from position `i` is one step at `i`, then folding from `i + 1`. */
  lemma QuickFoldAt(q: Query, host: string, io: Io, s: Session, options: seq<(string, bool)>, i: nat)
    requires i < |options|
    ensures QuickFold(q, host, io, s, options[i..])
      == QuickFold(q, host, io, QuickStep(q, host, io, s, options[i].0, options[i].1), options[i + 1..])
  {
    assert options[i..][0] == options[i] && options[i..][1..] == options[i + 1..];
  }

  /**
   * `applyQuickOptions(options)`: nothing at all off YouTube; otherwise each
   * option in order.
   */
  function QuickAll(q: Query, host: string, io: Io, s: Session, options: seq<(string, bool)>): Session
  {
    if !Contains(host, "youtube.com") then s else QuickFold(q, host, io, s, options)
  }

  /** Quick options change nothing on the page but marks. */
  lemma {:induction false} QuickFoldMarks(q: Query, host: string, io: Io, s: Session, options: seq<(string, bool)>)
    ensures SameButMarks(s.dom, QuickFold(q, host, io, s, options).dom)
    decreases |options|
  {
    if options == [] {
      SameButMarksRefl(s.dom);
    } else {
      var s1 := QuickStep(q, host, io, s, options[0].0, options[0].1);
      QuickFoldMarks(q, host, io, s1, options[1..]);
      SameButMarksTrans(s.dom, s1.dom, QuickFold(q, host, io, s1, options[1..]).dom);
    }
  }

  /** Quick options only append to the cache. */
  lemma {:induction false} QuickFoldPrefix(q: Query, host: string, io: Io, s: Session, options: seq<(string, bool)>)
    ensures s.cache <= QuickFold(q, host, io, s, options).cache
    decreases |options|
  {
    if options != [] {
      var s1 := QuickStep(q, host, io, s, options[0].0, options[0].1);
      QuickFoldPrefix(q, host, io, s1, options[1..]);
    }
  }

  /** Every selector quick options add to the cache is one of the catalogued ones. */
  lemma {:induction false} QuickFoldCatalogued(q: Query, host: string, io: Io, s: Session, options: seq<(string, bool)>)
    ensures forall x | x in QuickFold(q, host, io, s, options).cache && x !in s.cache :: Catalogued(x)
    decreases |options|
  {
    if options != [] {
      var s1 := QuickStep(q, host, io, s, options[0].0, options[0].1);
      QuickFoldCatalogued(q, host, io, s1, options[1..]);
    }
  }

  /** Quick options leave the stored lists of other hosts alone. */
  lemma {:induction false} QuickFoldOtherHosts(q: Query, host: string, io: Io, s: Session, options: seq<(string, bool)>, h: string)
    requires h != host
    ensures var r := QuickFold(q, host, io, s, options);
      (h in r.stored <==> h in s.stored) && (h in s.stored ==> r.stored[h] == s.stored[h])
    decreases |options|
  {
    if options != [] {
      var s1 := QuickStep(q, host, io, s, options[0].0, options[0].1);
      QuickFoldOtherHosts(q, host, io, s1, options[1..], h);
    }
  }

  /**
   * With working storage, every selector a batch of quick options adds to
   * the cache ends up stored under the host, and nothing stored is lost.
   */
  lemma {:induction false} QuickFoldStores(q: Query, host: string, io: Io, s: Session, options: seq<(string, bool)>)
    ensures var r := QuickFold(q, host, io, s, options);
      forall x | host in s.stored && x in s.stored[host] :: host in r.stored && x in r.stored[host]
    ensures var r := QuickFold(q, host, io, s, options);
      IoOk(io) ==> forall x | x in r.cache && x !in s.cache :: host in r.stored && x in r.stored[host]
    decreases |options|
  {
    if options != [] {
      var s1 := QuickStep(q, host, io, s, options[0].0, options[0].1);
      QuickFoldStores(q, host, io, s1, options[1..]);
    }
  }

  // ---- the quick-options batch as written ----

  /**
   * A save inside one quick-options batch as content.js:158-169 runs it
   * there: every save of the batch issues its read before any callback runs,
   * so each reads `base`, the map as it was when the batch started (or `{}`
   * after a failed read), and each write replaces the whole map.
   */
  function SaveInBatchAsWritten(s: Session, base: Blocked, host: string, io: Io, sel: string): Session
  {
    if sel == "" || sel in s.cache then s
    else s.(cache := s.cache + [sel],
             stored := if io.writeFails then s.stored else AddSelector(if io.readFails then map[] else base, host, sel))
  }

  function QuickStepAsWritten(q: Query, host: string, io: Io, base: Blocked, s: Session, id: string, enabled: bool): Session
  {
    if !enabled then s
    else
      match QuickChoice(q, s.dom, id)
      case None => s
      case Some(sel) => SaveInBatchAsWritten(s.(dom := HideMatches(q, s.dom, sel)), base, host, io, sel)
  }

  function QuickFoldAsWritten(q: Query, host: string, io: Io, base: Blocked, s: Session, options: seq<(string, bool)>): Session
    decreases |options|
  {
    if options == [] then s
    else QuickFoldAsWritten(q, host, io, base, QuickStepAsWritten(q, host, io, base, s, options[0].0, options[0].1), options[1..])
  }

  /** `applyQuickOptions` as written: every save of the batch reads the map the batch started from. */
  function QuickAllAsWritten(q: Query, host: string, io: Io, s: Session, options: seq<(string, bool)>): Session
  {
    if !Contains(host, "youtube.com") then s else QuickFoldAsWritten(q, host, io, s.stored, s, options)
  }

  /** A batch of two options, as written, is its two steps. */
  lemma FoldTwoAsWritten(q: Query, host: string, io: Io, base: Blocked, s: Session, a: (string, bool), b: (string, bool))
    ensures QuickFoldAsWritten(q, host, io, base, s, [a, b])
      == QuickStepAsWritten(q, host, io, base, QuickStepAsWritten(q, host, io, base, s, a.0, a.1), b.0, b.1)
  {
    assert [a, b][1..] == [b] && [b][1..] == [];
    var s1 := QuickStepAsWritten(q, host, io, base, s, a.0, a.1);
    assert QuickFoldAsWritten(q, host, io, base, s, [a, b]) == QuickFoldAsWritten(q, host, io, base, s1, [b]);
  }

  /** A batch of two options, corrected, is its two steps. */
  lemma FoldTwo(q: Query, host: string, io: Io, s: Session, a: (string, bool), b: (string, bool))
    ensures QuickFold(q, host, io, s, [a, b])
      == QuickStep(q, host, io, QuickStep(q, host, io, s, a.0, a.1), b.0, b.1)
  {
    assert [a, b][1..] == [b] && [b][1..] == [];
    var s1 := QuickStep(q, host, io, s, a.0, a.1);
    assert QuickFold(q, host, io, s, [a, b]) == QuickFold(q, host, io, s1, [b]);
  }

  /** An enabled option whose choice is `sel`, as written: its matches are hidden and `sel` saved within the batch. */
  lemma StepAsWrittenOf(q: Query, host: string, io: Io, base: Blocked, s: Session, id: string, sel: string)
    requires QuickChoice(q, s.dom, id) == Some(sel)
    ensures QuickStepAsWritten(q, host, io, base, s, id, true)
      == SaveInBatchAsWritten(s.(dom := HideMatches(q, s.dom, sel)), base, host, io, sel)
  {
  }

  /** An enabled option whose choice is `sel`, corrected: its matches are hidden and `sel` saved. */
  lemma StepOf(q: Query, host: string, io: Io, s: Session, id: string, sel: string)
    requires QuickChoice(q, s.dom, id) == Some(sel)
    ensures QuickStep(q, host, io, s, id, true) == Save(s.(dom := HideMatches(q, s.dom, sel)), host, io, sel)
  {
  }

  /**
   * Two saves in one batch, as written, from an empty store and cache: both
   * selectors are cached, but the second write replaces the first.
   */
  lemma TwoSavesAsWritten(s: Session, t: Tree, host: string, x: string, y: string)
    requires s.cache == [] && s.stored == map[]
    requires x != "" && y != "" && x != y
    ensures var w1 := SaveInBatchAsWritten(s, map[], host, Io(false, false), x);
      var w2 := SaveInBatchAsWritten(w1.(dom := t), map[], host, Io(false, false), y);
      w2.cache == [x, y] && w2.stored == map[host := [y]]
  {
    var w1 := SaveInBatchAsWritten(s, map[], host, Io(false, false), x);
    assert w1.cache == [x];
    assert y !in w1.cache;
    assert AddSelector(map[], host, y) == map[host := [y]];
  }

  /** Two saves from an empty cache with working storage: both selectors are cached and stored. */
  lemma TwoSaves(s: Session, t: Tree, host: string, x: string, y: string)
    requires s.cache == []
    requires x != "" && y != "" && x != y
    ensures var c1 := Save(s, host, Io(false, false), x);
      var c2 := Save(c1.(dom := t), host, Io(false, false), y);
      && x in c2.cache && y in c2.cache
      && host in c2.stored && x in c2.stored[host] && y in c2.stored[host]
  {
    var c1 := Save(s, host, Io(false, false), x);
    assert c1.cache == [x];
  }

  /**
   * Two enabled options that each pick a new selector, on a YouTube host
   * with an empty store and cache: as written, both selectors are cached but
   * only the second is stored, because the second write replaces the first.
   */
  lemma BatchLosesWriteAsWritten(q: Query, host: string, s: Session, a: string, b: string, x: string, y: string)
    requires Contains(host, "youtube.com")
    requires s.cache == [] && s.stored == map[]
    requires QuickChoice(q, s.dom, a) == Some(x)
    requires QuickChoice(q, HideMatches(q, s.dom, x), b) == Some(y)
    requires x != y
    ensures var r := QuickAllAsWritten(q, host, Io(false, false), s, [(a, true), (b, true)]);
      && x in r.cache && y in r.cache
      && r.stored == map[host := [y]] && x !in r.stored[host]
  {
    var io := Io(false, false);
    FoldTwoAsWritten(q, host, io, s.stored, s, (a, true), (b, true));
    StepAsWrittenOf(q, host, io, s.stored, s, a, x);
    var s1 := s.(dom := HideMatches(q, s.dom, x));
    var w1 := SaveInBatchAsWritten(s1, map[], host, io, x);
    StepAsWrittenOf(q, host, io, s.stored, w1, b, y);
    TwoSavesAsWritten(s1, HideMatches(q, w1.dom, y), host, x, y);
  }

  /** The same two options, corrected: both selectors are cached and both are stored. */
  lemma BatchKeepsWrites(q: Query, host: string, s: Session, a: string, b: string, x: string, y: string)
    requires Contains(host, "youtube.com")
    requires s.cache == []
    requires QuickChoice(q, s.dom, a) == Some(x)
    requires QuickChoice(q, HideMatches(q, s.dom, x), b) == Some(y)
    requires x != y
    ensures var c := QuickAll(q, host, Io(false, false), s, [(a, true), (b, true)]);
      && x in c.cache && y in c.cache
      && host in c.stored && x in c.stored[host] && y in c.stored[host]
  {
    var io := Io(false, false);
    FoldTwo(q, host, io, s, (a, true), (b, true));
    StepOf(q, host, io, s, a, x);
    var s1 := s.(dom := HideMatches(q, s.dom, x));
    var c1 := Save(s1, host, io, x);
    StepOf(q, host, io, c1, b, y);
    TwoSaves(s1, HideMatches(q, c1.dom, y), host, x, y);
  }

  /** Off YouTube the options do nothing, whatever they say. */
  lemma QuickOffYoutube(q: Query, host: string, io: Io, s: Session, options: seq<(string, bool)>)
    requires !Contains(host, "youtube.com")
    ensures QuickAll(q, host, io, s, options) == s
  {
  }
}
