/**
 * The drag-and-drop engine of cards.js (lines 377-460) as a state machine
 * over its four module variables: the components being dragged, the point
 * where the drag started, the element whose component accepted the drop,
 * and the drop callback that component returned.  An event is given by
 * its path of elements, innermost (`e.target`) first; the components on
 * that path are asked in turn and the first that answers wins.  What a
 * component answers (`dblClick`, `drag`, `drop`) is a parameter of each
 * event.
 */
module DragDrop {
  import opened Seqs

  /** A DOM element. */
  type Elem = nat

  /** A component object. */
  type Comp = nat

  /** A drop callback, as returned by `Component.drop` (cards.js:25-29). */
  type Action = nat

  /** What components answer when an event asks them (cards.js:16-30). */
  datatype Handlers = Handlers(
    dblClick: Comp -> bool,
    drag: Comp -> seq<Comp>,
    drop: (Comp, seq<Comp>) -> Option<Action>)

  /** The answers of `AbstractComponent` (cards.js:101-111): no double click handled, nothing to drag, no drop. */
  function DefaultAnswers(): Handlers
  {
    Handlers(c => false, c => [], (c, cs) => None)
  }

  /** A component met on the way up an event path, with the element it was registered under. */
  datatype Hit = Hit(elem: Elem, comp: Comp)

  // ---------------------------------------------------------------------
  // The registry and the walk up the element tree
  // ---------------------------------------------------------------------

  /** The element-to-component map behind `Component.register` and `Component.get` (cards.js:31-41). */
  class Registry {
    var entries: map<Elem, Comp>

    constructor()
      ensures entries == map[]
    {
      entries := map[];
    }

    /** `Component.register`: a later registration of the same element replaces the earlier one. */
    method Register(e: Elem, c: Comp)
      modifies this
      ensures entries == old(entries)[e := c]
      ensures Get(e) == Some(c) && forall x :: x != e ==> Get(x) == old(Get(x))
    {
      entries := entries[e := c];
    }

    /** `Component.get`: the component registered for an element, if any. */
    function Get(e: Elem): (r: Option<Comp>)
      reads this
      ensures r.Some? <==> e in entries
      ensures r.Some? ==> r.value == entries[e]
    {
      if e in entries then Some(entries[e]) else None
    }
  }

  /**
   * The components a walk up `path` meets, innermost first: what the
   * generator `components` yields (cards.js:400-406).  The component of a
   * hit is the one registered under its element, so `component.element()`
   * is the hit's element.
   */
  function Chain(reg: map<Elem, Comp>, path: seq<Elem>): (hits: seq<Hit>)
    ensures |hits| <= |path|
  {
    if path == [] then []
    else (if path[0] in reg then [Hit(path[0], reg[path[0]])] else []) + Chain(reg, path[1..])
  }

  /**
   * The walk meets exactly the registered elements of the path, each with
   * its own component.
   */
  lemma {:induction false} ChainMembers(reg: map<Elem, Comp>, path: seq<Elem>)
    ensures forall h :: h in Chain(reg, path) ==> h.elem in path && h.elem in reg && h.comp == reg[h.elem]
    ensures forall e :: e in path && e in reg ==> Hit(e, reg[e]) in Chain(reg, path)
  {
    if path != [] {
      ChainMembers(reg, path[1..]);
      assert forall e :: e in path ==> e == path[0] || e in path[1..];
    }
  }

  /** Walking one element further up adds that element's component, if it has one, at the end. */
  lemma {:induction false} ChainSnoc(reg: map<Elem, Comp>, path: seq<Elem>, e: Elem)
    ensures Chain(reg, path + [e]) == Chain(reg, path) + (if e in reg then [Hit(e, reg[e])] else [])
  {
    if path != [] {
      assert (path + [e])[1..] == path[1..] + [e];
      ChainSnoc(reg, path[1..], e);
    } else {
      assert ([] + [e])[1..] == [];
    }
  }

  /** `components(e.target)`: the walk itself, one parent at a time. */
  method Components(reg: Registry, path: seq<Elem>) returns (hits: seq<Hit>)
    ensures hits == Chain(reg.entries, path)
  {
    hits := [];
    var i := 0;
    while i < |path|
      invariant 0 <= i <= |path|
      invariant hits == Chain(reg.entries, path[..i])
    {
      var c := reg.Get(path[i]);
      ChainSnoc(reg.entries, path[..i], path[i]);
      assert path[..i + 1] == path[..i] + [path[i]];
      if c.Some? {
        hits := hits + [Hit(path[i], c.value)];
      }
      i := i + 1;
    }
    assert path[..i] == path;
  }

  // ---------------------------------------------------------------------
  // First match wins
  // ---------------------------------------------------------------------

  /** What `mousedown` adopts: the first non-empty answer of `drag()` along the chain (cards.js:415-419). */
  function FirstDrag(h: Handlers, hits: seq<Hit>): seq<Comp>
  {
    if hits == [] then []
    else if h.drag(hits[0].comp) != [] then h.drag(hits[0].comp)
    else FirstDrag(h, hits[1..])
  }

  /** Nothing is adopted exactly when every component along the chain answers with no targets. */
  lemma {:induction false} FirstDragNone(h: Handlers, hits: seq<Hit>)
    ensures FirstDrag(h, hits) == [] <==> forall k :: 0 <= k < |hits| ==> h.drag(hits[k].comp) == []
  {
    if hits != [] {
      FirstDragNone(h, hits[1..]);
      assert forall k :: 1 <= k < |hits| ==> hits[1..][k - 1] == hits[k];
    }
  }

  /** The answer adopted is that of the first component with a non-empty one. */
  lemma {:induction false} FirstDragFirst(h: Handlers, hits: seq<Hit>, k: nat)
    requires k < |hits| && h.drag(hits[k].comp) != []
    requires forall j :: 0 <= j < k ==> h.drag(hits[j].comp) == []
    ensures FirstDrag(h, hits) == h.drag(hits[k].comp)
  {
    if k > 0 {
      assert h.drag(hits[0].comp) == [];
      assert forall j :: 0 <= j < k - 1 ==> hits[1..][j] == hits[j + 1];
      FirstDragFirst(h, hits[1..], k - 1);
    }
  }

  /**
   * What `mousemove` finds when it asks again: the element of the first
   * component whose `drop()` returns a callback, with that callback
   * (cards.js:437-443).
   */
  function FirstDrop(h: Handlers, hits: seq<Hit>, dragging: seq<Comp>): Option<(Elem, Action)>
  {
    if hits == [] then None
    else if h.drop(hits[0].comp, dragging).Some? then Some((hits[0].elem, h.drop(hits[0].comp, dragging).value))
    else FirstDrop(h, hits[1..], dragging)
  }

  /** Nothing is found exactly when every component along the chain declines the dragged components. */
  lemma {:induction false} FirstDropNone(h: Handlers, hits: seq<Hit>, dragging: seq<Comp>)
    ensures FirstDrop(h, hits, dragging).None? <==>
      forall k :: 0 <= k < |hits| ==> h.drop(hits[k].comp, dragging).None?
  {
    if hits != [] {
      FirstDropNone(h, hits[1..], dragging);
      assert forall k :: 1 <= k < |hits| ==> hits[1..][k - 1] == hits[k];
    }
  }

  /** What is found is the first accepting component's element and callback. */
  lemma {:induction false} FirstDropFirst(h: Handlers, hits: seq<Hit>, dragging: seq<Comp>, k: nat)
    requires k < |hits| && h.drop(hits[k].comp, dragging).Some?
    requires forall j :: 0 <= j < k ==> h.drop(hits[j].comp, dragging).None?
    ensures FirstDrop(h, hits, dragging) == Some((hits[k].elem, h.drop(hits[k].comp, dragging).value))
  {
    if k > 0 {
      assert h.drop(hits[0].comp, dragging).None?;
      assert forall j :: 0 <= j < k - 1 ==> hits[1..][j] == hits[j + 1];
      FirstDropFirst(h, hits[1..], dragging, k - 1);
    }
  }

  /**
   * The components whose `dblClick()` a double click calls, in order: all
   * of them up to and including the first that answers true (cards.js:408-412).
   */
  function DblClickCalls(h: Handlers, hits: seq<Hit>): seq<Comp>
  {
    if hits == [] then []
    else if h.dblClick(hits[0].comp) then [hits[0].comp]
    else [hits[0].comp] + DblClickCalls(h, hits[1..])
  }

  /**
   * The components asked are a prefix of the chain; all but the last
   * declined, and the walk stops early only at one that answered true.
   */
  lemma {:induction false} DblClickStopsAtFirst(h: Handlers, hits: seq<Hit>)
    ensures var called := DblClickCalls(h, hits);
      |called| <= |hits| && (forall k :: 0 <= k < |called| ==> called[k] == hits[k].comp) &&
      (forall k :: 0 <= k < |called| - 1 ==> !h.dblClick(called[k])) &&
      (|called| < |hits| ==> called != [] && h.dblClick(called[|called| - 1]))
  {
    if hits != [] && !h.dblClick(hits[0].comp) {
      DblClickStopsAtFirst(h, hits[1..]);
      var rest := DblClickCalls(h, hits[1..]);
      assert DblClickCalls(h, hits) == [hits[0].comp] + rest;
      assert forall k :: 0 < k <= |rest| ==> ([hits[0].comp] + rest)[k] == rest[k - 1];
    }
  }

  /** Asking the components from the `i`-th on: the `i`-th answers first. */
  lemma FirstDragStep(h: Handlers, hits: seq<Hit>, i: nat)
    requires i < |hits|
    ensures FirstDrag(h, hits[i..]) ==
      if h.drag(hits[i].comp) != [] then h.drag(hits[i].comp) else FirstDrag(h, hits[i + 1..])
  {
    assert hits[i..][0] == hits[i] && hits[i..][1..] == hits[i + 1..];
  }

  lemma FirstDropStep(h: Handlers, hits: seq<Hit>, dragging: seq<Comp>, i: nat)
    requires i < |hits|
    ensures FirstDrop(h, hits[i..], dragging) ==
      if h.drop(hits[i].comp, dragging).Some? then Some((hits[i].elem, h.drop(hits[i].comp, dragging).value))
      else FirstDrop(h, hits[i + 1..], dragging)
  {
    assert hits[i..][0] == hits[i] && hits[i..][1..] == hits[i + 1..];
  }

  lemma DblClickStep(h: Handlers, hits: seq<Hit>, i: nat)
    requires i < |hits|
    ensures DblClickCalls(h, hits[i..]) ==
      if h.dblClick(hits[i].comp) then [hits[i].comp] else [hits[i].comp] + DblClickCalls(h, hits[i + 1..])
  {
    assert hits[i..][0] == hits[i] && hits[i..][1..] == hits[i + 1..];
  }

  // ---------------------------------------------------------------------
  // The engine's state and its transitions
  // ---------------------------------------------------------------------

  /** `dragging`, `origin`, `dropTarget` and `drop` (cards.js:378-381); `origin` starts out unset. */
  datatype DragState = DragState(
    dragging: seq<Comp>,
    origin: Option<(int, int)>,
    dropTarget: Option<Elem>,
    drop: Option<Action>)

  const Initial: DragState := DragState([], None, None, None)

  /** What the handlers keep true: a pending drop belongs to a drag, and a drag has an origin. */
  predicate Valid(st: DragState) {
    (st.dragging == [] ==> st.drop.None? && st.dropTarget.None?) &&
    (st.dragging != [] ==> st.origin.Some?) &&
    (st.drop.Some? <==> st.dropTarget.Some?)
  }

  /** `reset` (cards.js:383-398), leaving out the styling. */
  function ResetSpec(st: DragState): (r: DragState)
    ensures r.dragging == [] && r.dropTarget.None? && r.drop.None? && r.origin == st.origin
  {
    st.(dragging := [], dropTarget := None, drop := None)
  }

  /** `mousedown` (cards.js:414-430). */
  function MouseDownSpec(h: Handlers, reg: map<Elem, Comp>, path: seq<Elem>, x: int, y: int, st: DragState): (r: DragState)
  {
    var targets := FirstDrag(h, Chain(reg, path));
    if targets == [] then st else DragState(targets, Some((x, y)), None, None)
  }

  /**
   * `mousemove` (cards.js:432-452), corrected: when no
   * component along the path accepts the drop, the drop target is cleared
   * together with the callback.
   */
  function MouseMoveSpec(h: Handlers, reg: map<Elem, Comp>, path: seq<Elem>, st: DragState): (r: DragState)
    requires path != []
  {
    if st.dragging == [] || Some(path[0]) == st.dropTarget then st
    else
      match FirstDrop(h, Chain(reg, path), st.dragging)
      case None => st.(dropTarget := None, drop := None)
      case Some((e, a)) => st.(dropTarget := Some(e), drop := Some(a))
  }

  /** `mouseup` (cards.js:454-459): the state after `reset`, and the callback then invoked. */
  function MouseUpSpec(st: DragState): (r: (DragState, Option<Action>))
    ensures r.0 == ResetSpec(st) && r.1 == st.drop
  {
    (ResetSpec(st), st.drop)
  }

  /** Every handler keeps the engine's variables consistent with one another. */
  lemma EventsKeepValid(h: Handlers, reg: map<Elem, Comp>, path: seq<Elem>, x: int, y: int, st: DragState)
    requires Valid(st) && path != []
    ensures Valid(ResetSpec(st))
    ensures Valid(MouseDownSpec(h, reg, path, x, y, st))
    ensures Valid(MouseMoveSpec(h, reg, path, st))
    ensures Valid(MouseUpSpec(st).0)
  {
  }

  /** `mousedown` where no component along the path offers anything to drag changes nothing. */
  lemma MouseDownIgnored(h: Handlers, reg: map<Elem, Comp>, path: seq<Elem>, x: int, y: int, st: DragState)
    requires forall k :: 0 <= k < |Chain(reg, path)| ==> h.drag(Chain(reg, path)[k].comp) == []
    ensures MouseDownSpec(h, reg, path, x, y, st) == st
  {
    FirstDragNone(h, Chain(reg, path));
  }

  /**
   * `mousedown` adopts the answer of the first component along the path
   * that offers something to drag, as a fresh drag started at the pointer.
   */
  lemma MouseDownAdopts(h: Handlers, reg: map<Elem, Comp>, path: seq<Elem>, x: int, y: int, st: DragState, k: nat)
    requires k < |Chain(reg, path)| && h.drag(Chain(reg, path)[k].comp) != []
    requires forall j :: 0 <= j < k ==> h.drag(Chain(reg, path)[j].comp) == []
    ensures MouseDownSpec(h, reg, path, x, y, st) == DragState(h.drag(Chain(reg, path)[k].comp), Some((x, y)), None, None)
  {
    FirstDragFirst(h, Chain(reg, path), k);
  }

  /**
   * Where every component keeps the default answers, a press starts no
   * drag, a move onto a new element leaves no drop pending, and a double
   * click asks every component on the path.
   */
  lemma DefaultsTakeNoPart(reg: map<Elem, Comp>, path: seq<Elem>, x: int, y: int, st: DragState)
    requires path != []
    ensures MouseDownSpec(DefaultAnswers(), reg, path, x, y, st) == st
    ensures st.dragging != [] && Some(path[0]) != st.dropTarget ==>
      MouseMoveSpec(DefaultAnswers(), reg, path, st).drop.None?
    ensures DblClickCalls(DefaultAnswers(), Chain(reg, path)) == seq(|Chain(reg, path)|, k requires 0 <= k < |Chain(reg, path)| => Chain(reg, path)[k].comp)
  {
    var h, hits := DefaultAnswers(), Chain(reg, path);
    FirstDragNone(h, hits);
    FirstDropNone(h, hits, st.dragging);
    DblClickStopsAtFirst(h, hits);
    var called := DblClickCalls(h, hits);
    assert |called| == |hits|;
  }

  /** `mousemove` while nothing is dragged changes nothing. */
  lemma MoveWhileIdle(h: Handlers, reg: map<Elem, Comp>, path: seq<Elem>, st: DragState)
    requires path != [] && st.dragging == []
    ensures MouseMoveSpec(h, reg, path, st) == st
  {
  }

  /**
   * A move onto a new element during a drag records the first component
   * along the path that accepts the dragged components: its element and
   * the callback it returned.
   */
  lemma MoveFindsAcceptor(h: Handlers, reg: map<Elem, Comp>, path: seq<Elem>, st: DragState, k: nat)
    requires path != [] && st.dragging != [] && Some(path[0]) != st.dropTarget
    requires k < |Chain(reg, path)| && h.drop(Chain(reg, path)[k].comp, st.dragging).Some?
    requires forall j :: 0 <= j < k ==> h.drop(Chain(reg, path)[j].comp, st.dragging).None?
    ensures MouseMoveSpec(h, reg, path, st) ==
      st.(dropTarget := Some(Chain(reg, path)[k].elem), drop := h.drop(Chain(reg, path)[k].comp, st.dragging))
  {
    FirstDropFirst(h, Chain(reg, path), st.dragging, k);
  }

  /**
   * A move onto a new element where every component declines leaves no
   * drop pending, and no drop target either.
   */
  lemma MoveFindsNone(h: Handlers, reg: map<Elem, Comp>, path: seq<Elem>, st: DragState)
    requires path != [] && st.dragging != [] && Some(path[0]) != st.dropTarget
    requires forall k :: 0 <= k < |Chain(reg, path)| ==> h.drop(Chain(reg, path)[k].comp, st.dragging).None?
    ensures MouseMoveSpec(h, reg, path, st) == st.(dropTarget := None, drop := None)
  {
    FirstDropNone(h, Chain(reg, path), st.dragging);
  }

  /**
   * `mouseup` clears the drag before it hands back the saved callback, so
   * the callback runs on an idle engine; with nothing pending, nothing runs.
   */
  lemma MouseUpRunsSavedDrop(st: DragState)
    requires Valid(st)
    ensures var (r, fired) := MouseUpSpec(st);
      r.dragging == [] && r.drop.None? && r.dropTarget.None? && fired == st.drop &&
      (fired.Some? ==> st.dragging != [])
  {
  }

  /** The engine: the variables the listeners share. */
  class Engine {
    var dragging: seq<Comp>
    var origin: Option<(int, int)>
    var dropTarget: Option<Elem>
    var drop: Option<Action>

    function Model(): DragState
      reads this
    {
      DragState(dragging, origin, dropTarget, drop)
    }

    constructor()
      ensures Model() == Initial && Valid(Model())
    {
      dragging, origin, dropTarget, drop := [], None, None, None;
    }

    /** `reset` (cards.js:383-398). */
    method Reset()
      modifies this
      ensures Model() == ResetSpec(old(Model()))
    {
      dragging := [];
      dropTarget := None;
      drop := None;
    }

    /** The `dblclick` listener (cards.js:408-412): the components it asks, in order. */
    method DblClick(h: Handlers, reg: Registry, path: seq<Elem>) returns (called: seq<Comp>)
      ensures called == DblClickCalls(h, Chain(reg.entries, path))
    {
      var chain := Components(reg, path);
      called := [];
      var i := 0;
      while i < |chain|
        invariant 0 <= i <= |chain|
        invariant called + DblClickCalls(h, chain[i..]) == DblClickCalls(h, chain)
      {
        DblClickStep(h, chain, i);
        called := called + [chain[i].comp];
        if h.dblClick(chain[i].comp) {
          return;
        }
        i := i + 1;
      }
    }

    /** The `mousedown` listener (cards.js:414-430). */
    method MouseDown(h: Handlers, reg: Registry, path: seq<Elem>, x: int, y: int)
      modifies this
      ensures Model() == MouseDownSpec(h, reg.entries, path, x, y, old(Model()))
    {
      var chain := Components(reg, path);
      var targets: seq<Comp> := [];
      var i := 0;
      while i < |chain|
        invariant 0 <= i <= |chain| && targets == []
        invariant FirstDrag(h, chain[i..]) == FirstDrag(h, chain)
        invariant Model() == old(Model())
      {
        FirstDragStep(h, chain, i);
        targets := h.drag(chain[i].comp);
        if targets != [] {
          break;
        }
        i := i + 1;
      }
      if targets == [] {
        assert chain[i..] == [];
        assert FirstDrag(h, chain) == [];
        return;
      }
      Reset();
      dragging := targets;
      origin := Some((x, y));
    }

    /**
     * The `mousemove` listener (cards.js:432-452), with the drop target
     * cleared when no component accepts.
     */
    method MouseMove(h: Handlers, reg: Registry, path: seq<Elem>)
      requires path != []
      modifies this
      ensures Model() == MouseMoveSpec(h, reg.entries, path, old(Model()))
    {
      if dragging == [] {
        return;
      }
      if Some(path[0]) != dropTarget {
        var chain := Components(reg, path);
        drop := None;
        var i := 0;
        while i < |chain|
          invariant 0 <= i <= |chain| && drop.None?
          invariant FirstDrop(h, chain[i..], dragging) == FirstDrop(h, chain, dragging)
          invariant dragging == old(dragging) && origin == old(origin) && dropTarget == old(dropTarget)
        {
          FirstDropStep(h, chain, dragging, i);
          drop := h.drop(chain[i].comp, dragging);
          if drop.Some? {
            dropTarget := Some(chain[i].elem);
            break;
          }
          i := i + 1;
        }
        if drop.None? {
          dropTarget := None;
        }
      }
    }

    /** The `mouseup` listener (cards.js:454-459): reset, then hand back the saved callback to run. */
    method MouseUp() returns (fired: Option<Action>)
      modifies this
      ensures (Model(), fired) == MouseUpSpec(old(Model()))
    {
      var saved := drop;
      Reset();
      fired := saved;
    }
  }

  // ---------------------------------------------------------------------
  // A stale drop target (cards.js:436-444)
  // ---------------------------------------------------------------------

  /**
   * `mousemove` as written: when no component along the path accepts, the
   * callback is cleared but the element of the last accepting component
   * stays recorded as the drop target.
   */
  function MouseMoveAsWritten(h: Handlers, reg: map<Elem, Comp>, path: seq<Elem>, st: DragState): (r: DragState)
    requires path != []
    ensures r.dragging == st.dragging && r.origin == st.origin
    ensures r.dropTarget.None? ==> st.dropTarget.None?
  {
    if st.dragging == [] || Some(path[0]) == st.dropTarget then st
    else
      match FirstDrop(h, Chain(reg, path), st.dragging)
      case None => st.(drop := None)
      case Some((e, a)) => st.(dropTarget := Some(e), drop := Some(a))
  }

  /** A table where the component of element `10` accepts any drag with callback `7`, and that of element `20` declines. */
  function OneTaker(): Handlers
  {
    Handlers(c => false, c => [], (c, cs) => if c == 1 then Some(7) else None)
  }

  /**
   * Dragging card `5` over the accepting element `10`, then over the
   * declining element `20`, then back over `10`, and releasing: as written
   * the return to `10` is taken for "still over the drop target", nothing
   * is asked again and the release drops nothing, although `10` accepts;
   * with the drop target cleared on the way, the release runs callback `7`.
   */
  lemma StaleDropTarget()
    ensures var h, reg := OneTaker(), map[10 := 1, 20 := 2];
      var st := DragState([5], Some((0, 0)), None, None);
      var w1 := MouseMoveAsWritten(h, reg, [10], st);
      var w2 := MouseMoveAsWritten(h, reg, [20], w1);
      var w3 := MouseMoveAsWritten(h, reg, [10], w2);
      var c3 := MouseMoveSpec(h, reg, [10], MouseMoveSpec(h, reg, [20], MouseMoveSpec(h, reg, [10], st)));
      h.drop(1, [5]) == Some(7) && w1.drop == Some(7) && !Valid(w2) &&
      MouseUpSpec(w3).1.None? && MouseUpSpec(c3).1 == Some(7)
  {
    var h, reg := OneTaker(), map[10 := 1, 20 := 2];
    assert Chain(reg, [10]) == [Hit(10, 1)] by {
      assert [10][1..] == [];
    }
    assert Chain(reg, [20]) == [Hit(20, 2)] by {
      assert [20][1..] == [];
    }
    assert FirstDrop(h, [Hit(10, 1)], [5]) == Some((10, 7)) by {
      assert h.drop(1, [5]) == Some(7);
    }
    assert FirstDrop(h, [Hit(20, 2)], [5]) == None by {
      assert h.drop(2, [5]) == None;
      assert [Hit(20, 2)][1..] == [];
    }
  }

  /**
   * Leaving the accepting element for one where every component declines
   * breaks `Valid` as written, and keeps it once the drop target is cleared.
   */
  lemma AsWrittenBreaksValid(h: Handlers, reg: map<Elem, Comp>, path: seq<Elem>, st: DragState)
    requires path != [] && Valid(st)
    requires st.drop.Some? && Some(path[0]) != st.dropTarget
    requires forall k :: 0 <= k < |Chain(reg, path)| ==> h.drop(Chain(reg, path)[k].comp, st.dragging).None?
    ensures !Valid(MouseMoveAsWritten(h, reg, path, st))
    ensures Valid(MouseMoveSpec(h, reg, path, st))
  {
    FirstDropNone(h, Chain(reg, path), st.dragging);
  }
}
