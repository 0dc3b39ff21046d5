/**
 * Three places where the container code works against itself: a type
 * test that no component passes (cards.js:182, 210), a clean-up hook that
 * skips the splice the collapse loop depends on to advance (cards.js:327-335,
 * 348-350), and a missing bound check before `children_[before + 1]`
 * (cards.js:224-226).  Each is modelled here as written, with an
 * input that shows the discrepancy.  The type test comes first in `add`
 * and `remove`, so as written it hides the other two: they show once that
 * test is corrected, and the members below assume it is.  The rest of the
 * model uses the corrected behaviour (`Containers.IsTarget`, `Containers.PostRemoveSpec`,
 * `Containers.Resolve`).
 */
module Findings {
  import opened Seqs
  import opened Containers
  import opened Ownership
  import opened Scenarios
  import opened AddRemove

  // ---------------------------------------------------------------------
  // 1. `instanceof Target` (cards.js:182, cards.js:210)
  // ---------------------------------------------------------------------

  /**
   * `target instanceof Target` as written: `Target` is an interface
   * declared as a class that no component class extends (cards.js:47,
   * cards.js:303, cards.js:354), so the test is false for every component.
   */
  function IsTargetAsWritten(k: Kind): (b: bool)
    ensures !b
  {
    false
  }

  /** `add` behind a first guard `test` on the target's kind (cards.js:210). */
  function AddGuardedBy(test: Kind -> bool, s: State, r: Rules, l: Id, t: Id, before: Before): (res: (State, bool))
    requires Wf(s) && l in s.kind && t in s.kind
    ensures !test(s.kind[t]) ==> res == (s, false)
    ensures test(s.kind[t]) ==> res == AddSpec(s, r, l, t, before)
  {
    if !test(s.kind[t]) then (s, false) else AddSpec(s, r, l, t, before)
  }

  /** `remove` behind a first guard `test` on the target's kind (cards.js:182). */
  function RemoveGuardedBy(test: Kind -> bool, s: State, r: Rules, l: Id, t: Id): (res: (State, bool))
    requires Wf(s) && l in s.kind && t in s.kind
    ensures !test(s.kind[t]) ==> res == (s, false)
    ensures test(s.kind[t]) ==> res == RemoveSpec(s, r, l, t)
  {
    if !test(s.kind[t]) then (s, false) else RemoveSpec(s, r, l, t)
  }

  /** `add` as written refuses every target and changes nothing. */
  lemma AddAsWritten(s: State, r: Rules, l: Id, t: Id, before: Before)
    requires Wf(s) && l in s.kind && t in s.kind
    ensures AddGuardedBy(IsTargetAsWritten, s, r, l, t, before) == (s, false)
  {
  }

  /** `remove` as written refuses every target and changes nothing. */
  lemma RemoveAsWritten(s: State, r: Rules, l: Id, t: Id)
    requires Wf(s) && l in s.kind && t in s.kind
    ensures RemoveGuardedBy(IsTargetAsWritten, s, r, l, t) == (s, false)
  {
  }

  /** With `Containers.IsTarget` (a card or a group) as the target test, the guard adds nothing to the checks `add` and `remove` already make. */
  lemma GuardCorrected(s: State, r: Rules, l: Id, t: Id, before: Before)
    requires Wf(s) && l in s.kind && t in s.kind
    ensures AddGuardedBy(IsTarget, s, r, l, t, before) == AddSpec(s, r, l, t, before)
    ensures RemoveGuardedBy(IsTarget, s, r, l, t) == RemoveSpec(s, r, l, t)
  {
  }

  /** `area.add(card)` on an empty area: refused as written, accepted once targets are recognised. */
  lemma AddRefusedAsWritten()
    ensures var s0 := AreaAndTwoCards();
      AddGuardedBy(IsTargetAsWritten, s0, Defaults, 0, 1, End) == (s0, false) &&
      AddSpec(s0, Defaults, 0, 1, End).1
  {
    AppendFirst();
    AddAsWritten(AreaAndTwoCards(), Defaults, 0, 1, End);
  }

  // ---------------------------------------------------------------------
  // 2. `CollapsibleCardGroup.postRemove` does not splice (cards.js:348-350)
  // ---------------------------------------------------------------------

  /**
   * The clean-up hook as written (reached once the type test of
   * cards.js:182 and 210 is corrected): the collapsible group's override never
   * calls the base splice, so a target that leaves it through `add`
   * elsewhere stays in its list.  The branch where the group then
   * collapses (at most one child listed) does not terminate as written —
   * the loop re-adds the same unspliced child forever — and is excluded.
   */
  function PostRemoveAsWritten(s: State, l: Id, t: Id): (res: State)
    requires Wf(s) && l in s.kind
    requires s.kind[l] == CollapsibleGroup ==> |s.children[l]| > 1
    ensures res.kind == s.kind && res.location == s.location
    ensures s.kind[l] == CollapsibleGroup ==> res == s
  {
    if s.kind[l] == CollapsibleGroup then s else Spliced(s, l, t)
  }

  /** A collapsible group `1` holding three cards `2`, `3`, `4`, in an area `0`. */
  function GroupOfThree(): (s: State)
    ensures Wf(s) && s.kind.Keys == {0, 1, 2, 3, 4}
    ensures s.kind[0] == Area && s.kind[1] == CollapsibleGroup && s.kind[2] == Card
    ensures s.children[0] == [1] && s.children[1] == [2, 3, 4] && s.location[2] == Some(1)
  {
    State(map[0 := Area, 1 := CollapsibleGroup, 2 := Card, 3 := Card, 4 := Card],
          map[0 := [1], 1 := [2, 3, 4], 2 := [], 3 := [], 4 := []],
          map[0 := None, 1 := Some(0), 2 := Some(1), 3 := Some(1), 4 := Some(1)])
  }

  /**
   * Dragging card `2` out of the group onto the area, with the type test of
   * cards.js:210 corrected and the hook as written: the card
   * ends up listed by both the area and the group, which breaks single
   * ownership; the corrected hook leaves the group with `[3, 4]`.
   */
  lemma CollapsibleKeepsLeaver()
    ensures var s := GroupOfThree();
      Admits(s, Defaults, 0, 2, End) &&
      var s1 := Inserted(s, 0, 2, |s.children[0]|);
      var bad := PostRemoveAsWritten(s1, 1, 2);
      2 in bad.children[0] && 2 in bad.children[1] && bad.location[2] == Some(0) && !Consistent(bad) &&
      AddSpec(s, Defaults, 0, 2, End).0.children[1] == [3, 4]
  {
    var s := GroupOfThree();
    var s1 := Inserted(s, 0, 2, 1);
    assert Insert([1], 1, 2) == [1, 2];
    assert s1.children[0] == [1, 2];
    assert 2 in s1.children[1];
    assert IndexOf([2, 3, 4], 2) == 0;
    assert RemoveFirst([2, 3, 4], 2) == [3, 4];
  }

  /**
   * The branch `PostRemoveAsWritten` leaves out, with the type test of
   * cards.js:182 and 210 corrected and the hook as written.  Removing card `2` from the
   * group of two leaves `[3]`, so the group collapses: its loop adds `3` to
   * the area before the group, and then, as written, the group's hook runs
   * again without splicing, finds one child still listed and collapses
   * again.  Each turn of that nested loop adds `3` before the group once
   * more (the area's base hook drops the duplicate), answers true, so the
   * index stays at 0, and leaves the state exactly as it found it: the loop
   * never ends.
   */
  lemma CollapseStallsAsWritten()
    ensures var s0 := GroupOfOne();
      Admits(s0, Defaults, 0, 3, Child(1)) && Resolve(s0, 0, Child(1)) == Some(0) &&
      var s := Inserted(s0, 0, 3, 0);
      s.children[1] == [3] && s.location[1] == Some(0) && s.location[3] == Some(0) &&
      AddSpec(s, Defaults, 0, 3, Child(1)) == (s, true)
  {
    var s0 := GroupOfOne();
    assert s0.children[0] == [1];
    assert IndexOf([1], 1) == 0;
    var s := Inserted(s0, 0, 3, 0);
    assert s.children[0] == [3, 1];
    assert IndexOf([3, 1], 1) == 1;
    assert Resolve(s, 0, Child(1)) == Some(1);
    assert Insert([3, 1], 1, 3) == [3, 3, 1];
    assert IndexOf([3, 3, 1], 3) == 0;
    assert RemoveFirst([3, 3, 1], 3) == [3, 1];
    AddWithinShape(s, Defaults, 0, 3, Child(1), [3, 1]);
    UpdateSame(s.children, 0);
  }

  // ---------------------------------------------------------------------
  // 3. A numeric `before` past the end (cards.js:211-227)
  // ---------------------------------------------------------------------

  /** How a call ends: with an answer, or with an exception thrown after some of its effects. */
  datatype Outcome = Returned(state: State, ok: bool) | Threw(state: State)

  /**
   * `add(target, n)` with a number `n` past the end of the list, with the
   * type test of cards.js:210 corrected and the bound check missing as written:
   * the checks pass, the back-pointer is set, `splice` clamps `n` and
   * appends, and then `children_[n + 1].element()` dereferences undefined,
   * so the call throws before the old location's clean-up runs.
   */
  function AddPastEndAsWritten(s: State, r: Rules, l: Id, t: Id, n: nat): (res: Outcome)
    requires Wf(s) && l in s.kind && t in s.kind && n > |s.children[l]|
    ensures res.Threw? <==> IsTarget(s.kind[t]) && CanAdd(s.kind, r, l, t) && r.canSetLocation(t, Some(l))
    ensures res.Returned? ==> res == Returned(s, false)
    ensures res.Threw? ==>
      res.state.location == s.location[t := Some(l)] &&
      res.state.children == s.children[l := s.children[l] + [t]]
  {
    if !(IsTarget(s.kind[t]) && CanAdd(s.kind, r, l, t) && r.canSetLocation(t, Some(l))) then
      Returned(s, false)
    else
      Threw(State(s.kind, s.children[l := s.children[l] + [t]], s.location[t := Some(l)]))
  }

  /** Two areas: `0` holding cards `1` and `2`, and `3` holding card `4`. */
  function TwoAreas(): (s: State)
    ensures Wf(s) && s.kind.Keys == {0, 1, 2, 3, 4}
    ensures s.kind[0] == Area && s.kind[3] == Area && s.kind[4] == Card
    ensures |s.children[0]| == 2 && s.children[3] == [4] && s.location[4] == Some(3)
  {
    State(map[0 := Area, 1 := Card, 2 := Card, 3 := Area, 4 := Card],
          map[0 := [1, 2], 1 := [], 2 := [], 3 := [4], 4 := []],
          map[0 := None, 1 := Some(0), 2 := Some(0), 3 := None, 4 := Some(3)])
  }

  /**
   * `area0.add(card4, 5)` with two cards in `area0`: with the type test of
   * cards.js:210 corrected and no bound check, the call
   * throws and leaves card `4` listed by both areas; the corrected `add`
   * refuses and changes nothing.
   */
  lemma PastEndCorrupts()
    ensures var s := TwoAreas();
      var o := AddPastEndAsWritten(s, Defaults, 0, 4, 5);
      o.Threw? && 4 in o.state.children[0] && 4 in o.state.children[3] && !Consistent(o.state) &&
      AddSpec(s, Defaults, 0, 4, At(5)) == (s, false)
  {
    var s := TwoAreas();
    var o := AddPastEndAsWritten(s, Defaults, 0, 4, 5);
    assert o.state.children[0] == [1, 2, 4];
    assert o.state.children[0][2] == 4;
  }
}
