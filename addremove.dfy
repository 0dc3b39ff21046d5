/**
 * What `add` and `remove` do to the lists and back-pointers: where the
 * target lands, that re-parenting is atomic (the target ends up with one
 * owner, the new one, even when the old location cascades), what `remove`
 * answers and leaves behind, and the two round trips.
 */
module AddRemove {
  import opened Seqs
  import opened Containers
  import opened Ownership
  import opened Laws

  /** Whether the previous location's clean-up hook is the plain splice (no collapse can follow). */
  predicate PlainCleanUp(s: State, t: Id)
    requires Wf(s) && t in s.kind
  {
    s.location[t].None? || s.kind[s.location[t].value] != CollapsibleGroup
  }

  /**
   * Whether `add(t)` into `l` brings the target from elsewhere, and the
   * former location's clean-up cannot collapse a group that `l` itself lists.
   */
  predicate FromElsewhere(s: State, l: Id, t: Id)
    requires Wf(s) && t in s.kind
  {
    s.location[t] != Some(l) && (PlainCleanUp(s, t) || s.location[s.location[t].value] != Some(l))
  }

  // ---------------------------------------------------------------------
  // add: single ownership after re-parenting
  // ---------------------------------------------------------------------

  /** After a transfer out of `q`, the target is no longer listed in `q`. */
  lemma LeftOldList(s: State, l: Id, t: Id, i: nat, q: Id)
    requires Consistent(s) && l in s.kind && t in s.kind && s.location[t] == Some(q) && q != l
    requires i <= |s.children[l]|
    ensures q in s.kind && t !in Transfer(s, l, t, i).children[q]
  {
    var xs := s.children[q];
    assert t in xs;
    var k := IndexOf(xs, t);
    TransferAcrossShape(s, l, t, i, q);
    DeleteMembers(xs, k, t);
  }

  /** After a successful `add` the target's back-pointer names `l`, cascade or not. */
  lemma AddLocates(s: State, r: Rules, l: Id, t: Id, before: Before)
    requires Consistent(s) && l in s.kind && t in s.kind && IsLocation(s.kind[l])
    requires s.location[t] == Some(l) && s.kind[l] == CollapsibleGroup ==> |s.children[l]| >= 2
    ensures AddSpec(s, r, l, t, before).1 ==> AddSpec(s, r, l, t, before).0.location[t] == Some(l)
  {
    if Admits(s, r, l, t, before) {
      var i := Resolve(s, l, before).value;
      var s2 := Transfer(s, l, t, i);
      match s.location[t]
      case None =>
      case Some(q) =>
        AddShape(s, r, l, t, before, q);
        if q == l {
          TransferWithinShape(s, l, t, i);
          assert t in s.children[l];
        } else if s.kind[q] == CollapsibleGroup && |s2.children[q]| <= 1 {
          assert t != q && q != l by {
            assert t in s.children[q];
          }
          LeftOldList(s, l, t, i, q);
          CollapseLocationFrame(s2, r, q, t);
        }
    }
  }

  /**
   * Re-parent atomicity: an `add` that succeeds leaves the target located
   * at `l`, listed by `l` and by no other location, even after the old
   * location's clean-up hook has collapsed it.  (The source's one
   * exception, re-adding the last child of a collapsible group to that same
   * group, is excluded: there the collapse carries the target on to the
   * group's parent.)
   */
  lemma AddOwns(s: State, r: Rules, l: Id, t: Id, before: Before)
    requires Consistent(s) && l in s.kind && t in s.kind && IsLocation(s.kind[l])
    requires s.location[t] == Some(l) && s.kind[l] == CollapsibleGroup ==> |s.children[l]| >= 2
    ensures var (s', ok) := AddSpec(s, r, l, t, before);
      Consistent(s') &&
      (ok ==> s'.location[t] == Some(l) && t in s'.children[l] &&
              forall x :: x in s.kind && x != l ==> t !in s'.children[x])
  {
    AddConsistent(s, r, l, t, before);
    AddLocates(s, r, l, t, before);
    var (s', ok) := AddSpec(s, r, l, t, before);
    if ok {
      forall x | x in s.kind && x != l ensures t !in s'.children[x] {
        ListedIffLocated(s', x, t);
      }
      ListedIffLocated(s', l, t);
    }
  }

  // ---------------------------------------------------------------------
  // add: positions
  // ---------------------------------------------------------------------

  /**
   * `add` from elsewhere (or from nowhere) with a plain clean-up: the
   * target is spliced in at the resolved index, it leaves its old list,
   * no other list changes and only its back-pointer moves.
   */
  lemma AddAcross(s: State, r: Rules, l: Id, t: Id, before: Before)
    requires Consistent(s) && l in s.kind && t in s.kind
    requires s.location[t] != Some(l) && PlainCleanUp(s, t)
    requires Admits(s, r, l, t, before)
    ensures var s' := AddSpec(s, r, l, t, before).0;
      var i := Resolve(s, l, before).value;
      s'.children[l] == Insert(s.children[l], i, t) &&
      s'.location == s.location[t := Some(l)] &&
      (s.location[t].Some? ==> s'.children[s.location[t].value] == RemoveFirst(s.children[s.location[t].value], t)) &&
      forall x :: x in s.kind && x != l && Some(x) != s.location[t] ==> s'.children[x] == s.children[x]
  {
    var i := Resolve(s, l, before).value;
    match s.location[t]
    case None =>
    case Some(q) =>
      AddShape(s, r, l, t, before, q);
      TransferAcrossShape(s, l, t, i, q);
  }

  /**
   * An admitted `add` of a target from elsewhere lands at its index in
   * `l`'s list and points at `l`, also when the target leaves a collapsible
   * group that then collapses, provided that group is not itself a child of
   * `l` (its collapse only touches its own list and its parent's).
   */
  lemma AddLandsIn(s: State, r: Rules, l: Id, t: Id, before: Before)
    requires Consistent(s) && l in s.kind && t in s.kind && IsLocation(s.kind[l])
    requires FromElsewhere(s, l, t)
    requires Admits(s, r, l, t, before)
    ensures var s' := AddSpec(s, r, l, t, before).0;
      s'.children[l] == Insert(s.children[l], Resolve(s, l, before).value, t) &&
      s'.location[t] == Some(l)
  {
    if PlainCleanUp(s, t) {
      AddAcross(s, r, l, t, before);
    } else {
      var q := s.location[t].value;
      var i := Resolve(s, l, before).value;
      var s2 := Transfer(s, l, t, i);
      AddShape(s, r, l, t, before, q);
      assert t != q && q != l by {
        assert t in s.children[q];
      }
      TransferAcrossShape(s, l, t, i, q);
      if |s2.children[q]| <= 1 {
        LeftOldList(s, l, t, i, q);
        CollapseLocationFrame(s2, r, q, t);
        TransferConsistent(s, l, t, i);
        match s2.location[q]
        case None =>
        case Some(p) =>
          assert q in s2.children[p];
          var k := IndexOf(s2.children[p], q);
          SplitAround(s2.children[p], k);
          CollapseLaw(s2, r, q, p, s2.children[p][..k], s2.children[p][k + 1..]);
      }
    }
  }

  /**
   * `add` with `before` absent, of a target from elsewhere: it succeeds
   * exactly when the hooks allow it, and then only by appending.
   */
  lemma AddAppends(s: State, r: Rules, l: Id, t: Id)
    requires Consistent(s) && l in s.kind && t in s.kind && IsLocation(s.kind[l])
    requires FromElsewhere(s, l, t)
    ensures var (s', ok) := AddSpec(s, r, l, t, End);
      (ok <==> IsTarget(s.kind[t]) && CanAdd(s.kind, r, l, t) && r.canSetLocation(t, Some(l))) &&
      (ok ==> s'.children[l] == s.children[l] + [t] && s'.location[t] == Some(l))
  {
    if Admits(s, r, l, t, End) {
      AddLandsIn(s, r, l, t, End);
      InsertAtEnd(s.children[l], t);
    }
  }

  /**
   * `add` with a child `c` as `before`: refused with no change when `c` is
   * not listed, whatever the target.  For a target from elsewhere, once
   * admitted, the target lands just before `c` and the other children keep
   * their order (a target already in `l` is `AddEarlierKeeps` and
   * `AddLaterMoves`).
   */
  lemma AddBeforeChild(s: State, r: Rules, l: Id, t: Id, c: Id)
    requires Consistent(s) && l in s.kind && t in s.kind && IsLocation(s.kind[l])
    ensures c !in s.children[l] ==> AddSpec(s, r, l, t, Child(c)) == (s, false)
    ensures FromElsewhere(s, l, t) && c in s.children[l] && Admits(s, r, l, t, Child(c)) ==>
      var xs, k := s.children[l], IndexOf(s.children[l], c);
      0 <= k && AddSpec(s, r, l, t, Child(c)).0.children[l] == xs[..k] + [t] + [c] + xs[k + 1..]
  {
    var xs := s.children[l];
    if c !in xs {
      assert Resolve(s, l, Child(c)).None?;
    } else if FromElsewhere(s, l, t) && Admits(s, r, l, t, Child(c)) {
      var k := IndexOf(xs, c);
      assert Resolve(s, l, Child(c)) == Some(k);
      AddLandsIn(s, r, l, t, Child(c));
      SplitAround(xs, k);
      InsertBefore(xs[..k], c, xs[k + 1..], t);
    }
  }

  /**
   * An admitted `add` of a target into its own location, as one step on the
   * maps: only `l`'s list changes, and no back-pointer does.
   */
  lemma AddWithinShape(s: State, r: Rules, l: Id, t: Id, before: Before, ys: seq<Id>)
    requires Wf(s) && l in s.kind && t in s.kind && s.location[t] == Some(l)
    requires s.kind[l] != CollapsibleGroup && Admits(s, r, l, t, before)
    requires RemoveFirst(Insert(s.children[l], Resolve(s, l, before).value, t), t) == ys
    ensures AddSpec(s, r, l, t, before) == (State(s.kind, s.children[l := ys], s.location), true)
  {
    var i := Resolve(s, l, before).value;
    AddShape(s, r, l, t, before, l);
    TransferWithinShape(s, l, t, i);
    assert s.location[t := Some(l)] == s.location;
  }

  /**
   * `add` of a target already in `l` at index `k`, asked to put it at
   * `i <= k`: the source splices the new copy in first and then drops the
   * FIRST occurrence, which is the new copy, so nothing changes at all.
   */
  lemma AddEarlierKeeps(s: State, r: Rules, l: Id, t: Id, before: Before)
    requires Wf(s) && l in s.kind && t in s.kind && s.location[t] == Some(l)
    requires t in s.children[l] && NoDups(s.children[l])
    requires s.kind[l] != CollapsibleGroup && Admits(s, r, l, t, before)
    requires Resolve(s, l, before).value <= IndexOf(s.children[l], t)
    ensures AddSpec(s, r, l, t, before) == (s, true)
  {
    var xs, k, i := s.children[l], IndexOf(s.children[l], t), Resolve(s, l, before).value;
    assert xs[k] == t;
    MoveEarlier(xs, k, i);
    AddWithinShape(s, r, l, t, before, xs);
    UpdateSame(s.children, l);
  }

  /**
   * `add` of a target already in `l` at index `k`, asked to put it at
   * `i > k`: the old occurrence is dropped and the target lands just
   * before the entry that was at `i`, that is at `i - 1`; no other list
   * and no back-pointer changes.
   */
  lemma AddLaterMoves(s: State, r: Rules, l: Id, t: Id, before: Before)
    requires Wf(s) && l in s.kind && t in s.kind && s.location[t] == Some(l)
    requires t in s.children[l] && NoDups(s.children[l])
    requires s.kind[l] != CollapsibleGroup && Admits(s, r, l, t, before)
    requires Resolve(s, l, before).value > IndexOf(s.children[l], t)
    ensures AddSpec(s, r, l, t, before) ==
      (State(s.kind, s.children[l := Insert(Delete(s.children[l], IndexOf(s.children[l], t)), Resolve(s, l, before).value - 1, t)],
             s.location), true)
  {
    var xs, k, i := s.children[l], IndexOf(s.children[l], t), Resolve(s, l, before).value;
    assert xs[k] == t;
    MoveLaterReinserts(xs, k, i);
    AddWithinShape(s, r, l, t, before, Insert(Delete(xs, k), i - 1, t));
  }

  // ---------------------------------------------------------------------
  // remove
  // ---------------------------------------------------------------------

  /**
   * `remove` on a consistent state answers true exactly when the target
   * is located here and neither hook vetoes; a refusal changes nothing,
   * and ownership stays single either way.
   */
  lemma RemoveAnswers(s: State, r: Rules, l: Id, t: Id)
    requires Consistent(s) && l in s.kind && t in s.kind
    ensures var (s', ok) := RemoveSpec(s, r, l, t);
      Consistent(s') &&
      (ok <==> IsTarget(s.kind[t]) && s.location[t] == Some(l) && r.canRemove(l, t) && r.canSetLocation(t, None)) &&
      (!ok ==> s' == s)
  {
    RemoveConsistent(s, r, l, t);
    DetachConsistent(s, r, l, t);
    if s.location[t] == Some(l) {
      assert t in s.children[l];
    }
  }

  /**
   * A successful `remove` from a location with the plain clean-up hook
   * drops the target from the list, clears its back-pointer and touches
   * nothing else.
   */
  lemma RemovePlain(s: State, r: Rules, l: Id, t: Id)
    requires Wf(s) && l in s.kind && t in s.kind && s.location[t] == Some(l)
    requires t in s.children[l] && NoDups(s.children[l]) && s.kind[l] != CollapsibleGroup
    requires IsTarget(s.kind[t]) && r.canRemove(l, t) && r.canSetLocation(t, None)
    ensures var (s', ok) := RemoveSpec(s, r, l, t);
      ok && s'.children == s.children[l := RemoveFirst(s.children[l], t)] &&
      t !in s'.children[l] && s'.location == s.location[t := None]
  {
    var xs := s.children[l];
    var k := IndexOf(xs, t);
    DeleteMembers(xs, k, t);
    var s1 := Detach(s, r, l, t).0;
    assert RemoveSpec(s, r, l, t).0 == Spliced(s1, l, t);
    SplicedAbsent(s1, l, t);
  }

  // ---------------------------------------------------------------------
  // Round trips
  // ---------------------------------------------------------------------

  /** Adding an unplaced target and removing it again restores the state exactly. */
  lemma AddThenRemove(s: State, r: Rules, l: Id, t: Id, before: Before)
    requires Consistent(s) && l in s.kind && t in s.kind && s.location[t].None?
    requires s.kind[l] != CollapsibleGroup
    requires Admits(s, r, l, t, before) && r.canRemove(l, t) && r.canSetLocation(t, None)
    ensures var (s1, added) := AddSpec(s, r, l, t, before);
      added && RemoveSpec(s1, r, l, t) == (s, true)
  {
    UnlistedWhenUnplaced(s, t);
    AddThenRemoveUnlisted(s, r, l, t, before);
  }

  lemma AddThenRemoveUnlisted(s: State, r: Rules, l: Id, t: Id, before: Before)
    requires Wf(s) && l in s.kind && t in s.kind && s.location[t].None? && t !in s.children[l]
    requires s.kind[l] != CollapsibleGroup
    requires Admits(s, r, l, t, before) && r.canRemove(l, t) && r.canSetLocation(t, None)
    ensures var (s1, added) := AddSpec(s, r, l, t, before);
      added && RemoveSpec(s1, r, l, t) == (s, true)
  {
    var xs := s.children[l];
    var i := Resolve(s, l, before).value;
    var s1 := Inserted(s, l, t, i);
    assert AddSpec(s, r, l, t, before) == (s1, true);
    IndexOfInserted(xs, i, t);
    DeleteInsert(xs, i, t);
    UpdateRestores(s.location, t, Some(l));
    UpdateRestores(s.children, l, Insert(xs, i, t));
    assert s1.location[t := None] == s.location;
    assert s1.children[l := Delete(s1.children[l], i)] == s.children;
    assert Detach(s1, r, l, t) == (s, true);
    SplicedAbsent(s, l, t);
    assert RemoveSpec(s1, r, l, t) == (PostRemoveSpec(s, r, l, t), true);
  }

  /** Removing a listed target and adding it back at its old index restores the state exactly. */
  lemma RemoveThenAddBack(s: State, r: Rules, l: Id, t: Id)
    requires Wf(s) && l in s.kind && t in s.kind && s.location[t] == Some(l)
    requires t in s.children[l] && NoDups(s.children[l])
    requires s.kind[l] != CollapsibleGroup && IsTarget(s.kind[t])
    requires r.canRemove(l, t) && r.canSetLocation(t, None) && r.canSetLocation(t, Some(l))
    requires CanAdd(s.kind, r, l, t)
    ensures var k := IndexOf(s.children[l], t);
      var (s1, removed) := RemoveSpec(s, r, l, t);
      0 <= k && removed && AddSpec(s1, r, l, t, At(k)) == (s, true)
  {
    var xs := s.children[l];
    var k := IndexOf(xs, t);
    RemovePlain(s, r, l, t);
    var s1 := RemoveSpec(s, r, l, t).0;
    assert s1 == State(s.kind, s.children[l := Delete(xs, k)], s.location[t := None]);
    InsertDelete(xs, k);
    assert AddSpec(s1, r, l, t, At(k)) == (Inserted(s1, l, t, k), true);
    UpdateRestores(s.children, l, Delete(xs, k));
    UpdateRestores(s.location, t, None);
    assert Inserted(s1, l, t, k) == s;
  }

  // ---------------------------------------------------------------------
  // The collapsible group
  // ---------------------------------------------------------------------

  /**
   * `remove` from a collapsible group: the target is dropped and loses its
   * back-pointer as from any location; then, once at most one child is
   * left, the group collapses (`CollapseLaw` says what that does).
   */
  lemma CollapsibleRemove(s: State, r: Rules, g: Id, t: Id)
    requires Wf(s) && g in s.kind && t in s.kind && s.kind[g] == CollapsibleGroup
    requires s.location[t] == Some(g) && t in s.children[g] && NoDups(s.children[g])
    requires IsTarget(s.kind[t]) && r.canRemove(g, t) && r.canSetLocation(t, None)
    ensures var (s', ok) := RemoveSpec(s, r, g, t);
      var rest := RemoveFirst(s.children[g], t);
      var s1 := State(s.kind, s.children[g := rest], s.location[t := None]);
      ok && |rest| == |s.children[g]| - 1 &&
      s' == if |rest| <= 1 then CollapseFrom(s1, r, g, 0) else s1
  {
    var xs := s.children[g];
    var k := IndexOf(xs, t);
    DeleteMembers(xs, k, t);
    var d := Detach(s, r, g, t).0;
    SplicedAbsent(d, g, t);
  }
}
