/**
 * What `add`, `remove` and `collapse` do to the lists and back-pointers,
 * stated against the specification functions of `Containers`: positions,
 * re-parenting, the collapse pass and the collapsible-group law, and the
 * add/remove round trips.
 */
module Laws {
  import opened Seqs
  import opened Containers
  import opened Ownership

  // ---------------------------------------------------------------------
  // Frames: which back-pointers a collapse can touch
  // ---------------------------------------------------------------------

  /** The collapse loop changes only the back-pointers of the children it visits. */
  lemma {:induction false} RehomeLocationFrame(s: State, r: Rules, g: Id, p: Id, cs: seq<Id>, u: Id)
    requires Wf(s) && g in s.kind && p in s.kind && u in s.kind && u !in cs
    ensures Rehome(s, r, g, p, cs).location[u] == s.location[u]
    decreases |cs|
  {
    if cs != [] {
      assert u !in cs[1..];
      var c := cs[0];
      if c in s.kind && Admits(s, r, p, c, Child(g)) {
        RehomeLocationFrame(Transfer(s, p, c, IndexOf(s.children[p], g)), r, g, p, cs[1..], u);
      } else {
        RehomeLocationFrame(s, r, g, p, cs[1..], u);
      }
    }
  }

  /** The group's own removal at the end of a collapse changes no back-pointer but its own. */
  lemma LeaveParentLocationFrame(s: State, r: Rules, g: Id, u: Id)
    requires Wf(s) && g in s.kind && u in s.kind && u != g
    ensures LeaveParent(s, r, g).location[u] == s.location[u]
  {
    match s.location[g]
    case None =>
    case Some(p) =>
      var (s1, ok) := Detach(s, r, p, g);
      assert s1.location[u] == s.location[u];
      assert LeaveParent(s, r, g) == if ok then Spliced(s1, p, g) else s1;
  }

  /** A collapse of `g` changes only the back-pointers of `g` and of its children. */
  lemma CollapseLocationFrame(s: State, r: Rules, g: Id, u: Id)
    requires Wf(s) && g in s.kind && u in s.kind && u != g && u !in s.children[g]
    ensures CollapseFrom(s, r, g, 0).location[u] == s.location[u]
  {
    match s.location[g]
    case None =>
    case Some(p) =>
      assert s.children[g][0..] == s.children[g];
      var s1 := Rehome(s, r, g, p, s.children[g]);
      RehomeLocationFrame(s, r, g, p, s.children[g], u);
      LeaveParentLocationFrame(s1, r, g, u);
  }

  // ---------------------------------------------------------------------
  // collapse
  // ---------------------------------------------------------------------

  /** A group listed between `pre` and `post` is found at index `|pre|` of its parent's list. */
  lemma GroupAt(s: State, g: Id, p: Id, pre: seq<Id>, post: seq<Id>)
    requires Consistent(s) && g in s.kind && IsGroup(s.kind[g]) && s.location[g] == Some(p)
    requires s.children[p] == pre + [g] + post
    ensures p in s.kind && g != p && IsLocation(s.kind[p])
    ensures IndexOf(s.children[p], g) == |pre| && Resolve(s, p, Child(g)) == Some(|pre|)
  {
    IndexAfterPrefix(pre, g, post);
  }

  /** The loop's step for an accepted child, with the group found in its parent. */
  lemma RehomeUnfold(s: State, r: Rules, g: Id, p: Id, cs: seq<Id>)
    requires Wf(s) && g in s.kind && p in s.kind && g in s.children[p]
    requires cs != [] && Rehomable(s.kind, r, p, cs[0])
    ensures Rehome(s, r, g, p, cs) ==
      Rehome(Transfer(s, p, cs[0], IndexOf(s.children[p], g)), r, g, p, cs[1..])
  {
    assert Admits(s, r, p, cs[0], Child(g));
  }

  /** One accepted child: it leaves the front of the group's remaining list for the slot before the group. */
  lemma RehomeStep(s: State, g: Id, p: Id, cs: seq<Id>, pre: seq<Id>, post: seq<Id>, rej: seq<Id>)
    requires Wf(s) && g in s.kind && p in s.kind && g != p && s.location[g] == Some(p)
    requires s.children[p] == pre + [g] + post
    requires s.children[g] == rej + cs && cs != [] && cs[0] !in rej
    requires cs[0] in s.kind && s.location[cs[0]] == Some(g)
    ensures var s1 := Transfer(s, p, cs[0], |pre|);
      s1.location[g] == Some(p) &&
      s1.children[p] == pre + [cs[0]] + [g] + post && s1.children[g] == rej + cs[1..] &&
      forall x :: x in s.kind && x != p && x != g ==> s1.children[x] == s.children[x]
  {
    TransferAcrossShape(s, p, cs[0], |pre|, g);
    InsertBefore(pre, g, post, cs[0]);
    RemoveFirstAtSplit(rej, cs);
  }

  /** The state after the loop's step for an accepted child, in the shape the loop expects. */
  lemma RehomeAccept(s: State, r: Rules, g: Id, p: Id, cs: seq<Id>,
                     pre: seq<Id>, post: seq<Id>, rej: seq<Id>)
    requires Consistent(s) && g in s.kind && IsGroup(s.kind[g]) && s.location[g] == Some(p)
    requires s.children[p] == pre + [g] + post && s.children[g] == rej + cs
    requires p in s.kind && cs != [] && Rehomable(s.kind, r, p, cs[0])
    ensures var s1 := Transfer(s, p, cs[0], |pre|);
      Rehome(s, r, g, p, cs) == Rehome(s1, r, g, p, cs[1..]) &&
      Consistent(s1) && s1.kind == s.kind && s1.location[g] == Some(p) &&
      s1.children[p] == (pre + [cs[0]]) + [g] + post && s1.children[g] == rej + cs[1..] &&
      forall x :: x in s.kind && x != p && x != g ==> s1.children[x] == s.children[x]
  {
    GroupAt(s, g, p, pre, post);
    assert cs[0] in s.children[g] by {
      assert (rej + cs)[|rej|] == cs[0];
    }
    NotInPrefix(rej, cs);
    RehomeUnfold(s, r, g, p, cs);
    RehomeStep(s, g, p, cs, pre, post, rej);
    TransferConsistent(s, p, cs[0], |pre|);
  }

  /** The loop's step for a child the parent refuses: the child stays where it is. */
  lemma RehomeReject(s: State, r: Rules, g: Id, p: Id, cs: seq<Id>, rej: seq<Id>)
    requires Wf(s) && g in s.kind && p in s.kind && cs != [] && !Rehomable(s.kind, r, p, cs[0])
    ensures Rehome(s, r, g, p, cs) == Rehome(s, r, g, p, cs[1..])
    ensures rej + cs == (rej + [cs[0]]) + cs[1..]
  {
    assert cs == [cs[0]] + cs[1..];
    GrowSuffix(rej, cs[0], cs[1..]);
  }

  /**
   * The collapse loop over the children `cs` still to visit, with the
   * group sitting between `pre` and `post` in its parent `p` and `rej`
   * already skipped: the accepted children end up, in order, just before the
   * group; the skipped ones stay in the group, in order; no other list moves.
   */
  lemma {:induction false} RehomeSplits(s: State, r: Rules, g: Id, p: Id, cs: seq<Id>,
                                        pre: seq<Id>, post: seq<Id>, rej: seq<Id>)
    requires Consistent(s) && g in s.kind && IsGroup(s.kind[g]) && s.location[g] == Some(p)
    requires s.children[p] == pre + [g] + post && s.children[g] == rej + cs
    ensures p in s.kind
    ensures var s' := Rehome(s, r, g, p, cs);
      Consistent(s') && s'.location[g] == Some(p) &&
      s'.children[p] == pre + Accepted(s.kind, r, p, cs) + [g] + post &&
      s'.children[g] == rej + Rejected(s.kind, r, p, cs) &&
      forall x :: x in s.kind && x != p && x != g ==> s'.children[x] == s.children[x]
    decreases |cs|
  {
    assert p in s.kind;
    if cs == [] {
      assert rej + [] == rej && pre + [] == pre;
    } else {
      var c, rest := cs[0], cs[1..];
      if Rehomable(s.kind, r, p, c) {
        RehomeAccept(s, r, g, p, cs, pre, post, rej);
        RehomeSplits(Transfer(s, p, c, |pre|), r, g, p, rest, pre + [c], post, rej);
        assert Accepted(s.kind, r, p, cs) == [c] + Accepted(s.kind, r, p, rest);
        assert Rejected(s.kind, r, p, cs) == Rejected(s.kind, r, p, rest);
        GrowPrefix(pre, c, Accepted(s.kind, r, p, rest), g, post);
      } else {
        RehomeReject(s, r, g, p, cs, rej);
        RehomeSplits(s, r, g, p, rest, pre, post, rej + [c]);
        assert Rejected(s.kind, r, p, cs) == [c] + Rejected(s.kind, r, p, rest);
        assert Accepted(s.kind, r, p, cs) == Accepted(s.kind, r, p, rest);
        GrowSuffix(rej, c, Rejected(s.kind, r, p, rest));
      }
    }
  }

  /** Dropping a target its location no longer lists changes nothing. */
  lemma SplicedAbsent(s: State, l: Id, t: Id)
    requires Wf(s) && l in s.kind && t !in s.children[l]
    ensures Spliced(s, l, t) == s
  {
    assert s.children[l := s.children[l]] == s.children;
  }

  /**
   * The last line of `collapse` on a group listed between `a` and `post`,
   * when neither the parent nor the group vetoes the removal: the group
   * leaves its parent's list and nothing else moves.
   */
  lemma LeaveGoes(s: State, r: Rules, g: Id, p: Id, a: seq<Id>, post: seq<Id>)
    requires Wf(s) && g in s.kind && IsTarget(s.kind[g]) && s.location[g] == Some(p)
    requires p in s.kind && s.children[p] == a + [g] + post && NoDups(s.children[p])
    requires r.canRemove(p, g) && r.canSetLocation(g, None)
    ensures var s' := LeaveParent(s, r, g);
      s'.children[p] == a + post && s'.location == s.location[g := None] &&
      forall x :: x in s.kind && x != p ==> s'.children[x] == s.children[x]
  {
    var s1 := Detach(s, r, p, g).0;
    IndexAfterPrefix(a, g, post);
    DeleteAfterPrefix(a, g, post);
    DropAround(a, g, post);
    SplicedAbsent(s1, p, g);
  }

  /** In a consistent state every child listed in a stretch of `p`'s list points back to `p`. */
  lemma ListedBetween(s: State, p: Id, pre: seq<Id>, mid: seq<Id>, x: Id, post: seq<Id>, c: Id)
    requires Consistent(s) && p in s.kind && s.children[p] == pre + mid + [x] + post && c in mid
    ensures c in s.kind && s.location[c] == Some(p)
  {
    assert c in s.children[p];
  }

  /** A child a group hands over on collapse is a card listed in the group. */
  lemma GroupChild(s: State, r: Rules, g: Id, p: Id, c: Id)
    requires Consistent(s) && g in s.kind && IsGroup(s.kind[g]) && p in s.kind
    requires c in Accepted(s.kind, r, p, s.children[g])
    ensures c in s.children[g] && c in s.kind && s.kind[c] == Card
  {
  }

  /** `RehomeSplits` over all the children of a group, as `collapse` runs it. */
  lemma RehomeAll(s: State, r: Rules, g: Id, p: Id, pre: seq<Id>, post: seq<Id>)
    requires Consistent(s) && g in s.kind && IsGroup(s.kind[g]) && s.location[g] == Some(p)
    requires s.children[p] == pre + [g] + post
    ensures p in s.kind && g != p
    ensures var acc := Accepted(s.kind, r, p, s.children[g]);
      var s1 := Rehome(s, r, g, p, s.children[g]);
      s1.children[p] == pre + acc + [g] + post && s1.location[g] == Some(p) &&
      s1.children[g] == Rejected(s.kind, r, p, s.children[g]) && NoDups(s1.children[p]) &&
      (forall c :: c in acc ==> c in s.kind && c != g && s1.location[c] == Some(p)) &&
      (forall x :: x in s.kind && x != p && x != g ==> s1.children[x] == s.children[x])
  {
    GroupAt(s, g, p, pre, post);
    var cs := s.children[g];
    assert [] + cs == cs;
    var s1 := Rehome(s, r, g, p, cs);
    var acc := Accepted(s.kind, r, p, cs);
    RehomeSplits(s, r, g, p, cs, pre, post, []);
    assert [] + Rejected(s.kind, r, p, cs) == Rejected(s.kind, r, p, cs);
    forall c | c in acc ensures c in s.kind && c != g && s1.location[c] == Some(p) {
      GroupChild(s, r, g, p, c);
      ListedBetween(s1, p, pre, acc, g, post, c);
    }
  }

  /**
   * `CardGroup.collapse` on a group listed between `pre` and `post` in its
   * parent `p`: every child `p` admits moves, in order, to just before the
   * group; the others stay in the group, in order; then the group leaves
   * `p` unless `p` or the group vetoes that.  No other list changes.
   * (`Ownership.CollapseFromConsistent` says ownership stays single.)
   */
  lemma CollapseLaw(s: State, r: Rules, g: Id, p: Id, pre: seq<Id>, post: seq<Id>)
    requires Consistent(s) && g in s.kind && IsGroup(s.kind[g]) && s.location[g] == Some(p)
    requires s.children[p] == pre + [g] + post
    ensures p in s.kind
    ensures var leaves := r.canRemove(p, g) && r.canSetLocation(g, None);
      var acc := Accepted(s.kind, r, p, s.children[g]);
      var s' := CollapseFrom(s, r, g, 0);
      s'.children[g] == Rejected(s.kind, r, p, s.children[g]) &&
      s'.children[p] == pre + acc + (if leaves then [] else [g]) + post &&
      s'.location[g] == (if leaves then None else Some(p)) &&
      (forall c :: c in acc ==> s'.location[c] == Some(p)) &&
      (forall x :: x in s.kind && x != p && x != g ==> s'.children[x] == s.children[x])
  {
    RehomeAll(s, r, g, p, pre, post);
    var cs := s.children[g];
    assert cs[0..] == cs;
    var s1 := Rehome(s, r, g, p, cs);
    var a := pre + Accepted(s.kind, r, p, cs);
    if r.canRemove(p, g) && r.canSetLocation(g, None) {
      LeaveGoes(s1, r, g, p, a, post);
      EmptyMiddle(a, post);
    } else {
      assert LeaveParent(s1, r, g) == s1;
    }
  }
}
