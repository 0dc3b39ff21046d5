/**
 * Single ownership: every operation of the container framework, started in
 * a consistent state, ends in one.  A target sits in at most one child
 * list, that list belongs to the location its back-pointer names, and
 * groups hold only cards.
 */
module Ownership {
  import opened Seqs
  import opened Containers

  /** In a consistent state a target is listed by `x` exactly when its location is `x`. */
  lemma ListedIffLocated(s: State, x: Id, t: Id)
    requires Consistent(s) && x in s.kind && t in s.kind
    ensures t in s.children[x] <==> s.location[t] == Some(x)
  {
  }

  /** Whatever lists a child is a location (a card's list is empty). */
  lemma ParentIsLocation(s: State, p: Id, t: Id)
    requires Consistent(s) && p in s.kind && t in s.children[p]
    ensures IsLocation(s.kind[p])
  {
  }

  /**
   * The common shape of every single move: only target `t` changes location
   * (to `loc`), the other entries of every list are kept, `t` is listed
   * exactly by its new location and lists stay repeat-free.
   */
  lemma Relocated(s: State, s': State, t: Id, loc: Option<Id>)
    requires Consistent(s) && Wf(s') && s'.kind == s.kind && t in s.kind && IsTarget(s.kind[t])
    requires s'.location == s.location[t := loc]
    requires loc.Some? ==>
      (loc.value in s.kind && IsLocation(s.kind[loc.value]) &&
       (IsGroup(s.kind[loc.value]) ==> s.kind[t] == Card))
    requires forall x :: x in s.kind ==> NoDups(s'.children[x])
    requires forall x, y :: x in s.kind && y != t ==> (y in s'.children[x] <==> y in s.children[x])
    requires forall x :: x in s.kind ==> (t in s'.children[x] <==> loc == Some(x))
    requires forall x :: x in s.kind && s.kind[x] == Card ==> s'.children[x] == s.children[x]
    ensures Consistent(s')
  {
    RelocatedPointBack(s, s', t, loc);
    RelocatedListed(s, s', t, loc);
  }

  lemma RelocatedPointBack(s: State, s': State, t: Id, loc: Option<Id>)
    requires Wf(s) && ChildrenPointBack(s) && Wf(s') && s'.kind == s.kind && t in s.kind && IsTarget(s.kind[t])
    requires s'.location == s.location[t := loc]
    requires loc.Some? ==> (loc.value in s.kind && (IsGroup(s.kind[loc.value]) ==> s.kind[t] == Card))
    requires forall x, y :: x in s.kind && y != t ==> (y in s'.children[x] <==> y in s.children[x])
    requires forall x :: x in s.kind ==> (t in s'.children[x] <==> loc == Some(x))
    ensures ChildrenPointBack(s')
  {
    forall x, c | x in s'.kind && c in s'.children[x]
      ensures c in s'.kind && IsTarget(s'.kind[c]) && (IsGroup(s'.kind[x]) ==> s'.kind[c] == Card) &&
              s'.location[c] == Some(x)
    {
      if c != t {
        assert c in s.children[x];
      }
    }
  }

  lemma RelocatedListed(s: State, s': State, t: Id, loc: Option<Id>)
    requires Wf(s) && LocationsList(s) && Wf(s') && s'.kind == s.kind && t in s.kind
    requires s'.location == s.location[t := loc]
    requires forall x, y :: x in s.kind && y != t ==> (y in s'.children[x] <==> y in s.children[x])
    requires forall x :: x in s.kind ==> (t in s'.children[x] <==> loc == Some(x))
    ensures LocationsList(s')
  {
    forall u | u in s'.kind && s'.location[u].Some?
      ensures u in s'.children[s'.location[u].value]
    {
      if u != t {
        assert u in s.children[s.location[u].value];
      }
    }
  }

  /** `Relocated` when a single list `l` changes, to `xs`, and `t` is either moved within `l` or dropped from it, or was listed nowhere. */
  lemma RelocatedInOne(s: State, s': State, t: Id, loc: Option<Id>, l: Id, xs: seq<Id>)
    requires Consistent(s) && Wf(s') && s'.kind == s.kind && t in s.kind && IsTarget(s.kind[t])
    requires l in s.kind && IsLocation(s.kind[l]) && (IsGroup(s.kind[l]) && loc.Some? ==> s.kind[t] == Card)
    requires s'.children == s.children[l := xs] && s'.location == s.location[t := loc]
    requires loc.Some? ==> loc.value == l
    requires s.location[t].Some? ==> s.location[t].value == l
    requires NoDups(xs) && (t in xs <==> loc.Some?)
    requires forall y :: y != t ==> (y in xs <==> y in s.children[l])
    ensures Consistent(s')
  {
    assert ListsClean(s');
    forall x, y | x in s.kind && y != t ensures y in s'.children[x] <==> y in s.children[x] {
    }
    forall x | x in s.kind ensures t in s'.children[x] <==> loc == Some(x) {
      if x != l {
        ListedIffLocated(s, x, t);
      }
    }
    RelocatedPointBack(s, s', t, loc);
    RelocatedListed(s, s', t, loc);
  }

  /** A target with no location is listed nowhere. */
  lemma UnlistedWhenUnplaced(s: State, t: Id)
    requires Consistent(s) && t in s.kind && s.location[t].None?
    ensures forall x :: x in s.kind ==> t !in s.children[x]
  {
  }

  /** Adding an unplaced target: it is spliced into `l`'s list and nothing else moves. */
  lemma TransferFresh(s: State, l: Id, t: Id, i: nat)
    requires Consistent(s) && l in s.kind && t in s.kind && s.location[t].None?
    requires IsLocation(s.kind[l]) && IsTarget(s.kind[t]) && (IsGroup(s.kind[l]) ==> s.kind[t] == Card)
    requires i <= |s.children[l]|
    ensures Consistent(Transfer(s, l, t, i))
  {
    var s' := Transfer(s, l, t, i);
    var ins := Insert(s.children[l], i, t);
    assert s'.children == s.children[l := ins];
    UnlistedWhenUnplaced(s, t);
    InsertNoDups(s.children[l], i, t);
    forall y ensures y in ins <==> y == t || y in s.children[l] {
      InsertMembers(s.children[l], i, t, y);
    }
    Relocated(s, s', t, Some(l));
  }

  /** The effect of `Transfer` when the target is already in `l`: `l`'s list is all that changes. */
  lemma TransferWithinShape(s: State, l: Id, t: Id, i: nat)
    requires Wf(s) && l in s.kind && t in s.kind && s.location[t] == Some(l) && i <= |s.children[l]|
    ensures Transfer(s, l, t, i).children == s.children[l := RemoveFirst(Insert(s.children[l], i, t), t)]
    ensures Transfer(s, l, t, i).location == s.location[t := Some(l)]
  {
  }

  /** Adding a target to the location that already holds it: the list is permuted. */
  lemma TransferWithin(s: State, l: Id, t: Id, i: nat)
    requires Consistent(s) && l in s.kind && t in s.kind && s.location[t] == Some(l)
    requires IsTarget(s.kind[t]) && i <= |s.children[l]|
    ensures Consistent(Transfer(s, l, t, i))
  {
    TransferWithinShape(s, l, t, i);
    MoveWithin(s.children[l], t, i);
    ParentIsLocation(s, l, t);
    RelocatedInOne(s, Transfer(s, l, t, i), t, Some(l), l, RemoveFirst(Insert(s.children[l], i, t), t));
  }

  /** The effect of `Transfer` when the target comes from another location `q`: two lists change. */
  lemma TransferAcrossShape(s: State, l: Id, t: Id, i: nat, q: Id)
    requires Wf(s) && l in s.kind && t in s.kind && s.location[t] == Some(q) && q != l && i <= |s.children[l]|
    ensures Transfer(s, l, t, i).children ==
      s.children[l := Insert(s.children[l], i, t)][q := RemoveFirst(s.children[q], t)]
    ensures Transfer(s, l, t, i).location == s.location[t := Some(l)]
  {
  }

  /** Moving `t` from list `q` to list `l` at `i`: the lists stay repeat-free and only `t` changes places. */
  lemma MoveAcrossLists(m: map<Id, seq<Id>>, l: Id, q: Id, t: Id, i: nat)
    requires l in m && q in m && l != q && i <= |m[l]|
    requires NoDups(m[l]) && NoDups(m[q]) && t in m[q] && t !in m[l]
    ensures var m' := m[l := Insert(m[l], i, t)][q := RemoveFirst(m[q], t)];
      NoDups(m'[l]) && NoDups(m'[q]) &&
      (forall x, y :: x in m && y != t ==> (y in m'[x] <==> y in m[x])) &&
      t in m'[l] && t !in m'[q] &&
      (forall x :: x in m && x != l && x != q ==> m'[x] == m[x])
  {
    var k := IndexOf(m[q], t);
    var ins := Insert(m[l], i, t);
    var del := Delete(m[q], k);
    var m' := m[l := Insert(m[l], i, t)][q := RemoveFirst(m[q], t)];
    assert m'[q] == del && m'[l] == ins;
    InsertNoDups(m[l], i, t);
    DeleteNoDups(m[q], k);
    InsertMembers(m[l], i, t, t);
    DeleteMembers(m[q], k, t);
    forall x, y | x in m && y != t ensures y in m'[x] <==> y in m[x] {
      if x == l {
        InsertMembers(m[l], i, t, y);
      } else if x == q {
        DeleteMembers(m[q], k, y);
      }
    }
  }

  /** Adding a target held by another location `q`: it leaves `q`'s list and joins `l`'s. */
  lemma TransferAcross(s: State, l: Id, t: Id, i: nat, q: Id)
    requires Consistent(s) && l in s.kind && t in s.kind && s.location[t] == Some(q) && q != l
    requires IsLocation(s.kind[l]) && IsTarget(s.kind[t]) && (IsGroup(s.kind[l]) ==> s.kind[t] == Card)
    requires i <= |s.children[l]|
    ensures Consistent(Transfer(s, l, t, i))
  {
    var s' := Transfer(s, l, t, i);
    TransferAcrossShape(s, l, t, i, q);
    ListedIffLocated(s, l, t);
    MoveAcrossLists(s.children, l, q, t, i);
    ParentIsLocation(s, q, t);
    assert ListsClean(s');
    forall x | x in s.kind ensures t in s'.children[x] <==> Some(l) == Some(x) {
      if x != l && x != q {
        ListedIffLocated(s, x, t);
      }
    }
    RelocatedPointBack(s, s', t, Some(l));
    RelocatedListed(s, s', t, Some(l));
  }

  /** Adding `t` to location `l` at `i`, with only the base clean-up of its former location. */
  lemma TransferConsistent(s: State, l: Id, t: Id, i: nat)
    requires Consistent(s) && l in s.kind && t in s.kind
    requires IsLocation(s.kind[l]) && IsTarget(s.kind[t]) && (IsGroup(s.kind[l]) ==> s.kind[t] == Card)
    requires i <= |s.children[l]|
    ensures Consistent(Transfer(s, l, t, i))
    ensures Transfer(s, l, t, i).location == s.location[t := Some(l)]
  {
    match s.location[t]
    case None => TransferFresh(s, l, t, i);
    case Some(q) =>
      if q == l {
        TransferWithin(s, l, t, i);
      } else {
        TransferAcross(s, l, t, i, q);
      }
  }

  /** `remove` up to its clean-up hook; in a consistent state it either succeeds or changes nothing. */
  lemma DetachConsistent(s: State, r: Rules, l: Id, t: Id)
    requires Consistent(s) && l in s.kind && t in s.kind
    ensures Consistent(Detach(s, r, l, t).0)
    ensures !Detach(s, r, l, t).1 ==> Detach(s, r, l, t).0 == s
    ensures Detach(s, r, l, t).1 ==> t !in Detach(s, r, l, t).0.children[l]
  {
    if IsTarget(s.kind[t]) && s.location[t] == Some(l) && r.canRemove(l, t) && r.canSetLocation(t, None) {
      var k := IndexOf(s.children[l], t);
      var s' := Detach(s, r, l, t).0;
      DeleteNoDups(s.children[l], k);
      forall y ensures y in Delete(s.children[l], k) <==> y in s.children[l] && y != t {
        DeleteMembers(s.children[l], k, y);
      }
      Relocated(s, s', t, None);
    }
  }

  /** The collapse loop keeps consistency whatever the hooks answer. */
  lemma {:induction false} RehomeConsistent(s: State, r: Rules, g: Id, p: Id, cs: seq<Id>)
    requires Consistent(s) && g in s.kind && p in s.kind && IsLocation(s.kind[p])
    ensures Consistent(Rehome(s, r, g, p, cs))
    decreases |cs|
  {
    if cs != [] {
      var c := cs[0];
      if c in s.kind && Admits(s, r, p, c, Child(g)) {
        var s1 := Transfer(s, p, c, IndexOf(s.children[p], g));
        TransferConsistent(s, p, c, IndexOf(s.children[p], g));
        RehomeConsistent(s1, r, g, p, cs[1..]);
      } else {
        RehomeConsistent(s, r, g, p, cs[1..]);
      }
    }
  }

  lemma LeaveParentConsistent(s: State, r: Rules, g: Id)
    requires Consistent(s) && g in s.kind
    ensures Consistent(LeaveParent(s, r, g))
  {
    match s.location[g]
    case None =>
    case Some(p) =>
      DetachConsistent(s, r, p, g);
      var (s1, ok) := Detach(s, r, p, g);
      if ok {
        assert Spliced(s1, p, g) == s1;
      }
  }

  lemma CollapseFromConsistent(s: State, r: Rules, g: Id, i: nat)
    requires Consistent(s) && g in s.kind && i <= |s.children[g]|
    ensures Consistent(CollapseFrom(s, r, g, i))
  {
    match s.location[g]
    case None =>
    case Some(p) =>
      ParentIsLocation(s, p, g);
      var s1 := Rehome(s, r, g, p, s.children[g][i..]);
      RehomeConsistent(s, r, g, p, s.children[g][i..]);
      LeaveParentConsistent(s1, r, g);
  }

  /** The clean-up hook, run once the target has left the list (its splice then has nothing to do). */
  lemma PostRemoveConsistent(s: State, r: Rules, l: Id, t: Id)
    requires Consistent(s) && l in s.kind && t !in s.children[l]
    ensures Consistent(PostRemoveSpec(s, r, l, t))
  {
    assert Spliced(s, l, t) == s;
    if s.kind[l] == CollapsibleGroup && |s.children[l]| <= 1 {
      CollapseFromConsistent(s, r, l, 0);
    }
  }

  /** What an admitted `add` of a placed target amounts to: a transfer, then the old location's cascade. */
  lemma AddShape(s: State, r: Rules, l: Id, t: Id, before: Before, q: Id)
    requires Wf(s) && l in s.kind && t in s.kind
    requires Admits(s, r, l, t, before) && s.location[t] == Some(q)
    ensures var s2 := Transfer(s, l, t, Resolve(s, l, before).value);
      AddSpec(s, r, l, t, before).0 ==
        if s.kind[q] == CollapsibleGroup && |s2.children[q]| <= 1 then CollapseFrom(s2, r, q, 0) else s2
  {
  }

  /** `add` preserves single ownership. */
  lemma AddConsistent(s: State, r: Rules, l: Id, t: Id, before: Before)
    requires Consistent(s) && l in s.kind && t in s.kind && IsLocation(s.kind[l])
    ensures Consistent(AddSpec(s, r, l, t, before).0)
  {
    if Admits(s, r, l, t, before) {
      var i := Resolve(s, l, before).value;
      TransferConsistent(s, l, t, i);
      var s2 := Transfer(s, l, t, i);
      match s.location[t]
      case None =>
        assert AddSpec(s, r, l, t, before).0 == s2;
      case Some(q) =>
        AddShape(s, r, l, t, before, q);
        if s.kind[q] == CollapsibleGroup && |s2.children[q]| <= 1 {
          CollapseFromConsistent(s2, r, q, 0);
        }
    }
  }

  /** `remove` preserves single ownership. */
  lemma RemoveConsistent(s: State, r: Rules, l: Id, t: Id)
    requires Consistent(s) && l in s.kind && t in s.kind
    ensures Consistent(RemoveSpec(s, r, l, t).0)
  {
    DetachConsistent(s, r, l, t);
    var (s1, ok) := Detach(s, r, l, t);
    if ok {
      PostRemoveConsistent(s1, r, l, t);
    }
  }
}
