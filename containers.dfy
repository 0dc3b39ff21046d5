/**
 * The ownership model of the card framework (cards.js): locations keep an
 * ordered list of children, targets keep a back-pointer to the one location
 * that holds them, and `add`/`remove` move a target between locations while
 * consulting the veto hooks `canAdd`, `canRemove` and `canSetLocation`.
 *
 * Every component is named by an `Id`; a `State` holds, per component, its
 * class (a `Kind` tag), its `children_` list and its `location_` field.  The
 * functions below give the effect of each operation on a `State`; the class
 * `CardTable.Table` performs the same operations in place and is proved to
 * agree with them.
 */
module Containers {
  import opened Seqs

  type Id = nat

  /**
   * The concrete classes of the framework.  `Area` stands for `CardArea` and
   * `CardStack`: a stack differs from an area only in how it draws its
   * children.  `Group` is `CardGroup`, `CollapsibleGroup` is
   * `CollapsibleCardGroup`.
   */
  datatype Kind = Card | Area | Group | CollapsibleGroup

  /** Implements `Target` (has a `location_` field). */
  predicate IsTarget(k: Kind) { k != Area }
  /** Extends `AbstractLocation` (has a `children_` list). */
  predicate IsLocation(k: Kind) { k != Card }
  /** Extends `CardGroup`. */
  predicate IsGroup(k: Kind) { k == Group || k == CollapsibleGroup }

  /** The optional `before` argument of `add`: absent, a number, or a child. */
  datatype Before = End | At(index: nat) | Child(ref: Id)

  /**
   * The overridable veto hooks.  The framework's own versions all answer
   * true (`AbstractLocation.canAdd`, `AbstractLocation.canRemove`,
   * `Card.canSetLocation`, `CardGroup.canSetLocation`); a game subclass may
   * answer otherwise.  `canAdd` is consulted for areas only: `CardGroup`
   * replaces it with its own rule.
   */
  datatype Rules = Rules(
    canAdd: (Id, Id) -> bool,
    canRemove: (Id, Id) -> bool,
    canSetLocation: (Id, Option<Id>) -> bool)

  const Defaults: Rules :=
    Rules((l: Id, t: Id) => true, (l: Id, t: Id) => true, (t: Id, l: Option<Id>) => true)

  datatype State = State(kind: map<Id, Kind>, children: map<Id, seq<Id>>, location: map<Id, Option<Id>>)

  /** Every registered component has a child list and a location entry. */
  predicate Wf(s: State)
  {
    s.children.Keys == s.kind.Keys && s.location.Keys == s.kind.Keys &&
    forall t :: t in s.location && s.location[t].Some? ==> s.location[t].value in s.kind
  }

  // ---------------------------------------------------------------------
  // The ownership invariant (single ownership with matching back-pointers)
  // ---------------------------------------------------------------------

  /** No child list repeats an entry; cards have none. */
  predicate ListsClean(s: State)
    requires Wf(s)
  {
    (forall x :: x in s.kind ==> NoDups(s.children[x])) &&
    (forall x :: x in s.kind && s.kind[x] == Card ==> s.children[x] == [])
  }

  /** Every listed child is a target whose location is the list's owner; groups hold cards only. */
  predicate ChildrenPointBack(s: State)
    requires Wf(s)
  {
    forall x, c :: x in s.kind && c in s.children[x] ==>
      c in s.kind && IsTarget(s.kind[c]) && (IsGroup(s.kind[x]) ==> s.kind[c] == Card) &&
      s.location[c] == Some(x)
  }

  /** A target's location lists it. */
  predicate LocationsList(s: State)
    requires Wf(s)
  {
    forall t :: t in s.kind && s.location[t].Some? ==> t in s.children[s.location[t].value]
  }

  predicate Consistent(s: State)
  {
    Wf(s) && ListsClean(s) && ChildrenPointBack(s) && LocationsList(s)
  }

  // ---------------------------------------------------------------------
  // Hooks and position resolution
  // ---------------------------------------------------------------------

  /** `canAdd`: a group takes cards only (cards.js:323); an area asks the hook (cards.js:170). */
  function CanAdd(kind: map<Id, Kind>, r: Rules, l: Id, t: Id): bool
    requires l in kind && t in kind
  {
    if IsGroup(kind[l]) then kind[t] == Card else r.canAdd(l, t)
  }

  /**
   * The index `before` stands for in `l`'s list (cards.js:211-216).  A
   * number past the end is refused; the source does not check it (see
   * `Findings.AddPastEndAsWritten`).
   */
  function Resolve(s: State, l: Id, before: Before): (r: Option<nat>)
    requires l in s.children
    ensures r.Some? ==> r.value <= |s.children[l]|
    ensures before.End? ==> r == Some(|s.children[l]|)
    ensures before.At? ==> (r.Some? <==> before.index <= |s.children[l]|)
    ensures before.At? && r.Some? ==> r.value == before.index
    ensures before.Child? && before.ref !in s.children[l] ==> r == None
    ensures before.Child? && before.ref in s.children[l] ==>
      r.Some? && r.value < |s.children[l]| && s.children[l][r.value] == before.ref &&
      before.ref !in s.children[l][..r.value]
  {
    match before
    case End => Some(|s.children[l]|)
    case At(i) => if i <= |s.children[l]| then Some(i) else None
    case Child(c) => var k := IndexOf(s.children[l], c); if k < 0 then None else Some(k)
  }

  /** All the checks `add` makes before it changes anything (cards.js:210-218). */
  predicate Admits(s: State, r: Rules, l: Id, t: Id, before: Before)
    requires Wf(s) && l in s.kind && t in s.kind
  {
    IsTarget(s.kind[t]) && Resolve(s, l, before).Some? && CanAdd(s.kind, r, l, t) &&
    r.canSetLocation(t, Some(l))
  }

  // ---------------------------------------------------------------------
  // The steps of add and remove
  // ---------------------------------------------------------------------

  /** `add` after its checks: `location_` set, target spliced in at `i` (cards.js:218-227). */
  function Inserted(s: State, l: Id, t: Id, i: nat): (r: State)
    requires Wf(s) && l in s.kind && t in s.kind && i <= |s.children[l]|
    ensures Wf(r) && r.kind == s.kind && r.location == s.location[t := Some(l)]
  {
    State(s.kind, s.children[l := Insert(s.children[l], i, t)], s.location[t := Some(l)])
  }

  /** `AbstractLocation.postRemove`: drop the first occurrence of `t` (cards.js:199-203). */
  function Spliced(s: State, l: Id, t: Id): (r: State)
    requires Wf(s) && l in s.kind
    ensures Wf(r) && r.kind == s.kind && r.location == s.location
  {
    s.(children := s.children[l := RemoveFirst(s.children[l], t)])
  }

  /** An `add` whose previous location does only the base clean-up. */
  function Transfer(s: State, l: Id, t: Id, i: nat): (r: State)
    requires Wf(s) && l in s.kind && t in s.kind && i <= |s.children[l]|
    ensures Wf(r) && r.kind == s.kind && r.location == s.location[t := Some(l)]
  {
    var s1 := Inserted(s, l, t, i);
    match s.location[t]
    case None => s1
    case Some(q) => Spliced(s1, q, t)
  }

  /**
   * `remove` up to its clean-up hook (cards.js:182-191).  Note the order of
   * the source: the target's `location_` is cleared before the list is
   * searched, so a target missing from the list loses its location although
   * `remove` answers false.
   */
  function Detach(s: State, r: Rules, l: Id, t: Id): (res: (State, bool))
    requires Wf(s) && l in s.kind && t in s.kind
    ensures Wf(res.0) && res.0.kind == s.kind
  {
    if !IsTarget(s.kind[t]) || s.location[t] != Some(l) || !r.canRemove(l, t) || !r.canSetLocation(t, None) then
      (s, false)
    else
      var s1 := s.(location := s.location[t := None]);
      var k := IndexOf(s.children[l], t);
      if k < 0 then (s1, false)
      else (s1.(children := s1.children[l := Delete(s.children[l], k)]), true)
  }

  // ---------------------------------------------------------------------
  // collapse, as a single pass over the group's children
  // ---------------------------------------------------------------------

  /** Whether `p.add(c, g)` passes its checks, for `g` listed in `p`. */
  predicate Rehomable(kind: map<Id, Kind>, r: Rules, p: Id, c: Id)
    requires p in kind
  {
    c in kind && IsTarget(kind[c]) && CanAdd(kind, r, p, c) && r.canSetLocation(c, Some(p))
  }

  /** The children among `cs` that `p` takes over when their group collapses, in order. */
  function Accepted(kind: map<Id, Kind>, r: Rules, p: Id, cs: seq<Id>): (res: seq<Id>)
    requires p in kind
    ensures forall c :: c in res <==> c in cs && Rehomable(kind, r, p, c)
  {
    if cs == [] then []
    else (if Rehomable(kind, r, p, cs[0]) then [cs[0]] else []) + Accepted(kind, r, p, cs[1..])
  }

  /** The children among `cs` that stay behind in a collapsed group, in order. */
  function Rejected(kind: map<Id, Kind>, r: Rules, p: Id, cs: seq<Id>): (res: seq<Id>)
    requires p in kind
    ensures forall c :: c in res <==> c in cs && !Rehomable(kind, r, p, c)
  {
    if cs == [] then []
    else (if Rehomable(kind, r, p, cs[0]) then [] else [cs[0]]) + Rejected(kind, r, p, cs[1..])
  }

  /**
   * The loop of `CardGroup.collapse` (cards.js:326-335) over the children
   * `cs` still to visit: each one the parent `p` admits is added to `p` just
   * before the group, the others are skipped.
   */
  function Rehome(s: State, r: Rules, g: Id, p: Id, cs: seq<Id>): (res: State)
    requires Wf(s) && g in s.kind && p in s.kind
    ensures Wf(res) && res.kind == s.kind
    decreases |cs|
  {
    if cs == [] then s
    else
      var c := cs[0];
      var s1 := if c in s.kind && Admits(s, r, p, c, Child(g))
                then Transfer(s, p, c, IndexOf(s.children[p], g)) else s;
      Rehome(s1, r, g, p, cs[1..])
  }

  /** The last line of `collapse`: `if (this.location()) this.location().remove(this)` (cards.js:337). */
  function LeaveParent(s: State, r: Rules, g: Id): (res: State)
    requires Wf(s) && g in s.kind
    ensures Wf(res) && res.kind == s.kind
  {
    match s.location[g]
    case None => s
    case Some(p) =>
      var (s1, ok) := Detach(s, r, p, g);
      if ok then Spliced(s1, p, g) else s1
  }

  /** `collapse` entered with the loop index at `i` (cards.js:325-338). */
  function CollapseFrom(s: State, r: Rules, g: Id, i: nat): (res: State)
    requires Wf(s) && g in s.kind && i <= |s.children[g]|
    ensures Wf(res) && res.kind == s.kind
  {
    match s.location[g]
    case None => s
    case Some(p) => LeaveParent(Rehome(s, r, g, p, s.children[g][i..]), r, g)
  }

  /** `collapse` starting from `i = 0` on a group that has no location and some children dereferences null. */
  predicate CollapseThrows(s: State, g: Id)
    requires Wf(s) && g in s.kind
  {
    s.location[g].None? && s.children[g] != []
  }

  // ---------------------------------------------------------------------
  // postRemove, add, remove
  // ---------------------------------------------------------------------

  /**
   * The clean-up hook run on a target's former location.  A plain location
   * drops the first occurrence of the target (cards.js:199-203).  A
   * collapsible group does the same and then collapses once at most one
   * child is left.  This corrects cards.js:348-350, whose hook skips the
   * splice the collapse loop (cards.js:327-335) needs in order to advance
   * (see `Findings.PostRemoveAsWritten` for the code as written).
   */
  function PostRemoveSpec(s: State, r: Rules, l: Id, t: Id): (res: State)
    requires Wf(s) && l in s.kind
    ensures Wf(res) && res.kind == s.kind
  {
    var s1 := Spliced(s, l, t);
    if s.kind[l] == CollapsibleGroup && |s1.children[l]| <= 1 then CollapseFrom(s1, r, l, 0) else s1
  }

  predicate PostRemoveThrows(s: State, l: Id, t: Id)
    requires Wf(s) && l in s.kind
  {
    var s1 := Spliced(s, l, t);
    s.kind[l] == CollapsibleGroup && |s1.children[l]| <= 1 && CollapseThrows(s1, l)
  }

  /** `AbstractLocation.add` (cards.js:209-230): the new state and the boolean answer. */
  function AddSpec(s: State, r: Rules, l: Id, t: Id, before: Before): (res: (State, bool))
    requires Wf(s) && l in s.kind && t in s.kind
    ensures Wf(res.0) && res.0.kind == s.kind
    ensures res.1 <==> Admits(s, r, l, t, before)
    ensures !res.1 ==> res.0 == s
  {
    if !Admits(s, r, l, t, before) then (s, false)
    else
      var i := Resolve(s, l, before).value;
      var s1 := Inserted(s, l, t, i);
      match s.location[t]
      case None => (s1, true)
      case Some(q) => (PostRemoveSpec(s1, r, q, t), true)
  }

  /** The inputs on which `add` dereferences null while collapsing the target's former group. */
  predicate AddThrows(s: State, r: Rules, l: Id, t: Id, before: Before)
    requires Wf(s) && l in s.kind && t in s.kind
  {
    Admits(s, r, l, t, before) && s.location[t].Some? &&
    PostRemoveThrows(Inserted(s, l, t, Resolve(s, l, before).value), s.location[t].value, t)
  }

  /** `AbstractLocation.remove` (cards.js:181-196): the new state and the boolean answer. */
  function RemoveSpec(s: State, r: Rules, l: Id, t: Id): (res: (State, bool))
    requires Wf(s) && l in s.kind && t in s.kind
    ensures Wf(res.0) && res.0.kind == s.kind
  {
    var (s1, ok) := Detach(s, r, l, t);
    if ok then (PostRemoveSpec(s1, r, l, t), true) else (s1, false)
  }

  predicate RemoveThrows(s: State, r: Rules, l: Id, t: Id)
    requires Wf(s) && l in s.kind && t in s.kind
  {
    var (s1, ok) := Detach(s, r, l, t);
    ok && PostRemoveThrows(s1, l, t)
  }
}
