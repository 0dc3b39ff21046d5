/**
 * The container classes of cards.js performing their operations in place.
 * A `Table` holds, for every registered component, the fields the source
 * keeps on the component objects: its class (`kind`), its `children_` list
 * and its `location_` field.  `add`, `remove`, `postRemove` and `collapse`
 * call one another exactly as in the source (`add` runs the clean-up hook of
 * the target's former location, which may collapse a group, which adds the
 * group's children to its parent and finally removes the group), and each
 * is proved to leave the table in the state its specification function in
 * `Containers` computes.
 */
module CardTable {
  import opened Seqs
  import opened Containers
  import opened Ownership
  import opened Laws

  // ---------------------------------------------------------------------
  // One pass of the loop in `CardGroup.collapse` (cards.js:326-335)
  // ---------------------------------------------------------------------

  /** The location of a placed group is an area that lists it (groups hold cards only). */
  lemma GroupParent(s: State, g: Id, p: Id)
    requires Consistent(s) && g in s.kind && IsGroup(s.kind[g]) && s.location[g] == Some(p)
    ensures p in s.kind && g in s.children[p] && s.kind[p] == Area && p != g
  {
    assert g in s.children[p];
    ParentIsLocation(s, p, g);
  }

  /** A child the parent refuses is skipped: the loop index moves on and the outcome is the same. */
  lemma CollapseSkip(s: State, r: Rules, g: Id, i: nat)
    requires Wf(s) && g in s.kind && s.location[g].Some? && i < |s.children[g]|
    requires var c := s.children[g][i];
      !(c in s.kind && Admits(s, r, s.location[g].value, c, Child(g)))
    ensures CollapseFrom(s, r, g, i + 1) == CollapseFrom(s, r, g, i)
  {
    var cs := s.children[g][i..];
    assert cs[1..] == s.children[g][i + 1..];
  }

  /** The parent's `add` of the `i`-th child of a group cannot end in the exception of `collapse`. */
  lemma CollapseAddSafe(s: State, r: Rules, g: Id, p: Id, i: nat)
    requires Consistent(s) && g in s.kind && IsGroup(s.kind[g]) && s.location[g] == Some(p)
    requires i < |s.children[g]|
    ensures p in s.kind && s.kind[p] == Area && s.children[g][i] in s.kind
    ensures !AddThrows(s, r, p, s.children[g][i], Child(g))
  {
    GroupParent(s, g, p);
    var c := s.children[g][i];
    assert c in s.children[g];
    assert c in s.kind && s.kind[c] == Card && s.location[c] == Some(g);
    if Admits(s, r, p, c, Child(g)) {
      var x := Inserted(s, p, c, Resolve(s, p, Child(g)).value);
      assert x.location[g] == s.location[g];
      assert Spliced(x, g, c).location[g] == Some(p);
      assert !PostRemoveThrows(x, g, c);
    }
  }

  /**
   * A child the parent admits moves out of the group to just before it,
   * with the base clean-up: the group's list loses exactly that child and
   * the rest of the pass is the same.
   */
  lemma CollapseMovePlain(s: State, r: Rules, g: Id, p: Id, i: nat)
    requires Wf(s) && g in s.kind && p in s.kind && p != g && g in s.children[p] && s.location[g] == Some(p)
    requires i < |s.children[g]| && NoDups(s.children[g]) && s.children[g][i] != g
    requires s.children[g][i] in s.kind && s.location[s.children[g][i]] == Some(g) && Rehomable(s.kind, r, p, s.children[g][i])
    ensures var s2 := Transfer(s, p, s.children[g][i], IndexOf(s.children[p], g));
      s2.location[g] == Some(p) &&
      s2.children[g] == s.children[g][..i] + s.children[g][i + 1..] &&
      CollapseFrom(s2, r, g, i) == CollapseFrom(s, r, g, i)
  {
    var ch := s.children[g];
    var c := ch[i];
    var k := IndexOf(s.children[p], g);
    var s2 := Transfer(s, p, c, k);
    TransferAcrossShape(s, p, c, k, g);
    IndexOfUnique(ch, i);
    var d := Delete(ch, i);
    assert d == d[..i] + d[i..];
    assert s2.children[g] == ch[..i] + ch[i + 1..];
    RehomeUnfold(s, r, g, p, ch[i..]);
    assert ch[i..][1..] == ch[i + 1..] == s2.children[g][i..];
  }

  /** What `CollapseMovePlain` needs, from the ownership invariant. */
  lemma MoveReady(s: State, g: Id, p: Id, i: nat)
    requires Consistent(s) && g in s.kind && IsGroup(s.kind[g]) && s.location[g] == Some(p)
    requires i < |s.children[g]|
    ensures p in s.kind && p != g && g in s.children[p] && s.kind[p] == Area
    ensures NoDups(s.children[g]) && s.children[g][i] in s.kind && s.children[g][i] != g
    ensures s.kind[s.children[g][i]] == Card && s.location[s.children[g][i]] == Some(g)
  {
    GroupParent(s, g, p);
    assert s.children[g][i] in s.children[g];
  }

  /** Leaving the parent either clears the group's location or changes nothing, and never touches the group's own list. */
  lemma LeaveParentSettles(s: State, r: Rules, g: Id)
    requires Wf(s) && g in s.kind && IsTarget(s.kind[g]) && s.location[g] != Some(g)
    ensures var x := LeaveParent(s, r, g);
      (x.location[g].None? || x == s) && x.children[g] == s.children[g]
  {
    match s.location[g]
    case None =>
    case Some(p) =>
      var (s1, ok) := Detach(s, r, p, g);
      if IsTarget(s.kind[g]) && r.canRemove(p, g) && r.canSetLocation(g, None) {
        assert s1.location[g].None?;
        assert s1.children[g] == s.children[g];
      } else {
        assert s1 == s && !ok;
      }
  }

  /**
   * The last child of a collapsible group moving out re-enters `collapse`
   * on the now empty group, which leaves its parent; the outer pass then
   * finds nothing left to do, so the outcome is that of a single pass.
   */
  lemma CollapseMoveNested(s: State, r: Rules, g: Id, p: Id)
    requires Consistent(s) && g in s.kind && s.kind[g] == CollapsibleGroup && s.location[g] == Some(p)
    requires |s.children[g]| == 1 && Rehomable(s.kind, r, p, s.children[g][0])
    ensures p in s.kind && g in s.children[p]
    ensures var s2 := Transfer(s, p, s.children[g][0], IndexOf(s.children[p], g));
      var x := CollapseFrom(s2, r, g, 0);
      Consistent(x) && x.children[g] == [] && CollapseFrom(x, r, g, 0) == x && x == CollapseFrom(s, r, g, 0)
  {
    MoveReady(s, g, p, 0);
    CollapseMovePlain(s, r, g, p, 0);
    var s2 := Transfer(s, p, s.children[g][0], IndexOf(s.children[p], g));
    TransferConsistent(s, p, s.children[g][0], IndexOf(s.children[p], g));
    assert s2.children[g] == [];
    CollapseFromConsistent(s2, r, g, 0);
    assert s2.children[g][0..] == [];
    var x := CollapseFrom(s2, r, g, 0);
    assert x == LeaveParent(s2, r, g);
    LeaveParentSettles(s2, r, g);
    assert x.children[g][0..] == [];
  }

  /** One successful step of the loop: the state the parent's `add` leaves has the same outcome from the same index. */
  lemma CollapseMove(s: State, r: Rules, g: Id, p: Id, i: nat)
    requires Consistent(s) && g in s.kind && IsGroup(s.kind[g]) && s.location[g] == Some(p)
    requires i < |s.children[g]| && (s.kind[g] == CollapsibleGroup ==> |s.children[g]| <= 1)
    requires p in s.kind && s.children[g][i] in s.kind && Admits(s, r, p, s.children[g][i], Child(g))
    ensures var s' := AddSpec(s, r, p, s.children[g][i], Child(g)).0;
      Consistent(s') && i <= |s'.children[g]| < |s.children[g]| &&
      (s'.location[g].Some? || |s'.children[g]| == i) &&
      CollapseFrom(s', r, g, i) == CollapseFrom(s, r, g, i)
  {
    var c := s.children[g][i];
    MoveReady(s, g, p, i);
    AddShape(s, r, p, c, Child(g), g);
    CollapseMovePlain(s, r, g, p, i);
    TransferConsistent(s, p, c, IndexOf(s.children[p], g));
    if s.kind[g] == CollapsibleGroup {
      CollapseMoveNested(s, r, g, p);
    }
  }

  /** Once the loop is done, the last line of `collapse` is `remove` on the parent (cards.js:337). */
  lemma CollapseFinish(s: State, r: Rules, g: Id)
    requires Consistent(s) && g in s.kind && IsGroup(s.kind[g])
    ensures CollapseFrom(s, r, g, |s.children[g]|) == LeaveParent(s, r, g)
    ensures s.location[g].Some? ==>
      var p := s.location[g].value;
      p in s.kind && s.kind[p] == Area && !RemoveThrows(s, r, p, g) &&
      RemoveSpec(s, r, p, g).0 == LeaveParent(s, r, g)
  {
    assert s.children[g][|s.children[g]|..] == [];
    if s.location[g].Some? {
      GroupParent(s, g, s.location[g].value);
    }
  }

  /**
   * `add` once its checks have passed and the target is spliced in at
   * `index`: the clean-up hook of the former location finishes the job.
   */
  lemma AddLanding(s: State, r: Rules, l: Id, t: Id, before: Before, index: nat)
    requires Consistent(s) && l in s.kind && t in s.kind && IsLocation(s.kind[l])
    requires Admits(s, r, l, t, before) && Resolve(s, l, before) == Some(index)
    requires !AddThrows(s, r, l, t, before)
    ensures var s1 := Inserted(s, l, t, index);
      (s.location[t].None? ==> AddSpec(s, r, l, t, before) == (s1, true)) &&
      (s.location[t].Some? ==>
        var q := s.location[t].value;
        q in s.kind && t in s1.children[q] &&
        |s1.children[q]| == |s.children[q]| + (if q == l then 1 else 0) &&
        Consistent(Spliced(s1, q, t)) && !PostRemoveThrows(s1, q, t) &&
        AddSpec(s, r, l, t, before) == (PostRemoveSpec(s1, r, q, t), true))
  {
    if s.location[t].Some? {
      var q := s.location[t].value;
      assert t in s.children[q];
      InsertMembers(s.children[l], index, t, t);
      TransferConsistent(s, l, t, index);
    }
  }

  /** A newly constructed component has no children and no location. */
  lemma RegisterConsistent(s: State, x: Id, k: Kind)
    requires Consistent(s) && x !in s.kind
    ensures Consistent(State(s.kind[x := k], s.children[x := []], s.location[x := None]))
  {
    var s' := State(s.kind[x := k], s.children[x := []], s.location[x := None]);
    forall y, c | y in s'.kind && c in s'.children[y]
      ensures c in s'.kind && IsTarget(s'.kind[c]) && (IsGroup(s'.kind[y]) ==> s'.kind[c] == Card) &&
              s'.location[c] == Some(y)
    {
      assert y != x && c in s.children[y];
    }
  }

  // ---------------------------------------------------------------------
  // The table
  // ---------------------------------------------------------------------

  class Table {
    /** The class of every registered component. */
    var kind: map<Id, Kind>
    /** `children_` of every component (empty for cards, which have none). */
    var children: map<Id, seq<Id>>
    /** `location_` of every component (`None` for areas, which have none). */
    var location: map<Id, Option<Id>>
    /** The veto hooks of the game's subclasses. */
    const rules: Rules

    function Model(): State
      reads this
    {
      State(kind, children, location)
    }

    /** Whether `x` is a collapsible group: its clean-up may re-enter `collapse`. */
    function Level(x: Option<Id>): nat
      reads this`kind
    {
      if x.Some? && x.value in kind && kind[x.value] == CollapsibleGroup then 1 else 0
    }

    /** The length of `x`'s list. */
    function Size(x: Option<Id>): nat
      reads this`children
    {
      if x.Some? && x.value in children then |children[x.value]| else 0
    }

    /** An empty table. */
    constructor(rules: Rules)
      ensures Model() == State(map[], map[], map[]) && this.rules == rules
      ensures Consistent(Model())
    {
      kind, children, location := map[], map[], map[];
      this.rules := rules;
    }

    /**
     * A component is constructed: it starts with no children and no
     * location and becomes known to the table (cards.js:95-98, 134-137,
     * 304-307, 355-358).
     */
    method Register(x: Id, k: Kind)
      requires Consistent(Model()) && x !in kind
      modifies this
      ensures Model() == State(old(kind)[x := k], old(children)[x := []], old(location)[x := None])
      ensures Consistent(Model())
    {
      RegisterConsistent(Model(), x, k);
      kind, children, location := kind[x := k], children[x := []], location[x := None];
    }

    /** `children()`: the list, as a value (cards.js:206). */
    function Children(l: Id): (cs: seq<Id>)
      reads this
      requires l in children
      ensures cs == children[l]
    {
      children[l]
    }

    /**
     * `setLocationInternal` of `Card` and `CardGroup` (cards.js:310-314,
     * 362-366): the field is written only when `canSetLocation` allows it.
     */
    method SetLocationInternal(t: Id, loc: Option<Id>) returns (ok: bool)
      requires t in location && (loc.Some? ==> loc.value in kind)
      modifies this
      ensures ok == rules.canSetLocation(t, loc)
      ensures kind == old(kind) && children == old(children)
      ensures location == if ok then old(location)[t := loc] else old(location)
    {
      if !rules.canSetLocation(t, loc) {
        return false;
      }
      location := location[t := loc];
      return true;
    }

    /**
     * The list update of `add` (cards.js:220-227): a push when the target
     * goes at the end, a splice at `index` otherwise.
     */
    method SpliceIn(l: Id, t: Id, index: nat)
      requires l in children && index <= |children[l]|
      modifies this`children
      ensures children == old(children)[l := Insert(old(children[l]), index, t)]
    {
      if index == |children[l]| {
        InsertAtEnd(children[l], t);
        children := children[l := children[l] + [t]];
      } else {
        children := children[l := Insert(children[l], index, t)];
      }
    }

    /**
     * `AbstractLocation.add` (cards.js:209-230), with its checks in the
     * source's order, then the clean-up hook of the target's former
     * location.
     */
    method Add(l: Id, t: Id, before: Before) returns (ok: bool)
      requires Consistent(Model()) && l in kind && t in kind && IsLocation(kind[l])
      requires !AddThrows(Model(), rules, l, t, before)
      modifies this
      ensures (Model(), ok) == AddSpec(old(Model()), rules, l, t, before)
      ensures ok <==> Admits(old(Model()), rules, l, t, before)
      ensures !ok ==> Model() == old(Model())
      ensures Consistent(Model())
      decreases Level(location[t]), Size(location[t]) + (if location[t] == Some(l) then 1 else 0), 1
    {
      ghost var s := Model();
      if !IsTarget(kind[t]) {
        return false;
      }
      var index: nat;
      match before {
        case End =>
          index := |children[l]|;
        case At(n) =>
          if n > |children[l]| {
            return false;
          }
          index := n;
        case Child(c) =>
          var k := IndexOf(children[l], c);
          if k < 0 {
            return false;
          }
          index := k;
      }
      assert Resolve(s, l, before) == Some(index);
      var previous := location[t];
      if !CanAdd(kind, rules, l, t) {
        return false;
      }
      ok := SetLocationInternal(t, Some(l));
      if !ok {
        return false;
      }
      SpliceIn(l, t, index);
      assert Model() == Inserted(s, l, t, index);
      AddLanding(s, rules, l, t, before, index);
      if previous.Some? {
        var q := previous.value;
        assert Level(Some(q)) == old(Level(location[t])) && t in children[q];
        assert Size(Some(q)) == old(Size(location[t])) + (if q == l then 1 else 0);
        PostRemove(q, t);
      }
      assert Model() == AddSpec(s, rules, l, t, before).0;
      AddConsistent(s, rules, l, t, before);
      return true;
    }

    /**
     * `AbstractLocation.postRemove` (cards.js:199-203), and for a
     * collapsible group the same splice followed by `collapse` once at most
     * one child is left (cards.js:348-350, as corrected).
     */
    method PostRemove(l: Id, t: Id)
      requires Wf(Model()) && l in kind && Consistent(Spliced(Model(), l, t))
      requires !PostRemoveThrows(Model(), l, t)
      modifies this
      ensures Model() == PostRemoveSpec(old(Model()), rules, l, t)
      ensures Consistent(Model())
      decreases Level(Some(l)), Size(Some(l)), if t in children[l] then 0 else 4
    {
      ghost var s := Model();
      var index := IndexOf(children[l], t);
      if index >= 0 {
        children := children[l := Delete(children[l], index)];
      }
      assert Model() == Spliced(s, l, t);
      if kind[l] == CollapsibleGroup && |children[l]| <= 1 {
        assert PostRemoveSpec(s, rules, l, t) == CollapseFrom(Spliced(s, l, t), rules, l, 0);
        Collapse(l);
      } else {
        assert !(s.kind[l] == CollapsibleGroup && |Spliced(s, l, t).children[l]| <= 1);
        assert PostRemoveSpec(s, rules, l, t) == Spliced(s, l, t);
      }
    }

    /**
     * The checks and the splice of `remove` (cards.js:182-191), before its
     * clean-up hook.  The back-pointer is cleared before the list is
     * searched, as in the source.
     */
    method Detach(l: Id, t: Id) returns (ok: bool)
      requires Wf(Model()) && l in kind && t in kind
      modifies this
      ensures (Model(), ok) == Containers.Detach(old(Model()), rules, l, t)
      ensures kind == old(kind) && (ok ==> |children[l]| < old(|children[l]|))
    {
      if !IsTarget(kind[t]) || location[t] != Some(l) || !rules.canRemove(l, t) {
        return false;
      }
      ok := SetLocationInternal(t, None);
      if !ok {
        return false;
      }
      var index := IndexOf(children[l], t);
      if index < 0 {
        return false;
      }
      children := children[l := Delete(children[l], index)];
    }

    /** `AbstractLocation.remove` (cards.js:181-196): the checks and splice, then the clean-up hook. */
    method Remove(l: Id, t: Id) returns (ok: bool)
      requires Consistent(Model()) && l in kind && t in kind && IsLocation(kind[l])
      requires !RemoveThrows(Model(), rules, l, t)
      modifies this
      ensures (Model(), ok) == RemoveSpec(old(Model()), rules, l, t)
      ensures Consistent(Model())
      decreases Level(Some(l)), Size(Some(l)), 0
    {
      ghost var s := Model();
      RemoveConsistent(s, rules, l, t);
      DetachConsistent(s, rules, l, t);
      ok := Detach(l, t);
      if ok {
        SplicedAbsent(Model(), l, t);
        assert Level(Some(l)) == old(Level(Some(l))) && Size(Some(l)) < old(Size(Some(l)));
        PostRemove(l, t);
      }
    }

    /**
     * One turn of the loop of `collapse` (cards.js:328-335): the parent is
     * asked to take the `i`-th child just before the group; the index moves
     * on only if it refuses, and the result of `collapse` is unchanged.
     */
    method CollapseStep(g: Id, i: nat) returns (next: nat)
      requires Consistent(Model()) && g in kind && IsGroup(kind[g]) && location[g].Some?
      requires i < |children[g]| && (kind[g] == CollapsibleGroup ==> |children[g]| <= 1)
      modifies this
      ensures Consistent(Model()) && kind == old(kind)
      ensures next <= |children[g]| <= old(|children[g]|)
      ensures |children[g]| - next < old(|children[g]|) - i
      ensures location[g].Some? || next == |children[g]|
      ensures CollapseFrom(Model(), rules, g, next) == CollapseFrom(old(Model()), rules, g, i)
      decreases 1, |children[g]|, 2
    {
      var p := location[g].value;
      ghost var s := Model();
      CollapseAddSafe(s, rules, g, p, i);
      var child := children[g][i];
      assert location[child] == Some(g) by {
        assert child in s.children[g];
      }
      assert Level(location[child]) <= 1 && Size(location[child]) == |children[g]| && g != p;
      var added := Add(p, child, Child(g));
      if added {
        assert Model() == AddSpec(s, rules, p, child, Child(g)).0;
        CollapseMove(s, rules, g, p, i);
        next := i;
      } else {
        assert Model() == s;
        CollapseSkip(s, rules, g, i);
        next := i + 1;
      }
    }

    /**
     * `CardGroup.collapse` (cards.js:325-338): every child the parent
     * admits is added to the parent just before the group, the loop index
     * moving on only past a refused child; then the group leaves its parent.
     * A collapsible group is collapsed by its own clean-up hook only, when
     * it holds at most one child.
     */
    method Collapse(g: Id)
      requires Consistent(Model()) && g in kind && IsGroup(kind[g])
      requires kind[g] == CollapsibleGroup ==> |children[g]| <= 1
      requires !CollapseThrows(Model(), g)
      modifies this
      ensures Model() == CollapseFrom(old(Model()), rules, g, 0)
      ensures Consistent(Model())
      decreases 1, |children[g]|, 3
    {
      var i: nat := 0;
      while i < |children[g]|
        invariant Consistent(Model()) && kind == old(kind)
        invariant i <= |children[g]| <= old(|children[g]|)
        invariant location[g].Some? || i == |children[g]|
        invariant CollapseFrom(Model(), rules, g, i) == CollapseFrom(old(Model()), rules, g, 0)
        decreases |children[g]| - i
      {
        i := CollapseStep(g, i);
      }
      ghost var s := Model();
      CollapseFinish(s, rules, g);
      if location[g].Some? {
        assert Level(location[g]) == 0;
        var _ := Remove(location[g].value, g);
        assert Model() == LeaveParent(s, rules, g);
      } else {
        assert LeaveParent(s, rules, g) == s;
      }
    }
  }
}
