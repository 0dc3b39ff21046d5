/**
 * Concrete runs of the container model on small tables, with the default
 * hooks of the core classes: inserting before a child, the collapsible
 * group dissolving when its second-last card leaves, and a numeric index
 * past the end.
 */
module Scenarios {
  import opened Seqs
  import opened Containers
  import opened Ownership
  import opened Laws
  import opened AddRemove

  /** An area `0` and two loose cards `1` and `2`. */
  function AreaAndTwoCards(): (s: State)
    ensures s.kind.Keys == {0, 1, 2} && s.kind[0] == Area && s.kind[1] == Card && s.kind[2] == Card
    ensures Consistent(s) && s.location[1].None? && s.location[2].None?
  {
    State(map[0 := Area, 1 := Card, 2 := Card],
          map[0 := [], 1 := [], 2 := []],
          map[0 := None, 1 := None, 2 := None])
  }

  /** The first step: `area.add(cardA)` appends. */
  lemma AppendFirst()
    ensures var s0 := AreaAndTwoCards();
      var (s1, ok) := AddSpec(s0, Defaults, 0, 1, End);
      ok && s1 == s0.(children := s0.children[0 := [1]], location := s0.location[1 := Some(0)])
  {
    var s0 := AreaAndTwoCards();
    assert Insert([], 0, 1) == [1];
  }

  /** `area.add(cardA)` then `area.add(cardB, cardA)` leaves the area listing `[cardB, cardA]`. */
  lemma InsertBeforeChild()
    ensures var s0 := AreaAndTwoCards();
      var (s1, ok1) := AddSpec(s0, Defaults, 0, 1, End);
      var (s2, ok2) := AddSpec(s1, Defaults, 0, 2, Child(1));
      ok1 && ok2 && s2.children[0] == [2, 1] &&
      s2.location[1] == Some(0) && s2.location[2] == Some(0)
  {
    AppendFirst();
    var s0 := AreaAndTwoCards();
    var s1 := AddSpec(s0, Defaults, 0, 1, End).0;
    assert IndexOf(s1.children[0], 1) == 0;
    assert Insert([1], 0, 2) == [2, 1];
  }

  /** An area `0` holding a collapsible group `1` that holds cards `2` and `3`. */
  function GroupOfTwo(): (s: State)
    ensures Wf(s) && s.kind.Keys == {0, 1, 2, 3}
    ensures s.kind[0] == Area && s.kind[1] == CollapsibleGroup && s.kind[2] == Card && s.kind[3] == Card
    ensures s.children[1] == [2, 3] && s.location[1] == Some(0) && s.location[2] == Some(1)
  {
    State(map[0 := Area, 1 := CollapsibleGroup, 2 := Card, 3 := Card],
          map[0 := [1], 1 := [2, 3], 2 := [], 3 := []],
          map[0 := None, 1 := Some(0), 2 := Some(1), 3 := Some(1)])
  }

  /** The same table once card `2` has left the group and before the group reacts. */
  function GroupOfOne(): (s: State)
    ensures Wf(s) && s.kind == GroupOfTwo().kind
    ensures s.children[0] == [] + [1] + [] && s.location[1] == Some(0) && s.children[1] == [3]
    ensures s.location[2].None? && s.location[3] == Some(1)
  {
    var s := GroupOfTwo();
    State(s.kind, s.children[1 := [3]], s.location[2 := None])
  }

  lemma GroupOfOneListsClean()
    ensures ListsClean(GroupOfOne())
  {
    var s := GroupOfOne();
    forall x | x in s.kind ensures NoDups(s.children[x]) && (s.kind[x] == Card ==> s.children[x] == []) {
      assert x == 0 || x == 1 || x == 2 || x == 3;
    }
  }

  lemma GroupOfOnePointsBack()
    ensures ChildrenPointBack(GroupOfOne())
  {
    var s := GroupOfOne();
    forall x, c | x in s.kind && c in s.children[x]
      ensures c in s.kind && IsTarget(s.kind[c]) && (IsGroup(s.kind[x]) ==> s.kind[c] == Card) &&
              s.location[c] == Some(x)
    {
      assert x == 0 || x == 1 || x == 2 || x == 3;
      assert x == 0 ==> c == 1;
      assert x == 1 ==> c == 3;
    }
  }

  lemma GroupOfOneListed()
    ensures LocationsList(GroupOfOne())
  {
    var s := GroupOfOne();
    forall t | t in s.kind && s.location[t].Some? ensures t in s.children[s.location[t].value] {
      assert t == 0 || t == 1 || t == 2 || t == 3;
    }
  }

  /** The first half of the run: the card leaves and the group, down to one card, collapses. */
  lemma RemoveTriggersCollapse()
    ensures RemoveSpec(GroupOfTwo(), Defaults, 1, 2) == (CollapseFrom(GroupOfOne(), Defaults, 1, 0), true)
  {
    var s := GroupOfTwo();
    CollapsibleRemove(s, Defaults, 1, 2);
    assert IndexOf([2, 3], 2) == 0;
    assert RemoveFirst(s.children[1], 2) == [3];
  }

  /** With the default hooks the area takes the group's last card. */
  lemma AreaTakesCard()
    ensures Accepted(GroupOfTwo().kind, Defaults, 0, [3]) == [3]
    ensures Rejected(GroupOfTwo().kind, Defaults, 0, [3]) == []
  {
    var kind := GroupOfTwo().kind;
    assert [3][1..] == [];
    assert Rehomable(kind, Defaults, 0, 3);
  }

  /**
   * `groupG.remove(card1)` on a collapsible group holding two cards: the
   * group dissolves, its other card becomes a direct child of the group's
   * parent in the group's place, and the group is no longer placed.
   */
  lemma CollapsibleDissolves()
    ensures var (s', ok) := RemoveSpec(GroupOfTwo(), Defaults, 1, 2);
      ok && s'.children[0] == [3] && s'.location[3] == Some(0) &&
      s'.location[1].None? && s'.location[2].None? && s'.children[1] == []
  {
    RemoveTriggersCollapse();
    var s1 := GroupOfOne();
    GroupOfOneListsClean();
    GroupOfOnePointsBack();
    GroupOfOneListed();
    CollapseLaw(s1, Defaults, 1, 0, [], []);
    AreaTakesCard();
    CollapseLocationFrame(s1, Defaults, 1, 2);
  }

  /** A numeric index past the end of the list is refused and nothing changes. */
  lemma IndexPastEndRefused(s: State, r: Rules, l: Id, t: Id, n: nat)
    requires Wf(s) && l in s.kind && t in s.kind && n > |s.children[l]|
    ensures AddSpec(s, r, l, t, At(n)) == (s, false)
  {
  }
}
