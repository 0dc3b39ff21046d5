/**
 * The quark-confinement rules of pentaquark.js: which quark a confinement
 * may take next, when it is stable, which quarks annihilate, and the
 * `dissolve` helper that unwraps a group element into its parent.
 *
 * The rules are checked against an independent description of what a
 * confinement may hold: a meson (a quark and an antiquark of one colour)
 * or up to three quarks of pairwise different colours that are all quarks
 * or all antiquarks.
 */
module Pentaquark {
  import opened Seqs

  /** `Flavor` (pentaquark.js:182-189). */
  datatype Flavor = Up | Down | Charm | Strange | Bottom | Top

  /** `Color` (pentaquark.js:192-196). */
  datatype Color = Red | Green | Blue

  /** A quark's identity (pentaquark.js:161-166); its element and location are kept apart. */
  datatype Quark = Quark(flavor: Flavor, color: Color, anti: bool)

  // ---------------------------------------------------------------------
  // What a confinement may hold
  // ---------------------------------------------------------------------

  /** A colour–anticolour pair: two quarks of one colour, exactly one of them anti. */
  predicate Meson(qs: seq<Quark>) {
    |qs| == 2 && qs[0].color == qs[1].color && qs[0].anti != qs[1].anti
  }

  /** At most three quarks of pairwise different colours, all quarks or all antiquarks. */
  predicate Baryonic(qs: seq<Quark>) {
    |qs| <= 3 &&
    (forall i, j :: 0 <= i < j < |qs| ==> qs[i].color != qs[j].color) &&
    (forall i :: 0 <= i < |qs| ==> qs[i].anti == qs[0].anti)
  }

  /** A meson, or a baryon on its way to completion. */
  predicate Hadronic(qs: seq<Quark>) {
    Meson(qs) || Baryonic(qs)
  }

  /** Some quark has colour `c`. */
  predicate HasColor(qs: seq<Quark>, c: Color) {
    exists i :: 0 <= i < |qs| && qs[i].color == c
  }

  /** Every colour occurs among the quarks. */
  predicate AllColors(qs: seq<Quark>) {
    forall c: Color :: HasColor(qs, c)
  }

  /** Colourless: a complete meson, or a baryon with all three colours. */
  predicate Neutral(qs: seq<Quark>) {
    Meson(qs) || (Baryonic(qs) && AllColors(qs))
  }

  // ---------------------------------------------------------------------
  // `Confinement` and `Quark` (pentaquark.js:119-176)
  // ---------------------------------------------------------------------

  /**
   * `canAccept` (pentaquark.js:131-142): an empty confinement takes any
   * quark; one of the first member's colour only as the partner of a lone
   * quark of the other kind; one of another colour only while fewer than
   * three are held, of the same kind as the members, and of a colour the
   * second member (if any) does not have.
   */
  function CanAccept(qs: seq<Quark>, q: Quark): (ok: bool)
    ensures qs == [] ==> ok
    ensures ok ==> |qs| < 3
    ensures ok && qs != [] ==> (qs[0].color == q.color <==> qs[0].anti != q.anti)
  {
    if qs == [] then true
    else if qs[0].color == q.color then |qs| == 1 && qs[0].anti != q.anti
    else |qs| < 3 && qs[0].anti == q.anti && (|qs| < 2 || (qs[1].anti == q.anti && qs[1].color != q.color))
  }

  /**
   * On a confinement that holds a meson or a partial baryon, `canAccept`
   * admits exactly the quarks that keep it one.
   */
  lemma CanAcceptKeepsHadronic(qs: seq<Quark>, q: Quark)
    requires Hadronic(qs)
    ensures CanAccept(qs, q) <==> Hadronic(qs + [q])
  {
    var r := qs + [q];
    if |qs| == 1 {
      assert r == [qs[0], q];
      if Baryonic(r) {
        assert r[0].color != r[1].color && r[1].anti == r[0].anti;
      }
      if CanAccept(qs, q) && qs[0].color != q.color {
        assert r[0].color != r[1].color && r[1].anti == r[0].anti;
      }
    } else if |qs| == 2 {
      assert r == [qs[0], qs[1], q];
      assert !Meson(r);
      if Baryonic(r) {
        assert r[0].color != r[1].color && r[0].color != r[2].color && r[1].color != r[2].color;
        assert r[1].anti == r[0].anti && r[2].anti == r[0].anti;
      }
    } else if |qs| == 3 {
      assert !Meson(r) && !Baryonic(r);
    }
  }

  /** The members after `add(q)`: `q` appended when `canAccept` allows it, the same members otherwise. */
  function Added(qs: seq<Quark>, q: Quark): (r: seq<Quark>)
    ensures r == qs + [q] || r == qs
    ensures |r| <= 3 || r == qs
  {
    if CanAccept(qs, q) then qs + [q] else qs
  }

  /** The members of a confinement that starts empty and is offered `incoming` in order. */
  function Built(incoming: seq<Quark>): seq<Quark>
  {
    if incoming == [] then [] else Added(Built(incoming[..|incoming| - 1]), incoming[|incoming| - 1])
  }

  /** A confinement built only by `add` holds a meson or a partial baryon, and so never more than three quarks. */
  lemma {:induction false} BuiltIsHadronic(incoming: seq<Quark>)
    ensures Hadronic(Built(incoming)) && |Built(incoming)| <= 3
  {
    if incoming != [] {
      var prev := Built(incoming[..|incoming| - 1]);
      BuiltIsHadronic(incoming[..|incoming| - 1]);
      CanAcceptKeepsHadronic(prev, incoming[|incoming| - 1]);
    }
  }

  /**
   * `isStable` (pentaquark.js:144-149): there is a third quark, or the
   * first two share a colour.  An empty confinement is not stable.
   */
  function IsStable(qs: seq<Quark>): (b: bool)
    ensures b ==> |qs| >= 2
  {
    |qs| >= 3 || (|qs| >= 2 && qs[0].color == qs[1].color)
  }

  /** A colour neither of two colours is. */
  function OtherColor(a: Color, b: Color): (c: Color)
    ensures c != a && c != b
  {
    if a != Red && b != Red then Red else if a != Green && b != Green then Green else Blue
  }

  /** On a meson or partial baryon, `isStable` holds exactly when the confinement is colourless. */
  lemma StableIffNeutral(qs: seq<Quark>)
    requires Hadronic(qs)
    ensures IsStable(qs) <==> Neutral(qs)
  {
    if |qs| == 3 {
      assert Baryonic(qs);
      forall c: Color ensures HasColor(qs, c) {
        if qs[0].color != c && qs[1].color != c {
          assert c == OtherColor(qs[0].color, qs[1].color) == qs[2].color;
        }
      }
    } else if !Meson(qs) {
      var a := if |qs| > 0 then qs[0].color else Red;
      var b := if |qs| > 1 then qs[1].color else a;
      var missing := OtherColor(a, b);
      assert forall i :: 0 <= i < |qs| ==> qs[i].color != missing;
      assert !HasColor(qs, missing);
    }
  }

  /** Where a quark is: in a confinement with the given members, or anywhere else (or nowhere). */
  datatype Place = InConfinement(members: seq<Quark>) | Elsewhere

  /** `isConfined` (pentaquark.js:169-171): the quark sits in a stable confinement. */
  function IsConfined(location: Place): (b: bool)
    ensures b ==> location.InConfinement? && |location.members| >= 2
  {
    location.InConfinement? && IsStable(location.members)
  }

  /**
   * Were a quark's location set to a confinement built by `add`, it would be
   * confined exactly when that confinement is colourless.  No code assigns
   * `Quark.location` (it stays undefined, pentaquark.js:166), so as written
   * every quark is `Elsewhere`, and the second clause is what `isConfined`
   * answers for all of them.
   */
  lemma ConfinedIffNeutral(incoming: seq<Quark>)
    ensures IsConfined(InConfinement(Built(incoming))) <==> Neutral(Built(incoming))
    ensures !IsConfined(Elsewhere)
  {
    BuiltIsHadronic(incoming);
    StableIffNeutral(Built(incoming));
  }

  /** `annihilates` (pentaquark.js:173-175): same flavour, one a quark and the other an antiquark. */
  function Annihilates(p: Quark, q: Quark): bool
  {
    p.flavor == q.flavor && p.anti != q.anti
  }

  /** Annihilation is symmetric, never pairs a quark with itself, and ignores colour. */
  lemma AnnihilatesSymmetric(p: Quark, q: Quark, c: Color)
    ensures Annihilates(p, q) <==> Annihilates(q, p)
    ensures !Annihilates(p, p)
    ensures Annihilates(p, q) <==> Annihilates(p.(color := c), q)
  {
  }

  /** A confinement: its members, in the order they were added. */
  class Confinement {
    var quarks: seq<Quark>

    /** The members form a meson or a partial baryon. */
    predicate Valid()
      reads this
    {
      Hadronic(quarks)
    }

    constructor()
      ensures quarks == [] && Valid()
    {
      quarks := [];
    }

    /** `add` (pentaquark.js:126-129): append the quark if `canAccept` allows it, otherwise do nothing. */
    method Add(q: Quark)
      modifies this
      ensures quarks == Added(old(quarks), q)
      ensures old(Valid()) ==> Valid() && |quarks| <= 3
    {
      if !CanAccept(quarks, q) {
        return;
      }
      if Valid() {
        CanAcceptKeepsHadronic(quarks, q);
      }
      quarks := quarks + [q];
    }
  }

  // ---------------------------------------------------------------------
  // `dissolve` (pentaquark.js:7-12)
  // ---------------------------------------------------------------------

  /** An element. */
  type Node = nat

  /** The siblings of a group once the group is replaced by its children, in order. */
  function Dissolved(siblings: seq<Node>, g: Node, children: seq<Node>): seq<Node>
    requires g in siblings
  {
    var k := IndexOf(siblings, g);
    siblings[..k] + children + siblings[k + 1..]
  }

  /**
   * In a well-formed tree (no repeated sibling, the group's children not
   * already siblings of it) the group is gone and its children take its
   * place: nothing is repeated and every other sibling stays.
   */
  lemma DissolvedMembers(siblings: seq<Node>, g: Node, children: seq<Node>)
    requires g in siblings && NoDups(siblings) && NoDups(children)
    requires forall x :: x in children ==> x !in siblings
    ensures NoDups(Dissolved(siblings, g, children))
    ensures forall y :: y in Dissolved(siblings, g, children) <==> (y in siblings && y != g) || y in children
  {
    var k := IndexOf(siblings, g);
    var pre, post := siblings[..k], siblings[k + 1..];
    SplitAround(siblings, k);
    DropAround(pre, g, post);
    var r := Dissolved(siblings, g, children);
    assert r == pre + children + post;
    forall a, b | 0 <= a < b < |r| ensures r[a] != r[b] {
      if a < |pre| && b >= |pre| + |children| {
        assert r[a] == siblings[a] && r[b] == siblings[b - |children| + 1];
      } else if a < |pre| && b < |pre| + |pre| + |children| && b >= |pre| {
        assert r[a] in siblings && r[b] in children;
      } else if a >= |pre| && a < |pre| + |children| && b >= |pre| + |children| {
        assert r[a] in children && r[b] in siblings;
      } else if a < |pre| {
        assert r[a] == siblings[a] && r[b] == siblings[b];
      } else if a < |pre| + |children| {
        assert r[a] == children[a - |pre|] && r[b] == children[b - |pre|];
      } else {
        assert r[a] == siblings[a - |children| + 1] && r[b] == siblings[b - |children| + 1];
      }
    }
  }

  /** The parent links after each of `xs` is moved under `p`, in order. */
  function Adopted(parent: map<Node, Node>, xs: seq<Node>, p: Node): map<Node, Node>
    decreases |xs|
  {
    if xs == [] then parent else Adopted(parent[xs[0] := p], xs[1..], p)
  }

  /** After the moves, each moved element's parent is `p`, and every other link is as before. */
  lemma {:induction false} AdoptedLinks(parent: map<Node, Node>, xs: seq<Node>, p: Node)
    ensures forall y :: y in xs ==> y in Adopted(parent, xs, p) && Adopted(parent, xs, p)[y] == p
    ensures forall y :: y in parent && y !in xs ==> y in Adopted(parent, xs, p) && Adopted(parent, xs, p)[y] == parent[y]
    ensures forall y :: y in Adopted(parent, xs, p) ==> y in parent || y in xs
    decreases |xs|
  {
    if xs != [] {
      AdoptedLinks(parent[xs[0] := p], xs[1..], p);
      assert forall y :: y in xs ==> y == xs[0] || y in xs[1..];
    }
  }

  /** Moving one more element under `p` updates its link last. */
  lemma {:induction false} AdoptedSnoc(parent: map<Node, Node>, xs: seq<Node>, x: Node, p: Node)
    ensures Adopted(parent, xs + [x], p) == Adopted(parent, xs, p)[x := p]
    decreases |xs|
  {
    if xs != [] {
      assert (xs + [x])[1..] == xs[1..] + [x];
      AdoptedSnoc(parent[xs[0] := p], xs[1..], x, p);
    } else {
      assert ([] + [x])[1..] == [];
    }
  }

  /**
   * One round of `dissolve`'s loop on the lists: with `n` children moved,
   * the group sits right after them, and the next child lands in front of it.
   */
  lemma DissolveStep(pre: seq<Node>, children: seq<Node>, post: seq<Node>, g: Node, n: nat)
    requires n < |children| && g !in pre && g !in children
    ensures IndexOf(pre + children[..n] + [g] + post, g) == |pre| + n
    ensures Insert(pre + children[..n] + [g] + post, |pre| + n, children[n]) == pre + children[..n + 1] + [g] + post
    ensures children[n..][0] == children[n] && children[n..][1..] == children[n + 1..]
    ensures children[..n + 1] == children[..n] + [children[n]]
  {
    var s := pre + children[..n] + [g] + post;
    assert s[..|pre| + n] == pre + children[..n];
    IndexOfAt(s, g, |pre| + n);
    InsertBefore(pre + children[..n], g, post, children[n]);
    assert children[..n + 1] == children[..n] + [children[n]];
  }

  /** The children lists and parent links of the elements involved. */
  class Tree {
    var kids: map<Node, seq<Node>>
    var parent: map<Node, Node>

    /**
     * `group.parentElement.insertBefore(group.firstChild, group)`: the
     * group's first child leaves it and lands just in front of the group.
     */
    method MoveFirstChildOut(g: Node)
      requires g in kids && g in parent && parent[g] in kids && parent[g] != g
      requires g in kids[parent[g]] && kids[g] != []
      modifies this
      ensures kids == old(kids)[old(parent[g]) := Insert(old(kids[parent[g]]), IndexOf(old(kids[parent[g]]), g), old(kids[g][0]))]
                               [g := old(kids[g][1..])]
      ensures parent == old(parent)[old(kids[g][0]) := old(parent[g])]
    {
      var p := parent[g];
      var x := kids[g][0];
      kids := kids[p := Insert(kids[p], IndexOf(kids[p], g), x)][g := kids[g][1..]];
      parent := parent[x := p];
    }

    /** `parent.removeChild(child)`: the child leaves the parent's list and has no parent any more. */
    method RemoveChild(p: Node, c: Node)
      requires p in kids && c in kids[p]
      modifies this
      ensures kids == old(kids)[p := Delete(old(kids[p]), IndexOf(old(kids[p]), c))]
      ensures parent == old(parent) - {c}
    {
      kids := kids[p := Delete(kids[p], IndexOf(kids[p], c))];
      parent := parent - {c};
    }

    /**
     * One round of `dissolve`'s loop, as the loop sees it: with `n` of the
     * group's original children moved in front of it, move the next one.
     */
    method DissolveRound(g: Node, p: Node, ghost kids0: map<Node, seq<Node>>, ghost parent0: map<Node, Node>,
                         ghost pre: seq<Node>, ghost children: seq<Node>, ghost post: seq<Node>, n: nat)
      requires n < |children| && g !in pre && g !in children && p != g
      requires g in parent && parent[g] == p
      requires kids == kids0[p := pre + children[..n] + [g] + post][g := children[n..]]
      requires parent == Adopted(parent0, children[..n], p)
      modifies this
      ensures g in parent && parent[g] == p
      ensures kids == kids0[p := pre + children[..n + 1] + [g] + post][g := children[n + 1..]]
      ensures parent == Adopted(parent0, children[..n + 1], p)
    {
      ghost var a, b := pre + children[..n] + [g] + post, children[n..];
      ghost var a', b' := pre + children[..n + 1] + [g] + post, children[n + 1..];
      DissolveStep(pre, children, post, g, n);
      assert kids[p] == a && kids[g] == b;
      assert Insert(a, IndexOf(a, g), b[0]) == a' && b[1..] == b';
      AdoptedSnoc(parent0, children[..n], children[n], p);
      MoveFirstChildOut(g);
      assert kids == kids0[p := a][g := b][p := a'][g := b'];
      UpdatePairAgain(kids0, p, g, a, b, a', b');
    }

    /**
     * The loop of `dissolve`: move the group's first child in front of
     * the group until it has none left.
     */
    method EmptyGroup(g: Node)
      requires g in kids && g in parent && parent[g] in kids && parent[g] != g
      requires g in kids[parent[g]] && g !in kids[g]
      modifies this
      ensures var p, k := old(parent[g]), IndexOf(old(kids[parent[g]]), g);
        kids == old(kids)[p := old(kids[p])[..k] + old(kids[g]) + [g] + old(kids[p])[k + 1..]][g := []]
      ensures parent == Adopted(old(parent), old(kids[g]), old(parent[g]))
    {
      var p := parent[g];
      var k := IndexOf(kids[p], g);
      ghost var kids0: map<Node, seq<Node>> := kids;
      ghost var pre: seq<Node>, post: seq<Node>, children: seq<Node> := kids[p][..k], kids[p][k + 1..], kids[g];
      SplitAround(kids[p], k);
      assert children[..0] == [] && children[0..] == children;
      UpdateSame(kids0, p);
      UpdateSame(kids0, g);
      assert pre + children[..0] == pre;
      assert kids0[p := pre + children[..0] + [g] + post][g := children[0..]] == kids0;
      var n := 0;
      while kids[g] != []
        invariant 0 <= n <= |children|
        invariant g in parent && parent[g] == p
        invariant kids == kids0[p := pre + children[..n] + [g] + post][g := children[n..]]
        invariant parent == Adopted(old(parent), children[..n], p)
        decreases |kids[g]|
      {
        DissolveRound(g, p, kids0, old(parent), pre, children, post, n);
        n := n + 1;
      }
      assert children[..n] == children;
    }

    /**
     * `dissolve(group)` (pentaquark.js:7-12): the group's children take
     * its place among its parent's children, in order, and the group is
     * detached.
     */
    method Dissolve(g: Node)
      requires g in kids && g in parent && parent[g] in kids && parent[g] != g
      requires g in kids[parent[g]] && g !in kids[g]
      modifies this
      ensures kids == old(kids)[old(parent[g]) := Dissolved(old(kids[parent[g]]), g, old(kids[g]))][g := []]
      ensures parent == Adopted(old(parent), old(kids[g]), old(parent[g])) - {g}
    {
      var p := parent[g];
      ghost var kids0: map<Node, seq<Node>> := kids;
      ghost var k := IndexOf(kids[p], g);
      ghost var pre, post, children := kids[p][..k], kids[p][k + 1..], kids[g];
      assert g !in pre;
      EmptyGroup(g);
      assert kids[p] == pre + children + [g] + post;
      IndexOfAt(kids[p], g, |pre| + |children|);
      DeleteAfterPrefix(pre + children, g, post);
      UpdatePairFirst(kids0, p, g, pre + children + [g] + post, [], pre + children + post);
      RemoveChild(p, g);
    }
  }
}
