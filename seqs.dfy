/**
 * Sequence operations with the meaning of the JavaScript array methods the
 * card framework uses on its child lists: `indexOf`, `splice(i, 0, x)`,
 * `push`, `splice(i, 1)`, and the "drop the first occurrence" idiom.
 */
module Seqs {

  datatype Option<T> = None | Some(value: T)

  /** `Array.prototype.indexOf`: the first index holding `x`, or -1. */
  function IndexOf<T(==)>(s: seq<T>, x: T): (r: int)
    ensures -1 <= r < |s|
    ensures r == -1 <==> x !in s
    ensures r >= 0 ==> s[r] == x && x !in s[..r]
  {
    if |s| == 0 then -1
    else if s[0] == x then 0
    else
      var k := IndexOf(s[1..], x);
      assert s[1..][..if k < 0 then 0 else k] == s[1..if k < 0 then 1 else k + 1];
      if k < 0 then -1 else k + 1
  }

  /** `splice(i, 0, x)`: `x` lands at index `i`, everything from `i` on moves up one. */
  function Insert<T>(s: seq<T>, i: nat, x: T): (r: seq<T>)
    requires i <= |s|
    ensures |r| == |s| + 1 && r[i] == x
    ensures r[..i] == s[..i] && r[i + 1..] == s[i..]
  {
    s[..i] + [x] + s[i..]
  }

  /** `splice(i, 1)`: the element at `i` is dropped, the rest keep their order. */
  function Delete<T>(s: seq<T>, i: nat): (r: seq<T>)
    requires i < |s|
    ensures |r| == |s| - 1
    ensures r[..i] == s[..i] && r[i..] == s[i + 1..]
  {
    s[..i] + s[i + 1..]
  }

  /** `const k = s.indexOf(x); if (k >= 0) s.splice(k, 1);` */
  function RemoveFirst<T(==)>(s: seq<T>, x: T): (r: seq<T>)
    ensures x !in s ==> r == s
    ensures x in s ==> |r| == |s| - 1 && r == Delete(s, IndexOf(s, x))
  {
    var k := IndexOf(s, x);
    if k < 0 then s else Delete(s, k)
  }

  predicate NoDups<T(==)>(s: seq<T>)
  {
    forall i, j :: 0 <= i < j < |s| ==> s[i] != s[j]
  }

  // ---- membership facts used by the container proofs ----

  lemma InsertMembers<T>(s: seq<T>, i: nat, x: T, y: T)
    requires i <= |s|
    ensures y in Insert(s, i, x) <==> y == x || y in s
  {
    assert s == s[..i] + s[i..];
  }

  lemma DeleteMembers<T>(s: seq<T>, i: nat, y: T)
    requires i < |s| && NoDups(s)
    ensures y in Delete(s, i) <==> y in s && y != s[i]
  {
    var r := Delete(s, i);
    if y in r {
      var k :| 0 <= k < |r| && r[k] == y;
      if k < i { assert r[k] == s[k]; } else { assert r[k] == s[k + 1]; }
    }
    if y in s && y != s[i] {
      var k :| 0 <= k < |s| && s[k] == y;
      if k < i { assert r[k] == s[k]; } else { assert r[k - 1] == s[k]; }
    }
  }

  lemma DeleteSubset<T>(s: seq<T>, i: nat, y: T)
    requires i < |s|
    ensures y in Delete(s, i) ==> y in s
  {
    if y in Delete(s, i) {
      var r := Delete(s, i);
      var k :| 0 <= k < |r| && r[k] == y;
      if k < i { assert r[k] == s[k]; } else { assert r[k] == s[k + 1]; }
    }
  }

  lemma InsertNoDups<T>(s: seq<T>, i: nat, x: T)
    requires i <= |s| && NoDups(s) && x !in s
    ensures NoDups(Insert(s, i, x))
  {
    var r := Insert(s, i, x);
    forall a, b | 0 <= a < b < |r| ensures r[a] != r[b] {
      if a < i && b < i { assert r[a] == s[a] && r[b] == s[b]; }
      else if a < i && b == i { assert r[a] == s[a]; }
      else if a < i { assert r[a] == s[a] && r[b] == s[b - 1]; }
      else if a == i { assert r[b] == s[b - 1]; }
      else { assert r[a] == s[a - 1] && r[b] == s[b - 1]; }
    }
  }

  lemma DeleteNoDups<T>(s: seq<T>, i: nat)
    requires i < |s| && NoDups(s)
    ensures NoDups(Delete(s, i))
  {
    var r := Delete(s, i);
    forall a, b | 0 <= a < b < |r| ensures r[a] != r[b] {
      var a' := if a < i then a else a + 1;
      var b' := if b < i then b else b + 1;
      assert r[a] == s[a'] && r[b] == s[b'] && a' < b';
    }
  }

  /** In a list without repeats, the first occurrence is the only one. */
  lemma IndexOfUnique<T>(s: seq<T>, k: nat)
    requires k < |s| && NoDups(s)
    ensures IndexOf(s, s[k]) == k
  {
    assert s[k] in s;
  }
  /** The first index holding `x` is `m` when `x` sits at `m` and not before. */
  lemma IndexOfAt<T>(s: seq<T>, x: T, m: nat)
    requires m < |s| && s[m] == x && x !in s[..m]
    ensures IndexOf(s, x) == m
  {
    var j := IndexOf(s, x);
    assert x in s;
    forall a | 0 <= a < j ensures s[a] != x { assert s[a] == s[..j][a]; }
    forall a | 0 <= a < m ensures s[a] != x { assert s[a] == s[..m][a]; }
  }

  /** Re-inserting an element of a repeat-free list at or before its own index changes nothing. */
  lemma MoveEarlier<T>(s: seq<T>, k: nat, i: nat)
    requires k < |s| && i <= k && NoDups(s)
    ensures RemoveFirst(Insert(s, i, s[k]), s[k]) == s
  {
    var t := s[k];
    var u := Insert(s, i, t);
    assert t in u by { InsertMembers(s, i, t, t); }
    assert u[..i] == s[..i];
    assert t !in s[..i];
    IndexOfAt(u, t, i);
    var r := Delete(u, i);
    assert r[..i] == s[..i] && r[i..] == s[i..];
    assert s == s[..i] + s[i..] && r == r[..i] + r[i..];
  }

  /** Where each element of the moved list comes from, when it moves towards the end. */
  lemma MoveLaterIndex<T>(s: seq<T>, k: nat, i: nat, a: nat)
    requires k < |s| && k < i <= |s| && NoDups(s) && a < |s|
    ensures |RemoveFirst(Insert(s, i, s[k]), s[k])| == |s|
    ensures RemoveFirst(Insert(s, i, s[k]), s[k])[a] ==
      s[if a < k then a else if a < i - 1 then a + 1 else if a == i - 1 then k else a]
  {
    var t := s[k];
    var u := Insert(s, i, t);
    assert t in u by { InsertMembers(s, i, t, t); }
    assert u[..k] == u[..i][..k] == s[..i][..k] == s[..k];
    assert u[k] == u[..i][k] == s[..i][k] == t;
    assert t !in s[..k];
    IndexOfAt(u, t, k);
    var r := Delete(u, k);
    if a < k {
      assert r[a] == r[..k][a] == u[..k][a] == s[..k][a];
    } else {
      assert r[a] == r[k..][a - k] == u[k + 1..][a - k] == u[a + 1];
      if a + 1 < i {
        assert u[a + 1] == u[..i][a + 1] == s[..i][a + 1];
      } else if a + 1 > i {
        assert u[a + 1] == u[i + 1..][a - i] == s[i..][a - i];
      }
    }
  }

  /** Re-inserting an element of a repeat-free list past its own index moves it: same members, no repeats. */
  lemma MoveLater<T>(s: seq<T>, k: nat, i: nat)
    requires k < |s| && k < i <= |s| && NoDups(s)
    ensures var r := RemoveFirst(Insert(s, i, s[k]), s[k]);
      NoDups(r) && (forall y :: y in r <==> y in s)
  {
    MoveLaterNoDups(s, k, i);
    MoveLaterMembers(s, k, i);
  }

  lemma MoveLaterNoDups<T>(s: seq<T>, k: nat, i: nat)
    requires k < |s| && k < i <= |s| && NoDups(s)
    ensures NoDups(RemoveFirst(Insert(s, i, s[k]), s[k]))
  {
    var r := RemoveFirst(Insert(s, i, s[k]), s[k]);
    MoveLaterIndex(s, k, i, 0);
    forall a, b | 0 <= a < b < |r| ensures r[a] != r[b] {
      MoveLaterIndex(s, k, i, a);
      MoveLaterIndex(s, k, i, b);
    }
  }

  lemma MoveLaterMembers<T>(s: seq<T>, k: nat, i: nat)
    requires k < |s| && k < i <= |s| && NoDups(s)
    ensures forall y :: y in RemoveFirst(Insert(s, i, s[k]), s[k]) <==> y in s
  {
    var r := RemoveFirst(Insert(s, i, s[k]), s[k]);
    MoveLaterIndex(s, k, i, 0);
    forall y ensures y in r <==> y in s {
      if y in s {
        var m :| 0 <= m < |s| && s[m] == y;
        var a := if m < k then m else if m == k then i - 1 else if m < i then m - 1 else m;
        MoveLaterIndex(s, k, i, a);
      }
      if y in r {
        var a :| 0 <= a < |r| && r[a] == y;
        MoveLaterIndex(s, k, i, a);
      }
    }
  }

  /** Re-adding a listed element anywhere in a repeat-free list keeps it repeat-free with the same members. */
  lemma MoveWithin<T>(s: seq<T>, x: T, i: nat)
    requires NoDups(s) && x in s && i <= |s|
    ensures NoDups(RemoveFirst(Insert(s, i, x), x))
    ensures forall y :: y in RemoveFirst(Insert(s, i, x), x) <==> y in s
  {
    var k := IndexOf(s, x);
    if i <= k {
      MoveEarlier(s, k, i);
    } else {
      MoveLater(s, k, i);
    }
  }

  /** Moving an element towards the end is deleting it and re-inserting it one slot before the index asked for. */
  lemma MoveLaterReinserts<T>(s: seq<T>, k: nat, i: nat)
    requires k < i <= |s| && NoDups(s)
    ensures RemoveFirst(Insert(s, i, s[k]), s[k]) == Insert(Delete(s, k), i - 1, s[k])
  {
    var r := RemoveFirst(Insert(s, i, s[k]), s[k]);
    var d := Delete(s, k);
    var e := Insert(d, i - 1, s[k]);
    MoveLaterIndex(s, k, i, 0);
    forall a | 0 <= a < |r| ensures r[a] == e[a] {
      MoveLaterIndex(s, k, i, a);
      if a < i - 1 {
        assert e[a] == e[..i - 1][a] == d[..i - 1][a] == d[a];
        if a < k { assert d[a] == d[..k][a] == s[..k][a]; }
        else { assert d[a] == d[k..][a - k] == s[k + 1..][a - k]; }
      } else if a > i - 1 {
        assert e[a] == e[i..][a - i] == d[i - 1..][a - i] == d[a - 1];
        assert d[a - 1] == d[k..][a - 1 - k] == s[k + 1..][a - 1 - k];
      }
    }
  }

  /** `splice(i, 1)` undoes `splice(i, 0, x)`. */
  lemma DeleteInsert<T>(s: seq<T>, i: nat, x: T)
    requires i <= |s|
    ensures Delete(Insert(s, i, x), i) == s
  {
    var r := Delete(Insert(s, i, x), i);
    assert r[..i] == s[..i] && r[i..] == s[i..];
    assert s == s[..i] + s[i..] && r == r[..i] + r[i..];
  }

  /** `splice(i, 0, s[i])` undoes `splice(i, 1)`. */
  lemma InsertDelete<T>(s: seq<T>, i: nat)
    requires i < |s|
    ensures Insert(Delete(s, i), i, s[i]) == s
  {
    var r := Insert(Delete(s, i), i, s[i]);
    assert r[..i] == s[..i] && r[i] == s[i] && r[i + 1..] == s[i + 1..];
    assert s == s[..i] + [s[i]] + s[i + 1..] && r == r[..i] + [r[i]] + r[i + 1..];
  }

  /** Inserting an element that was absent: it is found exactly where it was put. */
  lemma IndexOfInserted<T>(s: seq<T>, i: nat, x: T)
    requires i <= |s| && x !in s
    ensures IndexOf(Insert(s, i, x), x) == i
  {
    var r := Insert(s, i, x);
    assert r[..i] == s[..i];
    assert x !in s[..i];
    IndexOfAt(r, x, i);
  }

  /** A list cut around one of its elements. */
  lemma SplitAround<T>(s: seq<T>, k: nat)
    requires k < |s|
    ensures s == s[..k] + [s[k]] + s[k + 1..]
  {
  }

  /** Inserting just before the element that follows `pre`. */
  lemma InsertBefore<T>(pre: seq<T>, x: T, post: seq<T>, y: T)
    ensures Insert(pre + [x] + post, |pre|, y) == pre + [y] + [x] + post
  {
    var s := pre + [x] + post;
    assert s[..|pre|] == pre && s[|pre|..] == [x] + post;
  }

  /** Regrouping a prefix that grows by one element. */
  lemma GrowPrefix<T>(pre: seq<T>, y: T, rest: seq<T>, x: T, post: seq<T>)
    ensures pre + ([y] + rest) + [x] + post == (pre + [y]) + rest + [x] + post
  {
  }

  /** Regrouping a suffix that grows by one element. */
  lemma GrowSuffix<T>(rej: seq<T>, y: T, rest: seq<T>)
    ensures rej + ([y] + rest) == (rej + [y]) + rest
  {
  }

  /** When `rej` does not hold the first element of `cs`, dropping the first element of `cs` leaves `rej + cs[1..]`. */
  lemma RemoveFirstAtSplit<T>(rej: seq<T>, cs: seq<T>)
    requires cs != [] && cs[0] !in rej
    ensures RemoveFirst(rej + cs, cs[0]) == rej + cs[1..]
  {
    var s := rej + cs;
    assert s[|rej|] == cs[0] && s[..|rej|] == rej;
    IndexOfAt(s, cs[0], |rej|);
    var d := Delete(s, |rej|);
    assert d[..|rej|] == rej && d[|rej|..] == cs[1..];
    assert d == d[..|rej|] + d[|rej|..];
  }

  /** In a repeat-free list, the element after a prefix `pre` sits at index `|pre|`. */
  lemma IndexAfterPrefix<T>(pre: seq<T>, x: T, post: seq<T>)
    requires NoDups(pre + [x] + post)
    ensures IndexOf(pre + [x] + post, x) == |pre|
  {
    var s := pre + [x] + post;
    assert s[|pre|] == x;
    IndexOfUnique(s, |pre|);
  }

  /** In a repeat-free list `rej + cs`, the first element of `cs` is not in `rej`. */
  lemma NotInPrefix<T>(rej: seq<T>, cs: seq<T>)
    requires cs != [] && NoDups(rej + cs)
    ensures cs[0] !in rej
  {
    var s := rej + cs;
    forall j | 0 <= j < |rej| ensures rej[j] != cs[0] {
      assert rej[j] == s[j] && cs[0] == s[|rej|];
    }
  }

  /** Dropping the element after a prefix `pre`. */
  lemma DeleteAfterPrefix<T>(pre: seq<T>, x: T, post: seq<T>)
    ensures Delete(pre + [x] + post, |pre|) == pre + post
  {
    var s := pre + [x] + post;
    assert s[..|pre|] == pre && s[|pre| + 1..] == post;
  }

  /** In a repeat-free list, dropping an element leaves no copy of it behind. */
  lemma DropAround<T>(pre: seq<T>, x: T, post: seq<T>)
    requires NoDups(pre + [x] + post)
    ensures x !in pre + post
  {
    DeleteAfterPrefix(pre, x, post);
    DeleteMembers(pre + [x] + post, |pre|, x);
  }

  /** Writing back the value a map already holds leaves it unchanged. */
  lemma UpdateSame<K, V>(m: map<K, V>, k: K)
    requires k in m
    ensures m[k := m[k]] == m
  {
  }

  /** Overwriting a map entry and then writing its old value back restores the map. */
  lemma UpdateRestores<K, V>(m: map<K, V>, k: K, v: V)
    requires k in m
    ensures m[k := v][k := m[k]] == m
  {
  }

  /** Writing two different keys again replaces both earlier writes. */
  lemma UpdatePairAgain<K, V>(m: map<K, V>, a: K, b: K, x: V, y: V, x2: V, y2: V)
    requires a != b
    ensures m[a := x][b := y][a := x2][b := y2] == m[a := x2][b := y2]
  {
  }

  /** Writing the first of two different keys again replaces its earlier write. */
  lemma UpdatePairFirst<K, V>(m: map<K, V>, a: K, b: K, x: V, y: V, z: V)
    requires a != b
    ensures m[a := x][b := y][a := z] == m[a := z][b := y]
  {
  }

  /** `splice(|s|, 0, x)` is `push(x)`. */
  lemma InsertAtEnd<T>(s: seq<T>, x: T)
    ensures Insert(s, |s|, x) == s + [x]
  {
  }

  /** An empty middle part. */
  lemma EmptyMiddle<T>(a: seq<T>, post: seq<T>)
    ensures a + [] + post == a + post
  {
    assert a + [] == a;
  }
}
