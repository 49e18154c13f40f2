/**
 * Stable sorting, as Python's `list.sort` does it: the result is ordered
 * by the key and elements with equal keys keep their relative order.
 *
 * The order is a parameter `before`, where `before(x, y)` means `x` must
 * come strictly before `y`; `sort(key=f)` is `before(x, y) == f(x) < f(y)`
 * and `sort(key=f, reverse=True)` is `before(x, y) == f(x) > f(y)` (the
 * reversed sort is still stable). `SortBy` is the specification
 * (insertion of each element after every element it does not precede);
 * `SortInPlace` is the in-place sort, proved to produce exactly `SortBy`.
 * `SortedUnique` shows that ANY stable sort produces this same list, so
 * the choice of insertion sort loses nothing.
 */
module StableSort {

  /** `before` is a strict weak order: irreflexive, transitive, and
      "neither before the other" is transitive as well. These are the laws
      Python's sort relies on for `<` on its keys. */
  ghost predicate StrictWeakOrder<T(!new)>(before: (T, T) -> bool)
  {
    (forall x :: !before(x, x)) &&
    (forall x, y, z :: before(x, y) && before(y, z) ==> before(x, z)) &&
    (forall x, y, z :: !before(x, y) && !before(y, z) ==> !before(x, z))
  }

  /** `x` and `y` have equal keys: neither goes before the other. */
  predicate Tied<T>(before: (T, T) -> bool, x: T, y: T)
  {
    !before(x, y) && !before(y, x)
  }

  /** A non-empty sequence is its prefix followed by its last element. */
  lemma ButLast<T>(s: seq<T>)
    requires s != []
    ensures s == s[..|s| - 1] + [s[|s| - 1]]
  {
  }

  /** Where a stable insertion puts `x` into `s`: scanning from the end,
      past every element that `x` goes before. */
  function InsertPos<T>(s: seq<T>, x: T, before: (T, T) -> bool): (p: nat)
    ensures p <= |s|
    ensures forall m :: p <= m < |s| ==> before(x, s[m])
    ensures p > 0 ==> !before(x, s[p - 1])
    decreases |s|
  {
    if s == [] then 0
    else if before(x, s[|s| - 1]) then InsertPos(s[..|s| - 1], x, before)
    else |s|
  }

  /** `s` with `x` inserted at `InsertPos(s, x, before)`. */
  function Insert<T>(s: seq<T>, x: T, before: (T, T) -> bool): (r: seq<T>)
    ensures multiset(r) == multiset(s) + multiset{x}
  {
    var p := InsertPos(s, x, before);
    assert s == s[..p] + s[p..];
    s[..p] + [x] + s[p..]
  }

  /** Insertion seen from the end of `s`: `x` either goes last, or the
      last element stays last and `x` is inserted into the rest. */
  lemma InsertStep<T>(s: seq<T>, x: T, before: (T, T) -> bool)
    requires s != []
    ensures before(x, s[|s| - 1]) ==> Insert(s, x, before) == Insert(s[..|s| - 1], x, before) + [s[|s| - 1]]
    ensures !before(x, s[|s| - 1]) ==> Insert(s, x, before) == s + [x]
  {
    var n := |s| - 1;
    if before(x, s[n]) {
      InsertStepBefore(s, x, before);
    } else {
      assert InsertPos(s, x, before) == |s|;
      assert s[..|s|] == s && s[|s|..] == [];
    }
  }

  lemma InsertStepBefore<T>(s: seq<T>, x: T, before: (T, T) -> bool)
    requires s != [] && before(x, s[|s| - 1])
    ensures Insert(s, x, before) == Insert(s[..|s| - 1], x, before) + [s[|s| - 1]]
  {
    var n := |s| - 1;
    var t := s[..n];
    var p := InsertPos(s, x, before);
    assert p == InsertPos(t, x, before);
    assert t[..p] == s[..p];
    assert s[p..] == t[p..] + [s[n]];
    calc {
      Insert(s, x, before);
      s[..p] + [x] + s[p..];
      s[..p] + [x] + (t[p..] + [s[n]]);
      (t[..p] + [x] + t[p..]) + [s[n]];
    }
  }

  /** The stable sort of `s` by `before`. */
  function SortBy<T>(s: seq<T>, before: (T, T) -> bool): (r: seq<T>)
    ensures multiset(r) == multiset(s)
    decreases |s|
  {
    if s == [] then []
    else
      assert s == s[..|s| - 1] + [s[|s| - 1]];
      Insert(SortBy(s[..|s| - 1], before), s[|s| - 1], before)
  }

  /** No element goes before one that comes earlier in `s`. */
  ghost predicate SortedBy<T>(s: seq<T>, before: (T, T) -> bool)
  {
    forall i, j :: 0 <= i < j < |s| ==> !before(s[j], s[i])
  }

  /** Among elements tied under `before`, none goes before (by `before2`)
      one that comes earlier in `s`. */
  ghost predicate TiesSortedBy<T>(s: seq<T>, before: (T, T) -> bool, before2: (T, T) -> bool)
  {
    forall i, j :: 0 <= i < j < |s| && Tied(before, s[i], s[j]) ==> !before2(s[j], s[i])
  }

  /** `[y]` when `y` is tied with `e`, else nothing. */
  function Pick<T>(before: (T, T) -> bool, y: T, e: T): seq<T>
  {
    if Tied(before, y, e) then [y] else []
  }

  /** The elements of `s` tied with `e`, in their order in `s`: the class
      of `e`'s key, whose order a stable sort preserves. */
  function KeyClass<T>(s: seq<T>, before: (T, T) -> bool, e: T): seq<T>
    decreases |s|
  {
    if s == [] then []
    else KeyClass(s[..|s| - 1], before, e) + Pick(before, s[|s| - 1], e)
  }

  lemma KeyClassSnoc<T>(s: seq<T>, y: T, before: (T, T) -> bool, e: T)
    ensures KeyClass(s + [y], before, e) == KeyClass(s, before, e) + Pick(before, y, e)
  {
    assert (s + [y])[..|s + [y]| - 1] == s;
  }

  lemma {:induction false} KeyClassMembers<T>(s: seq<T>, before: (T, T) -> bool, e: T, y: T)
    ensures y in KeyClass(s, before, e) <==> y in s && Tied(before, y, e)
    decreases |s|
  {
    if s != [] {
      KeyClassMembers(s[..|s| - 1], before, e, y);
      assert s == s[..|s| - 1] + [s[|s| - 1]];
    }
  }

  /** Taking the class of `e` under a coarser order and then under a
      second one gives its class under the order that ties exactly what
      both tie. */
  lemma {:induction false} KeyClassNested<T>(s: seq<T>, b1: (T, T) -> bool, b2: (T, T) -> bool,
                                              b3: (T, T) -> bool, e: T)
    requires forall y :: Tied(b3, y, e) <==> Tied(b1, y, e) && Tied(b2, y, e)
    ensures KeyClass(KeyClass(s, b1, e), b2, e) == KeyClass(s, b3, e)
    decreases |s|
  {
    if s != [] {
      var p, y := s[..|s| - 1], s[|s| - 1];
      KeyClassNested(p, b1, b2, b3, e);
      var c := KeyClass(p, b1, e);
      assert KeyClass(s, b1, e) == c + Pick(b1, y, e);
      assert KeyClass(s, b3, e) == KeyClass(p, b3, e) + Pick(b3, y, e);
      if Tied(b1, y, e) {
        KeyClassSnoc(c, y, b2, e);
        assert Pick(b2, y, e) == Pick(b3, y, e);
      } else {
        assert Pick(b3, y, e) == [];
        assert c + [] == c;
      }
    }
  }

  // ---------------------------------------------------------------
  // Sortedness
  // ---------------------------------------------------------------

  lemma {:induction false} InsertSorted<T(!new)>(s: seq<T>, x: T, before: (T, T) -> bool)
    requires StrictWeakOrder(before)
    requires SortedBy(s, before)
    ensures SortedBy(Insert(s, x, before), before)
    decreases |s|
  {
    if s != [] {
      var n := |s| - 1;
      var last := s[n];
      InsertStep(s, x, before);
      if before(x, last) {
        var p := s[..n];
        InsertSorted(p, x, before);
        var q := Insert(p, x, before);
        forall i | 0 <= i < |q|
          ensures !before(last, q[i])
        {
          assert q[i] in multiset(q);
          if q[i] != x {
            var m :| 0 <= m < |p| && p[m] == q[i];
            assert s[m] == q[i];
          }
        }
      }
    }
  }

  /** `SortBy` orders its result by `before`. */
  lemma {:induction false} SortBySorted<T(!new)>(s: seq<T>, before: (T, T) -> bool)
    requires StrictWeakOrder(before)
    ensures SortedBy(SortBy(s, before), before)
    decreases |s|
  {
    if s != [] {
      SortBySorted(s[..|s| - 1], before);
      InsertSorted(SortBy(s[..|s| - 1], before), s[|s| - 1], before);
    }
  }

  // ---------------------------------------------------------------
  // Stability
  // ---------------------------------------------------------------

  /** Appending `last` after `x` or before it gives the same class, when
      at most one of them is in it. */
  lemma KeyClassSwap<T>(p: seq<T>, q: seq<T>, x: T, last: T, before: (T, T) -> bool, e: T)
    requires KeyClass(q, before, e) == KeyClass(p, before, e) + Pick(before, x, e)
    requires Pick(before, x, e) == [] || Pick(before, last, e) == []
    ensures KeyClass(q + [last], before, e) == KeyClass(p + [last], before, e) + Pick(before, x, e)
  {
    KeyClassSnoc(q, last, before, e);
    KeyClassSnoc(p, last, before, e);
    var kp, px, pl := KeyClass(p, before, e), Pick(before, x, e), Pick(before, last, e);
    if px == [] {
      assert kp + px + pl == kp + pl + px;
    } else {
      assert kp + px + pl == kp + pl + px;
    }
  }

  lemma {:induction false} InsertStable<T(!new)>(s: seq<T>, x: T, before: (T, T) -> bool, e: T)
    requires StrictWeakOrder(before)
    ensures KeyClass(Insert(s, x, before), before, e) == KeyClass(s, before, e) + Pick(before, x, e)
    decreases |s|
  {
    if s == [] {
      KeyClassSnoc([], x, before, e);
      assert [] + [x] == [x];
    } else if before(x, s[|s| - 1]) {
      var p := s[..|s| - 1];
      InsertStable(p, x, before, e);
      assert !(Tied(before, x, e) && Tied(before, s[|s| - 1], e));
      InsertStableBefore(s, x, before, e);
    } else {
      InsertStep(s, x, before);
      KeyClassSnoc(s, x, before, e);
    }
  }

  /** The inductive step of `InsertStable` when `x` goes before the last
      element of `s`. */
  lemma InsertStableBefore<T>(s: seq<T>, x: T, before: (T, T) -> bool, e: T)
    requires s != [] && before(x, s[|s| - 1])
    requires !(Tied(before, x, e) && Tied(before, s[|s| - 1], e))
    requires KeyClass(Insert(s[..|s| - 1], x, before), before, e)
             == KeyClass(s[..|s| - 1], before, e) + Pick(before, x, e)
    ensures KeyClass(Insert(s, x, before), before, e) == KeyClass(s, before, e) + Pick(before, x, e)
  {
    var last := s[|s| - 1];
    var p := s[..|s| - 1];
    var q := Insert(p, x, before);
    ButLast(s);
    calc {
      KeyClass(Insert(s, x, before), before, e);
      { InsertStep(s, x, before); }
      KeyClass(q + [last], before, e);
      { KeyClassSwap(p, q, x, last, before, e); }
      KeyClass(p + [last], before, e) + Pick(before, x, e);
    }
  }

  /** Sorting keeps the relative order of every class of tied elements. */
  lemma {:induction false} SortByStable<T(!new)>(s: seq<T>, before: (T, T) -> bool, e: T)
    requires StrictWeakOrder(before)
    ensures KeyClass(SortBy(s, before), before, e) == KeyClass(s, before, e)
    decreases |s|
  {
    if s != [] {
      SortByStable(s[..|s| - 1], before, e);
      InsertStable(SortBy(s[..|s| - 1], before), s[|s| - 1], before, e);
    }
  }

  lemma TiesSnoc<T>(q: seq<T>, y: T, before: (T, T) -> bool, before2: (T, T) -> bool)
    requires TiesSortedBy(q, before, before2)
    requires forall z :: z in q && Tied(before, z, y) ==> !before2(y, z)
    ensures TiesSortedBy(q + [y], before, before2)
  {
    forall i, j | 0 <= i < j < |q + [y]| && Tied(before, (q + [y])[i], (q + [y])[j])
      ensures !before2((q + [y])[j], (q + [y])[i])
    {
      if j == |q| {
        assert (q + [y])[i] in q;
      }
    }
  }

  lemma {:induction false} InsertKeepsTies<T(!new)>(s: seq<T>, x: T, before: (T, T) -> bool, before2: (T, T) -> bool)
    requires StrictWeakOrder(before)
    requires TiesSortedBy(s, before, before2)
    requires forall y :: y in s ==> !before2(x, y)
    ensures TiesSortedBy(Insert(s, x, before), before, before2)
    decreases |s|
  {
    if s == [] {
    } else if before(x, s[|s| - 1]) {
      var last := s[|s| - 1];
      var p := s[..|s| - 1];
      assert s == p + [last];
      InsertStep(s, x, before);
      InsertKeepsTies(p, x, before, before2);
      var q := Insert(p, x, before);
      forall y | y in q && Tied(before, y, last)
        ensures !before2(last, y)
      {
        assert y in multiset(q);
        if y != x {
          var m :| 0 <= m < |p| && p[m] == y;
          assert s[m] == y;
        }
      }
      TiesSnoc(q, last, before, before2);
    } else {
      InsertStep(s, x, before);
      TiesSnoc(s, x, before, before2);
    }
  }

  /** Sorting an input already sorted by `before2` leaves each class of
      elements tied under `before` sorted by `before2`: a second pass
      keeps what the first did. */
  lemma {:induction false} SortByKeepsTies<T(!new)>(s: seq<T>, before: (T, T) -> bool, before2: (T, T) -> bool)
    requires StrictWeakOrder(before)
    requires SortedBy(s, before2)
    ensures TiesSortedBy(SortBy(s, before), before, before2)
    decreases |s|
  {
    if s != [] {
      var n := |s| - 1;
      var p := s[..n];
      SortByKeepsTies(p, before, before2);
      var q := SortBy(p, before);
      forall y | y in q
        ensures !before2(s[n], y)
      {
        assert y in multiset(q);
        var m :| 0 <= m < |p| && p[m] == y;
        assert s[m] == y;
      }
      InsertKeepsTies(q, s[n], before, before2);
    }
  }

  // ---------------------------------------------------------------
  // Uniqueness: a stable sort has only one possible result
  // ---------------------------------------------------------------

  /** The last element of a sorted list goes before none of its elements. */
  lemma LastIsMaximal<T(!new)>(r: seq<T>, y: T, before: (T, T) -> bool)
    requires StrictWeakOrder(before)
    requires SortedBy(r, before) && y in r
    ensures !before(r[|r| - 1], y)
  {
    var i :| 0 <= i < |r| && r[i] == y;
  }

  /** Lists with the same key classes have the same elements. */
  lemma SameClassesSameMembers<T(!new)>(r1: seq<T>, r2: seq<T>, y: T, before: (T, T) -> bool)
    requires StrictWeakOrder(before)
    requires forall e :: KeyClass(r1, before, e) == KeyClass(r2, before, e)
    requires y in r1
    ensures y in r2
  {
    KeyClassMembers(r1, before, y, y);
    assert KeyClass(r1, before, y) == KeyClass(r2, before, y);
    KeyClassMembers(r2, before, y, y);
  }

  /** The last element of a list is the last of its own class. */
  lemma LastOfClass<T(!new)>(r: seq<T>, before: (T, T) -> bool, m: T)
    requires StrictWeakOrder(before)
    requires r != [] && Tied(before, r[|r| - 1], m)
    ensures KeyClass(r, before, m) == KeyClass(r[..|r| - 1], before, m) + [r[|r| - 1]]
  {
  }

  /** Two sorted lists with the same key classes end with the same element. */
  lemma LastsAgree<T(!new)>(r1: seq<T>, r2: seq<T>, before: (T, T) -> bool)
    requires StrictWeakOrder(before)
    requires r1 != [] && r2 != []
    requires SortedBy(r1, before) && SortedBy(r2, before)
    requires forall e :: KeyClass(r1, before, e) == KeyClass(r2, before, e)
    ensures r1[|r1| - 1] == r2[|r2| - 1]
  {
    var m1, m2 := r1[|r1| - 1], r2[|r2| - 1];
    SameClassesSameMembers(r2, r1, m2, before);
    LastIsMaximal(r1, m2, before);
    SameClassesSameMembers(r1, r2, m1, before);
    LastIsMaximal(r2, m1, before);
    LastOfClass(r1, before, m1);
    LastOfClass(r2, before, m1);
    var c := KeyClass(r1, before, m1);
    assert c == KeyClass(r2, before, m1);
    assert c[|c| - 1] == m1 && c[|c| - 1] == m2;
  }

  /** Removing the same last element keeps the key classes equal. */
  lemma PrefixClassesAgree<T>(r1: seq<T>, r2: seq<T>, before: (T, T) -> bool, e: T)
    requires r1 != [] && r2 != [] && r1[|r1| - 1] == r2[|r2| - 1]
    requires KeyClass(r1, before, e) == KeyClass(r2, before, e)
    ensures KeyClass(r1[..|r1| - 1], before, e) == KeyClass(r2[..|r2| - 1], before, e)
  {
    var a, b := KeyClass(r1[..|r1| - 1], before, e), KeyClass(r2[..|r2| - 1], before, e);
    var pm := Pick(before, r1[|r1| - 1], e);
    assert a + pm == b + pm;
    assert a == (a + pm)[..|a|];
    assert b == (b + pm)[..|b|];
  }

  /** Two lists sorted by `before` whose classes of tied elements are the
      same sequences are the same list. */
  lemma {:induction false} SortedUnique<T(!new)>(r1: seq<T>, r2: seq<T>, before: (T, T) -> bool)
    requires StrictWeakOrder(before)
    requires SortedBy(r1, before) && SortedBy(r2, before)
    requires forall e :: KeyClass(r1, before, e) == KeyClass(r2, before, e)
    ensures r1 == r2
    decreases |r1| + |r2|
  {
    if r1 == [] || r2 == [] {
      if r1 != [] {
        SameClassesSameMembers(r1, r2, r1[0], before);
      } else if r2 != [] {
        SameClassesSameMembers(r2, r1, r2[0], before);
      }
    } else {
      var n1, n2 := |r1| - 1, |r2| - 1;
      LastsAgree(r1, r2, before);
      forall e
        ensures KeyClass(r1[..n1], before, e) == KeyClass(r2[..n2], before, e)
      {
        PrefixClassesAgree(r1, r2, before, e);
      }
      SortedUnique(r1[..n1], r2[..n2], before);
      assert r1 == r1[..n1] + [r1[n1]] && r2 == r2[..n2] + [r2[n2]];
    }
  }

  /** A list already sorted is left as it is: sorting is idempotent. */
  lemma SortByOfSorted<T(!new)>(s: seq<T>, before: (T, T) -> bool)
    requires StrictWeakOrder(before)
    requires SortedBy(s, before)
    ensures SortBy(s, before) == s
  {
    SortBySorted(s, before);
    forall e
      ensures KeyClass(SortBy(s, before), before, e) == KeyClass(s, before, e)
    {
      SortByStable(s, before, e);
    }
    SortedUnique(SortBy(s, before), s, before);
  }

  // ---------------------------------------------------------------
  // The in-place sort
  // ---------------------------------------------------------------

  /** Sorts `a` in place, stably, by `before`. */
  method SortInPlace<T>(a: array<T>, before: (T, T) -> bool)
    modifies a
    ensures a[..] == SortBy(old(a[..]), before)
  {
    ghost var input := a[..];
    var i := 0;
    while i < a.Length
      invariant 0 <= i <= a.Length == |input|
      invariant a[..] == SortBy(input[..i], before) + input[i..]
    {
      ghost var prev := a[..];
      SinkLast(a, i, before);
      SortStep(input, i, prev, a[..], before);
      i := i + 1;
    }
    assert input[..a.Length] == input;
  }

  lemma SplitAt<T>(t: seq<T>, u: seq<T>, v: seq<T>, i: nat)
    requires t == u + v && |u| == i < |t|
    ensures t[..i] == u && t[i] == v[0] && t[i + 1..] == v[1..]
  {
  }

  lemma Rejoin<T>(t: seq<T>, i: nat)
    requires i <= |t|
    ensures t == t[..i] + t[i..]
  {
  }

  /** One round of the outer loop: inserting the next input element into
      the sorted prefix extends the sorted prefix by one. */
  lemma SortStep<T>(input: seq<T>, i: nat, prev: seq<T>, next: seq<T>, before: (T, T) -> bool)
    requires i < |input| == |prev| == |next|
    requires prev == SortBy(input[..i], before) + input[i..]
    requires next[..i + 1] == Insert(prev[..i], prev[i], before)
    requires next[i + 1..] == prev[i + 1..]
    ensures next == SortBy(input[..i + 1], before) + input[i + 1..]
  {
    var u, v := SortBy(input[..i], before), input[i..];
    SplitAt(prev, u, v, i);
    Reassemble(prev, next, i, Insert(prev[..i], prev[i], before));
    assert v[0] == input[i] && v[1..] == input[i + 1..];
    SortByPrefix(input, i, before);
  }

  /** Sorting one more element of `input` inserts it into the sorted prefix. */
  lemma SortByPrefix<T>(input: seq<T>, i: nat, before: (T, T) -> bool)
    requires i < |input|
    ensures SortBy(input[..i + 1], before) == Insert(SortBy(input[..i], before), input[i], before)
  {
    assert input[..i + 1][..i] == input[..i];
  }

  lemma Reassemble<T>(prev: seq<T>, next: seq<T>, i: nat, w: seq<T>)
    requires i < |prev| == |next|
    requires next[..i + 1] == w && next[i + 1..] == prev[i + 1..]
    ensures next == w + prev[i + 1..]
  {
    assert next == next[..i + 1] + next[i + 1..];
  }

  /** `t` after swapping the inserted element `x` at `j` with its left
      neighbour: `x` moves one place towards the front of `s`. */
  lemma SwapDown<T>(t: seq<T>, s: seq<T>, x: T, j: nat)
    requires 0 < j <= |s| && t == s[..j] + [x] + s[j..]
    ensures t[j - 1] == s[j - 1] && t[j] == x
    ensures t[j - 1 := x][j := s[j - 1]] == s[..j - 1] + [x] + s[j - 1..]
  {
    assert t[j - 1] == s[..j][j - 1];
    var u := t[j - 1 := x][j := s[j - 1]];
    var v := s[..j - 1] + [x] + s[j - 1..];
    forall m | 0 <= m < |u|
      ensures u[m] == v[m]
    {
      if m < j - 1 {
        assert u[m] == s[..j][m];
      } else if m > j {
        assert u[m] == s[j..][m - j - 1];
        assert v[m] == s[j - 1..][m - j];
      } else if m == j {
        assert v[m] == s[j - 1..][0];
      }
    }
  }

  /** Moving past an element `x` goes before does not change where `x` goes. */
  lemma InsertPosPrefix<T>(s: seq<T>, x: T, before: (T, T) -> bool, j: nat)
    requires 0 < j <= |s| && before(x, s[j - 1])
    ensures InsertPos(s[..j], x, before) == InsertPos(s[..j - 1], x, before)
  {
    assert s[..j][..j - 1] == s[..j - 1];
  }

  /** Moves `a[i]` left past every element of the prefix `a[..i]` that it
      goes before: one insertion step. */
  method SinkLast<T>(a: array<T>, i: nat, before: (T, T) -> bool)
    requires i < a.Length
    modifies a
    ensures a[..i + 1] == Insert(old(a[..i]), old(a[i]), before)
    ensures a[i + 1..] == old(a[i + 1..])
  {
    ghost var sorted := a[..i];
    ghost var rest := a[i + 1..];
    ghost var x := a[i];
    var j := i;
    assert sorted[..j] == sorted;
    assert a[..] == a[..i + 1] + a[i + 1..];
    while j > 0 && before(a[j], a[j - 1])
      invariant 0 <= j <= i && a.Length == |sorted| + 1 + |rest|
      invariant a[..] == sorted[..j] + [x] + sorted[j..] + rest
      invariant InsertPos(sorted, x, before) == InsertPos(sorted[..j], x, before)
    {
      SwapDown(a[..i + 1], sorted, x, j);
      a[j - 1], a[j] := a[j], a[j - 1];
      InsertPosPrefix(sorted, x, before, j);
      j := j - 1;
    }
    assert InsertPos(sorted, x, before) == j;
    assert a[..] == (sorted[..j] + [x] + sorted[j..]) + rest;
  }
}
