/** The stable sort of Rust's `sort_by` and Python's `sorted`, and what sorted lists have in common. */
module Sorting {

  /** `before` orders values strictly; values that it does not order either way are ties. */
  ghost predicate WeakOrder<T(!new)>(before: (T, T) -> bool) {
    && (forall a, b :: before(a, b) ==> !before(b, a))
    && (forall a, b, c :: before(a, c) ==> before(a, b) || before(b, c))
  }

  ghost predicate InOrder<T>(s: seq<T>, before: (T, T) -> bool) {
    forall i, j :: 0 <= i < j < |s| ==> !before(s[j], s[i])
  }

  ghost predicate Ascends<T>(s: seq<T>, before: (T, T) -> bool) {
    forall i, j :: 0 <= i < j < |s| ==> before(s[i], s[j])
  }

  /** Puts a value before the first one that is not before it. */
  function Insert<T>(x: T, sorted: seq<T>, before: (T, T) -> bool): (r: seq<T>)
    ensures multiset(r) == multiset(sorted) + multiset{x}
  {
    if sorted == [] || !before(sorted[0], x) then [x] + sorted
    else
      assert sorted == [sorted[0]] + sorted[1..];
      [sorted[0]] + Insert(x, sorted[1..], before)
  }

  function Sort<T>(s: seq<T>, before: (T, T) -> bool): (r: seq<T>)
    ensures multiset(r) == multiset(s)
  {
    if s == [] then []
    else
      assert s == [s[0]] + s[1..];
      Insert(s[0], Sort(s[1..], before), before)
  }

  lemma SortKeepsMembers<T>(s: seq<T>, before: (T, T) -> bool)
    ensures |Sort(s, before)| == |s|
    ensures forall x :: x in Sort(s, before) <==> x in s
  {
    var r := Sort(s, before);
    assert |r| == |multiset(r)| == |multiset(s)| == |s|;
    forall x
      ensures x in r <==> x in s
    {
      assert x in r <==> x in multiset(r);
    }
  }

  lemma FrontInOrder<T(!new)>(x: T, rest: seq<T>, before: (T, T) -> bool)
    requires InOrder(rest, before) && forall y :: y in rest ==> !before(y, x)
    ensures InOrder([x] + rest, before)
  {
  }

  lemma {:induction false} InsertKeepsOrder<T(!new)>(x: T, sorted: seq<T>, before: (T, T) -> bool)
    requires WeakOrder(before) && InOrder(sorted, before)
    ensures InOrder(Insert(x, sorted, before), before)
  {
    if sorted == [] {
    } else if before(sorted[0], x) {
      var rest := Insert(x, sorted[1..], before);
      InsertKeepsOrder(x, sorted[1..], before);
      forall y | y in rest
        ensures !before(y, sorted[0])
      {
        assert y in multiset(rest);
        assert y == x || y in sorted[1..];
      }
      FrontInOrder(sorted[0], rest, before);
    } else {
      var first := sorted[0];
      forall y | y in sorted
        ensures !before(y, x)
      {
        assert y == first || y in sorted[1..];
        assert before(y, x) ==> before(y, first) || before(first, x);
      }
      FrontInOrder(x, sorted, before);
    }
  }

  lemma {:induction false} SortOrders<T(!new)>(s: seq<T>, before: (T, T) -> bool)
    requires WeakOrder(before)
    ensures InOrder(Sort(s, before), before)
  {
    if s != [] {
      SortOrders(s[1..], before);
      InsertKeepsOrder(s[0], Sort(s[1..], before), before);
    }
  }

  ghost predicate NoTies<T(!new)>(s: seq<T>, before: (T, T) -> bool) {
    forall i, j :: 0 <= i < j < |s| ==> before(s[i], s[j]) || before(s[j], s[i])
  }

  lemma FrontAscends<T(!new)>(x: T, rest: seq<T>, before: (T, T) -> bool)
    requires Ascends(rest, before) && forall y :: y in rest ==> before(x, y)
    ensures Ascends([x] + rest, before)
  {
  }

  lemma {:induction false} InsertAscends<T(!new)>(x: T, sorted: seq<T>, before: (T, T) -> bool)
    requires WeakOrder(before) && Ascends(sorted, before)
    requires forall y :: y in sorted ==> before(x, y) || before(y, x)
    ensures Ascends(Insert(x, sorted, before), before)
  {
    if sorted == [] {
    } else if before(sorted[0], x) {
      var rest := Insert(x, sorted[1..], before);
      InsertAscends(x, sorted[1..], before);
      forall y | y in rest
        ensures before(sorted[0], y)
      {
        assert y in multiset(rest);
        assert y == x || y in sorted[1..];
      }
      FrontAscends(sorted[0], rest, before);
    } else {
      var first := sorted[0];
      forall y | y in sorted
        ensures before(x, y)
      {
        assert y == first || y in sorted[1..];
        assert y != first ==> before(first, x) || before(x, y);
      }
      FrontAscends(x, sorted, before);
    }
  }

  /** Without ties, sorting gives a strictly ascending list. */
  lemma {:induction false} SortAscends<T(!new)>(s: seq<T>, before: (T, T) -> bool)
    requires WeakOrder(before) && NoTies(s, before)
    ensures Ascends(Sort(s, before), before)
  {
    if s != [] {
      SortAscends(s[1..], before);
      SortKeepsMembers(s[1..], before);
      InsertAscends(s[0], Sort(s[1..], before), before);
    }
  }

  // ---------------------------------------------------------------- stability

  /** The values that satisfy a predicate, in their order. */
  function Filter<T>(s: seq<T>, p: T -> bool): seq<T> {
    if s == [] then []
    else if p(s[0]) then [s[0]] + Filter(s[1..], p)
    else Filter(s[1..], p)
  }

  lemma {:induction false} InsertIsStable<T(!new)>(x: T, sorted: seq<T>, before: (T, T) -> bool, p: T -> bool)
    requires forall a, b :: p(a) && p(b) ==> !before(a, b)
    ensures Filter(Insert(x, sorted, before), p) == Filter([x] + sorted, p)
  {
    assert ([x] + sorted)[1..] == sorted;
    if sorted != [] && before(sorted[0], x) {
      var rest := Insert(x, sorted[1..], before);
      InsertIsStable(x, sorted[1..], before, p);
      assert ([sorted[0]] + rest)[1..] == rest;
      assert ([x] + sorted[1..])[1..] == sorted[1..];
    }
  }

  /** Ties keep their order. */
  lemma {:induction false} SortIsStable<T(!new)>(s: seq<T>, before: (T, T) -> bool, p: T -> bool)
    requires forall a, b :: p(a) && p(b) ==> !before(a, b)
    ensures Filter(Sort(s, before), p) == Filter(s, p)
  {
    if s != [] {
      var rest := Sort(s[1..], before);
      SortIsStable(s[1..], before, p);
      InsertIsStable(s[0], rest, before, p);
      assert ([s[0]] + rest)[1..] == rest;
    }
  }

  // ---------------------------------------------------------------- sorted lists are determined

  ghost predicate Connected<T(!new)>(before: (T, T) -> bool) {
    forall a, b :: a == b || before(a, b) || before(b, a)
  }

  lemma WithoutFirst<T>(s: seq<T>)
    requires s != []
    ensures multiset(s[1..]) == multiset(s) - multiset{s[0]}
  {
    assert s == [s[0]] + s[1..];
  }

  lemma FirstIsLeast<T(!new)>(a: seq<T>, b: seq<T>, before: (T, T) -> bool)
    requires InOrder(a, before) && multiset(a) == multiset(b) && a != [] && b != []
    ensures !before(b[0], a[0]) || a[0] == b[0]
  {
    assert b[0] in multiset(b);
    assert b[0] in a;
  }

  /** Without ties, two sorted lists of the same values are equal. */
  lemma {:induction false} SortedUnique<T(!new)>(a: seq<T>, b: seq<T>, before: (T, T) -> bool)
    requires Connected(before) && InOrder(a, before) && InOrder(b, before) && multiset(a) == multiset(b)
    ensures a == b
  {
    assert |a| == |multiset(a)| == |multiset(b)| == |b|;
    if a != [] {
      FirstIsLeast(a, b, before);
      FirstIsLeast(b, a, before);
      assert a[0] == b[0];
      WithoutFirst(a);
      WithoutFirst(b);
      SortedUnique(a[1..], b[1..], before);
      assert a == [a[0]] + a[1..] && b == [b[0]] + b[1..];
    }
  }

  lemma Later<T(!new)>(s: seq<T>, x: T, before: (T, T) -> bool)
    requires Ascends(s, before) && s != [] && !before(s[0], s[0])
    ensures x in s[1..] <==> x in s && x != s[0]
  {
    if x in s && x != s[0] {
      var i :| 0 <= i < |s| && s[i] == x;
      assert s[1..][i - 1] == x;
    }
  }

  lemma FirstAgrees<T(!new)>(a: seq<T>, b: seq<T>, before: (T, T) -> bool)
    requires WeakOrder(before) && Ascends(a, before) && Ascends(b, before)
    requires a != [] && b != [] && a[0] in b && b[0] in a
    ensures a[0] == b[0]
  {
    var i :| 0 <= i < |b| && b[i] == a[0];
    var j :| 0 <= j < |a| && a[j] == b[0];
    if i > 0 && j > 0 {
      assert before(b[0], a[0]) && before(a[0], b[0]);
    }
  }

  /** A set has one strictly ascending listing. */
  lemma {:induction false} AscendingUnique<T(!new)>(a: seq<T>, b: seq<T>, before: (T, T) -> bool)
    requires WeakOrder(before) && Ascends(a, before) && Ascends(b, before)
    requires forall x :: x in a <==> x in b
    ensures a == b
  {
    assert a != [] ==> a[0] in b;
    assert b != [] ==> b[0] in a;
    if a != [] {
      FirstAgrees(a, b, before);
      forall x
        ensures x in a[1..] <==> x in b[1..]
      {
        Later(a, x, before);
        Later(b, x, before);
      }
      AscendingUnique(a[1..], b[1..], before);
      assert a == [a[0]] + a[1..] && b == [b[0]] + b[1..];
    }
  }
}
