/** Iteration over sets, which has no order, and `sorted`, which gives one. */
module Collections {

  datatype Option<T> = None | Some(value: T)

  ghost predicate NoDuplicates<T>(q: seq<T>) {
    forall i, j :: 0 <= i < j < |q| ==> q[i] != q[j]
  }

  /** Some member, in no particular order. */
  method Any<T>(s: set<T>) returns (v: T)
    requires s != {}
    ensures v in s
  {
    v :| v in s;
  }

  lemma Member<T>(s: set<T>) returns (x: T)
    requires s != {}
    ensures x in s
  {
    x :| x in s;
  }

  lemma SubsetCardinality<T>(a: set<T>, b: set<T>)
    requires a <= b
    ensures |a| <= |b|
    ensures |a| == |b| ==> a == b
  {
    if a != {} {
      var x := Member(a);
      SubsetCardinality(a - {x}, b - {x});
    }
  }

  /** A sequence without duplicates is no longer than a set with its elements is large. */
  lemma {:induction false} NoDuplicatesFit<T>(q: seq<T>, within: set<T>)
    requires NoDuplicates(q) && forall i :: 0 <= i < |q| ==> q[i] in within
    ensures |q| <= |within|
  {
    if q != [] {
      NoDuplicatesFit(q[..|q| - 1], within - {q[|q| - 1]});
    }
  }

  // ----- sorted

  predicate Increasing(q: seq<int>) {
    forall i, j :: 0 <= i < j < |q| ==> q[i] < q[j]
  }

  /** `q` is `sorted(s)`. */
  ghost predicate Enumerates(q: seq<int>, s: set<int>) {
    && Increasing(q)
    && (forall x :: x in s ==> x in q)
    && (forall x :: x in q ==> x in s)
  }

  /** A set has one sorted enumeration. */
  lemma {:induction false} EnumerationIsUnique(p: seq<int>, q: seq<int>, s: set<int>)
    requires Enumerates(p, s) && Enumerates(q, s)
    ensures p == q
  {
    assert q != [] ==> q[0] in q;
    if p != [] {
      assert p[0] in p;
      assert p[0] == q[0];
      EnumerationTail(p, s);
      EnumerationTail(q, s);
      EnumerationIsUnique(p[1..], q[1..], s - {p[0]});
    }
  }

  lemma EnumerationTail(q: seq<int>, s: set<int>)
    requires Enumerates(q, s) && q != []
    ensures Enumerates(q[1..], s - {q[0]})
  {
    forall x | x in s - {q[0]}
      ensures x in q[1..]
    {
      assert x in q;
    }
  }

  /** The place of `x` in an increasing sequence. */
  method Place(q: seq<int>, x: int) returns (k: nat)
    requires Increasing(q)
    ensures k <= |q|
    ensures forall i :: 0 <= i < k ==> q[i] < x
    ensures forall i :: k <= i < |q| ==> x <= q[i]
  {
    k := 0;
    while k < |q| && q[k] < x
      invariant k <= |q|
      invariant forall i :: 0 <= i < k ==> q[i] < x
    {
      k := k + 1;
    }
  }

  lemma InsertMembers<T>(q: seq<T>, k: nat, x: T)
    requires k <= |q|
    ensures forall y :: y in q[..k] + [x] + q[k..] <==> y == x || y in q
  {
    assert q == q[..k] + q[k..];
  }

  method Sorted(s: set<int>) returns (q: seq<int>)
    ensures Enumerates(q, s)
  {
    q := [];
    var todo := s;
    while todo != {}
      invariant todo <= s
      invariant Enumerates(q, s - todo)
      decreases |todo|
    {
      var x := Any(todo);
      var k := Place(q, x);
      assert x !in q;
      InsertMembers(q, k, x);
      q := q[..k] + [x] + q[k..];
      todo := todo - {x};
    }
    assert s - todo == s;
  }

  // ----- stable sorting by an order

  function InsertedBy<T>(le: (T, T) -> bool, x: T, xs: seq<T>): seq<T> {
    if xs == [] || le(xs[|xs| - 1], x) then xs + [x]
    else InsertedBy(le, x, xs[..|xs| - 1]) + [xs[|xs| - 1]]
  }

  /** The stable order. */
  function SortedBy<T>(le: (T, T) -> bool, xs: seq<T>): seq<T> {
    if xs == [] then [] else InsertedBy(le, xs[|xs| - 1], SortedBy(le, xs[..|xs| - 1]))
  }

  ghost predicate Orders<T(!new)>(le: (T, T) -> bool) {
    && (forall a, b :: le(a, b) || le(b, a))
    && (forall a, b, c :: le(a, b) && le(b, c) ==> le(a, c))
  }

  ghost predicate Ordered<T>(le: (T, T) -> bool, xs: seq<T>) {
    forall i, j :: 0 <= i < j < |xs| ==> le(xs[i], xs[j])
  }

  ghost predicate SameMembers<T(!new)>(p: seq<T>, q: seq<T>) {
    forall x :: x in p <==> x in q
  }

  lemma {:induction false} InsertedMembers<T>(le: (T, T) -> bool, x: T, xs: seq<T>)
    ensures multiset(InsertedBy(le, x, xs)) == multiset(xs) + multiset{x}
  {
    if xs != [] && !le(xs[|xs| - 1], x) {
      assert xs == xs[..|xs| - 1] + [xs[|xs| - 1]];
      InsertedMembers(le, x, xs[..|xs| - 1]);
    }
  }

  lemma {:induction false} InsertedInOrder<T(!new)>(le: (T, T) -> bool, x: T, xs: seq<T>)
    requires Orders(le) && Ordered(le, xs)
    ensures Ordered(le, InsertedBy(le, x, xs))
    ensures forall y :: y in InsertedBy(le, x, xs) ==> y == x || y in xs
  {
    if xs == [] || le(xs[|xs| - 1], x) {
      assert forall y :: y in xs ==> le(y, x);
    } else {
      var before, last := xs[..|xs| - 1], xs[|xs| - 1];
      InsertedInOrder(le, x, before);
      assert forall y :: y in InsertedBy(le, x, before) ==> le(y, last);
    }
  }

  /** Sorting gives a permutation that is in order. */
  lemma {:induction false} SortIsAPermutation<T(!new)>(le: (T, T) -> bool, xs: seq<T>)
    requires Orders(le)
    ensures Ordered(le, SortedBy(le, xs)) && multiset(SortedBy(le, xs)) == multiset(xs)
    ensures SameMembers(SortedBy(le, xs), xs)
  {
    if xs != [] {
      var before, last := xs[..|xs| - 1], xs[|xs| - 1];
      assert xs == before + [last];
      SortIsAPermutation(le, before);
      InsertedInOrder(le, last, SortedBy(le, before));
      InsertedMembers(le, last, SortedBy(le, before));
    }
    forall x
      ensures x in SortedBy(le, xs) <==> x in xs
    {
      assert x in multiset(SortedBy(le, xs)) <==> x in multiset(xs);
    }
  }

  lemma {:induction false} CountedOnce<T>(q: seq<T>, x: T)
    requires NoDuplicates(q)
    ensures multiset(q)[x] <= 1
  {
    if q != [] {
      var before, last := q[..|q| - 1], q[|q| - 1];
      assert q == before + [last];
      CountedOnce(before, x);
      if x == last {
        assert x !in before;
        assert x !in multiset(before);
      }
    }
  }

  lemma TwiceIsCountedTwice<T>(q: seq<T>, i: nat, j: nat)
    requires i < j < |q| && q[i] == q[j]
    ensures multiset(q)[q[i]] >= 2
  {
    assert q == q[..j] + [q[j]] + q[j + 1..];
    assert q[i] in q[..j];
  }

  /** A permutation of distinct elements. */
  lemma PermutationKeepsDistinct<T>(p: seq<T>, q: seq<T>)
    requires NoDuplicates(p) && multiset(p) == multiset(q)
    ensures NoDuplicates(q)
  {
    forall i, j | 0 <= i < j < |q|
      ensures q[i] != q[j]
    {
      CountedOnce(p, q[i]);
      if q[i] == q[j] {
        TwiceIsCountedTwice(q, i, j);
        assert false;
      }
    }
  }

  /** What is in order stays as it is. */
  lemma {:induction false} SortKeepsOrder<T>(le: (T, T) -> bool, xs: seq<T>)
    requires Ordered(le, xs)
    ensures SortedBy(le, xs) == xs
  {
    if xs != [] {
      var before, last := xs[..|xs| - 1], xs[|xs| - 1];
      assert xs == before + [last];
      SortKeepsOrder(le, before);
      assert before != [] ==> before[|before| - 1] == xs[|xs| - 2];
    }
  }

  // ----- bisection

  predicate NonDecreasing(q: seq<int>) {
    forall i, j :: 0 <= i < j < |q| ==> q[i] <= q[j]
  }

  /** How many of the sorted points are not above a value. */
  function BisectRight(points: seq<int>, a: int): (k: nat)
    ensures k <= |points|
  {
    if points == [] then 0 else if points[|points| - 1] <= a then |points| else BisectRight(points[..|points| - 1], a)
  }

  lemma {:induction false} BisectRightSplits(points: seq<int>, a: int)
    requires NonDecreasing(points)
    ensures forall i :: 0 <= i < |points| ==> (points[i] <= a <==> i < BisectRight(points, a))
  {
    if points != [] && points[|points| - 1] > a {
      BisectRightSplits(points[..|points| - 1], a);
    }
  }
}
