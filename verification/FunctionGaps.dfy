/** The stretches of addresses without code, listed once when the gap scan begins. */
module FunctionGaps {
  import opened Collections
  import opened DeclaredRanges

  /** From `start` up to `end`. The size of a hole between two instructions counts one byte more than it has. */
  datatype Gap = Gap(start: int, end: int, size: int)

  /** The order of lists. */
  predicate GapOrder(a: Gap, b: Gap) {
    a.start < b.start || (a.start == b.start && (a.end < b.end || (a.end == b.end && a.size <= b.size)))
  }

  /** Where gaps are looked for: in the code areas, or in the whole image if none are known. */
  function SearchAreas(codeAreas: seq<Range>, base: int, size: int): seq<Range> {
    if codeAreas != [] then codeAreas else [(base, base + size)]
  }

  // ----- the list

  ghost predicate IsFirst(code: set<int>, mask: int, m: int) {
    if code == {} then m == mask else m in code && forall c :: c in code ==> m <= c
  }

  ghost predicate IsLast(code: set<int>, m: int) {
    if code == {} then m == 0 else m in code && forall c :: c in code ==> c <= m
  }

  /** The first and the last code byte, if there is code. */
  ghost predicate Spans(code: set<int>, first: int, last: int) {
    IsFirst(code, first, first) && IsLast(code, last)
  }

  /** From the start of an area up to the first code byte, which is inside the area. */
  predicate HeadOf(area: Range, first: int, x: Gap) {
    area.0 < first < area.1 && x == Gap(area.0, first, first - area.0)
  }

  function TailStart(whole: bool, last: int): int {
    if whole then last + 1 else last
  }

  /** To the end of an area: from the last code byte on, or from behind it if the area is the whole image. */
  predicate TailOf(area: Range, whole: bool, last: int, x: Gap) {
    area.0 < last < area.1 && x == Gap(TailStart(whole, last), area.1, area.1 - TailStart(whole, last))
  }

  /** Between two code bytes with no code between them, the first of which is not at address 0. */
  ghost predicate Hole(code: set<int>, x: Gap) {
    && x.start - 1 in code && x.start != 1 && x.end in code && x.start < x.end && x.size == x.end - x.start + 1
    && forall c :: c in code ==> !(x.start <= c < x.end)
  }

  ghost predicate Outer(areas: seq<Range>, whole: bool, first: int, last: int, x: Gap) {
    exists r :: r in areas && (HeadOf(r, first, x) || TailOf(r, whole, last, x))
  }

  /** The list names the gaps at the ends of the areas, the holes, and nothing else. */
  ghost predicate Lists(gaps: seq<Gap>, areas: seq<Range>, whole: bool, code: set<int>, first: int, last: int) {
    forall x :: x in gaps <==> Outer(areas, whole, first, last, x) || Hole(code, x)
  }

  method OuterGaps(areas: seq<Range>, whole: bool, first: int, last: int) returns (gaps: seq<Gap>)
    ensures forall x :: x in gaps <==> Outer(areas, whole, first, last, x)
  {
    gaps := [];
    for k := 0 to |areas|
      invariant forall x :: x in gaps <==> Outer(areas[..k], whole, first, last, x)
    {
      ghost var before := gaps;
      var area := areas[k];
      if area.0 < first < area.1 {
        gaps := gaps + [Gap(area.0, first, first - area.0)];
      }
      if area.0 < last < area.1 {
        var tailStart := if whole then last + 1 else last;
        gaps := gaps + [Gap(tailStart, area.1, area.1 - tailStart)];
      }
      assert forall x :: x in gaps <==> x in before || HeadOf(area, first, x) || TailOf(area, whole, last, x);
      OuterSnoc(areas, k, whole, first, last);
    }
    assert areas[..|areas|] == areas;
  }

  lemma OuterSnoc(areas: seq<Range>, k: nat, whole: bool, first: int, last: int)
    requires k < |areas|
    ensures forall x :: (
      Outer(areas[..k + 1], whole, first, last, x)
      <==> Outer(areas[..k], whole, first, last, x) || HeadOf(areas[k], first, x) || TailOf(areas[k], whole, last, x))
  {
    assert areas[..k + 1] == areas[..k] + [areas[k]];
  }

  predicate HoleAt(q: seq<int>, i: nat, x: Gap)
    requires i < |q|
  {
    i > 0 && q[i - 1] != 0 && q[i] - q[i - 1] > 1 && x == Gap(q[i - 1] + 1, q[i], q[i] - q[i - 1])
  }

  method Holes(q: seq<int>, code: set<int>) returns (gaps: seq<Gap>)
    requires Enumerates(q, code)
    ensures forall x :: x in gaps <==> Hole(code, x)
  {
    gaps := [];
    var previous := 0;
    for k := 0 to |q|
      invariant previous == if k == 0 then 0 else q[k - 1]
      invariant forall x :: x in gaps <==> exists i :: 0 <= i < k && HoleAt(q, i, x)
    {
      ghost var before := gaps;
      if previous != 0 && q[k] - previous > 1 {
        gaps := gaps + [Gap(previous + 1, q[k], q[k] - previous)];
      }
      assert forall x :: x in gaps <==> x in before || HoleAt(q, k, x);
      previous := q[k];
    }
    forall x
      ensures Hole(code, x) <==> exists i :: 0 <= i < |q| && HoleAt(q, i, x)
    {
      HolesAreNeighbours(q, code, x);
    }
  }

  lemma HolesAreNeighbours(q: seq<int>, code: set<int>, x: Gap)
    requires Enumerates(q, code)
    ensures Hole(code, x) <==> exists i :: 0 <= i < |q| && HoleAt(q, i, x)
  {
    if Hole(code, x) {
      var i :| 0 <= i < |q| && q[i] == x.start - 1;
      assert q[i + 1] in q;
      assert q[i + 1] == x.end;
      assert HoleAt(q, i + 1, x);
    }
    forall i | 0 <= i < |q| && HoleAt(q, i, x)
      ensures Hole(code, x)
    {
      assert q[i - 1] in q && q[i] in q;
    }
  }

  /** The gaps, sorted. */
  method UpdateFunctionGaps(codeAreas: seq<Range>, base: int, size: int, mask: int, code: set<int>)
    returns (functionGaps: seq<Gap>, ghost first: int, ghost last: int)
    ensures IsFirst(code, mask, first) && IsLast(code, last)
    ensures Lists(functionGaps, SearchAreas(codeAreas, base, size), codeAreas == [], code, first, last)
    ensures Ordered(GapOrder, functionGaps)
  {
    var addresses := Sorted(code);
    var minCode := if addresses != [] then addresses[0] else mask;
    var maxCode := if addresses != [] then addresses[|addresses| - 1] else 0;
    first, last := minCode, maxCode;
    EnumerationEnds(addresses, code, mask);
    var outer := OuterGaps(SearchAreas(codeAreas, base, size), codeAreas == [], minCode, maxCode);
    var holes := Holes(addresses, code);
    functionGaps := SortedBy(GapOrder, outer + holes);
    GapOrderIsAnOrder();
    SortIsAPermutation(GapOrder, outer + holes);
    assert forall x :: x in functionGaps <==> x in outer || x in holes;
  }

  lemma EnumerationEnds(q: seq<int>, code: set<int>, mask: int)
    requires Enumerates(q, code)
    ensures IsFirst(code, mask, if q != [] then q[0] else mask)
    ensures IsLast(code, if q != [] then q[|q| - 1] else 0)
  {
    if q != [] {
      assert q[0] in q && q[|q| - 1] in q;
    } else if code != {} {
      var c := Member(code);
      assert false;
    }
  }

  lemma GapOrderIsAnOrder()
    ensures Orders(GapOrder)
  {
  }

  // ----- what the list misses

  ghost predicate InGap(gaps: seq<Gap>, a: int) {
    exists x :: x in gaps && x.start <= a < x.end
  }

  lemma {:induction false} LastOf(code: set<int>) returns (m: int)
    requires code != {}
    ensures m in code && IsLast(code, m)
  {
    m := Member(code);
    if code != {m} {
      assert code - {m} != {};
      var n := LastOf(code - {m});
      assert forall c :: c in code ==> c == m || c in code - {m};
      m := if n > m then n else m;
    }
  }

  lemma {:induction false} FirstOf(code: set<int>) returns (m: int)
    requires code != {}
    ensures m in code && forall c :: c in code ==> m <= c
  {
    m := Member(code);
    if code != {m} {
      assert code - {m} != {};
      var n := FirstOf(code - {m});
      assert forall c :: c in code ==> c == m || c in code - {m};
      m := if n < m then n else m;
    }
  }

  /** A byte without code is found only from the areas the first and last code bytes are in, or between code bytes of
      which the lower one is not at address 0. */
  ghost predicate Found(areas: seq<Range>, code: set<int>, first: int, last: int, a: int) {
    if a < first then exists r :: r in areas && r.0 <= a && r.0 < first < r.1
    else if a > last then exists r :: r in areas && a < r.1 && r.0 < last < r.1
    else 0 in code && 0 < a ==> exists c :: c in code && 0 < c < a
  }

  lemma FoundIsInGap(gaps: seq<Gap>, areas: seq<Range>, whole: bool, code: set<int>, first: int, last: int, a: int)
    requires Lists(gaps, areas, whole, code, first, last) && Spans(code, first, last)
    requires code != {} && a !in code && Found(areas, code, first, last, a)
    ensures InGap(gaps, a)
  {
    if a < first {
      var r :| r in areas && r.0 <= a && r.0 < first < r.1;
      assert HeadOf(r, first, Gap(r.0, first, first - r.0));
      assert Gap(r.0, first, first - r.0) in gaps;
    } else if a > last {
      var r :| r in areas && a < r.1 && r.0 < last < r.1;
      var x := Gap(TailStart(whole, last), r.1, r.1 - TailStart(whole, last));
      assert TailOf(r, whole, last, x);
      assert x in gaps;
    } else {
      var below, above := set c | c in code && c < a, set c | c in code && c > a;
      assert first in below && last in above;
      assert below != {} && above != {};
      var lower := LastOf(below);
      var upper := FirstOf(above);
      var x := Gap(lower + 1, upper, upper - lower);
      assert forall c :: c in code ==> (c < a <==> c in below) && (c > a <==> c in above);
      assert Hole(code, x);
      assert x in gaps;
    }
  }

  /** For a byte without code, the list has a gap with the byte exactly when it is found. */
  lemma ByteIsListed(gaps: seq<Gap>, areas: seq<Range>, whole: bool, code: set<int>, first: int, last: int, a: int)
    requires Lists(gaps, areas, whole, code, first, last) && Spans(code, first, last)
    requires code != {} && a !in code
    ensures InGap(gaps, a) <==> Found(areas, code, first, last, a)
  {
    if Found(areas, code, first, last, a) {
      FoundIsInGap(gaps, areas, whole, code, first, last, a);
    }
    forall x | x in gaps && x.start <= a < x.end
      ensures Found(areas, code, first, last, a)
    {
      GapIsFound(areas, whole, code, first, last, a, x);
    }
  }

  lemma GapIsFound(areas: seq<Range>, whole: bool, code: set<int>, first: int, last: int, a: int, x: Gap)
    requires Spans(code, first, last) && code != {} && a !in code
    requires (Outer(areas, whole, first, last, x) || Hole(code, x)) && x.start <= a < x.end
    ensures Found(areas, code, first, last, a)
  {
    if Outer(areas, whole, first, last, x) {
      var r :| r in areas && (HeadOf(r, first, x) || TailOf(r, whole, last, x));
    }
  }

  /** No gap holds code, but for the last code byte of all, at which the tail of a code area begins. */
  lemma GapsHoldNoCode(gaps: seq<Gap>, areas: seq<Range>, whole: bool, code: set<int>, first: int, last: int,
      x: Gap, a: int)
    requires Lists(gaps, areas, whole, code, first, last) && Spans(code, first, last)
    requires x in gaps && x.start <= a < x.end && a in code
    ensures !whole && a == last == x.start
  {
    if Outer(areas, whole, first, last, x) {
      var r :| r in areas && (HeadOf(r, first, x) || TailOf(r, whole, last, x));
    }
  }

  /** Some code lies behind the first byte of the image, and code at address 0 goes on at address 1. */
  ghost predicate EndsAreVisible(base: int, size: nat, code: set<int>) {
    || size == 0
    || (size == 1 && code != {})
    || ((exists c :: c in code && c > base) && (0 in code ==> 1 in code))
  }

  /** Without code areas, every byte of the image that is not code is in a gap if and only if the ends are visible. */
  lemma WholeImageIsListed(gaps: seq<Gap>, base: nat, size: nat, mask: nat, code: set<int>, first: int, last: int)
    requires Lists(gaps, SearchAreas([], base, size), true, code, first, last)
    requires IsFirst(code, mask, first) && IsLast(code, last)
    requires forall c :: c in code ==> base <= c < base + size
    ensures (forall a :: base <= a < base + size && a !in code ==> InGap(gaps, a)) <==> EndsAreVisible(base, size, code)
  {
    if EndsAreVisible(base, size, code) {
      forall a | base <= a < base + size && a !in code
        ensures InGap(gaps, a)
      {
        VisibleByteIsFound(base, size, code, first, last, a);
        FoundIsInGap(gaps, SearchAreas([], base, size), true, code, first, last, a);
      }
    } else {
      var a := MissedByte(gaps, base, size, mask, code, first, last);
    }
  }

  lemma VisibleByteIsFound(base: nat, size: nat, code: set<int>, first: int, last: int, a: int)
    requires EndsAreVisible(base, size, code) && base <= a < base + size && a !in code
    requires Spans(code, first, last)
    requires forall c :: c in code ==> base <= c < base + size
    ensures code != {} && Found(SearchAreas([], base, size), code, first, last, a)
  {
    var image := (base, base + size);
    assert image in SearchAreas([], base, size);
    if size == 1 {
      var c := Member(code);
      assert false;
    }
  }

  /** A byte the list misses when the ends are not visible. */
  lemma MissedByte(gaps: seq<Gap>, base: nat, size: nat, mask: nat, code: set<int>, first: int, last: int)
    returns (a: int)
    requires Lists(gaps, SearchAreas([], base, size), true, code, first, last)
    requires IsFirst(code, mask, first) && IsLast(code, last)
    requires forall c :: c in code ==> base <= c < base + size
    requires !EndsAreVisible(base, size, code)
    ensures base <= a < base + size && a !in code && !InGap(gaps, a)
  {
    if code == {} {
      a := if base < mask < base + size then mask else base;
      assert forall x :: x in gaps ==> Outer(SearchAreas([], base, size), true, first, last, x);
    } else {
      a := if exists c :: c in code && c > base then 1 else base + 1;
      ByteIsListed(gaps, SearchAreas([], base, size), true, code, first, last, a);
    }
  }
}
