/** Lookups of an address in declared ranges, each against a plain search of the whole list. */
module DeclaredRanges {
  import opened Collections

  // ----- exception directory records

  datatype Extent = Extent(start: int, end: int, fragment: bool)

  /** The order of tuples. */
  predicate ExtentOrder(a: Extent, b: Extent) {
    a.start < b.start || (a.start == b.start && (a.end < b.end || (a.end == b.end && (a.fragment ==> b.fragment))))
  }

  /** A primary record's own start is an entry; the first byte of a fragment is interior like the rest. */
  predicate Interior(e: Extent, addr: int) {
    e.start <= addr < e.end && (e.start < addr || e.fragment)
  }

  /** A search of the whole list, from its end. */
  function LastInterior(es: seq<Extent>, addr: int): Option<Extent> {
    if es == [] then None
    else if Interior(es[|es| - 1], addr) then Some(es[|es| - 1])
    else LastInterior(es[..|es| - 1], addr)
  }

  lemma {:induction false} LastInteriorAt(es: seq<Extent>, addr: int, k: int)
    requires -1 <= k < |es| && forall i :: k < i < |es| ==> !Interior(es[i], addr)
    ensures k >= 0 && Interior(es[k], addr) ==> LastInterior(es, addr) == Some(es[k])
    ensures k == -1 ==> LastInterior(es, addr) == None
  {
    if k < |es| - 1 {
      LastInteriorAt(es[..|es| - 1], addr, k);
    }
  }

  /** The search answers exactly when the address lies in some record, and does not begin it unless it is a
      fragment. */
  lemma {:induction false} LastInteriorFinds(es: seq<Extent>, addr: int)
    ensures var r := LastInterior(es, addr);
      && (r.Some? <==> exists e :: e in es && e.start <= addr < e.end && (addr != e.start || e.fragment))
      && (r.Some? ==> r.value in es && r.value.start <= addr < r.value.end
                      && (addr != r.value.start || r.value.fragment))
  {
    if es != [] {
      LastInteriorFinds(es[..|es| - 1], addr);
      assert es == es[..|es| - 1] + [es[|es| - 1]];
    }
  }

  function Starts(es: seq<Extent>): seq<int> {
    seq(|es|, i requires 0 <= i < |es| => es[i].start)
  }

  /** `reach` bounds the ends of all records up to each index. */
  ghost predicate Reaches(es: seq<Extent>, reach: seq<int>) {
    |reach| == |es| && forall i, k :: 0 <= i <= k < |es| ==> es[i].end <= reach[k]
  }

  class ExceptionDirectory {
    var ranges: seq<Extent>
    var starts: Option<seq<int>>
    var reach: seq<int>

    ghost predicate Valid()
      reads this
    {
      starts.Some? ==> Ordered(ExtentOrder, ranges) && starts.value == Starts(ranges) && Reaches(ranges, reach)
    }

    constructor (ranges: seq<Extent>)
      ensures Valid() && this.ranges == ranges
    {
      this.ranges, starts, reach := ranges, None, [];
    }

    /** Sorts the records and notes how far those up to each one reach. */
    method BuildIndex()
      modifies this
      ensures Valid() && starts.Some? && ranges == SortedBy(ExtentOrder, old(ranges))
    {
      SortIsAPermutation(ExtentOrder, ranges);
      ranges := SortedBy(ExtentOrder, ranges);
      starts := Some(Starts(ranges));
      reach := RunningMaximum(ranges);
    }

    static method RunningMaximum(es: seq<Extent>) returns (reach: seq<int>)
      ensures Reaches(es, reach)
    {
      reach := [];
      var highest := 0;
      var k := 0;
      while k < |es|
        invariant |reach| == k <= |es|
        invariant forall i, j :: 0 <= i <= j < k ==> es[i].end <= reach[j]
        invariant forall i :: 0 <= i < k ==> es[i].end <= highest
      {
        highest := if es[k].end > highest then es[k].end else highest;
        reach := reach + [highest];
        k := k + 1;
      }
    }

    /** The record an address is interior to, the last in order if several are: what a search of the whole list
        finds, for every list of records, overlapping and nested ones included. */
    method DeclaredExceptionRangeContaining(addr: int) returns (r: Option<Extent>)
      requires Valid()
      modifies this
      ensures Valid() && ranges == SortedBy(ExtentOrder, old(ranges))
      ensures r == LastInterior(ranges, addr)
    {
      if starts == None {
        BuildIndex();
      } else {
        SortKeepsOrder(ExtentOrder, ranges);
      }
      var index := BisectRight(starts.value, addr) - 1;
      StartsSplit(ranges, addr);
      while index >= 0 && reach[index] > addr
        invariant -1 <= index < |ranges|
        invariant forall i :: index < i < |ranges| ==> !Interior(ranges[i], addr)
      {
        var e := ranges[index];
        if addr < e.end && (e.start < addr || e.fragment) {
          assert ranges[index].start <= addr;
          LastInteriorAt(ranges, addr, index);
          return Some(e);
        }
        index := index - 1;
      }
      LastInteriorAt(ranges, addr, -1);
      return None;
    }
  }

  lemma StartsSplit(es: seq<Extent>, addr: int)
    requires Ordered(ExtentOrder, es)
    ensures forall i :: 0 <= i < |es| ==> (es[i].start <= addr <==> i < BisectRight(Starts(es), addr))
  {
    assert NonDecreasing(Starts(es)) by {
      forall i, j | 0 <= i < j < |es|
        ensures Starts(es)[i] <= Starts(es)[j]
      {
        assert ExtentOrder(es[i], es[j]);
      }
    }
    BisectRightSplits(Starts(es), addr);
    assert forall i :: 0 <= i < |es| ==> Starts(es)[i] == es[i].start;
  }

  // ----- ranges of frame descriptions

  type Range = (int, int)

  /** The address lies in the range and does not begin it. */
  predicate Within(r: Range, addr: int) {
    r.0 < addr < r.1
  }

  /** A search of the whole list, from its end. */
  function LastWithin(rs: seq<Range>, addr: int): Option<Range> {
    if rs == [] then None
    else if Within(rs[|rs| - 1], addr) then Some(rs[|rs| - 1])
    else LastWithin(rs[..|rs| - 1], addr)
  }

  ghost predicate NoneWithin(rs: seq<Range>, lo: int, hi: int, addr: int)
    requires 0 <= lo <= hi <= |rs|
  {
    forall i :: lo <= i < hi ==> !Within(rs[i], addr)
  }

  lemma {:induction false} LastWithinAt(rs: seq<Range>, addr: int, k: int)
    requires -1 <= k < |rs| && NoneWithin(rs, k + 1, |rs|, addr)
    ensures k >= 0 && Within(rs[k], addr) ==> LastWithin(rs, addr) == Some(rs[k])
    ensures k == -1 ==> LastWithin(rs, addr) == None
  {
    if k < |rs| - 1 {
      LastWithinAt(rs[..|rs| - 1], addr, k);
    }
  }

  /** Two neighbours that end at or before the address, with a range that holds the address only before them. */
  ghost predicate Shadowed(rs: seq<Range>, addr: int) {
    exists i :: ShadowedAt(rs, addr, i)
  }

  ghost predicate ShadowedAt(rs: seq<Range>, addr: int, i: int) {
    && 1 <= i < |rs| && rs[i].0 <= addr && rs[i].1 <= addr && rs[i - 1].1 <= addr
    && NoneWithin(rs, i, |rs|, addr)
    && exists j :: 0 <= j < i - 1 && Within(rs[j], addr)
  }

  ghost predicate StartsInOrder(rs: seq<Range>) {
    forall i, j :: 0 <= i < j < |rs| ==> rs[i].0 <= rs[j].0
  }

  function RangeStarts(rs: seq<Range>): seq<int> {
    seq(|rs|, i requires 0 <= i < |rs| => rs[i].0)
  }

  lemma RangeStartsSplit(rs: seq<Range>, addr: int)
    requires StartsInOrder(rs)
    ensures forall i :: 0 <= i < |rs| ==> (rs[i].0 <= addr <==> i < BisectRight(RangeStarts(rs), addr))
  {
    BisectRightSplits(RangeStarts(rs), addr);
    assert forall i :: 0 <= i < |rs| ==> RangeStarts(rs)[i] == rs[i].0;
  }

  /** The walk down the ranges: it gives up at two neighbours that end before the address. */
  function FdeWalk(rs: seq<Range>, addr: int, index: int): (r: Option<Range>)
    requires -1 <= index < |rs|
    ensures r.Some? ==> r.value in rs && r.value.0 < addr < r.value.1
    decreases index + 1
  {
    if index < 0 then None
    else if Within(rs[index], addr) then Some(rs[index])
    else if rs[index].1 <= addr && index > 0 && rs[index - 1].1 <= addr then None
    else FdeWalk(rs, addr, index - 1)
  }

  function FdeLookup(rs: seq<Range>, addr: int): Option<Range> {
    FdeWalk(rs, addr, BisectRight(RangeStarts(rs), addr) - 1)
  }

  /** The range an address lies in. */
  method DeclaredFdeRangeContaining(rs: seq<Range>, addr: int) returns (r: Option<Range>)
    ensures r == FdeLookup(rs, addr)
  {
    var index := BisectRight(RangeStarts(rs), addr) - 1;
    while index >= 0
      invariant -1 <= index < |rs|
      invariant FdeLookup(rs, addr) == FdeWalk(rs, addr, index)
    {
      var (start, end) := rs[index];
      if start < addr < end {
        return Some((start, end));
      }
      if end <= addr && index > 0 && rs[index - 1].1 <= addr {
        return None;
      }
      index := index - 1;
    }
    return None;
  }

  lemma {:induction false} WalkFinds(rs: seq<Range>, addr: int, index: int)
    requires -1 <= index < |rs| && NoneWithin(rs, index + 1, |rs|, addr)
    requires forall i :: 0 <= i <= index ==> rs[i].0 <= addr
    requires forall i :: index < i < |rs| ==> !ShadowedAt(rs, addr, i)
    ensures FdeWalk(rs, addr, index) == LastWithin(rs, addr) <==> !Shadowed(rs, addr)
    decreases index + 1
  {
    if index < 0 {
      LastWithinAt(rs, addr, -1);
    } else if Within(rs[index], addr) {
      LastWithinAt(rs, addr, index);
      NotShadowedFrom(rs, addr, index);
    } else if rs[index].1 <= addr && index > 0 && rs[index - 1].1 <= addr {
      GivenUp(rs, addr, index);
    } else {
      WalkFinds(rs, addr, index - 1);
    }
  }

  /** The lookup finds what a search of the whole list finds, exactly when no pair of neighbours shadows the range. */
  lemma FdeLookupFinds(rs: seq<Range>, addr: int)
    requires StartsInOrder(rs)
    ensures FdeLookup(rs, addr) == LastWithin(rs, addr) <==> !Shadowed(rs, addr)
  {
    RangeStartsSplit(rs, addr);
    WalkFinds(rs, addr, BisectRight(RangeStarts(rs), addr) - 1);
  }

  lemma NotShadowedFrom(rs: seq<Range>, addr: int, k: nat)
    requires k < |rs| && Within(rs[k], addr) && forall i :: k < i < |rs| ==> !ShadowedAt(rs, addr, i)
    ensures !Shadowed(rs, addr)
  {
  }

  lemma GivenUp(rs: seq<Range>, addr: int, k: nat)
    requires 0 < k < |rs| && rs[k].0 <= addr && rs[k].1 <= addr && rs[k - 1].1 <= addr
    requires NoneWithin(rs, k + 1, |rs|, addr) && forall i :: k < i < |rs| ==> !ShadowedAt(rs, addr, i)
    ensures LastWithin(rs, addr) == None <==> !Shadowed(rs, addr)
  {
    if j :| 0 <= j < k - 1 && Within(rs[j], addr) {
      assert ShadowedAt(rs, addr, k);
      LastWithinSome(rs, addr, j);
    } else {
      LastWithinAt(rs, addr, -1);
    }
  }

  lemma {:induction false} LastWithinSome(rs: seq<Range>, addr: int, j: nat)
    requires j < |rs| && Within(rs[j], addr)
    ensures LastWithin(rs, addr).Some?
  {
    if j < |rs| - 1 {
      LastWithinSome(rs[..|rs| - 1], addr, j);
    }
  }

  /** No range begins before an earlier one has ended. */
  ghost predicate Disjoint(rs: seq<Range>) {
    forall i, j :: 0 <= i < j < |rs| ==> rs[i].1 <= rs[j].0
  }

  /** Disjoint ranges are never shadowed. */
  lemma DisjointIsNeverShadowed(rs: seq<Range>, addr: int)
    requires Disjoint(rs)
    ensures !Shadowed(rs, addr)
  {
  }

  /** A range with two short ones nested in it is missed behind them. */
  lemma NestedIsShadowed()
    ensures var rs := [(0, 100), (10, 20), (30, 40)];
      && StartsInOrder(rs) && LastWithin(rs, 50) == Some((0, 100)) && Shadowed(rs, 50)
      && FdeLookup(rs, 50) == None
  {
    var rs := [(0, 100), (10, 20), (30, 40)];
    LastWithinAt(rs, 50, 0);
    assert Within(rs[0], 50) && ShadowedAt(rs, 50, 2);
    FdeLookupFinds(rs, 50);
  }

  // ----- merged ranges

  predicate RangeOrder(a: Range, b: Range) {
    a.0 < b.0 || (a.0 == b.0 && a.1 <= b.1)
  }

  ghost predicate InSome(rs: seq<Range>, addr: int) {
    exists r :: r in rs && r.0 <= addr < r.1
  }

  /** Ranges in order, each ending before the next one begins. */
  ghost predicate Separate(rs: seq<Range>) {
    StartsInOrder(rs) && forall i, j :: 0 <= i < j < |rs| ==> rs[i].1 < rs[j].0
  }

  ghost predicate SameUnion(p: seq<Range>, q: seq<Range>) {
    forall a :: InSome(p, a) <==> InSome(q, a)
  }

  lemma InSomeSnoc(rs: seq<Range>, r: Range, a: int)
    ensures InSome(rs + [r], a) <==> InSome(rs, a) || r.0 <= a < r.1
  {
    if InSome(rs, a) {
      var q :| q in rs && q.0 <= a < q.1;
      assert q in rs + [r];
    }
    assert r in rs + [r];
  }

  lemma Append(merged: seq<Range>, before: seq<Range>, r: Range)
    requires SameUnion(merged, before)
    ensures SameUnion(merged + [r], before + [r])
  {
    forall a
      ensures InSome(merged + [r], a) <==> InSome(before + [r], a)
    {
      InSomeSnoc(merged, r, a);
      InSomeSnoc(before, r, a);
    }
  }

  /** A range that begins inside the last one, or where it ends, is joined to it. */
  lemma Join(front: seq<Range>, last: Range, before: seq<Range>, r: Range)
    requires SameUnion(front + [last], before) && last.0 <= r.0 <= last.1
    ensures SameUnion(front + [(last.0, if last.1 >= r.1 then last.1 else r.1)], before + [r])
  {
    forall a
      ensures InSome(front + [(last.0, if last.1 >= r.1 then last.1 else r.1)], a) <==> InSome(before + [r], a)
    {
      InSomeSnoc(front, last, a);
      InSomeSnoc(front, (last.0, if last.1 >= r.1 then last.1 else r.1), a);
      InSomeSnoc(before, r, a);
    }
  }

  ghost predicate NotPast(rs: seq<Range>, start: int) {
    forall i :: 0 <= i < |rs| ==> rs[i].0 <= start
  }

  /** One more range, not before any of those merged so far. */
  function WithRange(merged: seq<Range>, r: Range): seq<Range> {
    if merged != [] && r.0 <= merged[|merged| - 1].1
    then merged[..|merged| - 1]
         + [(merged[|merged| - 1].0, if merged[|merged| - 1].1 >= r.1 then merged[|merged| - 1].1 else r.1)]
    else merged + [r]
  }

  function MergeAll(rs: seq<Range>): seq<Range> {
    if rs == [] then [] else WithRange(MergeAll(rs[..|rs| - 1]), rs[|rs| - 1])
  }

  function Merged(ranges: seq<Range>): seq<Range> {
    MergeAll(SortedBy(RangeOrder, ranges))
  }

  lemma WithRangeKeeps(merged: seq<Range>, before: seq<Range>, r: Range)
    requires Separate(merged) && SameUnion(merged, before) && NotPast(merged, r.0)
    ensures SameUnion(WithRange(merged, r), before + [r])
    ensures NotPast(WithRange(merged, r), r.0)
  {
    if merged != [] && r.0 <= merged[|merged| - 1].1 {
      var front, last := merged[..|merged| - 1], merged[|merged| - 1];
      assert merged == front + [last];
      Join(front, last, before, r);
    } else {
      Append(merged, before, r);
    }
  }

  lemma WithRangeSeparates(merged: seq<Range>, r: Range)
    requires Separate(merged) && NotPast(merged, r.0)
    ensures Separate(WithRange(merged, r))
  {
  }

  lemma NotPastNext(rs: seq<Range>, sorted: seq<Range>, k: nat)
    requires Ordered(RangeOrder, sorted) && k < |sorted| && NotPast(rs, sorted[k].0)
    ensures k + 1 < |sorted| ==> NotPast(rs, sorted[k + 1].0)
  {
    assert k + 1 < |sorted| ==> RangeOrder(sorted[k], sorted[k + 1]);
  }

  lemma {:induction false} MergeAllKeeps(sorted: seq<Range>)
    requires Ordered(RangeOrder, sorted)
    ensures Separate(MergeAll(sorted)) && SameUnion(MergeAll(sorted), sorted)
    ensures sorted != [] ==> NotPast(MergeAll(sorted), sorted[|sorted| - 1].0)
  {
    if sorted != [] {
      var k := |sorted| - 1;
      var before, r := sorted[..k], sorted[k];
      assert sorted == before + [r];
      MergeAllKeeps(before);
      if before != [] {
        NotPastNext(MergeAll(before), sorted, k - 1);
      }
      WithRangeKeeps(MergeAll(before), before, r);
      WithRangeSeparates(MergeAll(before), r);
    }
  }

  /** Merging keeps the addresses and leaves the ranges separate, whatever their order and however they overlap. */
  lemma MergingKeepsTheUnion(ranges: seq<Range>)
    ensures Separate(Merged(ranges)) && SameUnion(Merged(ranges), ranges)
  {
    SortIsAPermutation(RangeOrder, ranges);
    MergeAllKeeps(SortedBy(RangeOrder, ranges));
    forall a
      ensures InSome(SortedBy(RangeOrder, ranges), a) <==> InSome(ranges, a)
    {
      SameMembersSameUnion(SortedBy(RangeOrder, ranges), ranges, a);
    }
  }

  /** The ranges sorted, with those that meet or overlap joined. */
  method MergedRanges(ranges: seq<Range>) returns (merged: seq<Range>)
    ensures merged == Merged(ranges)
  {
    var sorted := SortedBy(RangeOrder, ranges);
    merged := [];
    var k := 0;
    while k < |sorted|
      invariant k <= |sorted| && merged == MergeAll(sorted[..k])
    {
      assert sorted[..k + 1][..k] == sorted[..k];
      var (start, end) := sorted[k];
      if merged != [] && start <= merged[|merged| - 1].1 {
        var last := merged[|merged| - 1];
        merged := merged[..|merged| - 1] + [(last.0, if last.1 >= end then last.1 else end)];
      } else {
        merged := merged + [(start, end)];
      }
      k := k + 1;
    }
    assert sorted[..k] == sorted;
  }

  lemma SameMembersSameUnion(p: seq<Range>, q: seq<Range>, a: int)
    requires SameMembers(p, q)
    ensures InSome(p, a) <==> InSome(q, a)
  {
  }

  /** Whether an address lies in the ranges, by bisection. */
  predicate InMerged(merged: seq<Range>, addr: int) {
    var index := BisectRight(RangeStarts(merged), addr) - 1;
    index >= 0 && addr < merged[index].1
  }

  lemma BisectionFindsSeparate(merged: seq<Range>, addr: int)
    requires Separate(merged)
    ensures InMerged(merged, addr) <==> InSome(merged, addr)
  {
    RangeStartsSplit(merged, addr);
    var index := BisectRight(RangeStarts(merged), addr) - 1;
    if InMerged(merged, addr) {
      assert merged[index] in merged;
    }
    if r :| r in merged && r.0 <= addr < r.1 {
      var i :| 0 <= i < |merged| && merged[i] == r;
      assert i <= index;
      assert i < index ==> merged[i].1 < merged[index].0;
    }
  }

  /** Asked of the merged ranges, bisection answers as a search of the original ones does. */
  lemma BisectionFindsRange(ranges: seq<Range>, addr: int)
    ensures InMerged(Merged(ranges), addr) <==> InSome(ranges, addr)
  {
    MergingKeepsTheUnion(ranges);
    BisectionFindsSeparate(Merged(ranges), addr);
  }
}
