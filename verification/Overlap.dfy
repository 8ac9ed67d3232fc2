/** Leaving out functions so that no two of different architectures claim the same bytes. */
module Overlap {
  import opened Collections

  type Arch = string

  datatype BasicBlock = BasicBlock(start: int, end: int, arch: Arch, hasInvalidInstructions: bool)

  datatype Function = Function(start: int, arch: Arch, blocks: seq<BasicBlock>)

  /** A block of a function in the function's own architecture. */
  predicate IsOwn(f: Function, b: BasicBlock) {
    b in f.blocks && b.arch == f.arch
  }

  predicate HoldsByte(b: BasicBlock, x: int) {
    b.start <= x < b.end
  }

  ghost predicate ShareByte(a: BasicBlock, b: BasicBlock) {
    exists x :: HoldsByte(a, x) && HoldsByte(b, x)
  }

  /** Two functions of different architectures with own blocks that share a byte. */
  ghost predicate Clash(f: Function, g: Function) {
    f.arch != g.arch && exists a, b :: IsOwn(f, a) && IsOwn(g, b) && ShareByte(a, b)
  }

  ghost predicate NonEmptyBlocks(f: Function) {
    forall b :: b in f.blocks ==> b.start < b.end
  }

  // ----- spans

  /** An own block, with the architecture and the index of its function. */
  datatype Span = Span(start: int, end: int, arch: Arch, index: nat)

  predicate SpanOrder(a: Span, b: Span) {
    a.start < b.start || (a.start == b.start && a.end <= b.end)
  }

  ghost predicate IsSpanOf(s: Span, fs: seq<Function>) {
    s.index < |fs| && exists b :: IsOwn(fs[s.index], b) && s == Span(b.start, b.end, b.arch, s.index)
  }

  function BlockSpans(blocks: seq<BasicBlock>, arch: Arch, index: nat): (ss: seq<Span>)
    ensures forall s :: s in ss <==> exists b :: b in blocks && b.arch == arch && s == Span(b.start, b.end, arch, index)
  {
    if blocks == [] then [] else
      var b := blocks[|blocks| - 1];
      assert blocks == blocks[..|blocks| - 1] + [b];
      BlockSpans(blocks[..|blocks| - 1], arch, index)
      + if b.arch == arch then [Span(b.start, b.end, arch, index)] else []
  }

  function SpansOf(fs: seq<Function>): (ss: seq<Span>)
    ensures forall s :: s in ss <==> IsSpanOf(s, fs)
  {
    if fs == [] then [] else
      var n := |fs| - 1;
      var before := SpansOf(fs[..n]);
      assert forall s :: IsSpanOf(s, fs) <==> IsSpanOf(s, fs[..n]) || s in BlockSpans(fs[n].blocks, fs[n].arch, n);
      before + BlockSpans(fs[n].blocks, fs[n].arch, n)
  }

  // ----- the sweep

  /** The first span, not after the second one, reaches past its start. */
  predicate Reaches(a: Span, b: Span) {
    a.arch != b.arch && a.end > b.start
  }

  function Past(active: seq<Span>, start: int): (rest: seq<Span>)
    ensures forall s :: s in rest <==> s in active && s.end > start
  {
    if active == [] then [] else
      var last := active[|active| - 1];
      assert active == active[..|active| - 1] + [last];
      Past(active[..|active| - 1], start) + if last.end > start then [last] else []
  }

  /** A pair the sweep over the first k spans has met. */
  ghost predicate Met(spans: seq<Span>, k: nat, i: nat, j: nat) {
    exists m, n :: 0 <= m < n < k <= |spans|
      && spans[m].index == i && spans[n].index == j && Reaches(spans[m], spans[n])
  }

  /** The pairs of functions with spans of different architectures, of which the first reaches past the start of the
      second. Only spans that may still reach that far are kept at hand. */
  method SweepSpans(spans: seq<Span>) returns (conflicts: set<(nat, nat)>)
    requires Ordered(SpanOrder, spans)
    ensures forall i: nat, j: nat :: (i, j) in conflicts <==> Met(spans, |spans|, i, j)
  {
    conflicts := {};
    var active: seq<Span> := [];
    var k := 0;
    while k < |spans|
      invariant k <= |spans|
      invariant forall s :: s in active ==> s in spans[..k]
      invariant k > 0 ==> forall m :: 0 <= m < k && spans[m].end > spans[k - 1].start ==> spans[m] in active
      invariant forall i: nat, j: nat :: (i, j) in conflicts <==> Met(spans, k, i, j)
    {
      var span := spans[k];
      assert k > 0 ==> SpanOrder(spans[k - 1], span);
      active := Past(active, span.start);
      assert forall m :: 0 <= m < k ==> (spans[m] in active <==> spans[m].end > span.start);
      var found := set s | s in active && s.arch != span.arch :: (s.index, span.index);
      MetMore(spans, k, active, conflicts, found);
      conflicts := conflicts + found;
      active := active + [span];
      k := k + 1;
    }
  }

  lemma MetMore(spans: seq<Span>, k: nat, active: seq<Span>, conflicts: set<(nat, nat)>, found: set<(nat, nat)>)
    requires k < |spans|
    requires forall i: nat, j: nat :: (i, j) in conflicts <==> Met(spans, k, i, j)
    requires forall s :: s in active ==> s in spans[..k]
    requires forall m :: 0 <= m < k ==> (spans[m] in active <==> spans[m].end > spans[k].start)
    requires found == set s | s in active && s.arch != spans[k].arch :: (s.index, spans[k].index)
    ensures forall i: nat, j: nat :: (i, j) in conflicts + found <==> Met(spans, k + 1, i, j)
  {
    forall i: nat, j: nat
      ensures (i, j) in conflicts + found <==> Met(spans, k + 1, i, j)
    {
      if (i, j) in found {
        var s :| s in active && s.arch != spans[k].arch && (s.index, spans[k].index) == (i, j);
        var m :| 0 <= m < k && spans[m] == s;
        assert Reaches(spans[m], spans[k]);
      }
      if Met(spans, k + 1, i, j) {
        var m, n :| 0 <= m < n < k + 1 && spans[m].index == i && spans[n].index == j && Reaches(spans[m], spans[n]);
        if n == k {
          assert spans[m] in active;
        } else {
          assert Met(spans, k, i, j);
        }
      }
    }
  }

  ghost predicate ClashAt(fs: seq<Function>, i: nat, j: nat) {
    i < |fs| && j < |fs| && Clash(fs[i], fs[j])
  }

  lemma MetIsClash(fs: seq<Function>, spans: seq<Span>, i: nat, j: nat)
    requires (forall f :: f in fs ==> NonEmptyBlocks(f)) && Ordered(SpanOrder, spans)
    requires forall s :: s in spans <==> IsSpanOf(s, fs)
    ensures Met(spans, |spans|, i, j) ==> ClashAt(fs, i, j) && ClashAt(fs, j, i)
  {
    if Met(spans, |spans|, i, j) {
      var m, n :| 0 <= m < n < |spans| && spans[m].index == i && spans[n].index == j && Reaches(spans[m], spans[n]);
      assert SpanOrder(spans[m], spans[n]);
      var p, q := spans[m], spans[n];
      assert p in spans && q in spans;
      var a :| IsOwn(fs[i], a) && p == Span(a.start, a.end, a.arch, i);
      var b :| IsOwn(fs[j], b) && q == Span(b.start, b.end, b.arch, j);
      assert NonEmptyBlocks(fs[j]) by {
        assert fs[j] in fs;
      }
      assert HoldsByte(a, b.start) && HoldsByte(b, b.start);
      assert ShareByte(a, b) && ShareByte(b, a);
    }
  }

  lemma ClashIsMet(fs: seq<Function>, spans: seq<Span>, i: nat, j: nat)
    requires Ordered(SpanOrder, spans) && ClashAt(fs, i, j)
    requires forall s :: s in spans <==> IsSpanOf(s, fs)
    ensures Met(spans, |spans|, i, j) || Met(spans, |spans|, j, i)
  {
    var a, b :| IsOwn(fs[i], a) && IsOwn(fs[j], b) && ShareByte(a, b);
    var x :| HoldsByte(a, x) && HoldsByte(b, x);
    var p, q := Span(a.start, a.end, a.arch, i), Span(b.start, b.end, b.arch, j);
    assert IsSpanOf(p, fs) && IsSpanOf(q, fs);
    var m :| 0 <= m < |spans| && spans[m] == p;
    var n :| 0 <= n < |spans| && spans[n] == q;
    if m < n {
      assert SpanOrder(spans[m], spans[n]) && Reaches(spans[m], spans[n]);
    } else {
      assert SpanOrder(spans[n], spans[m]) && Reaches(spans[n], spans[m]);
    }
  }

  /** The sweep finds exactly the pairs of functions that clash. */
  method FindConflicts(fs: seq<Function>) returns (conflicts: set<(nat, nat)>)
    requires forall f :: f in fs ==> NonEmptyBlocks(f)
    ensures forall i: nat, j: nat :: (i, j) in conflicts || (j, i) in conflicts <==> ClashAt(fs, i, j)
  {
    var spans := SortedBy(SpanOrder, SpansOf(fs));
    SortIsAPermutation(SpanOrder, SpansOf(fs));
    conflicts := SweepSpans(spans);
    forall i: nat, j: nat
      ensures (i, j) in conflicts || (j, i) in conflicts <==> ClashAt(fs, i, j)
    {
      MetIsClash(fs, spans, i, j);
      MetIsClash(fs, spans, j, i);
      if ClashAt(fs, i, j) {
        ClashIsMet(fs, spans, i, j);
      }
    }
  }

  // ----- who is kept

  /** What speaks for a function: no invalid instructions, then references to its start, then an early start, then an
      early place in the list. */
  datatype Evidence = Evidence(valid: bool, references: nat, start: int, index: nat)

  predicate AtLeast(a: Evidence, b: Evidence) {
    if a.valid != b.valid then a.valid
    else if a.references != b.references then a.references > b.references
    else if a.start != b.start then a.start < b.start
    else a.index <= b.index
  }

  predicate HasInvalidInstructions(f: Function) {
    exists i :: 0 <= i < |f.blocks| && f.blocks[i].arch == f.arch && f.blocks[i].hasInvalidInstructions
  }

  /** The evidence for the function at an index; `references` counts the code references to an address. */
  function EvidenceOf(fs: seq<Function>, references: int -> nat, i: nat): Evidence {
    if i < |fs| then Evidence(!HasInvalidInstructions(fs[i]), references(fs[i].start), fs[i].start, i)
    else Evidence(false, 0, 0, i)
  }

  /** The order from more evidence to less. */
  function ByEvidence(fs: seq<Function>, references: int -> nat): (nat, nat) -> bool {
    (i: nat, j: nat) => AtLeast(EvidenceOf(fs, references, i), EvidenceOf(fs, references, j))
  }

  ghost predicate Prefers(fs: seq<Function>, references: int -> nat, i: nat, j: nat) {
    i != j && AtLeast(EvidenceOf(fs, references, i), EvidenceOf(fs, references, j))
  }

  ghost predicate OwnsInvalid(f: Function) {
    exists b :: IsOwn(f, b) && b.hasInvalidInstructions
  }

  /** One function has more evidence than another: only the other owns a block with invalid instructions; or they are
      alike in that and it is referenced more often; or also in that and it starts lower; or it only comes earlier. */
  ghost predicate MoreEvidence(fs: seq<Function>, references: int -> nat, i: nat, j: nat) {
    && i < |fs| && j < |fs|
    && var f, g := fs[i], fs[j];
    || (!OwnsInvalid(f) && OwnsInvalid(g))
    || (&& (OwnsInvalid(f) <==> OwnsInvalid(g))
        && (|| references(f.start) > references(g.start)
            || (references(f.start) == references(g.start) && (f.start < g.start || (f.start == g.start && i < j)))))
  }

  lemma InvalidIsOwned(f: Function)
    ensures HasInvalidInstructions(f) <==> OwnsInvalid(f)
  {
    if b :| IsOwn(f, b) && b.hasInvalidInstructions {
      var i :| 0 <= i < |f.blocks| && f.blocks[i] == b;
    }
    if i :| 0 <= i < |f.blocks| && f.blocks[i].arch == f.arch && f.blocks[i].hasInvalidInstructions {
      assert IsOwn(f, f.blocks[i]);
    }
  }

  lemma PreferredHasMore(fs: seq<Function>, references: int -> nat, i: nat, j: nat)
    requires i < |fs| && j < |fs|
    ensures Prefers(fs, references, i, j) <==> MoreEvidence(fs, references, i, j)
  {
    InvalidIsOwned(fs[i]);
    InvalidIsOwned(fs[j]);
  }

  function RivalsOf(conflicts: set<(nat, nat)>, i: nat): set<nat> {
    (set c | c in conflicts && c.0 == i :: c.1) + (set c | c in conflicts && c.1 == i :: c.0)
  }

  /** The members of a set, in some order. */
  method Listed(s: set<nat>) returns (q: seq<nat>)
    ensures NoDuplicates(q) && forall x :: x in q <==> x in s
  {
    q := [];
    var todo := s;
    while todo != {}
      invariant todo <= s && NoDuplicates(q)
      invariant forall x :: x in q <==> x in s && x !in todo
      decreases |todo|
    {
      var x := Any(todo);
      q := q + [x];
      todo := todo - {x};
    }
  }

  /** Members of the order, the preferred first, sorted into those kept and those that lose. */
  ghost predicate Settled(fs: seq<Function>, references: int -> nat, order: seq<nat>, kept: set<nat>,
      losers: set<nat>) {
    && kept !! losers
    && (forall i :: i in order <==> i in kept || i in losers)
    && (forall i, j :: i in kept && j in kept ==> !ClashAt(fs, i, j))
    && (forall l :: l in losers ==> BeatenBy(fs, references, kept, l))
  }

  /** Some kept function clashes with it and has more evidence. */
  ghost predicate BeatenBy(fs: seq<Function>, references: int -> nat, kept: set<nat>, l: nat) {
    exists k :: k in kept && ClashAt(fs, k, l) && Prefers(fs, references, k, l)
  }

  lemma Decide(fs: seq<Function>, references: int -> nat, order: seq<nat>, i: nat, kept: set<nat>, losers: set<nat>,
      rivals: set<nat>)
    requires Settled(fs, references, order, kept, losers) && i !in order
    requires forall k :: k in order ==> Prefers(fs, references, k, i)
    requires forall k :: k in rivals <==> ClashAt(fs, k, i)
    ensures if rivals * kept != {} then Settled(fs, references, order + [i], kept, losers + {i})
            else Settled(fs, references, order + [i], kept + {i}, losers)
  {
    if rivals * kept != {} {
      var k := Member(rivals * kept);
      assert ClashAt(fs, k, i) && Prefers(fs, references, k, i);
      assert BeatenBy(fs, references, kept, i);
    } else {
      forall a, b | a in kept + {i} && b in kept + {i}
        ensures !ClashAt(fs, a, b)
      {
        ClashIsSymmetric(fs, a, b);
        assert a in kept ==> a !in rivals;
        assert b in kept ==> b !in rivals;
      }
      forall l | l in losers
        ensures BeatenBy(fs, references, kept + {i}, l)
      {
        assert BeatenBy(fs, references, kept, l);
      }
    }
  }

  lemma ClashIsSymmetric(fs: seq<Function>, i: nat, j: nat)
    ensures ClashAt(fs, i, j) <==> ClashAt(fs, j, i)
  {
    assert forall a, b :: ShareByte(a, b) ==> ShareByte(b, a);
  }

  lemma EvidenceOrders(fs: seq<Function>, references: int -> nat)
    ensures Orders(ByEvidence(fs, references))
  {
  }

  /** The functions that lose are left out of the sorted rivals one by one. */
  method Greedy(fs: seq<Function>, references: int -> nat, order: seq<nat>, conflicts: set<(nat, nat)>)
    returns (kept: set<nat>, losers: set<nat>)
    requires Ordered(ByEvidence(fs, references), order) && NoDuplicates(order)
    requires forall i: nat, j: nat :: (i, j) in conflicts || (j, i) in conflicts <==> ClashAt(fs, i, j)
    ensures Settled(fs, references, order, kept, losers)
  {
    kept, losers := {}, {};
    var k := 0;
    while k < |order|
      invariant k <= |order| && Settled(fs, references, order[..k], kept, losers)
    {
      var i := order[k];
      assert order[..k + 1] == order[..k] + [i];
      forall j | j in order[..k]
        ensures Prefers(fs, references, j, i)
      {
        var m :| 0 <= m < k && order[m] == j;
        assert ByEvidence(fs, references)(order[m], order[k]);
      }
      Decide(fs, references, order[..k], i, kept, losers, RivalsOf(conflicts, i));
      if RivalsOf(conflicts, i) * kept != {} {
        losers := losers + {i};
      } else {
        kept := kept + {i};
      }
      k := k + 1;
    }
    assert order[..k] == order;
  }

  lemma OneArch(fs: seq<Function>, archs: set<Arch>)
    requires archs == (set f | f in fs :: f.arch) && |archs| < 2
    ensures forall i: nat, j: nat :: !ClashAt(fs, i, j)
  {
    forall i: nat, j: nat
      ensures !ClashAt(fs, i, j)
    {
      if i < |fs| && j < |fs| && fs[i].arch != fs[j].arch {
        assert fs[i] in fs && fs[j] in fs;
        SubsetCardinality({fs[i].arch, fs[j].arch}, archs);
        assert false;
      }
    }
  }

  /** The indices of the functions left out. Among the rest no two of different architectures share a byte, and each
      one left out shares a byte with a function that stays and has more evidence. */
  method ModeOverlapLosers(fs: seq<Function>, references: int -> nat) returns (losers: set<nat>)
    requires forall f :: f in fs ==> NonEmptyBlocks(f)
    ensures forall i: nat, j: nat :: i !in losers && j !in losers ==> !ClashAt(fs, i, j)
    ensures forall l :: l in losers ==>
      exists k: nat :: k !in losers && ClashAt(fs, k, l) && MoreEvidence(fs, references, k, l)
  {
    var archs := set f | f in fs :: f.arch;
    if |archs| < 2 {
      OneArch(fs, archs);
      return {};
    }
    var conflicts := FindConflicts(fs);
    var rivals := (set c | c in conflicts :: c.0) + (set c | c in conflicts :: c.1);
    var listed := Listed(rivals);
    EvidenceOrders(fs, references);
    SortIsAPermutation(ByEvidence(fs, references), listed);
    var order := SortedBy(ByEvidence(fs, references), listed);
    PermutationKeepsDistinct(listed, order);
    var kept;
    kept, losers := Greedy(fs, references, order, conflicts);
    forall l | l in losers
      ensures exists k: nat :: k !in losers && ClashAt(fs, k, l) && MoreEvidence(fs, references, k, l)
    {
      assert BeatenBy(fs, references, kept, l);
      var k :| k in kept && ClashAt(fs, k, l) && Prefers(fs, references, k, l);
      PreferredHasMore(fs, references, k, l);
    }
  }
}
