/** The scan of the bytes no function claimed (AArch64): a pointer that moves from skip to skip. */
module GapScan {
  import opened AddressReferences
  import opened Collections
  import opened DeclaredRanges
  import opened Disassembly
  import opened FunctionGaps
  import opened Recording

  // ----- instruction words

  const NOP: bv32 := 0xD503201F
  const BTI_PROLOGUES: set<bv32> := {0xD503241F, 0xD503245F, 0xD503249F, 0xD50324DF}
  const GAP_RUN_LIMIT: nat := 0x400

  predicate IsReturn(word: bv32) {
    word & 0xFFFFFC1F == 0xD65F0000
  }

  predicate IsIndirectBranch(word: bv32) {
    word & 0xFFFFFC1F == 0xD61F0000
  }

  predicate IsBranch(word: bv32) {
    word & 0xFC000000 == 0x14000000
  }

  predicate IsTrap(word: bv32) {
    word & 0xFFFF0000 == 0x00000000 || word & 0xFFE0001F == 0xD4200000 || word & 0xFFE0001F == 0xD4400000
  }

  /** What ends the block a landing pad labels. */
  predicate EndsRun(word: bv32) {
    IsReturn(word) || IsIndirectBranch(word) || IsBranch(word) || IsTrap(word)
  }

  /** The encodings: RET and BR of a register, B with an offset, UDF, BRK and HLT with a number. */
  lemma WordsInPlainTerms(register: bv32, offset: bv32, number: bv32)
    requires register < 32 && offset < 0x4000000 && number < 0x10000
    ensures IsReturn(0xD65F0000 | (register << 5)) && IsIndirectBranch(0xD61F0000 | (register << 5))
    ensures IsBranch(0x14000000 | offset) && !IsBranch(0x94000000 | offset)
    ensures IsTrap(number) && IsTrap(0xD4200000 | (number << 5)) && IsTrap(0xD4400000 | (number << 5))
  {
  }

  // ----- what the scan looks at

  /** What the scan sees of the disassembly: it changes from candidate to candidate. */
  datatype Snapshot = Snapshot(
    ins2fn: map<Address, Address>,
    borders: map<Address, (Address, Address)>,
    functions: set<Address>,
    dataMap: set<Address>)

  /** The image, the tables read from it, and the switches. The two shape tests are parameters. */
  datatype Setup = Setup(
    base: nat,
    size: nat,
    bitMask: nat,
    words: seq<bv32>,
    codeAreas: seq<Range>,
    execRanges: seq<Range>,
    usePdata: bool,
    pdataRanges: seq<Extent>,
    useLandingPads: bool,
    landingPads: set<Address>,
    useFdes: bool,
    fdeRanges: seq<Range>,
    pltRanges: seq<Range>,
    likelyInterior: (Snapshot, int) -> bool,
    flowsIntoInterior: (Snapshot, int) -> bool)
  {
    function End(): nat {
      base + size
    }

    /** The word that holds the byte at an address. */
    function Word(addr: int): bv32
      requires base <= addr && addr + 4 <= End() && |words| == size / 4
    {
      words[(addr - base) / 4]
    }

    predicate PassesCodeFilter(addr: int) {
      codeAreas == [] || InMerged(Merged(codeAreas), addr)
    }

    predicate Executable(addr: int) {
      Merged(execRanges) == [] || InMerged(Merged(execRanges), addr)
    }

    predicate InPlt(addr: int) {
      exists i :: 0 <= i < |pltRanges| && pltRanges[i].0 <= addr < pltRanges[i].1
    }
  }

  /** What the scan sees of a result. */
  function SnapshotOf(d: Result): Snapshot {
    Snapshot(d.ins2fn, d.borders, d.functions.Keys, d.dataMap)
  }

  /** The byte lies before the end of its function. */
  predicate EnclosedAt(d: Snapshot, p: Address)
    requires p in d.ins2fn
  {
    d.ins2fn[p] in d.borders && d.borders[d.ins2fn[p]].1 > p
  }

  /** An exact owner map encloses every byte. */
  lemma OwnedIsEnclosed(d: Result, p: Address)
    requires Owned(d) && p in d.ins2fn
    ensures EnclosedAt(SnapshotOf(d), p)
  {
    BordersEnclose(d, p);
  }

  // ----- the steps

  function GapStarts(gaps: seq<Gap>): (starts: seq<int>)
    ensures |starts| == |gaps| && forall i :: 0 <= i < |gaps| ==> starts[i] == gaps[i].start
  {
    seq(|gaps|, i requires 0 <= i < |gaps| => gaps[i].start)
  }

  ghost predicate Valid(g: Setup, gaps: seq<Gap>) {
    |g.words| == g.size / 4 && NonDecreasing(GapStarts(gaps))
  }

  /** The next gap after the pointer, or the end of the image; with `dontSkip`, no further than the end of the
      function the pointer is in. An address mask inside the image is offered while it is still ahead. There is none,
      but a KeyError, if that function has no borders. */
  function NextGap(g: Setup, gaps: seq<Gap>, d: Snapshot, pointer: int, dontSkip: bool): (next: Option<int>)
    ensures next == None <==> dontSkip && pointer in d.ins2fn && d.ins2fn[pointer] !in d.borders
  {
    var i := BisectRight(GapStarts(gaps), pointer);
    var next :=
      if i < |gaps| then gaps[i].start
      else if g.base <= pointer < g.bitMask < g.End() then g.bitMask else g.End();
    if dontSkip && pointer in d.ins2fn then
      if d.ins2fn[pointer] !in d.borders then None
      else if d.borders[d.ins2fn[pointer]].1 < next then Some(d.borders[d.ins2fn[pointer]].1) else Some(next)
    else Some(next)
  }

  /** From inside the image there is a next gap, and it is ahead, exactly when the function the pointer is in, if that
      is asked for, encloses it: an owner whose function ends before the pointer would hold the scan where it is, and
      one without borders would end it with an error. */
  lemma NextGapIsAhead(g: Setup, gaps: seq<Gap>, d: Snapshot, pointer: int, dontSkip: bool)
    requires NonDecreasing(GapStarts(gaps)) && pointer < g.End()
    ensures var next := NextGap(g, gaps, d, pointer, dontSkip);
      next.Some? && next.value > pointer <==> (dontSkip && pointer in d.ins2fn ==> EnclosedAt(d, pointer))
  {
    BisectRightSplits(GapStarts(gaps), pointer);
  }

  /** It is the next one: no gap begins between the pointer and there, unless the function the pointer is in ends
      first, and a gap begins there, or it is that end, the address mask or the end of the image. */
  lemma NextGapIsNearest(g: Setup, gaps: seq<Gap>, d: Snapshot, pointer: int, dontSkip: bool)
    requires NonDecreasing(GapStarts(gaps)) && NextGap(g, gaps, d, pointer, dontSkip).Some?
    ensures var next := NextGap(g, gaps, d, pointer, dontSkip).value;
      && (forall k :: 0 <= k < |gaps| ==> !(pointer < gaps[k].start < next))
      && (|| next == g.End()
          || (next == g.bitMask && g.base <= pointer < next)
          || (exists k :: 0 <= k < |gaps| && gaps[k].start == next && next > pointer)
          || (dontSkip && pointer in d.ins2fn && next == d.borders[d.ins2fn[pointer]].1))
      && (dontSkip && pointer in d.ins2fn ==> next <= d.borders[d.ins2fn[pointer]].1)
  {
    BisectRightSplits(GapStarts(gaps), pointer);
    var i := BisectRight(GapStarts(gaps), pointer);
    forall k | 0 <= k < |gaps|
      ensures gaps[k].start > pointer ==> i < |gaps| && gaps[k].start >= gaps[i].start
    {
      assert GapStarts(gaps)[k] == gaps[k].start;
    }
  }

  /** Where the scan resumes after a refused landing pad: behind the first terminator in reach, or at the next word. */
  function EndOfRun(g: Setup, start: int, addr: int): (end: int)
    requires |g.words| == g.size / 4 && g.base <= start < addr
    ensures end > start
    decreases start + GAP_RUN_LIMIT - addr
  {
    if addr + 4 <= g.End() && addr < start + GAP_RUN_LIMIT then
      if EndsRun(g.Word(addr)) then addr + 4 else EndOfRun(g, start, addr + 4)
    else start + 4
  }

  /** A terminator in reach of a run that begins at `start`. */
  predicate StopsRun(g: Setup, start: int, t: int) {
    |g.words| == g.size / 4 && g.base <= t && t + 4 <= g.End() && t < start + GAP_RUN_LIMIT && EndsRun(g.Word(t))
  }

  /** The walk ends behind the first terminator in reach; if there is none it is only one word long. */
  lemma {:induction false} EndOfRunIsFirstTerminator(g: Setup, start: int, addr: int)
    requires |g.words| == g.size / 4 && g.base <= start < addr
    ensures var end := EndOfRun(g, start, addr);
      || (end == start + 4 && forall t: int :: t >= addr && (t - addr) % 4 == 0 ==> !StopsRun(g, start, t))
      || (end - 4 >= addr && StopsRun(g, start, end - 4)
          && forall t: int :: addr <= t < end - 4 && (t - addr) % 4 == 0 ==> !StopsRun(g, start, t))
    decreases start + GAP_RUN_LIMIT - addr
  {
    if addr + 4 <= g.End() && addr < start + GAP_RUN_LIMIT && !EndsRun(g.Word(addr)) {
      EndOfRunIsFirstTerminator(g, start, addr + 4);
      assert forall t: int {:trigger StopsRun(g, start, t)} ::
        t > addr && (t - addr) % 4 == 0 ==> t >= addr + 4 && (t - (addr + 4)) % 4 == 0;
    }
  }

  /** The recovered function whose declared range and whose borders an address lies in: no candidate is analysed
      there. */
  function DeclaredInteriorOwner(g: Setup, d: Snapshot, a: int): Option<int> {
    var fde := if g.useFdes && !g.InPlt(a) then FdeLookup(g.fdeRanges, a) else None;
    var record := if fde == None && g.pdataRanges != [] && g.usePdata
      then LastInterior(SortedBy(ExtentOrder, g.pdataRanges), a) else None;
    var owner := if fde.Some? then Some(fde.value.0) else if record.Some? then Some(record.value.start) else None;
    if owner.Some? && owner.value in d.functions && owner.value in d.borders
       && d.borders[owner.value].0 <= a < d.borders[owner.value].1 then owner else None
  }

  /** No candidate is analysed inside the borders of a recovered function whose declared range it is in: the range of a
      frame description, outside a PLT, before one of the exception directory. Each of the two can be switched off. */
  lemma InteriorOwnerInPlainTerms(g: Setup, d: Snapshot, a: int, f: int)
    ensures DeclaredInteriorOwner(g, d, a) == Some(f) <==>
      && f in d.functions && f in d.borders && d.borders[f].0 <= a < d.borders[f].1
      && var fde, record := FdeLookup(g.fdeRanges, a), LastInterior(SortedBy(ExtentOrder, g.pdataRanges), a);
      if g.useFdes && !g.InPlt(a) && fde.Some? then fde.value.0 == f
      else g.usePdata && record.Some? && record.value.start == f
  {
    assert g.pdataRanges == [] ==> SortedBy(ExtentOrder, g.pdataRanges) == [];
  }

  /** What the scan does at an aligned address. */
  datatype Outcome = Finish | Skip(next: int) | Offer

  function AlignUp(pointer: int): int {
    (pointer + 3) / 4 * 4
  }

  /** The first reason to skip an address that is in the image and in no function: reasons that name where to go on. */
  function Declared(g: Setup, d: Snapshot, a: int): Option<int> {
    var record := LastInterior(SortedBy(ExtentOrder, g.pdataRanges), a);
    var fde := FdeLookup(g.fdeRanges, a);
    if g.pdataRanges != [] && g.usePdata && record.Some? && (record.value.fragment || record.value.start in d.functions)
    then Some(record.value.end)
    else if g.useLandingPads && a in g.landingPads
    then Some(if fde.Some? && fde.value.1 != 0 then fde.value.1 else a + 4)
    else if g.useFdes && !g.InPlt(a) && fde.Some? && fde.value.0 in d.functions
    then Some(fde.value.1)
    else None
  }

  function Step(g: Setup, gaps: seq<Gap>, d: Snapshot, previous: int, a: int): Outcome
    requires |g.words| == g.size / 4
  {
    if a < g.base || a + 4 > g.End() then Finish
    else if a in d.ins2fn then Skip(NextGap(g, gaps, d, a, false).value)
    else if a in d.dataMap then Skip(a + 4)
    else if !g.Executable(a) then Skip(NextExecutable(g, a))
    else StepAtWord(g, gaps, d, previous, a)
  }

  function StepAtWord(g: Setup, gaps: seq<Gap>, d: Snapshot, previous: int, a: int): Outcome
    requires |g.words| == g.size / 4 && g.base <= a && a + 4 <= g.End() && a !in d.ins2fn
  {
    var word, declared := g.Word(a), Declared(g, d, a);
    if word == 0 || word == NOP then Skip(a + 4)
    else if declared.Some? then Skip(declared.value)
    else StepByShape(g, gaps, d, previous, a, word)
  }

  function StepByShape(g: Setup, gaps: seq<Gap>, d: Snapshot, previous: int, a: int, word: bv32): Outcome
    requires |g.words| == g.size / 4 && g.base <= a && a !in d.ins2fn
  {
    if word in BTI_PROLOGUES && g.likelyInterior(d, a) then Skip(EndOfRun(g, a, a + 4))
    else if IsTrap(word) then Skip(a + 4)
    else if previous == a then Skip(NextGap(g, gaps, d, a, true).value)
    else if !g.PassesCodeFilter(a) then Skip(a + 4)
    else if g.flowsIntoInterior(d, a) then Skip(a + 4)
    else Offer
  }

  /** The start of the next executable range, or the end of the image. */
  function NextExecutable(g: Setup, a: int): int {
    var merged := Merged(g.execRanges);
    var following := BisectRight(RangeStarts(merged), a);
    if following < |merged| then merged[following].0 else g.End()
  }

  lemma NextExecutableIsAhead(g: Setup, a: int)
    requires a < g.End()
    ensures NextExecutable(g, a) > a
  {
    MergingKeepsTheUnion(g.execRanges);
    RangeStartsSplit(Merged(g.execRanges), a);
  }

  /** Nothing on the way there is executable. */
  lemma NextExecutableIsNearest(g: Setup, a: int, x: int)
    requires a < x < NextExecutable(g, a) && !g.Executable(a)
    ensures !g.Executable(x)
  {
    var merged := Merged(g.execRanges);
    MergingKeepsTheUnion(g.execRanges);
    RangeStartsSplit(merged, a);
    RangeStartsSplit(merged, x);
    FiltersAreUnions(g, a);
    FiltersAreUnions(g, x);
    SameUnionAt(g.execRanges, merged, a);
    SameUnionAt(g.execRanges, merged, x);
  }

  lemma SameUnionAt(p: seq<Range>, q: seq<Range>, a: int)
    requires SameUnion(p, q)
    ensures InSome(p, a) <==> InSome(q, a)
  {
  }

  lemma DeclaredIsAhead(g: Setup, d: Snapshot, a: int)
    requires Declared(g, d, a).Some?
    ensures Declared(g, d, a).value > a
  {
    LastInteriorFinds(SortedBy(ExtentOrder, g.pdataRanges), a);
  }

  /** Every skip leads ahead. */
  lemma SkipsLeadAhead(g: Setup, gaps: seq<Gap>, d: Snapshot, previous: int, a: int)
    requires Valid(g, gaps)
    ensures Step(g, gaps, d, previous, a).Skip? ==> Step(g, gaps, d, previous, a).next > a
  {
    if g.base <= a && a + 4 <= g.End() {
      NextGapIsAhead(g, gaps, d, a, false);
      NextGapIsAhead(g, gaps, d, a, true);
      NextExecutableIsAhead(g, a);
      if Declared(g, d, a).Some? {
        DeclaredIsAhead(g, d, a);
      }
    }
  }

  /** No record of the exception directory that speaks of the function it names has the address in its interior, it is
      no landing pad, and no recovered function's frame description covers it. Each of the three can be switched off. */
  ghost predicate Undeclared(g: Setup, d: Snapshot, a: int) {
    var record, fde := LastInterior(SortedBy(ExtentOrder, g.pdataRanges), a), FdeLookup(g.fdeRanges, a);
    && (g.usePdata && record.Some? ==> !record.value.fragment && record.value.start !in d.functions)
    && !(g.useLandingPads && a in g.landingPads)
    && (g.useFdes && fde.Some? && fde.value.0 in d.functions ==> g.InPlt(a))
  }

  lemma DeclaredIsNone(g: Setup, d: Snapshot, a: int)
    ensures Declared(g, d, a) == None <==> Undeclared(g, d, a)
  {
    assert g.pdataRanges == [] ==> SortedBy(ExtentOrder, g.pdataRanges) == [];
  }

  /** What the tables skip: the rest of a record or of a described range with the address in its interior, or a word
      that is a landing pad. */
  lemma DeclaredSkipsRanges(g: Setup, d: Snapshot, a: int)
    ensures var next := Declared(g, d, a);
      next.Some? ==>
        || (exists e :: e in g.pdataRanges && e.start <= a < e.end && e.end == next.value)
        || (exists r :: r in g.fdeRanges && r.0 < a < r.1 && r.1 == next.value)
        || (a in g.landingPads && next.value == a + 4)
  {
    LastInteriorFinds(SortedBy(ExtentOrder, g.pdataRanges), a);
    SortIsAPermutation(ExtentOrder, g.pdataRanges);
  }

  /** What an address must be to be proposed as a function start. */
  ghost predicate Proposable(g: Setup, d: Snapshot, a: int) {
    && a % 4 == 0 && g.base <= a && a + 4 <= g.End()
    && a !in d.ins2fn && a !in d.dataMap
    && (g.codeAreas == [] || InSome(g.codeAreas, a))
    && (g.execRanges == [] || InSome(g.execRanges, a))
    && Undeclared(g, d, a)
    && |g.words| == g.size / 4
    && var word := g.words[(a - g.base) / 4];
    && word != 0 && word != NOP && !IsTrap(word)
    && !(word in BTI_PROLOGUES && g.likelyInterior(d, a))
    && !g.flowsIntoInterior(d, a)
  }

  lemma FiltersAreUnions(g: Setup, a: int)
    ensures g.PassesCodeFilter(a) <==> g.codeAreas == [] || InSome(g.codeAreas, a)
    ensures g.Executable(a) <==> g.execRanges == [] || InSome(g.execRanges, a)
  {
    BisectionFindsRange(g.codeAreas, a);
    BisectionFindsRange(g.execRanges, a);
    if Merged(g.execRanges) == [] {
      NothingMerged(g.execRanges);
    }
  }

  lemma NothingMerged(rs: seq<Range>)
    requires Merged(rs) == []
    ensures rs == []
  {
  }

  /** Where padding and tables are no reason to go on, the shape decides. */
  lemma NothingBeforeShape(g: Setup, gaps: seq<Gap>, d: Snapshot, previous: int, a: int, word: bv32)
    requires |g.words| == g.size / 4 && g.base <= a && a + 4 <= g.End() && a !in d.ins2fn
    requires word == g.words[(a - g.base) / 4] && word != 0 && word != NOP && Declared(g, d, a) == None
    ensures StepAtWord(g, gaps, d, previous, a) == StepByShape(g, gaps, d, previous, a, word)
  {
  }

  lemma OfferedShape(g: Setup, gaps: seq<Gap>, d: Snapshot, previous: int, a: int, word: bv32)
    requires |g.words| == g.size / 4 && g.base <= a && a !in d.ins2fn
    ensures StepByShape(g, gaps, d, previous, a, word) == Offer <==>
      && !(word in BTI_PROLOGUES && g.likelyInterior(d, a)) && !IsTrap(word) && a != previous
      && g.PassesCodeFilter(a) && !g.flowsIntoInterior(d, a)
  {
  }

  lemma OfferedWord(g: Setup, gaps: seq<Gap>, d: Snapshot, previous: int, a: int)
    requires |g.words| == g.size / 4 && g.base <= a && a + 4 <= g.End() && a !in d.ins2fn
    ensures StepAtWord(g, gaps, d, previous, a) == Offer <==>
      && g.words[(a - g.base) / 4] != 0 && g.words[(a - g.base) / 4] != NOP && Undeclared(g, d, a)
      && StepByShape(g, gaps, d, previous, a, g.words[(a - g.base) / 4]) == Offer
  {
    DeclaredIsNone(g, d, a);
  }

  /** Exactly the proposable addresses are offered, but for the one analysed last. */
  lemma OffersAreProposable(g: Setup, gaps: seq<Gap>, d: Snapshot, previous: int, a: int)
    requires |g.words| == g.size / 4 && a % 4 == 0
    ensures Step(g, gaps, d, previous, a) == Offer <==> Proposable(g, d, a) && a != previous
  {
    FiltersAreUnions(g, a);
    if g.base <= a && a + 4 <= g.End() && a !in d.ins2fn {
      OfferedWord(g, gaps, d, previous, a);
      OfferedShape(g, gaps, d, previous, a, g.words[(a - g.base) / 4]);
    }
  }

  // ----- the scan

  /** The scan from a pointer on: the address it offers, if any, which is always a proposable one. */
  function Scan(g: Setup, gaps: seq<Gap>, d: Snapshot, previous: int, pointer: int): (c: Option<int>)
    requires Valid(g, gaps)
    ensures c.Some? ==> c.value >= pointer && Proposable(g, d, c.value) && c.value != previous
    decreases g.End() + 4 - pointer
  {
    SkipsLeadAhead(g, gaps, d, previous, AlignUp(pointer));
    OffersAreProposable(g, gaps, d, previous, AlignUp(pointer));
    if g.End() < pointer then None else
      match Step(g, gaps, d, previous, AlignUp(pointer))
      case Finish => None
      case Skip(next) => Scan(g, gaps, d, previous, next)
      case Offer => Some(AlignUp(pointer))
  }

  /** The first aligned address from the pointer on is offered if it is proposable, and was not the last one
      analysed. */
  lemma ScanOffers(g: Setup, gaps: seq<Gap>, d: Snapshot, previous: int, pointer: int, a: int)
    requires Valid(g, gaps) && pointer <= a < pointer + 4 && Proposable(g, d, a) && a != previous
    ensures Scan(g, gaps, d, previous, pointer) == Some(a)
  {
    AlignedIsFirst(pointer, a);
    OffersAreProposable(g, gaps, d, previous, a);
    OfferIsTaken(g, gaps, d, previous, pointer);
  }

  lemma AlignedIsFirst(pointer: int, a: int)
    requires pointer <= a < pointer + 4 && a % 4 == 0
    ensures AlignUp(pointer) == a
  {
  }

  lemma OfferIsTaken(g: Setup, gaps: seq<Gap>, d: Snapshot, previous: int, pointer: int)
    requires Valid(g, gaps) && pointer <= g.End() && Step(g, gaps, d, previous, AlignUp(pointer)) == Offer
    ensures Scan(g, gaps, d, previous, pointer) == Some(AlignUp(pointer))
  {
  }

  /** What the answer to a search from a pointer is to satisfy. */
  ghost predicate Answers(g: Setup, d: Snapshot, previous: int, pointer: int, c: Option<int>) {
    && (c.Some? ==> c.value >= pointer && Proposable(g, d, c.value) && c.value != previous)
    && (forall a :: pointer <= a < pointer + 4 && Proposable(g, d, a) && a != previous ==> c == Some(a))
  }

  lemma ScanFinds(g: Setup, gaps: seq<Gap>, d: Snapshot, previous: int, pointer: int)
    requires Valid(g, gaps)
    ensures Answers(g, d, previous, pointer, Scan(g, gaps, d, previous, pointer))
  {
    forall a | pointer <= a < pointer + 4 && Proposable(g, d, a) && a != previous
      ensures Scan(g, gaps, d, previous, pointer) == Some(a)
    {
      ScanOffers(g, gaps, d, previous, pointer, a);
    }
  }

  class FunctionCandidateManager {
    const g: Setup
    const exceptions: ExceptionDirectory
    var functionGaps: seq<Gap>
    var gapPointer: Option<int>
    var previouslyAnalyzedGap: int
    var gapCandidates: set<int>

    ghost predicate Ready()
      reads this, exceptions
    {
      && exceptions.Valid() && SortedBy(ExtentOrder, exceptions.ranges) == SortedBy(ExtentOrder, g.pdataRanges)
      && Valid(g, functionGaps)
    }

    constructor (g: Setup)
      ensures this.g == g && functionGaps == [] && gapPointer == None
      ensures previouslyAnalyzedGap == 0 && gapCandidates == {}
      ensures fresh(exceptions) && exceptions.Valid() && exceptions.ranges == g.pdataRanges
    {
      this.g := g;
      exceptions := new ExceptionDirectory(g.pdataRanges);
      functionGaps, gapPointer, previouslyAnalyzedGap, gapCandidates := [], None, 0, {};
    }

    /** Lists the gaps; the pointer starts at the first of them, or at the end of the image. */
    method InitGapSearch(d: Snapshot) returns (ghost first: int, ghost last: int)
      requires gapPointer == None
      modifies `functionGaps, `gapPointer
      ensures IsFirst(d.ins2fn.Keys, g.bitMask, first) && IsLast(d.ins2fn.Keys, last)
      ensures Lists(functionGaps, SearchAreas(g.codeAreas, g.base, g.size), g.codeAreas == [], d.ins2fn.Keys,
        first, last)
      ensures Ordered(GapOrder, functionGaps)
      ensures gapPointer.Some?
      ensures gapPointer.value == if functionGaps != [] then functionGaps[0].start else g.End()
    {
      gapPointer := Some(g.End());
      functionGaps, first, last := UpdateFunctionGaps(g.codeAreas, g.base, g.size, g.bitMask, d.ins2fn.Keys);
      if functionGaps != [] {
        gapPointer := Some(functionGaps[0].start);
      }
    }

    method GetNextGap(d: Snapshot, dontSkip: bool) returns (next: Option<int>)
      requires gapPointer.Some?
      ensures next == NextGap(g, functionGaps, d, gapPointer.value, dontSkip)
    {
      var pointer := gapPointer.value;
      var nextGap := g.base + g.size;
      var index := BisectRight(GapStarts(functionGaps), pointer);
      if index < |functionGaps| {
        nextGap := functionGaps[index].start;
      } else {
        if g.base <= pointer < g.bitMask < nextGap {
          nextGap := g.bitMask;
        }
      }
      if dontSkip && pointer in d.ins2fn {
        if d.ins2fn[pointer] !in d.borders {
          return None;
        }
        var end := d.borders[d.ins2fn[pointer]].1;
        nextGap := if end < nextGap then end else nextGap;
      }
      return Some(nextGap);
    }

    method EndOfRefusedLandingPadRun(start: int) returns (end: int)
      requires |g.words| == g.size / 4 && g.base <= start
      ensures end == EndOfRun(g, start, start + 4)
    {
      var addr := start + 4;
      while addr + 4 <= g.base + g.size && addr < start + GAP_RUN_LIMIT
        invariant start < addr && EndOfRun(g, start, addr) == EndOfRun(g, start, start + 4)
        decreases start + GAP_RUN_LIMIT - addr
      {
        var word := g.words[(addr - g.base) / 4];
        if IsReturn(word) || IsIndirectBranch(word) || IsBranch(word) || IsTrap(word) {
          return addr + 4;
        }
        addr := addr + 4;
      }
      return start + 4;
    }

    /** Where the tables read from the image say the scan goes on, if they say so. */
    method DeclaredSkip(d: Snapshot, a: int) returns (skip: Option<int>)
      requires Ready()
      modifies exceptions
      ensures Ready() && skip == Declared(g, d, a)
    {
      if g.pdataRanges != [] && g.usePdata {
        var containing := RecordContaining(a);
        if containing.Some? && (containing.value.fragment || containing.value.start in d.functions) {
          return Some(containing.value.end);
        }
      }
      if g.useLandingPads && a in g.landingPads {
        var containing := DeclaredFdeRangeContaining(g.fdeRanges, a);
        return Some(if containing.Some? && containing.value.1 != 0 then containing.value.1 else a + 4);
      }
      if g.useFdes && !g.InPlt(a) {
        var containing := DeclaredFdeRangeContaining(g.fdeRanges, a);
        if containing.Some? && containing.value.0 in d.functions {
          return Some(containing.value.1);
        }
      }
      return None;
    }

    method FindDeclaredInteriorOwner(d: Snapshot, a: int) returns (interior: Option<int>)
      requires Ready()
      modifies exceptions
      ensures Ready() && interior == DeclaredInteriorOwner(g, d, a)
    {
      var owner: Option<int> := None;
      if g.useFdes && !g.InPlt(a) {
        var declared := DeclaredFdeRangeContaining(g.fdeRanges, a);
        if declared.Some? {
          owner := Some(declared.value.0);
        }
      }
      if owner == None && g.pdataRanges != [] && g.usePdata {
        var declared := RecordContaining(a);
        if declared.Some? {
          owner := Some(declared.value.start);
        }
      }
      if owner == None || owner.value !in d.functions || owner.value !in d.borders {
        return None;
      }
      var borders := d.borders[owner.value];
      return if borders.0 <= a < borders.1 then owner else None;
    }

    method RecordContaining(a: int) returns (record: Option<Extent>)
      requires Ready()
      modifies exceptions
      ensures Ready() && record == LastInterior(SortedBy(ExtentOrder, g.pdataRanges), a)
    {
      SortIsAPermutation(ExtentOrder, exceptions.ranges);
      SortKeepsOrder(ExtentOrder, SortedBy(ExtentOrder, exceptions.ranges));
      record := exceptions.DeclaredExceptionRangeContaining(a);
    }

    /** What the scan does at the aligned pointer: the reasons to go on, one after the other. */
    method Consider(d: Snapshot, a: int, execRanges: seq<Range>) returns (outcome: Outcome)
      requires Ready() && gapPointer == Some(a) && execRanges == Merged(g.execRanges)
      modifies exceptions
      ensures Ready() && outcome == Step(g, functionGaps, d, previouslyAnalyzedGap, a)
    {
      if a < g.base || a - g.base + 4 > g.size {
        return Finish;
      }
      if a in d.ins2fn {
        var nextGap := GetNextGap(d, false);
        return Skip(nextGap.value);
      }
      if a in d.dataMap {
        return Skip(a + 4);
      }
      if execRanges != [] && !InMerged(execRanges, a) {
        var execStarts := RangeStarts(execRanges);
        var following := BisectRight(execStarts, a);
        return Skip(if following < |execStarts| then execStarts[following] else g.base + g.size);
      }
      outcome := ConsiderWord(d, a);
    }

    method ConsiderWord(d: Snapshot, a: int) returns (outcome: Outcome)
      requires Ready() && gapPointer == Some(a) && g.base <= a && a + 4 <= g.End() && a !in d.ins2fn
      modifies exceptions
      ensures Ready() && outcome == StepAtWord(g, functionGaps, d, previouslyAnalyzedGap, a)
    {
      var word := g.words[(a - g.base) / 4];
      if word == 0 || word == NOP {
        return Skip(a + 4);
      }
      var skip := DeclaredSkip(d, a);
      if skip.Some? {
        return Skip(skip.value);
      }
      outcome := ConsiderShape(d, a, word);
      NothingBeforeShape(g, functionGaps, d, previouslyAnalyzedGap, a, word);
    }

    method ConsiderShape(d: Snapshot, a: int, word: bv32) returns (outcome: Outcome)
      requires Ready() && gapPointer == Some(a) && g.base <= a && a !in d.ins2fn
      ensures outcome == StepByShape(g, functionGaps, d, previouslyAnalyzedGap, a, word)
    {
      if word in BTI_PROLOGUES && g.likelyInterior(d, a) {
        var end := EndOfRefusedLandingPadRun(a);
        return Skip(end);
      }
      if IsTrap(word) {
        return Skip(a + 4);
      }
      if previouslyAnalyzedGap == a {
        var nextGap := GetNextGap(d, true);
        return Skip(nextGap.value);
      }
      if !g.PassesCodeFilter(a) {
        return Skip(a + 4);
      }
      if g.flowsIntoInterior(d, a) {
        return Skip(a + 4);
      }
      return Offer;
    }

    /** One step of the scan: aligns the pointer and considers the address there. */
    method StepOn(d: Snapshot, execRanges: seq<Range>) returns (outcome: Outcome)
      requires Ready() && gapPointer.Some? && gapPointer.value <= g.End() && execRanges == Merged(g.execRanges)
      modifies this`gapPointer, exceptions
      ensures Ready() && gapPointer == Some(AlignUp(old(gapPointer.value)))
      ensures outcome.Skip? ==> outcome.next > gapPointer.value
      ensures Scan(g, functionGaps, d, previouslyAnalyzedGap, old(gapPointer.value)) ==
        match outcome
        case Finish => None
        case Skip(next) => Scan(g, functionGaps, d, previouslyAnalyzedGap, next)
        case Offer => gapPointer
    {
      var a := (gapPointer.value + 3) / 4 * 4;
      gapPointer := Some(a);
      SkipsLeadAhead(g, functionGaps, d, previouslyAnalyzedGap, a);
      outcome := Consider(d, a, execRanges);
    }

    /** Whether the analysis has run out of time: it may at any moment. */
    method CandidateTimeoutTripped() returns (tripped: bool)
    {
      tripped := *;
    }

    /** Moves the pointer on until an address is offered; none is once the time is up. */
    method Search(d: Snapshot, execRanges: seq<Range>) returns (c: Option<int>, timedOut: bool)
      requires Ready() && gapPointer.Some? && execRanges == Merged(g.execRanges)
      modifies this`gapPointer, exceptions
      ensures Ready() && gapPointer.Some? && (c.Some? ==> gapPointer == c)
      ensures c == if timedOut then None
        else Scan(g, functionGaps, d, previouslyAnalyzedGap, old(gapPointer.value))
    {
      ghost var wanted := Scan(g, functionGaps, d, previouslyAnalyzedGap, gapPointer.value);
      timedOut := false;
      var scanned := 0;
      while true
        invariant Ready() && gapPointer.Some?
        invariant !timedOut && Scan(g, functionGaps, d, previouslyAnalyzedGap, gapPointer.value) == wanted
        decreases g.End() + 4 - gapPointer.value
      {
        scanned := scanned + 1;
        if scanned % 4096 == 0 {
          timedOut := CandidateTimeoutTripped();
          if timedOut {
            return None, true;
          }
        }
        if g.base + g.size < gapPointer.value {
          return None, false;
        }
        var outcome := StepOn(d, execRanges);
        match outcome
        case Finish => return None, false;
        case Skip(next) => gapPointer := Some(next);
        case Offer => return gapPointer, false;
      }
    }

    /** The next candidate from the pointer on, or from `start` if one is given; none once the time is up. */
    method NextGapCandidate(d: Snapshot, start: Option<int>) returns (c: Option<int>, timedOut: bool)
      requires Ready() && gapPointer.Some?
      modifies this`gapPointer, this`previouslyAnalyzedGap, this`gapCandidates, exceptions
      ensures Ready() && gapPointer.Some?
      ensures c == if timedOut then None else
        Scan(g, functionGaps, d, old(previouslyAnalyzedGap), if start.Some? then start.value else old(gapPointer.value))
      ensures !timedOut ==>
        Answers(g, d, old(previouslyAnalyzedGap), if start.Some? then start.value else old(gapPointer.value), c)
      ensures if c.Some? then gapPointer == c && previouslyAnalyzedGap == c.value
                              && gapCandidates == old(gapCandidates) + {c.value}
              else previouslyAnalyzedGap == old(previouslyAnalyzedGap) && gapCandidates == old(gapCandidates)
    {
      if start.Some? {
        gapPointer := start;
      }
      var execRanges := MergedRanges(g.execRanges);
      ScanFinds(g, functionGaps, d, previouslyAnalyzedGap, gapPointer.value);
      c, timedOut := Search(d, execRanges);
      if c.Some? {
        previouslyAnalyzedGap := c.value;
        gapCandidates := gapCandidates + {c.value};
      }
    }
  }
}
