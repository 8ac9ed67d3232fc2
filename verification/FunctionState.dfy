/** The analysis state of one function: its block queue, its booked instructions and its references. */
module FunctionStates {
  import opened AddressReferences
  import opened Blocks
  import opened Collections
  import opened Disassembly
  import opened Recording

  /** The mnemonics that decide about block ends, and block ends a mnemonic cannot name. */
  datatype Architecture = Architecture(
    calls: set<string>,
    ends: set<string>,
    endsBlock: (Instruction, Option<set<Address>>) -> bool)

  /** The blocks still to be analysed, as a stack and as a set, and those that were. */
  datatype Worklist = Worklist(queue: seq<Address>, queued: set<Address>, processed: set<Address>)

  /** The booked instructions, the bytes they cover, and the blocks they form. */
  datatype Booking = Booking(
    instructions: seq<Instruction>,
    sorted: bool,
    startBytes: set<Address>,
    processedBytes: set<Address>,
    current: seq<Instruction>,
    blocksAnalyzed: nat,
    blocks: seq<Block>)

  /** The data the function refers to, and the part of it that is a jump table. */
  datatype DataUse = DataUse(bytes: set<Address>, tableBytes: set<Address>, refs: set<(Address, Address)>)

  /** What the backend noted: on the last instruction, and on the function. */
  datatype Notes = Notes(
    isJmp: bool,
    nextReachable: bool,
    blockEnding: bool,
    sanelyEnding: bool,
    recursive: bool,
    leaf: bool,
    thunk: bool)

  datatype State = State(
    start: Address,
    symbol: string,
    work: Worklist,
    code: Booking,
    flow: Flow,
    data: DataUse,
    notes: Notes,
    colliding: set<Address>,
    absorbed: seq<Address>)

  function Started(start: Address): State {
    State(start, "", Worklist([start], {start}, {}), Booking([], true, {}, {}, [], 0, []), Flow(map[], map[], {}, {}),
          DataUse({}, {}, {}), Notes(false, true, false, false, false, true, false), {}, [])
  }

  // ----- the block queue

  function Popped(w: Worklist): Worklist
    requires w.queue != []
  {
    var b := w.queue[|w.queue| - 1];
    Worklist(w.queue[..|w.queue| - 1], w.queued - {b}, w.processed + {b})
  }

  function Pushed(w: Worklist, b: Address): Worklist {
    if b in w.processed || b in w.queued then w else w.(queue := w.queue + [b], queued := w.queued + {b})
  }

  /** The queue lists the queued blocks once each, and none that was processed. */
  ghost predicate QueueValid(w: Worklist) {
    && NoDuplicates(w.queue)
    && (forall b :: b in w.queue <==> b in w.queued)
    && w.queued !! w.processed
  }

  lemma PushKeepsQueue(w: Worklist, b: Address)
    requires QueueValid(w)
    ensures QueueValid(Pushed(w, b))
    ensures b in Pushed(w, b).queued + w.processed
  {
  }

  /** A block that is chosen was never chosen before, and is never queued again. */
  lemma PopKeepsQueue(w: Worklist, b: Address)
    requires QueueValid(w) && w.queue != []
    ensures QueueValid(Popped(w)) && w.queue[|w.queue| - 1] !in w.processed
    ensures b in Popped(w).processed ==> Pushed(Popped(w), b) == Popped(w)
  {
    var last := w.queue[|w.queue| - 1];
    assert last in w.queue;
    assert w.queue == w.queue[..|w.queue| - 1] + [last];
    forall c
      ensures c in w.queue[..|w.queue| - 1] <==> c in w.queued - {last}
    {
      assert c in w.queue <==> c in w.queued;
    }
  }

  function ChooseNext(s: State): State
    requires s.work.queue != []
  {
    s.(work := Popped(s.work), notes := s.notes.(isJmp := false, blockEnding := false))
  }

  // ----- booking

  function AddRef(s: State, a: Address, b: Address, byJump: bool): State {
    s.(flow := WithRef(s.flow, a, b, byJump), notes := s.notes.(isJmp := s.notes.isJmp || byJump))
  }

  ghost function BookedIn(k: Booking, x: Instruction): Booking {
    k.(instructions := k.instructions + [x], sorted := false, startBytes := k.startBytes + {x.address},
       processedBytes := k.processedBytes + BytesOf([x]), current := k.current + [x])
  }

  /** A booked instruction brings the reference to the address after it, unless that is not reached. */
  ghost function Booked(s: State, x: Instruction): State {
    var t := s.(code := BookedIn(s.code, x));
    var u := if s.notes.nextReachable then AddRef(t, x.address, x.End(), s.notes.isJmp) else t;
    u.(notes := u.notes.(isJmp := false))
  }

  function EndBlock(s: State): State {
    s.(notes := s.notes.(isJmp := false),
       code := s.code.(current := [],
         blocksAnalyzed := if s.code.current != [] then s.code.blocksAnalyzed + 1 else s.code.blocksAnalyzed))
  }

  // ----- sorting by address

  predicate ByAddress(x: Instruction, y: Instruction) {
    x.address <= y.address
  }

  /** The stable order by address. */
  function SortedByAddress(xs: seq<Instruction>): seq<Instruction> {
    SortedBy(ByAddress, xs)
  }

  ghost predicate Ascending(xs: seq<Instruction>) {
    Ordered(ByAddress, xs)
  }

  /** No two booked instructions begin at one address. */
  ghost predicate Distinguished(xs: seq<Instruction>) {
    forall i, j :: 0 <= i < j < |xs| ==> xs[i].address != xs[j].address
  }

  lemma {:induction false} InsertedStrict(x: Instruction, xs: seq<Instruction>)
    requires StrictlyAscending(xs) && forall y :: y in xs ==> y.address != x.address
    ensures StrictlyAscending(InsertedBy(ByAddress, x, xs))
    ensures forall y :: y in InsertedBy(ByAddress, x, xs) ==> y == x || y in xs
  {
    if xs != [] && !ByAddress(xs[|xs| - 1], x) {
      InsertedStrict(x, xs[..|xs| - 1]);
      assert forall y :: y in InsertedBy(ByAddress, x, xs[..|xs| - 1]) ==> y.address < xs[|xs| - 1].address;
    }
  }

  lemma {:induction false} SortIsStrict(xs: seq<Instruction>)
    requires Distinguished(xs)
    ensures StrictlyAscending(SortedByAddress(xs))
  {
    if xs != [] {
      var before, last := xs[..|xs| - 1], xs[|xs| - 1];
      SortIsStrict(before);
      SortIsAPermutation(ByAddress, before);
      InsertedStrict(last, SortedByAddress(before));
    }
  }

  // ----- blocks and findings

  function ContextOf(arch: Architecture, s: State): Context {
    Context(SortedByAddress(s.code.instructions), {s.start} + s.flow.jumpTargets, arch.calls, arch.ends, arch.endsBlock,
            s.colliding)
  }

  /** Something refers to the entry of the function, or it is the lowest instruction. */
  ghost predicate EntryKeyed(s: State) {
    s.start in s.flow.to || forall x :: x in s.code.instructions ==> s.start <= x.address
  }

  /** Jump targets have entries among the reference targets, so only the function's own entry is in question: it must
      be the lowest instruction, or be referred to. */
  lemma OnlyTheEntryMayLackAKey(arch: Architecture, s: State)
    requires TargetsKeyed(s.flow) && Distinguished(s.code.instructions) && EntryKeyed(s)
    ensures ContextOf(arch, s).Keyed(s.flow)
  {
    var c := ContextOf(arch, s);
    SortIsAPermutation(ByAddress, s.code.instructions);
    SortIsStrict(s.code.instructions);
    forall i | 0 < i < |c.ins| && c.IsStart(i)
      ensures c.ins[i].address in s.flow.to
    {
      assert c.ins[0] in c.ins && c.ins[0].address < c.ins[i].address;
    }
  }

  /** No potential start lies inside another block of the function. */
  ghost predicate StartsOutside(arch: Architecture, s: State, blocks: seq<Block>) {
    Clear(ContextOf(arch, s), blocks, StartsFrom(ContextOf(arch, s), 0))
  }

  lemma KeyedStartsOutside(arch: Architecture, s: State)
    requires TargetsKeyed(s.flow) && Distinguished(s.code.instructions) && EntryKeyed(s)
    ensures StartsOutside(arch, s, BlocksFrom(ContextOf(arch, s), s.flow, 0).0)
  {
    OnlyTheEntryMayLackAKey(arch, s);
    NoStartInsideABlock(ContextOf(arch, s), s.flow, 0);
  }

  /** The booked instructions, sorted in place. */
  function SortedIn(k: Booking): Booking {
    k.(instructions := SortedByAddress(k.instructions), sorted := true)
  }

  /** The state once its blocks are known: they are kept, and so is the order of the instructions. */
  function Blocked(arch: Architecture, s: State): State {
    if s.code.blocks != [] then s else
      var (blocks, flow) := BlocksFrom(ContextOf(arch, s), s.flow, 0);
      s.(code := SortedIn(s.code).(blocks := blocks), flow := flow)
  }

  /** What the state would take out of the result. */
  ghost function OwnFindings(s: State): Findings {
    Findings(s.start, s.symbol, s.code.instructions, s.code.blocks, Edges(s.flow.from), s.data.refs, s.data.bytes,
             s.notes.recursive, s.notes.leaf, s.notes.thunk)
  }

  /** What finishing the state puts into the result. */
  ghost function FindingsOf(arch: Architecture, s: State): Findings {
    OwnFindings(Blocked(arch, s)).(instructions := s.code.instructions)
  }

  lemma MembersDecide(p: seq<Instruction>, q: seq<Instruction>)
    requires SameMembers(p, q)
    ensures AddressesOf(p) == AddressesOf(q) && BytesOf(p) == BytesOf(q)
  {
  }

  /** Finishing a function and then undoing it gives the result back, but for the data map, exactly when the function
      had left no trace in it before. */
  lemma RevertAnalysisUndoesFinalize(arch: Architecture, d: Result, s: State)
    requires s.code.instructions != []
    ensures var f := FindingsOf(arch, s);
      Reverted(Finalized(d, f), OwnFindings(Blocked(arch, s))) == d.(dataMap := d.dataMap + s.data.bytes)
      <==> Absent(d, f)
  {
    RevertUndoesFinalize(d, FindingsOf(arch, s));
    SortIsAPermutation(ByAddress, s.code.instructions);
    MembersDecide(Blocked(arch, s).code.instructions, s.code.instructions);
  }
}
