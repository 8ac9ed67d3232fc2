/** The state object a function is analysed with; every method does to its fields what the functions of
    `FunctionStates` say. */
module AnalysisStates {
  import opened AddressReferences
  import opened Blocks
  import opened Collections
  import opened Disassembly
  import opened FunctionStates
  import opened Recording

  class FunctionAnalysisState {
    const arch: Architecture
    const disassembly: DisassemblyResult
    const startAddr: Address
    var symbol: string
    var work: Worklist
    var code: Booking
    var flow: Flow
    var data: DataUse
    var notes: Notes
    var collidingAddresses: set<Address>
    var absorbedFunctions: seq<Address>

    function View(): State
      reads this
    {
      State(startAddr, symbol, work, code, flow, data, notes, collidingAddresses, absorbedFunctions)
    }

    constructor (arch: Architecture, startAddr: Address, disassembly: DisassemblyResult)
      ensures View() == Started(startAddr)
      ensures this.arch == arch && this.disassembly == disassembly
    {
      this.arch, this.startAddr, this.disassembly := arch, startAddr, disassembly;
      symbol, work := "", Worklist([startAddr], {startAddr}, {});
      code := Booking([], true, {}, {}, [], 0, []);
      flow := Flow(map[], map[], {}, {});
      data := DataUse({}, {}, {});
      notes := Notes(false, true, false, false, false, true, false);
      collidingAddresses, absorbedFunctions := {}, [];
    }

    method ChooseNextBlock() returns (block: Address)
      requires work.queue != []
      modifies `work, `notes
      ensures View() == ChooseNext(old(View()))
      ensures block == old(work.queue)[|old(work.queue)| - 1]
    {
      notes := notes.(isJmp := false, blockEnding := false);
      block := work.queue[|work.queue| - 1];
      work := Worklist(work.queue[..|work.queue| - 1], work.queued - {block}, work.processed + {block});
    }

    method AddBlockToQueue(block: Address)
      modifies `work
      ensures work == Pushed(old(work), block)
    {
      if block !in work.processed && block !in work.queued {
        work := work.(queued := work.queued + {block}, queue := work.queue + [block]);
      }
    }

    method EndBlock()
      modifies `notes, `code
      ensures View() == FunctionStates.EndBlock(old(View()))
    {
      notes := notes.(isJmp := false);
      if code.current != [] {
        code := code.(blocksAnalyzed := code.blocksAnalyzed + 1);
      }
      code := code.(current := []);
    }

    method AddInstruction(x: Instruction)
      modifies `code, `flow, `notes
      ensures View() == Booked(old(View()), x)
    {
      code := code.(instructions := code.instructions + [x], sorted := false,
        startBytes := code.startBytes + {x.address}, current := code.current + [x],
        processedBytes := code.processedBytes + BytesOf([x]));
      if notes.nextReachable {
        AddCodeRef(x.address, x.End(), notes.isJmp);
      }
      notes := notes.(isJmp := false);
    }

    method AddCodeRef(addrFrom: Address, addrTo: Address, byJump: bool)
      modifies `flow, `notes
      ensures View() == AddRef(old(View()), addrFrom, addrTo, byJump)
    {
      flow := flow.(from := flow.from[addrFrom := At(flow.from, addrFrom) + {addrTo}],
        to := flow.to[addrTo := At(flow.to, addrTo) + {addrFrom}]);
      if byJump {
        notes := notes.(isJmp := true);
        flow := flow.(jumpRefs := flow.jumpRefs + {(addrFrom, addrTo)}, jumpTargets := flow.jumpTargets + {addrTo});
      }
    }

    method RemoveCodeRef(addrFrom: Address, addrTo: Address)
      modifies `flow
      ensures flow == WithoutRef(old(flow), addrFrom, addrTo)
    {
      if addrFrom in flow.from && addrTo in flow.from[addrFrom] {
        flow := flow.(from := flow.from[addrFrom := flow.from[addrFrom] - {addrTo}]);
      }
      if addrTo in flow.to && addrFrom in flow.to[addrTo] {
        flow := flow.(to := flow.to[addrTo := flow.to[addrTo] - {addrFrom}]);
      }
      if (addrFrom, addrTo) in flow.jumpRefs {
        flow := flow.(jumpRefs := flow.jumpRefs - {(addrFrom, addrTo)});
        if !exists r :: r in flow.jumpRefs && r.1 == addrTo {
          flow := flow.(jumpTargets := flow.jumpTargets - {addrTo});
        }
      }
    }

    /** How the walk along a block goes on after an instruction. */
    method JudgeOne(ins: seq<Instruction>, starts: set<Address>, i: nat) returns (verdict: Verdict)
      requires i < |ins|
      ensures verdict == Judge(Context(ins, starts, arch.calls, arch.ends, arch.endsBlock, collidingAddresses), flow, i)
    {
      var current := ins[i];
      var mnemonic := LastWord(current.mnemonic);
      var isLast := i + 1 == |ins|;
      var refs: Option<set<Address>> := None;
      if current.address in flow.from {
        refs := Some(flow.from[current.address]);
        if mnemonic !in arch.calls && !isLast
           && (|refs.value| > 1 || (|refs.value| == 1 && ins[i + 1].address !in refs.value)) {
          return Break;
        }
        if current.End() in refs.value * collidingAddresses {
          return Cut;
        }
      }
      if !isLast && ins[i + 1].address in flow.to
         && (ins[i + 1].address in starts || |flow.to[ins[i + 1].address]| > 1) {
        return Break;
      }
      if mnemonic in arch.ends {
        return Break;
      }
      if arch.endsBlock(current, refs) {
        return Break;
      }
      return Continue;
    }

    /** Walks along one block. */
    method TakeBlock(ins: seq<Instruction>, starts: set<Address>, first: nat) returns (block: Block)
      requires first < |ins|
      modifies `flow
      ensures var c := Context(ins, starts, arch.calls, arch.ends, arch.endsBlock, collidingAddresses);
        var walked := Walk(c, old(flow), first);
        block == ins[first..walked.0] && flow == walked.1
    {
      ghost var c := Context(ins, starts, arch.calls, arch.ends, arch.endsBlock, collidingAddresses);
      block := [];
      var i := first;
      while i < |ins|
        invariant first <= i <= |ins| && block == ins[first..i]
        invariant flow == old(flow)
        invariant Walk(c, flow, first) == if i < |ins| then Walk(c, flow, i) else (i, flow)
      {
        assert ins[first..i + 1] == ins[first..i] + [ins[i]];
        block := block + [ins[i]];
        var verdict := JudgeOne(ins, starts, i);
        if verdict == Cut {
          RemoveCodeRef(ins[i].address, ins[i].End());
        }
        if verdict != Continue {
          return;
        }
        i := i + 1;
      }
    }

    /** The instruction that begins at an address, if any. */
    static method IndexOf(ins: seq<Instruction>, addr: Address) returns (i: nat)
      ensures i <= |ins| && (i < |ins| ==> ins[i].address == addr)
      ensures i == |ins| ==> forall j :: 0 <= j < |ins| ==> ins[j].address != addr
    {
      i := 0;
      while i < |ins| && ins[i].address != addr
        invariant i <= |ins| && forall j :: 0 <= j < i ==> ins[j].address != addr
      {
        i := i + 1;
      }
    }

    /** Nothing before index `at` is a start still to come, and every start from there on is. */
    ghost static predicate UpTo(c: Context, order: seq<Address>, k: nat, at: nat) {
      && k <= |order| && at <= |c.ins|
      && (forall i, j :: 0 <= i < at && k <= j < |order| ==> c.ins[i].address < order[j])
      && (forall i :: at <= i < |c.ins| && c.IsStart(i) ==> c.ins[i].address in order[k..])
    }

    /** The blocks found so far, followed by those from index `at` on, are all the blocks. */
    ghost static predicate Remaining(c: Context, before: Flow, found: seq<Block>, g: Flow, at: nat) {
      && at <= |c.ins|
      && BlocksFrom(c, before, 0).0 == found + BlocksFrom(c, g, at).0
      && BlocksFrom(c, before, 0).1 == BlocksFrom(c, g, at).1
    }

    static lemma RemainingNext(c: Context, before: Flow, found: seq<Block>, g: Flow, m: nat)
      requires m < |c.ins| && c.IsStart(m) && Remaining(c, before, found, g, m)
      ensures var (end, left) := Walk(c, g, m);
        Remaining(c, before, found + [c.ins[m..end]], left, m + 1)
    {
      var (end, left) := Walk(c, g, m);
      var rest := BlocksFrom(c, left, m + 1).0;
      assert found + ([c.ins[m..end]] + rest) == found + [c.ins[m..end]] + rest;
    }

    static lemma NextStart(c: Context, g: Flow, order: seq<Address>, k: nat, at: nat, m: nat)
      requires UpTo(c, order, k, at) && k < |order| && StrictlyAscending(c.ins) && Increasing(order)
      requires order[k] in c.starts && m < |c.ins| && c.ins[m].address == order[k]
      ensures at <= m && BlocksFrom(c, g, at) == BlocksFrom(c, g, m) && UpTo(c, order, k + 1, m + 1)
    {
      forall i | at <= i < m
        ensures !c.IsStart(i)
      {
        assert c.ins[i].address < order[k];
        assert forall a :: a in order[k..] ==> a >= order[k];
      }
      SkipToStart(c, g, at, m);
      forall i | m + 1 <= i < |c.ins| && c.IsStart(i)
        ensures c.ins[i].address in order[k + 1..]
      {
        assert order[k..] == [order[k]] + order[k + 1..];
      }
    }

    static lemma NoStart(c: Context, order: seq<Address>, k: nat, at: nat)
      requires UpTo(c, order, k, at) && k < |order|
      requires forall i :: 0 <= i < |c.ins| ==> c.ins[i].address != order[k]
      ensures UpTo(c, order, k + 1, at)
    {
      assert order[k..] == [order[k]] + order[k + 1..];
    }

    /** Sorts the booked instructions where they are, unless they are known to be sorted. */
    method SortInstructions()
      requires code.sorted ==> Ascending(code.instructions)
      modifies `code
      ensures code == SortedIn(old(code))
    {
      if code.sorted {
        SortKeepsOrder(ByAddress, code.instructions);
      } else {
        code := code.(instructions := SortedByAddress(code.instructions), sorted := true);
      }
    }

    /** The blocks of the function. The potential starts are taken in ascending order; one that is not the address of
        an instruction is passed over. */
    method GetBlocks() returns (result: seq<Block>)
      requires Distinguished(code.instructions) && (code.sorted ==> Ascending(code.instructions))
      modifies `code, `flow
      ensures View() == Blocked(arch, old(View())) && result == code.blocks
      ensures old(code.blocks == [] && TargetsKeyed(flow) && EntryKeyed(View()))
              ==> StartsOutside(arch, old(View()), result)
    {
      if code.blocks != [] {
        return code.blocks;
      }
      if TargetsKeyed(flow) && EntryKeyed(View()) {
        KeyedStartsOutside(arch, View());
      }
      ghost var c := ContextOf(arch, View());
      SortIsStrict(code.instructions);
      SortInstructions();
      result := Derive(c);
      code := code.(blocks := result);
    }

    method Derive(ghost c: Context) returns (result: seq<Block>)
      requires StrictlyAscending(c.ins)
      requires c == Context(code.instructions, {startAddr} + flow.jumpTargets, arch.calls, arch.ends, arch.endsBlock,
        collidingAddresses)
      modifies `flow
      ensures result == BlocksFrom(c, old(flow), 0).0 && flow == BlocksFrom(c, old(flow), 0).1
    {
      var starts := {startAddr} + flow.jumpTargets;
      var order := Sorted(starts);
      ghost var at: nat := 0;
      result := [];
      var k: nat := 0;
      assert order[0..] == order;
      while k < |order|
        invariant UpTo(c, order, k, at)
        invariant Remaining(c, old(flow), result, flow, at)
      {
        var start := order[k];
        assert start in starts;
        var i := IndexOf(code.instructions, start);
        if i < |code.instructions| {
          NextStart(c, flow, order, k, at, i);
          RemainingNext(c, old(flow), result, flow, i);
          var block := TakeBlock(code.instructions, starts, i);
          result := result + [block];
          at := i + 1;
        } else {
          NoStart(c, order, k, at);
        }
        k := k + 1;
      }
      assert order[k..] == [];
      SkipToStart(c, flow, at, |c.ins|);
    }

    // ----- results

    method RecordOne(x: Instruction)
      modifies disassembly`instructions, disassembly`ins2fn
      ensures disassembly.instructions == old(disassembly.instructions)[x.address := Shape(x.mnemonic, x.size)]
      ensures disassembly.ins2fn == Claim(old(disassembly.ins2fn), [x], startAddr)
    {
      disassembly.instructions := disassembly.instructions[x.address := Shape(x.mnemonic, x.size)];
      disassembly.ClaimBytes(x, startAddr);
    }

    /** The extent of the first instructions, or of the very first one before any was looked at. */
    ghost static function ExtentSoFar(xs: seq<Instruction>, i: nat): (Address, Address)
      requires xs != [] && i <= |xs|
    {
      if i == 0 then (xs[0].address, xs[0].End()) else (Lowest(xs[..i]), Highest(xs[..i]))
    }

    static lemma ExtentGrows(xs: seq<Instruction>, i: nat)
      requires i < |xs|
      ensures var (low, high) := ExtentSoFar(xs, i);
        ExtentSoFar(xs, i + 1) == (if xs[i].address < low then xs[i].address else low,
                                  if xs[i].End() > high then xs[i].End() else high)
    {
      assert xs[..i + 1][..i] == xs[..i];
    }

    ghost static predicate Entered(before: map<Address, Shape>, after: map<Address, Shape>,
        owners: map<Address, Address>,
        claimed: map<Address, Address>, xs: seq<Instruction>, start: Address)
    {
      after == Shapes(before, xs) && claimed == Claim(owners, xs, start)
    }

    static lemma EnterOne(before: map<Address, Shape>, after: map<Address, Shape>, owners: map<Address, Address>,
        claimed: map<Address, Address>, xs: seq<Instruction>, i: nat, start: Address)
      requires i < |xs| && Entered(before, after, owners, claimed, xs[..i], start)
      ensures Entered(before, after[xs[i].address := Shape(xs[i].mnemonic, xs[i].size)],
        owners, Claim(claimed, [xs[i]], start),
                      xs[..i + 1], start)
    {
      assert xs[..i + 1][..i] == xs[..i] && xs[..i + 1] == xs[..i] + [xs[i]];
      ClaimOne(owners, xs[..i], xs[i], start);
    }

    /** Enters the instructions into the address map and their bytes into the owner map, and finds their extent. */
    method RecordInstructions() returns (fnMin: Address, fnMax: Address)
      requires code.instructions != []
      modifies disassembly`instructions, disassembly`ins2fn
      ensures Entered(old(disassembly.instructions), disassembly.instructions,
          old(disassembly.ins2fn), disassembly.ins2fn,
                      code.instructions, startAddr)
      ensures (fnMin, fnMax) == (Lowest(code.instructions), Highest(code.instructions))
    {
      var xs := code.instructions;
      fnMin, fnMax := xs[0].address, xs[0].End();
      var i := 0;
      ClaimNothing(disassembly.ins2fn, startAddr);
      while i < |xs|
        invariant i <= |xs| && (fnMin, fnMax) == ExtentSoFar(xs, i)
        invariant Entered(old(disassembly.instructions), disassembly.instructions,
          old(disassembly.ins2fn), disassembly.ins2fn,
                          xs[..i], startAddr)
      {
        var x := xs[i];
        ExtentGrows(xs, i);
        EnterOne(old(disassembly.instructions), disassembly.instructions, old(disassembly.ins2fn),
          disassembly.ins2fn, xs, i,
                 startAddr);
        if x.address < fnMin {
          fnMin := x.address;
        }
        if x.End() > fnMax {
          fnMax := x.End();
        }
        RecordOne(x);
        i := i + 1;
      }
      assert xs[..i] == xs;
    }

    static lemma MoveOne<T>(before: set<T>, done: set<T>, todo: set<T>, x: T)
      requires x in todo
      ensures (done + {x}) + (todo - {x}) == done + todo
      ensures before + (done + {x}) == before + done + {x}
    {
    }

    method MergeDataRefs()
      requires disassembly.Valid()
      modifies disassembly`dataRefsFrom, disassembly`dataRefsTo
      ensures disassembly.Valid()
      ensures disassembly.View() ==
              old(disassembly.View()).(dataRefs := old(disassembly.View()).dataRefs + data.refs)
    {
      var todo := data.refs;
      ghost var before := disassembly.View();
      ghost var done := {};
      while todo != {}
        invariant data.refs == done + todo && disassembly.Valid()
        invariant disassembly.View() == before.(dataRefs := before.dataRefs + done)
        decreases |todo|
      {
        var dref := Any(todo);
        disassembly.AddDataRefs(dref.0, dref.1);
        MoveOne(before.dataRefs, done, todo, dref);
        done := done + {dref};
        todo := todo - {dref};
      }
      assert done == data.refs;
    }

    method RecordCode()
      requires code.instructions != [] && disassembly.Valid()
      modifies disassembly
      ensures disassembly.Valid()
      ensures var d := old(disassembly.View());
        disassembly.View() == d.(
          symbols := d.symbols[startAddr := symbol],
          instructions := Shapes(d.instructions, code.instructions),
          ins2fn := Claim(d.ins2fn, code.instructions, startAddr),
          borders := d.borders[startAddr := (Lowest(code.instructions), Highest(code.instructions))],
          dataMap := d.dataMap + data.bytes)
    {
      disassembly.functionSymbols := disassembly.functionSymbols[startAddr := symbol];
      var fnMin, fnMax := RecordInstructions();
      disassembly.functionBorders := disassembly.functionBorders[startAddr := (fnMin, fnMax)];
      disassembly.dataMap := disassembly.dataMap + data.bytes;
    }

    method FinalizeRegularAnalysis()
      requires code.instructions != [] && disassembly.Valid()
      requires Distinguished(code.instructions) && (code.sorted ==> Ascending(code.instructions))
      modifies `code, `flow, disassembly, disassembly.codeRefsFrom, disassembly.codeRefsTo
      ensures disassembly.Valid() && View() == Blocked(arch, old(View()))
      ensures disassembly.View() == Finalized(old(disassembly.View()), FindingsOf(arch, old(View())))
    {
      RecordCode();
      var found := GetBlocks();
      disassembly.functions := disassembly.functions[startAddr := found];
      disassembly.MergeCodeRefs(flow.from);
      MergeDataRefs();
      RecordFlags();
    }

    method RecordFlags()
      requires disassembly.Valid()
      modifies disassembly`recursiveFunctions, disassembly`leafFunctions, disassembly`thunkFunctions
      ensures disassembly.Valid()
      ensures var d := old(disassembly.View());
        disassembly.View() == d.(
          recursive := if notes.recursive then d.recursive + {startAddr} else d.recursive,
          leaf := if notes.leaf then d.leaf + {startAddr} else d.leaf,
          thunk := if notes.thunk then d.thunk + {startAddr} else d.thunk)
    {
      if notes.recursive {
        disassembly.recursiveFunctions := disassembly.recursiveFunctions + {startAddr};
      }
      if notes.leaf {
        disassembly.leafFunctions := disassembly.leafFunctions + {startAddr};
      }
      if notes.thunk {
        disassembly.thunkFunctions := disassembly.thunkFunctions + {startAddr};
      }
    }

    /** Whether the state has a function to record, and whether it does so: a gap candidate that does not end sanely
        is refused unless it is a lone jump or call, and so is a function with nothing booked at its own start. */
    method FinalizeAnalysis(asGap: bool, byteAt: Address -> Option<int>) returns (kept: bool)
      requires disassembly.Valid()
      requires code.blocksAnalyzed > 0 ==> code.instructions != []
      requires Distinguished(code.instructions) && (code.sorted ==> Ascending(code.instructions))
      modifies `code, `flow, disassembly, disassembly.codeRefsFrom, disassembly.codeRefsTo
      ensures disassembly.Valid()
      ensures kept <==> Acceptable(old(View()), asGap, byteAt)
                        && (old(code.blocksAnalyzed) > 0 ==> startAddr in old(code.startBytes))
      ensures var records := kept && old(code.blocksAnalyzed) > 0;
        && View() == (if records then Blocked(arch, old(View())) else old(View()))
        && disassembly.View() == if records then Finalized(old(disassembly.View()), FindingsOf(arch, old(View())))
                                 else old(disassembly.View())
    {
      var xs := code.instructions;
      if asGap && !notes.sanelyEnding {
        if |xs| == 1 && LastWord(xs[0].mnemonic) == "jmp" {
          if byteAt(xs[0].address) == Some(0xeb) {
            return false;
          }
        } else if code.blocksAnalyzed == 1 && LastWord(xs[|xs| - 1].mnemonic) in {"jmp", "call"} {
        } else {
          return false;
        }
      }
      if code.blocksAnalyzed != 0 {
        if startAddr !in code.startBytes {
          return false;
        }
        FinalizeRegularAnalysis();
      }
      return true;
    }

    /** Takes everything the state put into the result out again. */
    method RevertAnalysis()
      requires disassembly.Valid()
      modifies disassembly, disassembly.codeRefsFrom, disassembly.codeRefsTo
      ensures disassembly.Valid()
      ensures disassembly.View() == Reverted(old(disassembly.View()), OwnFindings(View()))
    {
      disassembly.functionBorders := disassembly.functionBorders - {startAddr};
      disassembly.functionSymbols := disassembly.functionSymbols - {startAddr};
      disassembly.recursiveFunctions := disassembly.recursiveFunctions - {startAddr};
      disassembly.leafFunctions := disassembly.leafFunctions - {startAddr};
      disassembly.thunkFunctions := disassembly.thunkFunctions - {startAddr};
      DropInstructions();
      DropCodeRefs();
      DropDataRefs();
      disassembly.functions := disassembly.functions - {startAddr};
    }

    method DropInstructions()
      modifies disassembly`instructions, disassembly`ins2fn
      ensures disassembly.instructions == old(disassembly.instructions) - AddressesOf(code.instructions)
      ensures disassembly.ins2fn == old(disassembly.ins2fn) - BytesOf(code.instructions)
    {
      var xs := code.instructions;
      var i := 0;
      while i < |xs|
        invariant i <= |xs| && xs == code.instructions
        invariant disassembly.instructions == old(disassembly.instructions) - AddressesOf(xs[..i])
        invariant disassembly.ins2fn == old(disassembly.ins2fn) - BytesOf(xs[..i])
      {
        var x := xs[i];
        assert xs[..i + 1] == xs[..i] + [x];
        PrefixSets(xs[..i], x);
        DropTwice(old(disassembly.instructions), AddressesOf(xs[..i]), {x.address});
        DropTwice(old(disassembly.ins2fn), BytesOf(xs[..i]), BytesOf([x]));
        disassembly.instructions := disassembly.instructions - {x.address};
        disassembly.ReleaseBytes(x);
        i := i + 1;
      }
      assert xs[..i] == xs;
    }

    method DropCodeRefs()
      requires disassembly.Valid()
      modifies disassembly.codeRefsFrom, disassembly.codeRefsTo
      ensures disassembly.Valid()
      ensures disassembly.View() ==
              old(disassembly.View()).(codeRefs := old(disassembly.View()).codeRefs - Edges(flow.from))
    {
      ghost var before := disassembly.View();
      var todo := set a, b | a in flow.from && b in flow.from[a] :: (a, b);
      assert todo == Edges(flow.from);
      while todo != {}
        invariant todo <= Edges(flow.from) && disassembly.Valid()
        invariant disassembly.View() == before.(codeRefs := before.codeRefs - (Edges(flow.from) - todo))
        decreases |todo|
      {
        var r := Any(todo);
        disassembly.RemoveCodeRefs(r.0, r.1);
        assert Edges(flow.from) - (todo - {r}) == (Edges(flow.from) - todo) + {r};
        todo := todo - {r};
      }
    }

    method DropDataRefs()
      requires disassembly.Valid()
      modifies disassembly`dataRefsFrom, disassembly`dataRefsTo
      ensures disassembly.Valid()
      ensures disassembly.View() ==
              old(disassembly.View()).(dataRefs := old(disassembly.View()).dataRefs - data.refs)
    {
      ghost var before := disassembly.View();
      var todo := data.refs;
      while todo != {}
        invariant todo <= data.refs && disassembly.Valid()
        invariant disassembly.View() == before.(dataRefs := before.dataRefs - (data.refs - todo))
        decreases |todo|
      {
        var dref := Any(todo);
        disassembly.RemoveDataRefs(dref.0, dref.1);
        assert data.refs - (todo - {dref}) == (data.refs - todo) + {dref};
        todo := todo - {dref};
      }
    }
  }

  /** Whether an analysis may be kept: the last instruction booked, or the only one, excuses a gap candidate. */
  predicate Acceptable(s: State, asGap: bool, byteAt: Address -> Option<int>)
    requires s.code.blocksAnalyzed > 0 ==> s.code.instructions != []
  {
    var xs := s.code.instructions;
    !asGap || s.notes.sanelyEnding
    || (if |xs| == 1 && LastWord(xs[0].mnemonic) == "jmp" then byteAt(xs[0].address) != Some(0xeb)
        else s.code.blocksAnalyzed == 1 && LastWord(xs[|xs| - 1].mnemonic) in {"jmp", "call"})
  }

  /** What is kept: anything that is no gap candidate or ended sanely; besides, a lone jump that is not the short form,
      whatever the blocks; and of the rest a single block that ends with a jump or a call. */
  lemma KeptInPlainTerms(s: State, asGap: bool, byteAt: Address -> Option<int>)
    requires s.code.instructions != []
    ensures var xs := s.code.instructions;
      var lone, last := |xs| == 1 && LastWord(xs[0].mnemonic) == "jmp", LastWord(xs[|xs| - 1].mnemonic);
      Acceptable(s, asGap, byteAt) <==>
        || !asGap
        || s.notes.sanelyEnding
        || (lone && byteAt(xs[0].address) != Some(0xeb))
        || (!lone && s.code.blocksAnalyzed == 1 && (last == "jmp" || last == "call"))
  {
  }
}
