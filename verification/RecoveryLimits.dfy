/** Two short runs over AArch64 code that show what does not hold of every run, and one that goes on from there. */
module RecoveryLimits {
  import opened AddressReferences
  import opened Blocks
  import opened Collections
  import opened Coverage
  import opened Disassembly
  import opened FunctionStates
  import opened Recording
  import opened Recovery

  const AARCH64 := Architecture({"bl", "blr"}, {"ret", "brk"}, (x, refs) => false)

  // ----- runs, step by step

  /** The parts of an analysis that the steps below depend on. */
  datatype Sketch = Sketch(start: Address, xs: seq<Instruction>, g: Flow, w: Worklist, reachable: bool, isJmp: bool)

  ghost predicate Looks(c: Config, k: Sketch) {
    && c.d == EMPTY && c.active.Some?
    && var s := c.active.value;
       && s.start == k.start && s.flow == k.g && s.work == k.w && s.colliding == {}
       && s.notes.nextReachable == k.reachable && s.notes.isJmp == k.isJmp
       && s.code.instructions == k.xs
       && s.code.processedBytes == BytesOf(k.xs) && s.code.startBytes == AddressesOf(k.xs)
       && s.code.blocks == [] && (k.xs != [] ==> s.code.current != [] || s.code.blocksAnalyzed > 0)
  }

  /** A run that leads to such an analysis. */
  ghost predicate Leads(es: seq<Event>, cs: seq<Config>, k: Sketch) {
    Recovery.Run(es, cs) && Looks(cs[|es|], k)
  }

  lemma Then(es: seq<Event>, cs: seq<Config>, e: Event) returns (es': seq<Event>, cs': seq<Config>)
    requires Recovery.Run(es, cs) && Enabled(cs[|es|], e)
    ensures Recovery.Run(es', cs')
    ensures es' == es + [e] && cs' == cs + [After(cs[|es|], e)]
  {
    es', cs' := es + [e], cs + [After(cs[|es|], e)];
    forall i {:trigger es'[i]} | 0 <= i < |es'|
      ensures Step(cs'[i], es'[i], cs'[i + 1])
    {
      if i < |es| {
        assert es'[i] == es[i];
      }
    }
  }

  lemma ThenBegin(start: Address) returns (es: seq<Event>, cs: seq<Config>)
    ensures Leads(es, cs, Sketch(start, [], Flow(map[], map[], {}, {}), Worklist([], {}, {start}), true, false))
  {
    es, cs := Then([], [Config(EMPTY, None, map[])], Begin(start));
    es, cs := Then(es, cs, Choose);
    assert {start} - {start} == {};
  }

  lemma ThenChoose(es: seq<Event>, cs: seq<Config>, k: Sketch) returns (es': seq<Event>, cs': seq<Config>)
    requires Leads(es, cs, k) && k.w.queue != []
    ensures Leads(es', cs', k.(w := Popped(k.w), isJmp := false))
  {
    es', cs' := Then(es, cs, Choose);
  }

  lemma ThenEnqueue(es: seq<Event>, cs: seq<Config>, k: Sketch, b: Address) returns (es': seq<Event>, cs': seq<Config>)
    requires Leads(es, cs, k)
    ensures Leads(es', cs', k.(w := Pushed(k.w, b)))
  {
    es', cs' := Then(es, cs, Enqueue(b));
  }

  lemma ThenRefer(es: seq<Event>, cs: seq<Config>, k: Sketch, a: Address, b: Address, byJump: bool)
    returns (es': seq<Event>, cs': seq<Config>)
    requires Leads(es, cs, k)
    ensures Leads(es', cs', k.(g := WithRef(k.g, a, b, byJump), isJmp := k.isJmp || byJump))
  {
    es', cs' := Then(es, cs, Refer(a, b, byJump));
  }

  lemma ThenNote(es: seq<Event>, cs: seq<Config>, k: Sketch, reachable: bool)
    returns (es': seq<Event>, cs': seq<Config>)
    requires Leads(es, cs, k)
    ensures Leads(es', cs', k.(reachable := reachable))
  {
    var s := cs[|es|].active.value;
    es', cs' := Then(es, cs, Note(s.data, s.notes.(nextReachable := reachable), s.colliding));
  }

  lemma ThenBook(es: seq<Event>, cs: seq<Config>, k: Sketch, x: Instruction)
    returns (es': seq<Event>, cs': seq<Config>)
    requires Leads(es, cs, k) && Fixed(x) && AllFixed(k.xs) && x.address !in AddressesOf(k.xs)
    ensures Leads(es', cs', k.(xs := k.xs + [x], isJmp := false,
      g := if k.reachable then WithRef(k.g, x.address, x.End(), k.isJmp) else k.g))
  {
    forall y | y in k.xs
      ensures !Spans(y, x.address)
    {
      assert Fixed(y) && y.address != x.address;
    }
    PrefixSets(k.xs, x);
    es', cs' := Then(es, cs, Book(x));
  }

  lemma ThenClose(es: seq<Event>, cs: seq<Config>, k: Sketch) returns (es': seq<Event>, cs': seq<Config>)
    requires Leads(es, cs, k) && k.xs != []
    ensures Leads(es', cs', k.(isJmp := false)) && cs'[|es'|].active.value.code.blocksAnalyzed > 0
  {
    es', cs' := Then(es, cs, CloseBlock);
  }

  // ----- a function whose blocks lose an instruction

  const CALL := Instruction(0, 4, "bl", "8")
  const MOVE := Instruction(4, 4, "mov", "x1, x0")
  const RETURN := Instruction(8, 4, "ret", "")
  const LOSING: seq<Instruction> := [CALL, MOVE, RETURN]

  /** The call refers to the last instruction without a jump, so that has two sources and is no start. */
  const LOSING_FLOW := Flow(map[0 := {4, 8}, 4 := {8}], map[4 := {0}, 8 := {0, 4}], {}, {})

  const NO_FLOW := Flow(map[], map[], {}, {})
  const CALLED := Flow(map[0 := {8}], map[8 := {0}], {}, {})
  const CALL_PASSED := Flow(map[0 := {4, 8}], map[8 := {0}, 4 := {0}], {}, {})

  lemma LosingFlows()
    ensures WithRef(NO_FLOW, 0, 8, false) == CALLED
    ensures WithRef(CALLED, 0, 4, false) == CALL_PASSED
    ensures WithRef(CALL_PASSED, 4, 8, false) == LOSING_FLOW
  {
    assert {8} + {4} == {4, 8} && {0} + {4} == {0, 4};
    assert At(map[], 0) + {8} == {8} && At(map[], 8) + {0} == {0};
    assert At(CALLED.to, 4) + {0} == {0};
    assert At(CALL_PASSED.from, 4) + {8} == {8};
  }

  lemma LosingRun() returns (es: seq<Event>, cs: seq<Config>)
    ensures Leads(es, cs, Sketch(0, LOSING, LOSING_FLOW, Worklist([], {}, {0}), false, false))
    ensures cs[|es|].active.value.code.blocksAnalyzed > 0
  {
    LosingFlows();
    var k := Sketch(0, [], NO_FLOW, Worklist([], {}, {0}), true, false);
    es, cs := ThenBegin(0);
    es, cs := ThenRefer(es, cs, k, 0, 8, false);
    k := k.(g := CALLED);
    es, cs := ThenBook(es, cs, k, CALL);
    k := k.(xs := [CALL], g := CALL_PASSED);
    es, cs := ThenBook(es, cs, k, MOVE);
    assert [CALL] + [MOVE] == [CALL, MOVE];
    k := k.(xs := [CALL, MOVE], g := LOSING_FLOW);
    es, cs := ThenNote(es, cs, k, false);
    k := k.(reachable := false);
    es, cs := ThenBook(es, cs, k, RETURN);
    assert [CALL, MOVE] + [RETURN] == LOSING;
    es, cs := ThenClose(es, cs, k.(xs := LOSING));
  }

  lemma Sorted3(x: Instruction, y: Instruction, z: Instruction)
    requires x.address < y.address < z.address
    ensures SortedByAddress([x, y, z]) == [x, y, z]
  {
    SortKeepsOrder(ByAddress, [x, y, z]);
  }

  /** No walk reaches the last instruction. */
  lemma ReturnIsLost(s: State)
    requires s.start == 0 && s.code.instructions == LOSING && s.flow == LOSING_FLOW && s.colliding == {}
    ensures var c := ContextOf(AARCH64, s); c.ins == LOSING && !Reached(c, s.flow, 2)
  {
    var c := ContextOf(AARCH64, s);
    Sorted3(CALL, MOVE, RETURN);
    assert c.ins == LOSING && !c.IsStart(1) && !c.IsStart(2);
    assert |c.ins| == 3 && c.ins[1] == MOVE && c.ins[2] == RETURN && MOVE.End() == 8;
    assert LastWord("mov") == "mov";
    assert 0 in s.flow.to[8] && 4 in s.flow.to[8] && |{0, 4}| == 2;
    assert Judge(c, s.flow, 1) == Break;
    assert Passing(c, s.flow, 1, 3) == 0;
  }

  /** Recorded, the function owns a byte that none of its stored instructions covers. */
  lemma UnjustifiedRun() returns (es: seq<Event>, cs: seq<Config>)
    ensures Recovery.Run(es, cs)
    ensures var d := cs[|es|].d;
      && 8 in d.ins2fn && d.ins2fn[8] == 0 && 0 in d.functions && !Justified(d, 8) && !Owned(d)
      && 8 !in BytesOf(Body(d, 0)) && 20 !in d.ins2fn && cs[|es|].active == None
  {
    es, cs := LosingRun();
    assert AddressesOf(LOSING) == {0, 4, 8};
    StaleByte(es, cs);
    var f := FindingsOf(AARCH64, cs[|es|].active.value);
    es, cs := Then(es, cs, Finish(AARCH64));
    var d := cs[|es|].d;
    assert Body(d, 0) == Flat(f.blocks);
    assert Justified(d, 8) ==> 8 in BytesOf(Body(d, 0));
  }

  /** Undone then, which takes an analysis that absorbs functions as those of the Intel backend do, it leaves the byte
      with an owner that is gone. */
  lemma StaleOwnerRun() returns (es: seq<Event>, cs: seq<Config>)
    ensures Recovery.Run(es, cs)
    ensures var d := cs[|es|].d; 8 in d.ins2fn && d.ins2fn[8] == 0 && 0 !in d.functions && !Owned(d)
  {
    es, cs := UnjustifiedRun();
    es, cs := Then(es, cs, Classify(0, Candidate(false, false)));
    es, cs := Then(es, cs, Begin(20));
    es, cs := Then(es, cs, Absorb(0));
    var d := cs[|es|].d;
    assert Body(d, 0) == [];
    assert Owned(d) ==> Justified(d, 8);
  }

  lemma StaleByte(es: seq<Event>, cs: seq<Config>)
    requires Leads(es, cs, Sketch(0, LOSING, LOSING_FLOW, Worklist([], {}, {0}), false, false))
    ensures var f := FindingsOf(AARCH64, cs[|es|].active.value);
      8 in BytesOf(f.instructions) && 20 !in BytesOf(f.instructions) && 8 !in BytesOf(Flat(f.blocks))
  {
    var s := cs[|es|].active.value;
    var f, c := FindingsOf(AARCH64, s), ContextOf(AARCH64, s);
    EveryRunKeepsFunctionsApart(es, cs, |es|);
    ReturnIsLost(s);
    SoundIsSolid(AARCH64, cs[|es|].d, s);
    BlocksHoldReached(c, s.flow, 2);
    assert RETURN == c.ins[2] && RETURN in LOSING && Spans(RETURN, 8);
    forall x | x in Flat(f.blocks)
      ensures !Spans(x, 8)
    {
      BlocksHoldStarts(c, s.flow, x);
    }
    assert 8 in BytesOf(LOSING);
  }

  // ----- a function with a start inside a block

  const TEST := Instruction(8, 4, "cbz", "0")
  const EXIT := Instruction(12, 4, "ret", "")
  const LAND := Instruction(0, 4, "nop", "")
  const LEAVE := Instruction(4, 4, "br", "x0")

  /** The entry is at 8. Nothing refers to it, and the indirect branch before it is not one that ends blocks. */
  const ENTERED_FLOW :=
    Flow(map[8 := {0, 12}, 0 := {4}], map[0 := {8}, 12 := {8}, 4 := {0}], {(8, 0), (8, 12)}, {0, 12})

  const TESTED := Flow(map[8 := {0}], map[0 := {8}], {(8, 0)}, {0})
  const TEST_PASSED := Flow(map[8 := {0, 12}], map[0 := {8}, 12 := {8}], {(8, 0), (8, 12)}, {0, 12})

  lemma EnteredFlows()
    ensures WithRef(NO_FLOW, 8, 0, true) == TESTED
    ensures WithRef(TESTED, 8, 12, true) == TEST_PASSED
    ensures WithRef(TEST_PASSED, 0, 4, false) == ENTERED_FLOW
  {
    assert At(map[], 8) + {0} == {0} && At(map[], 0) + {8} == {8};
    assert {0} + {12} == {0, 12} && {(8, 0)} + {(8, 12)} == {(8, 0), (8, 12)};
    assert At(TESTED.to, 12) + {8} == {8};
    assert At(TEST_PASSED.from, 0) + {4} == {4} && At(TEST_PASSED.to, 4) + {0} == {0};
  }

  lemma EnteredRun() returns (es: seq<Event>, cs: seq<Config>)
    ensures Leads(es, cs,
      Sketch(8, [TEST, LAND, LEAVE, EXIT], ENTERED_FLOW, Worklist([], {}, {0, 8, 12}), false, false))
    ensures cs[|es|].active.value.code.blocksAnalyzed > 0
  {
    EnteredFlows();
    var k := Sketch(8, [], NO_FLOW, Worklist([], {}, {8}), true, false);
    es, cs := ThenBegin(8);
    es, cs := ThenEnqueue(es, cs, k, 12);
    k := k.(w := Worklist([12], {12}, {8}));
    es, cs := ThenEnqueue(es, cs, k, 0);
    k := k.(w := Worklist([12, 0], {0, 12}, {8}));
    es, cs := ThenRefer(es, cs, k, 8, 0, true);
    k := k.(g := TESTED, isJmp := true);
    es, cs := ThenBook(es, cs, k, TEST);
    k := k.(xs := [TEST], isJmp := false, g := TEST_PASSED);
    es, cs := ThenClose(es, cs, k);
    es, cs := EnteredBlocks(es, cs, k);
  }

  lemma EnteredBlocks(es0: seq<Event>, cs0: seq<Config>, k0: Sketch) returns (es: seq<Event>, cs: seq<Config>)
    requires k0 == Sketch(8, [TEST], TEST_PASSED, Worklist([12, 0], {0, 12}, {8}), true, false)
    requires Leads(es0, cs0, k0)
    ensures Leads(es, cs,
      Sketch(8, [TEST, LAND, LEAVE, EXIT], ENTERED_FLOW, Worklist([], {}, {0, 8, 12}), false, false))
    ensures cs[|es|].active.value.code.blocksAnalyzed > 0
  {
    EnteredFlows();
    var k := k0;
    es, cs := ThenChoose(es0, cs0, k);
    k := k.(w := Worklist([12], {12}, {0, 8}));
    es, cs := ThenBook(es, cs, k, LAND);
    assert [TEST] + [LAND] == [TEST, LAND];
    k := k.(xs := [TEST, LAND], g := ENTERED_FLOW);
    es, cs := ThenNote(es, cs, k, false);
    k := k.(reachable := false);
    es, cs := ThenBook(es, cs, k, LEAVE);
    assert [TEST, LAND] + [LEAVE] == [TEST, LAND, LEAVE];
    k := k.(xs := [TEST, LAND, LEAVE]);
    es, cs := ThenClose(es, cs, k);
    es, cs := EnteredExit(es, cs, k);
  }

  lemma EnteredExit(es0: seq<Event>, cs0: seq<Config>, k0: Sketch) returns (es: seq<Event>, cs: seq<Config>)
    requires k0 == Sketch(8, [TEST, LAND, LEAVE], ENTERED_FLOW, Worklist([12], {12}, {0, 8}), false, false)
    requires Leads(es0, cs0, k0)
    ensures Leads(es, cs,
      Sketch(8, [TEST, LAND, LEAVE, EXIT], ENTERED_FLOW, Worklist([], {}, {0, 8, 12}), false, false))
    ensures cs[|es|].active.value.code.blocksAnalyzed > 0
  {
    es, cs := ThenChoose(es0, cs0, k0);
    var k := k0.(w := Worklist([], {}, {0, 8, 12}));
    es, cs := ThenBook(es, cs, k, EXIT);
    assert [TEST, LAND, LEAVE] + [EXIT] == [TEST, LAND, LEAVE, EXIT];
    es, cs := ThenClose(es, cs, k.(xs := [TEST, LAND, LEAVE, EXIT]));
  }

  lemma SortMore(xs: seq<Instruction>, x: Instruction)
    ensures SortedByAddress(xs + [x]) == InsertedBy(ByAddress, x, SortedByAddress(xs))
  {
    assert (xs + [x])[..|xs|] == xs;
  }

  /** An instruction goes before a last one behind it. */
  lemma InsertBefore(x: Instruction, ys: seq<Instruction>, y: Instruction)
    requires x.address < y.address
    ensures InsertedBy(ByAddress, x, ys + [y]) == InsertedBy(ByAddress, x, ys) + [y]
  {
    assert (ys + [y])[..|ys|] == ys;
  }

  lemma LandInOrder()
    ensures SortedByAddress([TEST, LAND]) == [LAND, TEST]
  {
    SortMore([], TEST);
    SortMore([TEST], LAND);
    InsertBefore(LAND, [], TEST);
    assert [] + [TEST] == [TEST] && [TEST] + [LAND] == [TEST, LAND];
  }

  lemma LeaveInOrder()
    ensures SortedByAddress([TEST, LAND, LEAVE]) == [LAND, LEAVE, TEST]
  {
    LandInOrder();
    SortMore([TEST, LAND], LEAVE);
    InsertBefore(LEAVE, [LAND], TEST);
    assert [TEST, LAND] + [LEAVE] == [TEST, LAND, LEAVE] && [LAND] + [TEST] == [LAND, TEST];
  }

  lemma EnteredInOrder()
    ensures SortedByAddress([TEST, LAND, LEAVE, EXIT]) == [LAND, LEAVE, TEST, EXIT]
  {
    LeaveInOrder();
    SortMore([TEST, LAND, LEAVE], EXIT);
    assert [TEST, LAND, LEAVE] + [EXIT] == [TEST, LAND, LEAVE, EXIT];
  }

  /** The walk from the branch target passes on to the entry. */
  lemma PassesToTheEntry(c: Context)
    requires c.ins == [LAND, LEAVE, TEST, EXIT] && c.starts == {8, 0, 12} && c.colliding == {}
    requires c.calls == AARCH64.calls && c.ends == AARCH64.ends && c.endsBlock == AARCH64.endsBlock
    ensures !Sealed(c, ENTERED_FLOW)
  {
    var g := ENTERED_FLOW;
    assert |c.ins| == 4 && c.ins[0] == LAND && c.ins[1] == LEAVE && c.ins[2] == TEST;
    assert LastWord("nop") == "nop" && LastWord("br") == "br";
    assert c.IsStart(0) && !c.IsStart(1) && c.IsStart(2);
    assert Judge(c, g, 0) == Continue && Judge(c, g, 1) == Continue;
    assert Covered(c, g, 0) && Covered(c, g, 1);
    assert !SealedAt(c, g, 2);
  }

  /** A run up to where a function is recorded whose entry lies inside another of its blocks, although all jump targets
      have their entries. */
  lemma StartInsideABlock() returns (es: seq<Event>, cs: seq<Config>)
    ensures Recovery.Run(es, cs) && Enabled(cs[|es|], Finish(AARCH64))
    ensures var s := cs[|es|].active.value;
      TargetsKeyed(s.flow) && !StartsOutside(AARCH64, s, Blocked(AARCH64, s).code.blocks)
  {
    es, cs := EnteredRun();
    var s := cs[|es|].active.value;
    var c := ContextOf(AARCH64, s);
    EveryRunKeepsFunctionsApart(es, cs, |es|);
    SoundIsSolid(AARCH64, cs[|es|].d, s);
    EnteredInOrder();
    PassesToTheEntry(c);
    StartsStayOutsideExactlyWhenSealed(c, s.flow);
    assert TEST in s.code.instructions;
  }
}
