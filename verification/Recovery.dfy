/** The traversal that recovers functions: one function's analysis at a time, which may undo others. */
module Recovery {
  import opened AddressReferences
  import opened Blocks
  import opened Collections
  import opened Coverage
  import opened Disassembly
  import opened FunctionStates
  import opened Recording

  // ----- what an analysis under way keeps

  /** The booked instructions are words at distinct addresses that no stored function owns, the sets beside them are
      exact, and blocks were not derived yet. */
  ghost predicate Sound(d: Result, k: Booking) {
    && AllFixed(k.instructions)
    && Distinguished(k.instructions)
    && AllFree(d, k.instructions)
    && k.processedBytes == BytesOf(k.instructions)
    && k.startBytes == AddressesOf(k.instructions)
    && k.blocks == []
    && (k.sorted ==> Ascending(k.instructions))
    && (k.blocksAnalyzed > 0 || k.current != [] <==> k.instructions != [])
  }

  /** Only the address of an instruction is looked up before it is booked; for words that settles all of its bytes. */
  lemma BookKeepsSound(d: Result, k: Booking, x: Instruction)
    requires Sound(d, k) && Fixed(x) && Free(d, x) && x.address !in k.processedBytes
    ensures Sound(d, BookedIn(k, x))
  {
    PrefixSets(k.instructions, x);
    forall i | 0 <= i < |k.instructions|
      ensures k.instructions[i].address != x.address
    {
      var y := k.instructions[i];
      assert y in k.instructions && Fixed(y) && Spans(y, y.address);
    }
  }

  lemma SoundIsDistinct(d: Result, k: Booking)
    requires Sound(d, k)
    ensures Distinct(k.instructions)
  {
    forall x, y | x in k.instructions && y in k.instructions && x.address == y.address
      ensures x == y
    {
      var i :| 0 <= i < |k.instructions| && k.instructions[i] == x;
      var j :| 0 <= j < |k.instructions| && k.instructions[j] == y;
      assert i < j || j < i || i == j;
    }
  }

  lemma BookKeepsTargets(s: State, x: Instruction)
    requires TargetsKeyed(s.flow)
    ensures TargetsKeyed(Booked(s, x).flow)
  {
    TargetsStayKeyed(s.flow, x.address, x.End(), s.notes.isJmp);
  }

  /** Sorting in place loses nothing. */
  lemma SortKeepsSound(d: Result, k: Booking)
    requires Sound(d, k)
    ensures Sound(d, SortedIn(k))
  {
    SortIsAPermutation(ByAddress, k.instructions);
    SortIsStrict(k.instructions);
    MembersDecide(SortedByAddress(k.instructions), k.instructions);
    assert k.instructions != [] ==> k.instructions[0] in SortedByAddress(k.instructions);
    assert SortedByAddress(k.instructions) != [] ==> SortedByAddress(k.instructions)[0] in k.instructions;
  }

  /** The hypothesis under which blocks stand for the instructions they came from. */
  ghost predicate Covers(arch: Architecture, s: State) {
    SameMembers(Flat(Blocked(arch, s).code.blocks), s.code.instructions)
  }

  /** Under it, an analysis is ready to be recorded with exact ownership. */
  lemma SoundIsReady(arch: Architecture, d: Result, s: State)
    requires OwnedWords(d) && Sound(d, s.code) && s.start in s.code.startBytes && Covers(arch, s)
    ensures Ready(d, FindingsOf(arch, s))
  {
    SoundIsDistinct(d, s.code);
    FreeHasNoOwner(d, s.code.instructions);
  }

  /** Recording an analysis keeps ownership exact if and only if its blocks cover it. */
  lemma OwnershipNeedsCover(arch: Architecture, d: Result, s: State)
    requires OwnedWords(d) && Sound(d, s.code) && s.start in s.code.startBytes && s.code.instructions != []
    ensures Owned(Finalized(d, FindingsOf(arch, s))) <==> Covers(arch, s)
    ensures Covers(arch, s) ==> OwnedWords(Finalized(d, FindingsOf(arch, s)))
  {
    var f := FindingsOf(arch, s);
    if Covers(arch, s) {
      SoundIsReady(arch, d, s);
      FinalizeKeepsWords(d, f);
    }
    if Owned(Finalized(d, f)) {
      SoundIsStorable(arch, d, s);
      forall x | x in f.instructions
        ensures x in Flat(f.blocks)
      {
        JustifiedIsStored(d, f, x);
      }
    }
  }

  lemma JustifiedIsStored(d: Result, f: Findings, x: Instruction)
    requires Storable(d, f) && Owned(Finalized(d, f)) && x in f.instructions
    ensures x in Flat(f.blocks)
  {
    var e := Finalized(d, f);
    assert Fixed(x) && Spans(x, x.address) && x.address in BytesOf(f.instructions);
    assert Justified(e, x.address);
    var y :| y in Body(e, f.start) && Spans(y, x.address);
    WordsAreApart(x, y, x.address);
  }

  lemma SliceIsInside(c: Context, b: Block, i: nat)
    requires SliceAt(c, b, i)
    ensures i < |c.ins| && b != [] && b[0] == c.ins[i] && forall x :: x in b ==> x in c.ins
  {
  }

  lemma {:induction false} StartsFound(c: Context, i: nat, j: nat)
    requires i <= j < |c.ins| && c.IsStart(j)
    ensures exists k :: 0 <= k < |StartsFrom(c, i)| && StartsFrom(c, i)[k] == j
    decreases |c.ins| - i
  {
    var rest := StartsFrom(c, i + 1);
    if i < j {
      StartsFound(c, i + 1, j);
      var k :| 0 <= k < |rest| && rest[k] == j;
      if c.IsStart(i) {
        assert StartsFrom(c, i) == [i] + rest;
        assert ([i] + rest)[k + 1] == j;
      } else {
        assert StartsFrom(c, i) == rest;
      }
    } else {
      assert StartsFrom(c, i) == [j] + rest;
      assert ([j] + rest)[0] == j;
    }
  }

  /** Blocks hold nothing but instructions, and each instruction that is a potential start. */
  lemma BlocksHoldStarts(c: Context, g: Flow, x: Instruction)
    ensures var xs := Flat(BlocksFrom(c, g, 0).0);
      && (x in xs ==> x in c.ins)
      && (x in c.ins && x.address in c.starts ==> x in xs)
  {
    var blocks, starts := BlocksFrom(c, g, 0).0, StartsFrom(c, 0);
    BlocksAreSlices(c, g, 0);
    FlatHas(blocks, x);
    if x in Flat(blocks) {
      var k :| 0 <= k < |blocks| && x in blocks[k];
      SliceIsInside(c, blocks[k], starts[k]);
    }
    if x in c.ins && x.address in c.starts {
      var j :| 0 <= j < |c.ins| && c.ins[j] == x;
      StartsFound(c, 0, j);
      var k :| 0 <= k < |starts| && starts[k] == j;
      SliceIsInside(c, blocks[k], starts[k]);
      assert blocks[k][0] in blocks[k];
    }
  }

  /** Whatever its blocks hold, an analysis can be recorded: its entry is always in a block. */
  lemma SoundIsStorable(arch: Architecture, d: Result, s: State)
    requires Sound(d, s.code) && s.start in s.code.startBytes
    ensures Storable(d, FindingsOf(arch, s))
  {
    var c, xs := ContextOf(arch, s), s.code.instructions;
    SoundIsDistinct(d, s.code);
    SortIsAPermutation(ByAddress, xs);
    var entry :| entry in xs && entry.address == s.start;
    BlocksHoldStarts(c, s.flow, entry);
    forall x | x in Flat(BlocksFrom(c, s.flow, 0).0)
      ensures x in xs
    {
      BlocksHoldStarts(c, s.flow, x);
    }
  }

  ghost predicate AllReached(c: Context, g: Flow) {
    forall m :: 0 <= m < |c.ins| ==> Reached(c, g, m)
  }

  /** The hypothesis holds exactly when some walk reaches every instruction, wherever starts lie and whatever
      collides. */
  lemma CoversExactlyWhenReached(arch: Architecture, d: Result, s: State)
    requires Sound(d, s.code)
    ensures Covers(arch, s) <==> AllReached(ContextOf(arch, s), s.flow)
  {
    var c, xs := ContextOf(arch, s), s.code.instructions;
    SoundIsSolid(arch, d, s);
    forall m | 0 <= m < |c.ins|
      ensures c.ins[m] in xs && (c.ins[m] in Flat(BlocksFrom(c, s.flow, 0).0) <==> Reached(c, s.flow, m))
    {
      BlocksHoldReached(c, s.flow, m);
      assert c.ins[m] in c.ins;
    }
    forall x
      ensures x in Flat(BlocksFrom(c, s.flow, 0).0) ==> x in xs
      ensures x in xs ==> exists m :: 0 <= m < |c.ins| && c.ins[m] == x
    {
      BlocksHoldStarts(c, s.flow, x);
      assert x in xs <==> x in c.ins;
    }
  }

  /** The context of a sound analysis: the booked words in strict order. */
  lemma SoundIsSolid(arch: Architecture, d: Result, s: State)
    requires Sound(d, s.code)
    ensures Solid(ContextOf(arch, s)) && SameMembers(ContextOf(arch, s).ins, s.code.instructions)
  {
    var c := ContextOf(arch, s);
    SortIsAPermutation(ByAddress, s.code.instructions);
    SortIsStrict(s.code.instructions);
    WordsInOrderAreApart(c);
    forall i | 0 <= i < |c.ins|
      ensures c.ins[i].size > 0
    {
      assert c.ins[i] in c.ins && Fixed(c.ins[i]);
    }
  }

  /** Where nothing collides, it holds exactly when every instruction is a start or follows one that passes the walk
      on. */
  lemma CoversExactlyWhenLinked(arch: Architecture, d: Result, s: State)
    requires Sound(d, s.code) && s.colliding == {}
    ensures Covers(arch, s) <==> Linked(ContextOf(arch, s), s.flow)
  {
    CoversExactlyWhenReached(arch, d, s);
    ReachedExactlyWhenLinked(ContextOf(arch, s), s.flow);
  }

  /** Where the blocks of a sound analysis end: one that holds an instruction holds the next one exactly when the rules
      on mnemonics and references say so. */
  lemma BlocksFollowRules(arch: Architecture, d: Result, s: State, k: nat, m: nat)
    requires Sound(d, s.code) && m + 1 < |ContextOf(arch, s).ins|
    requires k < |Blocked(arch, s).code.blocks| && ContextOf(arch, s).ins[m] in Blocked(arch, s).code.blocks[k]
    ensures var c, blocks := ContextOf(arch, s), Blocked(arch, s).code.blocks;
      c.ins[m + 1] in blocks[k] <==> GoesOn(c, s.flow, m, FirstWith(blocks, k, c.ins[m]))
  {
    SoundIsSolid(arch, d, s);
    BlocksEndByRules(ContextOf(arch, s), s.flow, k, m);
  }

  lemma WordsInOrderAreApart(c: Context)
    requires StrictlyAscending(c.ins) && AllFixed(c.ins)
    ensures c.Apart()
  {
    forall i, j | 0 <= i < j < |c.ins|
      ensures c.ins[i].End() <= c.ins[j].address && c.ins[i].address < c.ins[j].address
    {
      var x, y := c.ins[i], c.ins[j];
      assert Fixed(x) && Fixed(y);
    }
  }

  // ----- undoing stored functions

  /** What is known of a function candidate. */
  datatype Candidate = Candidate(isGap: bool, isLandingPad: bool)

  /** The references out of some addresses. */
  ghost function Leaving(refs: set<(Address, Address)>, addrs: set<Address>): set<(Address, Address)> {
    set r | r in refs && r.0 in addrs
  }

  lemma LeavingOne(m: Refs, addrs: set<Address>, a: Address)
    ensures Leaving(Edges(m), addrs + {a}) == Leaving(Edges(m), addrs) + set b | b in At(m, a) :: (a, b)
  {
    var one := set b | b in At(m, a) :: (a, b);
    forall r
      ensures r in Leaving(Edges(m), addrs + {a}) <==> r in Leaving(Edges(m), addrs) + one
    {
      assert r == (r.0, r.1);
      EdgeAt(m, r.0, r.1);
    }
  }

  /** A stored function as it is rebuilt to be undone: from its blocks, with its references or without. */
  ghost function Rebuild(d: Result, f: Address, withRefs: bool): Findings {
    var xs := Body(d, f);
    Findings(f, "", xs, [],
             if withRefs then Leaving(d.codeRefs, AddressesOf(xs)) else {},
             if withRefs then Leaving(d.dataRefs, AddressesOf(xs)) else {},
             {}, false, false, false)
  }

  /** A gap function may be undone for another analysis that runs into it, unless a landing pad marks its entry. */
  ghost predicate GapAt(d: Result, candidates: map<Address, Candidate>, a: Address, start: Address) {
    && a in d.ins2fn && d.ins2fn[a] != start && d.ins2fn[a] in candidates
    && candidates[d.ins2fn[a]].isGap && !candidates[d.ins2fn[a]].isLandingPad
    && d.ins2fn[a] in d.functions
  }

  /** Any other stored function may be absorbed as the body of the one under analysis. */
  ghost predicate Absorbable(d: Result, candidates: map<Address, Candidate>, f: Address, start: Address) {
    f != start && f in d.functions && f in candidates && !candidates[f].isGap
  }

  lemma RevertKeepsSound(d: Result, f: Findings, k: Booking)
    requires Sound(d, k)
    ensures Sound(Reverted(d, f), k)
  {
  }

  /** Once the owner of an instruction is undone, nobody owns the word, and it was not booked by the analysis. */
  lemma RevertedWordIsFree(d: Result, k: Booking, x: Instruction, withRefs: bool)
    requires Sound(d, k) && Fixed(x) && x.address in d.ins2fn && d.ins2fn[x.address] in d.functions
    ensures Free(Reverted(d, Rebuild(d, d.ins2fn[x.address], withRefs)), x)
    ensures x.address !in k.processedBytes
  {
    if y :| y in k.instructions && Spans(y, x.address) {
      assert Fixed(y) && Free(d, y);
      WordsAreApart(x, y, x.address);
      assert false;
    }
  }

  // ----- every run

  /** The result so far, the function under analysis, and what is known of candidates. */
  datatype Config = Config(d: Result, active: Option<State>, candidates: map<Address, Candidate>)

  datatype Event =
    | Classify(a: Address, what: Candidate)
    | Begin(start: Address)
    | Choose
    | Enqueue(block: Address)
    | Book(x: Instruction)
    | RevertGapAndBook(x: Instruction)
    | Absorb(f: Address)
    | Refer(addrFrom: Address, addrTo: Address, byJump: bool)
    | Unrefer(addrFrom: Address, addrTo: Address)
    | Note(data: DataUse, notes: Notes, colliding: set<Address>)
    | CloseBlock
    | Sort
    | Finish(arch: Architecture)
    | Drop

  const EMPTY: Result := Result(map[], map[], map[], map[], map[], {}, {}, {}, {}, {}, {})

  /** When the engine takes a step. An instruction is looked up by its address alone, and only words are decoded. */
  ghost predicate Enabled(c: Config, e: Event) {
    if e.Classify? then true
    else if e.Begin? then c.active.None? && e.start !in c.d.ins2fn
    else
      && c.active.Some?
      && var s := c.active.value;
         match e
         case Choose => s.work.queue != []
         case Book(x) =>
           && Fixed(x) && x.address !in c.d.ins2fn && x.address !in c.d.dataMap && x.address !in s.code.processedBytes
         case RevertGapAndBook(x) => Fixed(x) && GapAt(c.d, c.candidates, x.address, s.start)
         case Absorb(f) => Absorbable(c.d, c.candidates, f, s.start)
         case Finish(arch) =>
           s.code.blocksAnalyzed > 0 && s.code.instructions != [] && s.start in s.code.startBytes
         case _ => true
  }

  ghost function After(c: Config, e: Event): Config
    requires Enabled(c, e)
  {
    if e.Classify? then c.(candidates := c.candidates[e.a := e.what])
    else if e.Begin? then c.(active := Some(Started(e.start)))
    else
      var s := c.active.value;
      match e
      case Choose => c.(active := Some(ChooseNext(s)))
      case Enqueue(block) => c.(active := Some(s.(work := Pushed(s.work, block))))
      case Book(x) => c.(active := Some(Booked(s, x)))
      case RevertGapAndBook(x) =>
        c.(d := Reverted(c.d, Rebuild(c.d, c.d.ins2fn[x.address], false)), active := Some(Booked(s, x)))
      case Absorb(f) =>
        c.(d := Reverted(c.d, Rebuild(c.d, f, true)), active := Some(s.(absorbed := s.absorbed + [f])))
      case Refer(a, b, byJump) => c.(active := Some(AddRef(s, a, b, byJump)))
      case Unrefer(a, b) => c.(active := Some(s.(flow := WithoutRef(s.flow, a, b))))
      case Note(data, notes, colliding) =>
        c.(active := Some(s.(data := data, notes := notes, colliding := colliding)))
      case CloseBlock => c.(active := Some(EndBlock(s)))
      case Sort => c.(active := Some(s.(code := SortedIn(s.code))))
      case Finish(arch) => c.(d := Finalized(c.d, FindingsOf(arch, s)), active := None)
      case Drop => c.(active := None)
  }

  /** What is kept of the analysis under way: its booking, its queue, and entries for all jump targets. */
  ghost predicate SoundState(d: Result, s: State) {
    Sound(d, s.code) && QueueValid(s.work) && TargetsKeyed(s.flow)
  }

  ghost predicate Kept(c: Config) {
    && Safe(c.d)
    && (c.active.Some? ==> SoundState(c.d, c.active.value))
  }

  ghost predicate Step(c: Config, e: Event, c': Config) {
    Enabled(c, e) && c' == After(c, e)
  }

  /** When a function is recorded, its references lead some walk to each of its instructions. */
  ghost predicate Covering(c: Config, e: Event) {
    e.Finish? && c.active.Some? ==> AllReached(ContextOf(e.arch, c.active.value), c.active.value.flow)
  }

  lemma StepKeeps(c: Config, e: Event, c': Config)
    requires Kept(c) && Step(c, e, c')
    ensures Kept(c')
  {
    if c.active.Some? {
      var s := c.active.value;
      match e
      case Choose => PopKeepsQueue(s.work, s.start);
      case Enqueue(block) => PushKeepsQueue(s.work, block);
      case Book(x) =>
        BookKeepsSound(c.d, s.code, x);
        BookKeepsTargets(s, x);
      case Refer(a, b, byJump) => TargetsStayKeyed(s.flow, a, b, byJump);
      case Unrefer(a, b) => TargetsStayKeyed(s.flow, a, b, false);
      case RevertGapAndBook(x) =>
        BookKeepsTargets(s, x);
        var f := Rebuild(c.d, c.d.ins2fn[x.address], false);
        RevertedWordIsFree(c.d, s.code, x, false);
        RevertKeepsSafe(c.d, f);
        RevertKeepsSound(c.d, f, s.code);
        BookKeepsSound(Reverted(c.d, f), s.code, x);
      case Absorb(f) =>
        RevertKeepsSafe(c.d, Rebuild(c.d, f, true));
        RevertKeepsSound(c.d, Rebuild(c.d, f, true), s.code);
      case Sort => SortKeepsSound(c.d, s.code);
      case Finish(arch) =>
        SoundIsStorable(arch, c.d, s);
        FinalizeKeepsSafe(c.d, FindingsOf(arch, s));
      case _ =>
    }
  }

  lemma StepKeepsOwnership(c: Config, e: Event, c': Config)
    requires Kept(c) && OwnedWords(c.d) && Covering(c, e) && Step(c, e, c')
    ensures OwnedWords(c'.d)
  {
    if c.active.Some? {
      var s := c.active.value;
      match e
      case RevertGapAndBook(x) => RevertKeepsWords(c.d, Rebuild(c.d, c.d.ins2fn[x.address], false));
      case Absorb(f) => RevertKeepsWords(c.d, Rebuild(c.d, f, true));
      case Finish(arch) =>
        CoversExactlyWhenReached(arch, c.d, s);
        SoundIsReady(arch, c.d, s);
        FinalizeKeepsWords(c.d, FindingsOf(arch, s));
      case _ =>
    }
  }

  /** A run from the empty result: the configurations it goes through, one more than there are steps. */
  ghost predicate Run(es: seq<Event>, cs: seq<Config>) {
    && |cs| == |es| + 1 && cs[0].d == EMPTY && cs[0].active == None
    && forall i {:trigger es[i]} :: 0 <= i < |es| ==> Step(cs[i], es[i], cs[i + 1])
  }

  /** In every run, at every point: stored functions share no byte, every byte of theirs has them as its owner, and what
      is booked shares no byte with them. */
  lemma {:induction false} EveryRunKeepsFunctionsApart(es: seq<Event>, cs: seq<Config>, i: nat)
    requires Run(es, cs) && i < |cs|
    ensures Kept(cs[i])
    ensures forall f, g {:trigger Body(cs[i].d, f), Body(cs[i].d, g)} :: f != g ==>
      BytesOf(Body(cs[i].d, f)) !! BytesOf(Body(cs[i].d, g))
  {
    if i > 0 {
      EveryRunKeepsFunctionsApart(es, cs, i - 1);
      assert Step(cs[i - 1], es[i - 1], cs[i]);
      StepKeeps(cs[i - 1], es[i - 1], cs[i]);
    }
    forall f, g | f != g
      ensures BytesOf(Body(cs[i].d, f)) !! BytesOf(Body(cs[i].d, g))
    {
      FunctionsAreDisjoint(cs[i].d, f, g);
    }
  }

  /** In every run whose functions are recorded with all instructions in reach of walks, at every point: the owner map
      is exactly the map from the bytes of stored instructions to their functions, and borders are exact. */
  lemma {:induction false} EveryRunKeepsOwnership(es: seq<Event>, cs: seq<Config>, i: nat)
    requires Run(es, cs) && i < |cs|
    requires forall j :: 0 <= j < i ==> Covering(cs[j], es[j])
    ensures OwnedWords(cs[i].d)
  {
    if i > 0 {
      EveryRunKeepsOwnership(es, cs, i - 1);
      EveryRunKeepsFunctionsApart(es, cs, i - 1);
      assert Step(cs[i - 1], es[i - 1], cs[i]) && Covering(cs[i - 1], es[i - 1]);
      StepKeepsOwnership(cs[i - 1], es[i - 1], cs[i]);
    }
  }

  /** In every run, no potential start lies inside another block of a function when it is recorded, if its entry is
      referred to or is its lowest instruction. */
  lemma EveryRunKeepsStartsOutside(es: seq<Event>, cs: seq<Config>, i: nat)
    requires Run(es, cs) && i < |es| && es[i].Finish? && cs[i].active.Some?
    requires EntryKeyed(cs[i].active.value)
    ensures StartsOutside(es[i].arch, cs[i].active.value, Blocked(es[i].arch, cs[i].active.value).code.blocks)
  {
    EveryRunKeepsFunctionsApart(es, cs, i);
    KeyedStartsOutside(es[i].arch, cs[i].active.value);
  }

  ghost predicate SameAnalysis(e: Event) {
    !e.Begin? && !e.Finish? && !e.Drop?
  }

  lemma {:induction false} ProcessedGrows(es: seq<Event>, cs: seq<Config>, i: nat, j: nat)
    requires Run(es, cs) && i <= j < |cs| && cs[i].active.Some?
    requires forall k :: i <= k < j ==> SameAnalysis(es[k])
    ensures cs[j].active.Some? && cs[i].active.value.work.processed <= cs[j].active.value.work.processed
    decreases j - i
  {
    if i < j {
      ProcessedGrows(es, cs, i, j - 1);
      assert Step(cs[j - 1], es[j - 1], cs[j]);
      assert SameAnalysis(es[j - 1]);
    }
  }

  ghost function Top(c: Config): Address
    requires c.active.Some? && c.active.value.work.queue != []
  {
    c.active.value.work.queue[|c.active.value.work.queue| - 1]
  }

  /** No analysis takes the same block start twice. */
  lemma NoBlockIsProcessedTwice(es: seq<Event>, cs: seq<Config>, i: nat, j: nat)
    requires Run(es, cs) && i < j < |es| && es[i].Choose? && es[j].Choose?
    requires forall k :: i <= k < j ==> SameAnalysis(es[k])
    ensures Enabled(cs[i], es[i]) && Enabled(cs[j], es[j])
    ensures Top(cs[i]) != Top(cs[j])
  {
    assert Step(cs[i], es[i], cs[i + 1]) && Step(cs[j], es[j], cs[j + 1]);
    ProcessedGrows(es, cs, i + 1, j);
    EveryRunKeepsFunctionsApart(es, cs, j);
    PopKeepsQueue(cs[j].active.value.work, 0);
  }
}
