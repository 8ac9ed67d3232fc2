/** The recursive traversal itself: a worklist of blocks, decoded instruction by instruction. The decoder is a
    parameter. What the backend does about an instruction, and whether the time is up, is chosen anew and arbitrarily
    whenever it is asked, within what `Environment` allows. */
module Disassemblers {
  import opened AddressReferences
  import opened AnalysisStates
  import opened Blocks
  import opened Collections
  import opened Disassembly
  import opened FunctionStates
  import opened Partition
  import opened Recording
  import opened Recovery
  import opened Trails

  ghost predicate Within(w: Worklist, universe: set<Address>) {
    w.queued <= universe && w.processed <= universe
  }

  /** What an analysis went through: the result and its own state when all is decided, and the blocks of its last
      pass. */
  datatype Analysis = Analysis(before: Result, last: State, trails: seq<Trail>, timedOut: bool)

  /** One candidate, whether it was analysed as a gap and lay inside a declared range, the result before and after, and
      what came of it. */
  datatype Analyzed = Analyzed(start: Address, asGap: bool, inside: bool, was: Result, now: Result, recorded: bool,
    a: Analysis)

  /** What comes of a candidate. It is not gone over exactly if it has an owner or lies inside a declared range.
      Otherwise the trails of its blocks hold, and unless it was given up or time ran out no block is left; a start that
      belongs to nobody, is no data and decodes is booked, unless it is refused; and the function is recorded exactly if
      it was not given up, some block counts, its start is booked, and what it ends with is acceptable. */
  ghost predicate ComesOf(arch: Architecture, env: Environment, o: Analyzed) {
    && (o.a.trails == [] <==> o.start in o.was.ins2fn || o.inside)
    && (o.a.trails == [] ==> o.now == o.was)
    && (o.a.trails != [] ==> Passed(env, o.a.last, o.was.dataMap, o.a.trails))
    && (o.a.trails != [] && !GaveUp(o.a.trails) && !o.a.timedOut ==> o.a.last.work.queue == [])
    && SoundState(o.a.before, o.a.last) && o.a.last.start == o.start && Since(o.a.before, o.a.last, o.was)
    && StartBooked(env, o)
    && (o.recorded <==>
         && o.a.trails != [] && !GaveUp(o.a.trails) && o.a.last.code.blocksAnalyzed > 0
         && o.start in o.a.last.code.startBytes && Acceptable(o.a.last, o.asGap, env.byteAt))
    && (AnyClosed(o.a.trails) ==> o.a.last.code.blocksAnalyzed > 0)
    && (o.recorded ==> o.a.last.code.instructions != [])
    && o.now == (if o.recorded then Finalized(o.a.before, FindingsOf(arch, o.a.last)) else o.a.before)
    && (OwnedWords(o.was) ==> (OwnedWords(o.now) <==> (o.recorded ==> Covers(arch, o.a.last))))
    && (o.start !in o.was.ins2fn && o.start in o.now.ins2fn ==> o.recorded)
    && (o.recorded ==> EncloseStart(o.now, o.start))
  }

  ghost predicate StartBooked(env: Environment, o: Analyzed) {
    var x := env.decode(o.start);
    o.a.trails != [] && o.start !in o.was.ins2fn && o.start !in o.was.dataMap && x.Some? ==>
      || (x.value in o.a.last.code.instructions && o.start in o.a.last.code.startBytes)
      || Refused(o.a.last, o.a.trails[0], x.value)
  }

  class RecursiveDisassembler {
    const arch: Architecture
    const disassembly: DisassemblyResult
    var candidates: map<Address, Candidate>
    const env: Environment

    constructor (arch: Architecture, disassembly: DisassemblyResult, candidates: map<Address, Candidate>,
        env: Environment)
      ensures this.arch == arch && this.disassembly == disassembly && this.candidates == candidates && this.env == env
    {
      this.arch, this.disassembly, this.candidates, this.env := arch, disassembly, candidates, env;
    }

    /** An address the gap scan proposes becomes a gap candidate; whether it is a landing pad, the image says. */
    method AddGapCandidate(addr: Address)
      modifies `candidates
      ensures addr in candidates && candidates[addr].isGap
      ensures forall a :: a != addr ==> (a in candidates <==> a in old(candidates))
                                        && (a in candidates ==> candidates[a] == old(candidates)[a])
    {
      candidates := candidates[addr := Candidate(true, env.landingPad(addr))];
    }

    // ----- undoing stored functions

    /** The code references out of some instructions, as a map of their own. */
    method RefsOutOf(xs: seq<Instruction>) returns (refs: Refs)
      ensures Edges(refs) == Leaving(disassembly.View().codeRefs, AddressesOf(xs))
    {
      ghost var all := disassembly.codeRefsFrom.Contents();
      refs := map[];
      var i := 0;
      while i < |xs|
        invariant i <= |xs| && Edges(refs) == Leaving(Edges(all), AddressesOf(xs[..i]))
      {
        assert xs[..i + 1] == xs[..i] + [xs[i]];
        PrefixSets(xs[..i], xs[i]);
        LeavingOne(all, AddressesOf(xs[..i]), xs[i].address);
        var dests := disassembly.codeRefsFrom.Get(xs[i].address);
        if dests.Some? {
          EdgesJoined(refs, xs[i].address, dests.value);
          refs := refs[xs[i].address := At(refs, xs[i].address) + dests.value];
        }
        i := i + 1;
      }
      assert xs[..i] == xs;
    }

    static lemma EdgesJoined(m: Refs, a: Address, dests: set<Address>)
      ensures Edges(m[a := At(m, a) + dests]) == Edges(m) + set b | b in dests :: (a, b)
    {
    }

    method DataRefsOutOf(xs: seq<Instruction>) returns (refs: set<(Address, Address)>)
      ensures refs == Leaving(disassembly.View().dataRefs, AddressesOf(xs))
    {
      refs := {};
      var i := 0;
      while i < |xs|
        invariant i <= |xs| && refs == Leaving(Edges(disassembly.dataRefsFrom), AddressesOf(xs[..i]))
      {
        assert xs[..i + 1] == xs[..i] + [xs[i]];
        PrefixSets(xs[..i], xs[i]);
        LeavingOne(disassembly.dataRefsFrom, AddressesOf(xs[..i]), xs[i].address);
        refs := refs + set b | b in At(disassembly.dataRefsFrom, xs[i].address) :: (xs[i].address, b);
        i := i + 1;
      }
      assert xs[..i] == xs;
    }

    method RevertStoredFunction(f: Address, withRefs: bool)
      requires disassembly.Valid() && f in disassembly.functions
      modifies disassembly, disassembly.codeRefsFrom, disassembly.codeRefsTo
      ensures disassembly.Valid()
      ensures disassembly.View() == Reverted(old(disassembly.View()), Rebuild(old(disassembly.View()), f, withRefs))
    {
      var owner := new FunctionAnalysisState(arch, f, disassembly);
      var xs := Flat(disassembly.functions[f]);
      owner.code := owner.code.(instructions := xs);
      assert Edges(map[]) == {};
      if withRefs {
        var refs := RefsOutOf(xs);
        var dataRefs := DataRefsOutOf(xs);
        owner.flow := owner.flow.(from := refs);
        owner.data := owner.data.(refs := dataRefs);
      }
      owner.RevertAnalysis();
    }

    /** Undoes the gap function an analysis ran into. */
    method RevertGapFunction(colliding: Address, start: Address) returns (reverted: bool)
      requires disassembly.Valid()
      modifies disassembly, disassembly.codeRefsFrom, disassembly.codeRefsTo
      ensures disassembly.Valid()
      ensures reverted <==> GapAt(old(disassembly.View()), candidates, colliding, start)
      ensures var d := old(disassembly.View());
        disassembly.View() == if reverted then Reverted(d, Rebuild(d, d.ins2fn[colliding], false)) else d
    {
      if colliding !in disassembly.ins2fn || disassembly.ins2fn[colliding] == start {
        return false;
      }
      var owner := disassembly.ins2fn[colliding];
      if owner !in candidates || !candidates[owner].isGap {
        return false;
      }
      if candidates[owner].isLandingPad {
        return false;
      }
      if owner !in disassembly.functions {
        return false;
      }
      RevertStoredFunction(owner, false);
      return true;
    }

    /** Undoes a function that turns out to be the body of the one under analysis. */
    method AbsorbFunction(f: Address, s: FunctionAnalysisState) returns (absorbed: bool)
      requires disassembly.Valid()
      modifies s`absorbedFunctions, disassembly, disassembly.codeRefsFrom, disassembly.codeRefsTo
      ensures disassembly.Valid()
      ensures absorbed <==> Absorbable(old(disassembly.View()), candidates, f, s.startAddr)
      ensures var d := old(disassembly.View());
        disassembly.View() == if absorbed then Reverted(d, Rebuild(d, f, true)) else d
      ensures s.absorbedFunctions == if absorbed then old(s.absorbedFunctions) + [f] else old(s.absorbedFunctions)
    {
      if f == s.startAddr || f !in disassembly.functions {
        return false;
      }
      if f !in candidates || candidates[f].isGap {
        return false;
      }
      RevertStoredFunction(f, true);
      s.absorbedFunctions := s.absorbedFunctions + [f];
      return true;
    }

    // ----- one analysis

    /** The configuration of a run that the engine is in. */
    ghost function ConfigOf(s: FunctionAnalysisState): Config
      reads this`candidates, s, disassembly, disassembly.codeRefsFrom, disassembly.codeRefsTo
    {
      Config(disassembly.View(), Some(s.View()), candidates)
    }

    ghost predicate Inv(s: FunctionAnalysisState)
      reads this`candidates, s, disassembly, disassembly.codeRefsFrom, disassembly.codeRefsTo
    {
      && s.disassembly == disassembly && s.arch == arch && disassembly.Valid() && env.Contract()
      && Kept(ConfigOf(s)) && Within(s.work, env.Universe(s.startAddr)) && Decoded(env, s.code)
    }

    ghost predicate SinceThen(s: FunctionAnalysisState, was: Result)
      reads s, disassembly, disassembly.codeRefsFrom, disassembly.codeRefsTo
    {
      Since(disassembly.View(), s.View(), was)
    }

    /** Whether the analysis has run out of time: it may at any moment. */
    method AnalysisTimeoutTripped() returns (tripped: bool)
    {
      tripped := *;
    }

    /** The backend's reaction to an instruction: any number of effects, each chosen arbitrarily, and each a step of a
        run. `cut` says that the block ends before the instruction. */
    method React(s: FunctionAnalysisState, ghost was: Result) returns (cut: bool, ghost effects: seq<Effect>)
      requires Inv(s) && SinceThen(s, was)
      modifies s`work, s`code, s`flow, s`data, s`notes, s`absorbedFunctions
      modifies `candidates, disassembly, disassembly.codeRefsFrom, disassembly.codeRefsTo
      ensures Inv(s) && SinceThen(s, was)
      ensures ConfigOf(s) == AllReacted(old(ConfigOf(s)), effects)
    {
      effects := [];
      var left: nat := *;
      while left > 0
        invariant Inv(s) && SinceThen(s, was)
        invariant ConfigOf(s) == AllReacted(old(ConfigOf(s)), effects)
      {
        assert env.Allows(Unreachable);
        var e :| env.Allows(e);
        React1(s, e, was);
        assert (effects + [e])[..|effects|] == effects;
        effects := effects + [e];
        left := left - 1;
      }
      cut := *;
    }

    method React1(s: FunctionAnalysisState, e: Effect, ghost was: Result)
      requires Inv(s) && SinceThen(s, was) && env.Allows(e)
      modifies s`work, s`code, s`flow, s`data, s`notes, s`absorbedFunctions
      modifies `candidates, disassembly, disassembly.codeRefsFrom, disassembly.codeRefsTo
      ensures Inv(s) && SinceThen(s, was)
      ensures ConfigOf(s) == Reacted(old(ConfigOf(s)), e)
    {
      ghost var c := ConfigOf(s);
      StepSince(c, EventOf(c, e), was);
      OneReaction(c, e);
      Perform(s, e);
      StaysWithin(env, c.active.value, s.View(), e);
    }

    /** What the backend notes about an instruction, or the data it refers to. */
    method NoteEffect(s: FunctionAnalysisState, e: Effect)
      requires e.ReferData? || e.Unreachable? || e.Ending? || e.SaneEnding? || e.Recursion? || e.Thunk? || e.NoLeaf?
      modifies s`data, s`notes
      ensures s.data == DataOf(old(s.data), e) && s.notes == NotesOf(old(s.notes), e)
    {
      match e
      case ReferData(addrFrom, addrTo, size, isTable) =>
        var bytes := Interval(addrTo, addrTo + size);
        s.data := DataUse(s.data.bytes + bytes, if isTable then s.data.tableBytes + bytes else s.data.tableBytes,
          s.data.refs + {(addrFrom, addrTo)});
      case Unreachable => s.notes := s.notes.(nextReachable := false);
      case Ending => s.notes := s.notes.(blockEnding := true);
      case SaneEnding => s.notes := s.notes.(sanelyEnding := true);
      case Recursion => s.notes := s.notes.(recursive := true);
      case Thunk => s.notes := s.notes.(thunk := true);
      case NoLeaf => s.notes := s.notes.(leaf := false);
    }

    /** What the backend does about the references, blocks and instructions of the function. */
    method RouteEffect(s: FunctionAnalysisState, e: Effect)
      requires e.Enqueue? || e.Refer? || e.Unrefer? || e.CloseBlock? || e.SortBooked?
      requires s.code.sorted ==> Ascending(s.code.instructions)
      modifies s`work, s`code, s`flow, s`notes
      ensures ConfigOf(s) == Reacted(old(ConfigOf(s)), e)
    {
      match e
      case Enqueue(block) => s.AddBlockToQueue(block);
      case Refer(addrFrom, addrTo, byJump) => s.AddCodeRef(addrFrom, addrTo, byJump);
      case Unrefer(addrFrom, addrTo) => s.RemoveCodeRef(addrFrom, addrTo);
      case CloseBlock => s.EndBlock();
      case SortBooked => s.SortInstructions();
    }

    method AbsorbEffect(s: FunctionAnalysisState, e: Effect)
      requires s.disassembly == disassembly && disassembly.Valid() && e.AbsorbBody?
      modifies s`absorbedFunctions, disassembly, disassembly.codeRefsFrom, disassembly.codeRefsTo
      ensures disassembly.Valid() && ConfigOf(s) == Reacted(old(ConfigOf(s)), e)
    {
      ghost var c := ConfigOf(s);
      var absorbed := AbsorbFunction(e.f, s);
      if !absorbed {
        NothingNoted(c);
      }
    }

    /** What the backend does about an instruction, done. */
    method Perform(s: FunctionAnalysisState, e: Effect)
      requires s.disassembly == disassembly && disassembly.Valid()
      requires s.code.sorted ==> Ascending(s.code.instructions)
      modifies s`work, s`code, s`flow, s`data, s`notes, s`absorbedFunctions
      modifies `candidates, disassembly, disassembly.codeRefsFrom, disassembly.codeRefsTo
      ensures disassembly.Valid() && ConfigOf(s) == Reacted(old(ConfigOf(s)), e)
    {
      if e.AbsorbBody? {
        AbsorbEffect(s, e);
      } else if e.Classify? {
        candidates := candidates[e.a := e.what];
      } else if e.Enqueue? || e.Refer? || e.Unrefer? || e.CloseBlock? || e.SortBooked? {
        RouteEffect(s, e);
      } else {
        ghost var c := ConfigOf(s);
        NoteEffect(s, e);
        NoteReacts(c, e);
      }
    }

    /** Books an instruction that nobody owns, undoes the gap function that owns it and books it then, or ends the block
        there. */
    method BookOrCollide(s: FunctionAnalysisState, x: Instruction, asGap: bool, ghost was: Result)
      requires Inv(s) && SinceThen(s, was) && env.decode(x.address) == Some(x)
      modifies s`code, s`flow, s`notes, s`collidingAddresses
      modifies disassembly, disassembly.codeRefsFrom, disassembly.codeRefsTo
      ensures Inv(s) && SinceThen(s, was)
      ensures ConfigOf(s) == After(old(ConfigOf(s)), BookingOf(old(ConfigOf(s)), x, asGap))
      ensures BooksPlainly(old(ConfigOf(s)), x, asGap, ConfigOf(s))
    {
      ghost var c := ConfigOf(s);
      StepSince(c, BookingOf(c, x, asGap), was);
      BookingHandles(env, c, x, asGap);
      BookingIsPlain(c, x, asGap);
      BookWord(s, x, asGap);
    }

    method BookWord(s: FunctionAnalysisState, x: Instruction, asGap: bool)
      requires s.disassembly == disassembly && disassembly.Valid() && Fixed(x)
      modifies s`code, s`flow, s`notes, s`collidingAddresses
      modifies disassembly, disassembly.codeRefsFrom, disassembly.codeRefsTo
      ensures disassembly.Valid()
      ensures ConfigOf(s) == After(old(ConfigOf(s)), BookingOf(old(ConfigOf(s)), x, asGap))
    {
      if x.address !in disassembly.ins2fn && x.address !in disassembly.dataMap && x.address !in s.code.processedBytes {
        s.AddInstruction(x);
      } else if x.address in disassembly.ins2fn {
        var reverted := false;
        if !asGap {
          reverted := RevertGapFunction(x.address, s.startAddr);
        }
        if reverted {
          s.AddInstruction(x);
        } else {
          s.notes := s.notes.(blockEnding := true);
          s.collidingAddresses := s.collidingAddresses + {x.address};
        }
      } else {
        s.notes := s.notes.(blockEnding := true);
      }
    }

    /** An instruction that overlaps a jump table ends the block before it. */
    method StopAtTable(s: FunctionAnalysisState, previous: Option<Instruction>, x: Instruction)
      requires Inv(s)
      modifies s`flow, s`notes, s`code
      ensures Inv(s) && s.View() == Stopped(old(s.View()), previous, x)
    {
      if previous.Some? && previous.value.End() == x.address {
        TargetsStayKeyed(s.flow, previous.value.address, x.address, false);
        s.RemoveCodeRef(previous.value.address, x.address);
      }
      s.notes := s.notes.(blockEnding := true);
      s.EndBlock();
      s.notes := s.notes.(sanelyEnding := true);
    }

    /** Books an instruction, or not, and ends the block if the backend noted its end or the instruction could not be
        booked. `w` is the state in between. */
    method HandleWord(s: FunctionAnalysisState, x: Instruction, asGap: bool, ghost was: Result)
      returns (done: bool, ghost w: State)
      requires Inv(s) && SinceThen(s, was) && env.decode(x.address) == Some(x)
      modifies s`code, s`flow, s`notes, s`collidingAddresses
      modifies disassembly, disassembly.codeRefsFrom, disassembly.codeRefsTo
      ensures Inv(s) && SinceThen(s, was) && Handled(old(s.View()), w, was.dataMap, x)
      ensures done == w.notes.blockEnding && s.View() == if done then EndBlock(w) else w
      ensures done && s.code.instructions != [] ==> s.code.blocksAnalyzed > 0
    {
      BookingHandles(env, ConfigOf(s), x, asGap);
      BookOrCollide(s, x, asGap, was);
      w, done := s.View(), s.notes.blockEnding;
      if done {
        s.EndBlock();
        EndedIsClosed(disassembly.View(), s.code);
      }
    }

    /** Lets the backend react to an instruction and books it; `done` says that the block ends there. */
    method TakeWord(s: FunctionAnalysisState, x: Instruction, asGap: bool, ghost was: Result)
      returns (done: bool, ghost effects: seq<Effect>, ghost cut: bool)
      requires Inv(s) && SinceThen(s, was) && env.decode(x.address) == Some(x) && !s.notes.blockEnding
      modifies s, `candidates, disassembly, disassembly.codeRefsFrom, disassembly.codeRefsTo
      ensures Inv(s) && SinceThen(s, was)
      ensures TakesWord(old(s.View()), s.View(), was.dataMap, x, effects, cut, done)
      ensures cut ==> BooksAtMost(old(s.View()), s.View(), None)
    {
      ghost var c := ConfigOf(s);
      done, effects := React(s, was);
      cut := done;
      ReactionsKeep(c, effects);
      ghost var v, w := s.View(), s.View();
      if done {
        WordIsCut(c.active.value, v, was.dataMap, x, effects);
      } else {
        done, w := HandleWord(s, x, asGap, was);
        WordIsTaken(c.active.value, v, w, s.View(), was.dataMap, x, effects, done);
      }
    }

    /** Whether a block, from the state u at its start, ends before a word: a jump table begins there, or it is the
        second word of zeros, at which the candidate is given up. */
    method EndsBefore(s: FunctionAnalysisState, x: Instruction, previous: Option<Instruction>, zeros: nat,
        ghost was: Result, ghost u: State, ghost block: Address, ghost visits: seq<Visit>)
      returns (ended: bool, suspicious: nat, stop: bool, ghost t: Trail)
      requires Inv(s) && SinceThen(s, was) && OnTheWay(env, u, s.View(), block, visits)
      requires x.address == block + 4 * |visits| && env.decode(x.address) == Some(x) && zeros <= 1
      modifies s`flow, s`notes, s`code
      ensures Inv(s) && SinceThen(s, was)
      ensures if ended then GoneOver(env, u, s.View(), was.dataMap, t) else OnTheWay(env, u, s.View(), block, visits)
      ensures t.block == block && t.visits == visits && (t.halt.GivenUp? || t.halt.AtTable?)
      ensures stop <==> ended && t.halt.GivenUp?
      ensures suspicious == zeros + if (ended ==> stop) && env.allZero(x.address) then 1 else 0
      ensures if stop then suspicious == 2 else suspicious <= 1
    {
      ended, suspicious, stop, t := true, zeros, false, Trail(block, visits, AtTable);
      ghost var v := s.View();
      if s.data.tableBytes * BytesOf([x]) != {} {
        StopAtTable(s, previous, x);
        EndedIsClosed(disassembly.View(), s.code);
        WayStops(env, u, v, s.View(), was.dataMap, t);
        return;
      }
      s.notes := s.notes.(nextReachable := true);
      WayStays(env, u, v, s.View(), block, visits);
      if env.allZero(x.address) {
        suspicious := suspicious + 1;
      }
      ended := suspicious > 1;
      if ended {
        stop, t := true, Trail(block, visits, GivenUp);
        WayStops(env, u, v, s.View(), was.dataMap, t);
      }
    }

    /** Takes the next word of a block, from the state u at its start, unless the block ends before it. */
    method DecodeWord(s: FunctionAnalysisState, x: Instruction, previous: Option<Instruction>, asGap: bool, zeros: nat,
        ghost was: Result, ghost u: State, ghost block: Address, ghost visits: seq<Visit>)
      returns (suspicious: nat, done: bool, stop: bool, ghost t: Trail, ghost effects: seq<Effect>)
      requires Inv(s) && SinceThen(s, was) && OnTheWay(env, u, s.View(), block, visits)
      requires x.address == block + 4 * |visits| && env.decode(x.address) == Some(x) && zeros <= 1
      modifies s, `candidates, disassembly, disassembly.codeRefsFrom, disassembly.codeRefsTo
      ensures Inv(s) && SinceThen(s, was)
      ensures if done then GoneOver(env, u, s.View(), was.dataMap, t)
        else OnTheWay(env, u, s.View(), block, visits + [Visit(x, effects)])
      ensures t.block == block && (stop <==> done && t.halt.GivenUp?)
      ensures suspicious + Zeros(env, block, |visits|)
        == zeros + Zeros(env, block, if done then t.Reached() else |visits| + 1)
      ensures if stop then suspicious == 2 else suspicious <= 1
    {
      done, suspicious, stop, t := EndsBefore(s, x, previous, zeros, was, u, block, visits);
      effects := [];
      if !done {
        ghost var v, cut := s.View(), false;
        done, effects, cut := TakeWord(s, x, asGap, was);
        if done {
          t := EndOfWay(u, v, s.View(), was.dataMap, block, visits, x, effects, cut);
        } else {
          WayGoesOn(env, u, v, s.View(), was.dataMap, block, visits, x, effects);
        }
      }
    }

    /** Decodes one block from its start. `stop` says that the candidate is given up: at the second word of zeros. */
    method DecodeBlock(s: FunctionAnalysisState, block: Address, asGap: bool, zeros: nat, ghost was: Result)
      returns (suspicious: nat, stop: bool, ghost t: Trail)
      requires Inv(s) && SinceThen(s, was) && !s.notes.blockEnding && zeros <= 1
      modifies s, `candidates, disassembly, disassembly.codeRefsFrom, disassembly.codeRefsTo
      ensures Inv(s) && SinceThen(s, was)
      ensures GoneOver(env, old(s.View()), s.View(), was.dataMap, t) && t.block == block
      ensures suspicious == zeros + Zeros(env, block, t.Reached())
      ensures (stop <==> t.halt.GivenUp?) && (if stop then suspicious == 2 else suspicious <= 1)
    {
      suspicious, stop := zeros, false;
      var addr := block;
      var previous: Option<Instruction> := None;
      ghost var u := s.View();
      ghost var visits: seq<Visit> := [];
      while env.decode(addr).Some?
        invariant Inv(s) && SinceThen(s, was) && addr == block + 4 * |visits|
        invariant OnTheWay(env, u, s.View(), block, visits)
        invariant suspicious == zeros + Zeros(env, block, |visits|) && suspicious <= 1 && !stop
        decreases env.limit - addr
      {
        var x := env.decode(addr).value;
        var done;
        ghost var effects;
        suspicious, done, stop, t, effects :=
          DecodeWord(s, x, previous, asGap, suspicious, was, u, block, visits);
        if done {
          return;
        }
        visits := visits + [Visit(x, effects)];
        previous := Some(x);
        addr := addr + x.size;
      }
      t := Trail(block, visits, Undecodable);
      WayStops(env, u, s.View(), s.View(), was.dataMap, t);
    }

    lemma EndOfWay(u: State, v: State, w: State, dataMap: set<Address>, block: Address, visits: seq<Visit>,
        x: Instruction, effects: seq<Effect>, cut: bool) returns (t: Trail)
      requires env.Contract() && OnTheWay(env, u, v, block, visits) && env.decode(block + 4 * |visits|) == Some(x)
      requires TakesWord(v, w, dataMap, x, effects, cut, true) && (cut ==> BooksAtMost(v, w, None))
      ensures GoneOver(env, u, w, dataMap, t) && t.block == block && t.Reached() == |visits| + 1 && !t.halt.GivenUp?
    {
      if cut {
        t := WayIsCut(env, u, v, w, dataMap, block, visits, x, effects);
      } else {
        t := WayEnds(env, u, v, w, dataMap, block, visits, x, effects);
      }
    }

    /** Takes the next block; one block less is left to be processed. */
    method TakeBlock(s: FunctionAnalysisState) returns (block: Address)
      requires Inv(s) && s.work.queued != {}
      modifies s`work, s`notes
      ensures Inv(s) && old(s.work.queue) != [] && s.View() == ChooseNext(old(s.View()))
      ensures block == old(s.work.queue)[|old(s.work.queue)| - 1]
      ensures |env.Universe(s.startAddr) - s.work.processed| < |env.Universe(s.startAddr) - old(s.work.processed)|
    {
      NotEmpty(s.work);
      PopKeepsQueue(s.work, s.startAddr);
      block := s.ChooseNextBlock();
      FewerLeft(env.Universe(s.startAddr), s.work.processed - {block}, block);
    }

    /** Takes blocks from the queue until there are none left, the candidate is given up, or time runs out. */
    method Explore(s: FunctionAnalysisState, asGap: bool, ghost was: Result)
      returns (stop: bool, timedOut: bool, ghost trails: seq<Trail>)
      requires Inv(s) && SinceThen(s, was)
      requires s.work == Worklist([s.startAddr], {s.startAddr}, {}) && s.code.instructions == []
      modifies s, `candidates, disassembly, disassembly.codeRefsFrom, disassembly.codeRefsTo
      ensures Inv(s) && SinceThen(s, was)
      ensures Explored(env, s.View(), was.dataMap, trails) && BeginsAt(trails, s.startAddr) && ZerosFit(env, trails)
      ensures (stop <==> GaveUp(trails)) && (stop || timedOut || s.work.queue == [])
    {
      stop, timedOut, trails := false, false, [];
      var suspicious := 0;
      var blocksProcessed := 0;
      while s.work.queued != {}
        invariant Inv(s) && SinceThen(s, was) && Explored(env, s.View(), was.dataMap, trails)
        invariant Begun(s.work, trails, s.startAddr)
        invariant blocksProcessed == |trails|
        invariant !GaveUp(trails) && ZerosFit(env, trails) && suspicious == AllZeros(env, trails)
        decreases |env.Universe(s.startAddr) - s.work.processed|
      {
        blocksProcessed := blocksProcessed + 1;
        if blocksProcessed % 256 == 0 {
          timedOut := AnalysisTimeoutTripped();
          if timedOut {
            return;
          }
        }
        suspicious, stop, trails := ExploreBlock(s, asGap, suspicious, was, trails);
        if stop {
          return;
        }
      }
      NotEmpty(s.work);
    }

    /** Takes one block from the queue. */
    method ExploreBlock(s: FunctionAnalysisState, asGap: bool, zeros: nat, ghost was: Result, ghost before: seq<Trail>)
      returns (suspicious: nat, stop: bool, ghost trails: seq<Trail>)
      requires Inv(s) && SinceThen(s, was) && s.work.queued != {}
      requires Explored(env, s.View(), was.dataMap, before) && Begun(s.work, before, s.startAddr)
      requires !GaveUp(before) && ZerosFit(env, before) && zeros == AllZeros(env, before)
      modifies s, `candidates, disassembly, disassembly.codeRefsFrom, disassembly.codeRefsTo
      ensures Inv(s) && SinceThen(s, was) && Explored(env, s.View(), was.dataMap, trails)
      ensures |trails| == |before| + 1 && BeginsAt(trails, s.startAddr)
      ensures suspicious == AllZeros(env, trails) && ZerosFit(env, trails) && (stop <==> GaveUp(trails))
      ensures |env.Universe(s.startAddr) - s.work.processed| < |env.Universe(s.startAddr) - old(s.work.processed)|
    {
      ghost var v := s.View();
      var block := TakeBlock(s);
      ghost var t;
      suspicious, stop, t := DecodeBlock(s, block, asGap, zeros, was);
      trails := before + [t];
      TrailAdded(v, s.View(), was.dataMap, before, t);
    }

    /** One trail more, of the block that was chosen in state v. */
    lemma TrailAdded(v: State, w: State, dataMap: set<Address>, before: seq<Trail>, t: Trail)
      requires Explored(env, v, dataMap, before) && v.work.queue != [] && Begun(v.work, before, v.start)
      requires GoneOver(env, ChooseNext(v), w, dataMap, t) && t.block == v.work.queue[|v.work.queue| - 1]
      requires !GaveUp(before) && ZerosFit(env, before)
      requires var all := AllZeros(env, before) + Zeros(env, t.block, t.Reached());
        if t.halt.GivenUp? then all == 2 else all <= 1
      ensures ZerosFit(env, before + [t])
      ensures Explored(env, w, dataMap, before + [t]) && BeginsAt(before + [t], v.start)
      ensures AllZeros(env, before + [t]) == AllZeros(env, before) + Zeros(env, t.block, t.Reached())
      ensures GaveUp(before + [t]) <==> t.halt.GivenUp?
    {
      ExploredMore(env, v, w, dataMap, before, t);
      ZerosFitMore(env, before, t);
    }

    /** The first block is the start of the function: it is queued alone, or a trail begins there. */
    ghost predicate Begun(w: Worklist, trails: seq<Trail>, start: Address) {
      if trails == [] then w.queue == [start] && w.queued != {} else trails[0].block == start
    }

    /** One pass over a candidate, unless its start has an owner already. */
    method AnalyzePass(start: Address, asGap: bool, known: set<Address>, declaredInside: bool, ghost was: Result)
      returns (s: FunctionAnalysisState, stop: bool, ghost timedOut: bool, ghost trails: seq<Trail>)
      requires disassembly.Valid() && Safe(disassembly.View()) && env.Contract()
      requires Since(disassembly.View(), Started(start), was)
      modifies `candidates, disassembly, disassembly.codeRefsFrom, disassembly.codeRefsTo
      ensures fresh(s) && Inv(s) && s.startAddr == start && SinceThen(s, was)
      ensures trails == [] <==> start in old(disassembly.ins2fn) || declaredInside
      ensures trails == [] ==> stop && disassembly.View() == old(disassembly.View())
      ensures trails != [] ==> Passed(env, s.View(), was.dataMap, trails) && (stop <==> GaveUp(trails))
      ensures stop || timedOut || s.work.queue == []
    {
      s := new FunctionAnalysisState(arch, start, disassembly);
      s.data := DataUse(known, known, {});
      stop, timedOut, trails := true, false, [];
      if start in disassembly.ins2fn || declaredInside {
        return;
      }
      var late;
      stop, late, trails := Explore(s, asGap, was);
      timedOut := late;
    }

    /** The passes over a candidate: one that ran into a jump table it found only later is repeated with the table
        known. */
    method AnalyzePasses(start: Address, asGap: bool, declaredInside: bool, ghost was: Result)
      returns (s: FunctionAnalysisState, stop: bool, ghost timedOut: bool, ghost trails: seq<Trail>)
      requires disassembly.Valid() && Safe(disassembly.View()) && env.Contract() && was == disassembly.View()
      modifies `candidates, disassembly, disassembly.codeRefsFrom, disassembly.codeRefsTo
      ensures fresh(s) && Inv(s) && s.startAddr == start && SinceThen(s, was)
      ensures trails == [] <==> start in was.ins2fn || declaredInside
      ensures trails == [] ==> stop && disassembly.View() == was
      ensures trails != [] ==> Passed(env, s.View(), was.dataMap, trails) && (stop <==> GaveUp(trails))
      ensures stop || timedOut || s.work.queue == []
    {
      s, stop, timedOut, trails := AnalyzePass(start, asGap, {}, declaredInside, was);
      if !stop && s.data.tableBytes * s.code.processedBytes != {} {
        s, stop, timedOut, trails := AnalyzePass(start, asGap, s.data.tableBytes, declaredInside, was);
      }
    }

    /** Analyses a candidate and records the function it turns out to be, if it does. */
    method AnalyzeFunction(start: Address, asGap: bool, declaredInside: bool)
      returns (s: FunctionAnalysisState, recorded: bool, ghost a: Analysis)
      requires disassembly.Valid() && Safe(disassembly.View()) && env.Contract()
      modifies `candidates, disassembly, disassembly.codeRefsFrom, disassembly.codeRefsTo
      ensures disassembly.Valid() && Safe(disassembly.View())
      ensures ComesOf(arch, env,
                Analyzed(start, asGap, declaredInside, old(disassembly.View()), disassembly.View(), recorded, a))
    {
      ghost var was := disassembly.View();
      var stop;
      ghost var timedOut, trails;
      s, stop, timedOut, trails := AnalyzePasses(start, asGap, declaredInside, was);
      a, recorded := Analysis(disassembly.View(), s.View(), trails, timedOut), false;
      if !stop {
        ghost var last;
        recorded, last := Conclude(s, asGap);
        ExploredStays(env, a.last, last, was.dataMap, trails);
        a := a.(last := last);
      }
      if trails != [] {
        ClosedCounts(env, a.last, was.dataMap, trails);
        if start !in was.dataMap && env.decode(start).Some? {
          FreeStartIsBooked(env, a.before, a.last, was.dataMap, trails);
        }
      }
    }

    /** Records the function an analysis turned out to be, if it is one. `last` is the state at that moment. */
    method Conclude(s: FunctionAnalysisState, asGap: bool) returns (recorded: bool, ghost last: State)
      requires Inv(s)
      modifies s, disassembly, disassembly.codeRefsFrom, disassembly.codeRefsTo
      ensures disassembly.Valid() && last == old(s.View()).(symbol := env.symbolOf(s.startAddr))
      ensures recorded <==> last.code.blocksAnalyzed > 0 && s.startAddr in last.code.startBytes
                            && Acceptable(last, asGap, env.byteAt)
      ensures var d := old(disassembly.View());
        && disassembly.View() == (if recorded then Finalized(d, FindingsOf(arch, last)) else d)
        && (OwnedWords(d) ==> (OwnedWords(disassembly.View()) <==> (recorded ==> Covers(arch, last))))
      ensures Safe(disassembly.View()) && (recorded ==> EncloseStart(disassembly.View(), s.startAddr))
    {
      ghost var d := disassembly.View();
      s.symbol := env.symbolOf(s.startAddr);
      last := s.View();
      var kept := s.FinalizeAnalysis(asGap, env.byteAt);
      recorded := kept && s.code.blocksAnalyzed > 0;
      if recorded {
        RecordingKeeps(arch, d, last);
      }
    }

    // ----- splitting at the ends of declared ranges

    method CallsOwnStart(xs: seq<Instruction>, g: Address) returns (recursive: bool)
      ensures recursive <==> CallsItself(disassembly.View().codeRefs, xs, g)
    {
      var i := 0;
      while i < |xs|
        invariant i <= |xs|
        invariant forall j :: 0 <= j < i && IsCall(xs[j]) ==> (xs[j].address, g) !in disassembly.View().codeRefs
      {
        EdgeAt(disassembly.codeRefsFrom.Contents(), xs[i].address, g);
        if IsCall(xs[i]) {
          var refs := disassembly.codeRefsFrom.Get(xs[i].address);
          if refs.Some? && g in refs.value {
            return true;
          }
        }
        i := i + 1;
      }
      return false;
    }

    /** Stores one segment as a function of its own. */
    method AssignSegment(g: Address, blocks: seq<Block>, look: Lookup)
      requires disassembly.Valid() && Flat(blocks) != []
      modifies disassembly
      ensures disassembly.Valid() && disassembly.View() == Assign(old(disassembly.View()), look, g, blocks)
    {
      var xs := Flat(blocks);
      disassembly.functions := disassembly.functions[g := blocks];
      disassembly.functionBorders := disassembly.functionBorders[g := (Lowest(xs), Highest(xs))];
      disassembly.ClaimAll(xs, g);
      disassembly.functionSymbols := disassembly.functionSymbols[g := look.symbolOf(g)];
      FlagSegment(g, xs, look);
    }

    method FlagSegment(g: Address, xs: seq<Instruction>, look: Lookup)
      requires disassembly.Valid()
      modifies disassembly`leafFunctions, disassembly`recursiveFunctions, disassembly`thunkFunctions
      ensures disassembly.Valid()
      ensures var d := old(disassembly.View());
        disassembly.View() == d.(
          leaf := if HasCall(xs) then d.leaf else d.leaf + {g},
          recursive := if CallsItself(d.codeRefs, xs, g) then d.recursive + {g} else d.recursive,
          thunk := if IsApiJumpThunk(look, xs) then d.thunk + {g} else d.thunk)
    {
      if !HasCall(xs) {
        disassembly.leafFunctions := disassembly.leafFunctions + {g};
      }
      var recursive := CallsOwnStart(xs, g);
      if recursive {
        disassembly.recursiveFunctions := disassembly.recursiveFunctions + {g};
      }
      if IsApiJumpThunk(look, xs) {
        disassembly.thunkFunctions := disassembly.thunkFunctions + {g};
      }
    }

    /** Drops the edges into one split point that fall through from another function. */
    method DropFallThroughInto(p: Address)
      requires disassembly.Valid()
      modifies disassembly.codeRefsFrom, disassembly.codeRefsTo
      ensures disassembly.Valid() && disassembly.View() == WithoutFallThrough(old(disassembly.View()), [p])
    {
      ghost var before := disassembly.View();
      var known := disassembly.codeRefsTo.Get(p);
      var todo := if known.Some? then known.value else {};
      assert forall a :: (a, p) in before.codeRefs ==> a in todo by {
        forall a
          ensures (a, p) in before.codeRefs ==> a in todo
        {
          EdgeAt(disassembly.codeRefsFrom.Contents(), a, p);
          assert p in At(disassembly.codeRefsFrom.Contents(), a) <==> a in At(disassembly.codeRefsTo.Contents(), p);
        }
      }
      while todo != {}
        invariant disassembly.Valid() && disassembly.View() == before.(codeRefs := disassembly.View().codeRefs)
        invariant forall a, b :: (a, b) in disassembly.View().codeRefs <==>
          (a, b) in before.codeRefs && (a in todo || !FallsInto(before, [p], (a, b)))
        decreases |todo|
      {
        var a := Any(todo);
        if a in disassembly.instructions && a + disassembly.instructions[a].size == p
           && !(a in disassembly.ins2fn && disassembly.ins2fn[a] == p) {
          assert FallsInto(before, [p], (a, p));
          disassembly.RemoveCodeRefs(a, p);
        }
        todo := todo - {a};
      }
      assert disassembly.View().codeRefs == WithoutFallThrough(before, [p]).codeRefs;
    }

    method DropFallThrough(splits: seq<Address>)
      requires disassembly.Valid()
      modifies disassembly.codeRefsFrom, disassembly.codeRefsTo
      ensures disassembly.Valid() && disassembly.View() == WithoutFallThrough(old(disassembly.View()), splits)
    {
      ghost var before := disassembly.View();
      DropNone(before);
      var i := 0;
      while i < |splits|
        invariant i <= |splits| && disassembly.Valid()
        invariant disassembly.View() == WithoutFallThrough(before, splits[..i])
      {
        assert splits[..i + 1] == splits[..i] + [splits[i]];
        DropMore(before, splits[..i], splits[i]);
        DropFallThroughInto(splits[i]);
        i := i + 1;
      }
      assert splits[..i] == splits;
    }

    /** Splits a function at the given points, unless some segment would get nothing. */
    method PartitionFunctionAtPdataEnds(fn: Address, splitPoints: set<Address>, look: Lookup)
      returns (count: nat, ghost splits: seq<Address>)
      requires disassembly.Valid() && fn in disassembly.functions && fn !in splitPoints
      modifies disassembly, disassembly.codeRefsFrom, disassembly.codeRefsTo
      ensures disassembly.Valid() && Enumerates(splits, splitPoints)
      ensures var d, full := old(disassembly.View()), old(Full(disassembly.View(), fn, splits, [fn] + splits));
        && disassembly.View() == (if full then Split(d, look, fn, splits) else d)
        && count == if full then |splits| else 0
    {
      ghost var d := disassembly.View();
      var points := Sorted(splitPoints);
      splits := points;
      var segments := [fn] + points;
      var blocks := disassembly.functions[fn];
      var parts := PartitionBlocks(fn, points, blocks);
      var i := 0;
      while i < |segments|
        invariant i <= |segments|
        invariant forall j :: 0 <= j < i ==> parts[segments[j]] != []
      {
        if parts[segments[i]] == [] {
          PartsAreFull(d, fn, points, segments[i]);
          return 0, points;
        }
        i := i + 1;
      }
      forall g | g in segments
        ensures Flat(Part(fn, points, blocks, g)) != []
      {
        PartsAreFull(d, fn, points, g);
      }
      disassembly.recursiveFunctions := disassembly.recursiveFunctions - {fn};
      disassembly.leafFunctions := disassembly.leafFunctions - {fn};
      disassembly.thunkFunctions := disassembly.thunkFunctions - {fn};
      AssignSegments(d, fn, points, blocks, parts, look);
      DropFallThrough(points);
      count := |points|;
    }

    method AssignSegments(ghost d: Result, fn: Address, points: seq<Address>, blocks: seq<Block>,
        parts: map<Address, seq<Block>>, look: Lookup)
      requires disassembly.Valid() && fn in d.functions && d.functions[fn] == blocks
      requires disassembly.View() == Unflagged(d, fn)
      requires forall g :: g == fn || g in points ==> g in parts && parts[g] == Part(fn, points, blocks, g)
      requires Full(d, fn, points, [fn] + points)
      modifies disassembly
      ensures disassembly.Valid()
      ensures disassembly.View() == AssignAll(Unflagged(d, fn), look, fn, points, blocks, [fn] + points)
    {
      var segments := [fn] + points;
      assert AllParted(fn, points, blocks, parts, segments) by {
        forall i | 0 <= i < |segments|
          ensures Parted(fn, points, blocks, parts, segments[i])
        {
          assert segments[i] in segments;
        }
      }
      AssignInOrder(Unflagged(d, fn), fn, points, blocks, parts, segments, look);
    }

    /** The segment gets its part, and something is in it. */
    static ghost predicate Parted(fn: Address, points: seq<Address>, blocks: seq<Block>,
        parts: map<Address, seq<Block>>, g: Address)
    {
      g in parts && parts[g] == Part(fn, points, blocks, g) && Flat(parts[g]) != []
    }

    static ghost predicate AllParted(fn: Address, points: seq<Address>, blocks: seq<Block>,
        parts: map<Address, seq<Block>>, segments: seq<Address>)
    {
      forall i :: 0 <= i < |segments| ==> Parted(fn, points, blocks, parts, segments[i])
    }

    method AssignInOrder(ghost d: Result, ghost fn: Address, ghost points: seq<Address>, ghost blocks: seq<Block>,
        parts: map<Address, seq<Block>>, segments: seq<Address>, look: Lookup)
      requires disassembly.Valid() && disassembly.View() == d && AllParted(fn, points, blocks, parts, segments)
      modifies disassembly
      ensures disassembly.Valid()
      ensures disassembly.View() == AssignAll(d, look, fn, points, blocks, segments)
    {
      var i := 0;
      while i < |segments|
        invariant i <= |segments| && disassembly.Valid()
        invariant disassembly.View() == AssignAll(d, look, fn, points, blocks, segments[..i])
      {
        assert Parted(fn, points, blocks, parts, segments[i]);
        AssignNext(d, fn, points, blocks, segments, i, parts[segments[i]], look);
        i := i + 1;
      }
      assert segments[..i] == segments;
    }

    method AssignNext(ghost d: Result, ghost fn: Address, ghost points: seq<Address>, ghost blocks: seq<Block>,
        segments: seq<Address>, i: nat, part: seq<Block>, look: Lookup)
      requires disassembly.Valid() && i < |segments|
      requires part == Part(fn, points, blocks, segments[i]) && Flat(part) != []
      requires disassembly.View() == AssignAll(d, look, fn, points, blocks, segments[..i])
      modifies disassembly
      ensures disassembly.Valid()
      ensures disassembly.View() == AssignAll(d, look, fn, points, blocks, segments[..i + 1])
    {
      AssignUpTo(d, look, fn, points, blocks, segments, i);
      AssignSegment(segments[i], part, look);
    }
  }

  lemma NoteReacts(c: Config, e: Effect)
    requires c.active.Some?
    requires !e.AbsorbBody? && !e.Classify?
    requires !e.Enqueue? && !e.Refer? && !e.Unrefer? && !e.CloseBlock? && !e.SortBooked?
    ensures var v := c.active.value;
      Reacted(c, e) == c.(active := Some(v.(data := DataOf(v.data, e), notes := NotesOf(v.notes, e))))
  {
  }

  lemma NothingNoted(c: Config)
    requires c.active.Some?
    ensures var v := c.active.value;
      After(c, Note(v.data, v.notes, v.colliding)) == c
  {
  }

  lemma StaysWithin(env: Environment, v: State, w: State, e: Effect)
    requires env.Allows(e) && w.work == (if e.Enqueue? then Pushed(v.work, e.block) else v.work)
    requires BooksAtMost(v, w, None) && w.start == v.start
    requires Within(v.work, env.Universe(v.start)) && Decoded(env, v.code)
    ensures Within(w.work, env.Universe(w.start)) && Decoded(env, w.code)
  {
  }

  lemma WordIsCut(v: State, w: State, dataMap: set<Address>, x: Instruction, effects: seq<Effect>)
    requires Reaction(v, w, effects)
    ensures TakesWord(v, w, dataMap, x, effects, true, true)
  {
  }

  /** A word the backend reacted to, from state u to v, that was then handled, to w, with the block ended or not. */
  lemma WordIsTaken(u: State, v: State, w: State, e: State, dataMap: set<Address>, x: Instruction,
      effects: seq<Effect>, done: bool)
    requires Reaction(u, v, effects) && Handled(v, w, dataMap, x) && !u.notes.blockEnding
    requires done == w.notes.blockEnding && e == if done then EndBlock(w) else w
    requires done && e.code.instructions != [] ==> e.code.blocksAnalyzed > 0
    ensures TakesWord(u, e, dataMap, x, effects, false, done)
  {
    GrownOn(u, v, w);
    QueuedOn(v, w, effects);
  }

  lemma NotEmpty(w: Worklist)
    requires QueueValid(w)
    ensures w.queued != {} <==> w.queue != []
  {
    if w.queued != {} {
      var b := Member(w.queued);
      assert b in w.queue;
    }
    if w.queue != [] {
      var b := w.queue[0];
      assert b in w.queue;
    }
  }

  /** The start of a function belongs to it and lies before its end. */
  ghost predicate EncloseStart(d: Result, f: Address) {
    f in d.ins2fn && d.ins2fn[f] == f && f in d.borders && f < d.borders[f].1
  }

  lemma RecordedStartIsEnclosed(arch: Architecture, d: Result, s: State)
    requires Sound(d, s.code) && s.start in s.code.startBytes && s.code.instructions != []
    ensures EncloseStart(Finalized(d, FindingsOf(arch, s)), s.start)
  {
    var x :| x in s.code.instructions && x.address == s.start;
    assert Fixed(x) && Spans(x, s.start);
    ExtentHolds(s.code.instructions);
  }

  lemma RecordingKeeps(arch: Architecture, d: Result, s: State)
    requires Safe(d) && Sound(d, s.code) && s.start in s.code.startBytes && s.code.instructions != []
    ensures Safe(Finalized(d, FindingsOf(arch, s)))
    ensures OwnedWords(d) ==> (OwnedWords(Finalized(d, FindingsOf(arch, s))) <==> Covers(arch, s))
    ensures EncloseStart(Finalized(d, FindingsOf(arch, s)), s.start)
  {
    SoundIsStorable(arch, d, s);
    FinalizeKeepsSafe(d, FindingsOf(arch, s));
    RecordedStartIsEnclosed(arch, d, s);
    if OwnedWords(d) {
      OwnershipNeedsCover(arch, d, s);
    }
  }

  lemma FewerLeft<T>(universe: set<T>, processed: set<T>, x: T)
    requires x in universe && x !in processed
    ensures |universe - (processed + {x})| < |universe - processed|
  {
    assert universe - (processed + {x}) == universe - processed - {x};
  }
}
