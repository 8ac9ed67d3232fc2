/** The pass over what the first analyses left: candidates of the gap scan, each analysed before the next is looked
    for. */
module GapPasses {
  import opened AddressReferences
  import opened Collections
  import opened Disassemblers
  import opened Disassembly
  import opened FunctionStates
  import opened FunctionGaps
  import opened GapScan
  import opened Recording
  import opened Recovery
  import opened Trails

  /** The candidates of a pass so far, each with what the scan saw when it was proposed: each was proposable, and lies
      behind the one before. */
  ghost predicate Proposed(g: Setup, seen: seq<Snapshot>, proposed: seq<int>) {
    && |seen| == |proposed|
    && (forall i :: 0 <= i < |proposed| ==> Proposable(g, seen[i], proposed[i]))
    && (forall i, j :: 0 <= i < j < |proposed| ==> proposed[i] < proposed[j])
  }

  lemma ProposeOne(g: Setup, seen: seq<Snapshot>, proposed: seq<int>, d: Snapshot, a: int)
    requires Proposed(g, seen, proposed) && Proposable(g, d, a)
    requires proposed != [] ==> proposed[|proposed| - 1] < a
    ensures Proposed(g, seen + [d], proposed + [a])
  {
  }

  /** A search for a candidate: which one was analysed last, where the search began, and whether time ran out. */
  datatype Search = Search(previous: int, pointer: int, timedOut: bool)

  /** Unless time ran out, the answer to a search is the scan's. */
  ghost predicate Searched(g: Setup, d: Snapshot, s: Search, c: Option<int>) {
    if s.timedOut then c == None else Answers(g, d, s.previous, s.pointer, c)
  }

  /** A candidate that the scan offers, if it offers one, in the disassembly as it stands. */
  method Look(manager: FunctionCandidateManager, d: Snapshot, start: Option<int>)
    returns (c: Option<int>, ghost s: Search)
    requires manager.Ready() && manager.gapPointer.Some?
    modifies manager`gapPointer, manager`previouslyAnalyzedGap, manager`gapCandidates, manager.exceptions
    ensures manager.Ready() && manager.gapPointer.Some?
    ensures Searched(manager.g, d, s, c) && s.previous == old(manager.previouslyAnalyzedGap)
    ensures s.pointer == if start.Some? then start.value else old(manager.gapPointer.value)
    ensures if c.Some? then manager.gapPointer == c && manager.previouslyAnalyzedGap == c.value
      else manager.previouslyAnalyzedGap == old(manager.previouslyAnalyzedGap)
    ensures c.Some? ==> Proposable(manager.g, d, c.value) && c.value >= s.pointer
  {
    s := Search(manager.previouslyAnalyzedGap, if start.Some? then start.value else manager.gapPointer.value, false);
    var timedOut;
    c, timedOut := manager.NextGapCandidate(d, start);
    s := s.(timedOut := timedOut);
  }

  /** The first candidate, looked for when the gaps have been listed: the search begins at the first gap. */
  method LookFirst(manager: FunctionCandidateManager, d: Snapshot) returns (c: Option<int>, ghost s: Search)
    requires manager.Ready()
    modifies manager, manager.exceptions
    ensures manager.Ready() && manager.gapPointer.Some? && Searched(manager.g, d, s, c)
    ensures c.Some? ==> manager.gapPointer == c && manager.previouslyAnalyzedGap == c.value
    ensures c.Some? ==> Proposable(manager.g, d, c.value)
    ensures old(manager.gapPointer) == None
            ==> s.pointer == if manager.functionGaps != [] then manager.functionGaps[0].start else manager.g.End()
  {
    if manager.gapPointer == None {
      var _, _ := manager.InitGapSearch(d);
    }
    c, s := Look(manager, d, None);
  }

  /** The next candidate after one was analysed: the search begins at the next gap, or at the end of the function the
      candidate became. All that is asked of the analysis is that its candidate, if it became a function's, lies before
      the end of that; then the next one lies behind it. */
  method Resume(manager: FunctionCandidateManager, d: Snapshot, candidate: int)
    returns (c: Option<int>, ghost s: Search)
    requires manager.Ready() && manager.gapPointer == Some(candidate) && candidate < manager.g.End()
    requires candidate in d.ins2fn ==> EnclosedAt(d, candidate)
    modifies manager`gapPointer, manager`previouslyAnalyzedGap, manager`gapCandidates, manager.exceptions
    ensures manager.Ready() && manager.gapPointer.Some?
    ensures Searched(manager.g, d, s, c) && s.previous == old(manager.previouslyAnalyzedGap)
    ensures Some(s.pointer) == NextGap(manager.g, manager.functionGaps, d, candidate, true)
    ensures c.Some? ==> manager.gapPointer == c && manager.previouslyAnalyzedGap == c.value
    ensures c.Some? ==> Proposable(manager.g, d, c.value) && c.value > candidate
  {
    NextGapIsAhead(manager.g, manager.functionGaps, d, candidate, true);
    var nextGap := manager.GetNextGap(d, true);
    c, s := Look(manager, d, nextGap);
  }

  /** Between two candidates the disassembly is one that the engine left. */
  ghost predicate Sane(engine: RecursiveDisassembler)
    reads engine, engine.disassembly, engine.disassembly.codeRefsFrom, engine.disassembly.codeRefsTo
  {
    engine.disassembly.Valid() && Safe(engine.disassembly.View()) && engine.env.Contract()
  }

  /** What came of a candidate, and that it counted as inside a declared range exactly if a function surrounds it. */
  ghost predicate Came(engine: RecursiveDisassembler, g: Setup, o: Analyzed) {
    && ComesOf(engine.arch, engine.env, o)
    && (o.inside <==> DeclaredInteriorOwner(g, SnapshotOf(o.was), o.start).Some?)
  }

  ghost predicate AllCame(engine: RecursiveDisassembler, g: Setup, os: seq<Analyzed>) {
    forall i :: 0 <= i < |os| ==> Came(engine, g, os[i])
  }

  /** Each begins with the result the one before ended with. */
  ghost predicate Linked(from: Result, os: seq<Analyzed>, to: Result) {
    if os == [] then from == to else
      && os[0].was == from && os[|os| - 1].now == to
      && forall i, j :: 0 <= i < j < |os| && j == i + 1 ==> os[i].now == os[j].was
  }

  /** Candidates analysed one after the other lead from one result to another. */
  ghost predicate Leads(engine: RecursiveDisassembler, g: Setup, from: Result, os: seq<Analyzed>, to: Result) {
    AllCame(engine, g, os) && Linked(from, os, to)
  }

  lemma LinkedOn(from: Result, os: seq<Analyzed>, via: Result, more: seq<Analyzed>, to: Result)
    requires Linked(from, os, via) && Linked(via, more, to)
    ensures Linked(from, os + more, to)
  {
    var all := os + more;
    forall i, j | 0 <= i < j < |all| && j == i + 1
      ensures all[i].now == all[j].was
    {
      if i >= |os| {
        assert all[i] == more[i - |os|] && all[j] == more[j - |os|];
      }
    }
    if more == [] {
      assert all == os;
    }
  }

  lemma AllCameOn(engine: RecursiveDisassembler, g: Setup, os: seq<Analyzed>, more: seq<Analyzed>)
    requires AllCame(engine, g, os) && AllCame(engine, g, more)
    ensures AllCame(engine, g, os + more)
  {
    forall i | 0 <= i < |os + more|
      ensures Came(engine, g, (os + more)[i])
    {
      if i < |os| {
        assert Came(engine, g, os[i]);
      } else {
        assert Came(engine, g, more[i - |os|]);
      }
    }
  }

  lemma LeadsOn(engine: RecursiveDisassembler, g: Setup, from: Result, os: seq<Analyzed>, via: Result,
      more: seq<Analyzed>, to: Result)
    requires Leads(engine, g, from, os, via) && Leads(engine, g, via, more, to)
    ensures Leads(engine, g, from, os + more, to)
  {
    LinkedOn(from, os, via, more, to);
    AllCameOn(engine, g, os, more);
  }

  lemma LeadsFurther(engine: RecursiveDisassembler, g: Setup, from: Result, os: seq<Analyzed>, o: Analyzed)
    requires Leads(engine, g, from, os, o.was) && Came(engine, g, o)
    ensures Leads(engine, g, from, os + [o], o.now)
  {
    assert AllCame(engine, g, [o]) && Linked(o.was, [o], o.now);
    LeadsOn(engine, g, from, os, o.was, [o], o.now);
  }

  /** The analysis of one candidate. One inside a declared range of a function that surrounds it is refused. */
  method AnalyzeCandidate(engine: RecursiveDisassembler, manager: FunctionCandidateManager, candidate: int, asGap: bool)
    returns (ghost o: Analyzed)
    requires Sane(engine) && manager.Ready()
    modifies manager.exceptions, engine`candidates
    modifies engine.disassembly, engine.disassembly.codeRefsFrom, engine.disassembly.codeRefsTo
    ensures Sane(engine) && manager.Ready()
    ensures Came(engine, manager.g, o) && o.start == candidate && o.asGap == asGap
    ensures o.was == old(engine.disassembly.View()) && o.now == engine.disassembly.View()
  {
    ghost var was := engine.disassembly.View();
    var d := See(engine);
    var owner := manager.FindDeclaredInteriorOwner(d, candidate);
    var s, recorded;
    ghost var a;
    s, recorded, a := engine.AnalyzeFunction(candidate, asGap, owner.Some?);
    o := Analyzed(candidate, asGap, owner.Some?, was, engine.disassembly.View(), recorded, a);
  }

  /** What the scan sees of the disassembly. */
  method See(engine: RecursiveDisassembler) returns (d: Snapshot)
    ensures d == SnapshotOf(engine.disassembly.View())
  {
    var r := engine.disassembly;
    d := Snapshot(r.ins2fn, r.functionBorders, r.functions.Keys, r.dataMap);
  }

  /** The analysis of a candidate of the scan that nobody owned, what the scan sees afterwards, and the next
      candidate. */
  method AnalyzeGap(engine: RecursiveDisassembler, manager: FunctionCandidateManager, candidate: int)
    returns (d: Snapshot, next: Option<int>, ghost o: Analyzed, ghost s: Search)
    requires Sane(engine) && manager.Ready() && candidate !in engine.disassembly.ins2fn
    requires manager.gapPointer == Some(candidate) && candidate < manager.g.End()
    modifies manager`gapPointer, manager`previouslyAnalyzedGap, manager`gapCandidates, manager.exceptions
    modifies engine`candidates, engine.disassembly, engine.disassembly.codeRefsFrom, engine.disassembly.codeRefsTo
    ensures Sane(engine) && d == SnapshotOf(engine.disassembly.View()) && manager.Ready()
    ensures Searched(manager.g, d, s, next) && s.previous == old(manager.previouslyAnalyzedGap)
    ensures Some(s.pointer) == NextGap(manager.g, manager.functionGaps, d, candidate, true)
    ensures next.Some? ==> manager.gapPointer == next && manager.previouslyAnalyzedGap == next.value
    ensures next.Some? ==> Proposable(manager.g, d, next.value) && next.value > candidate
    ensures Came(engine, manager.g, o) && o.start == candidate && o.asGap
    ensures o.was == old(engine.disassembly.View()) && o.now == engine.disassembly.View()
  {
    engine.AddGapCandidate(candidate);
    o := AnalyzeCandidate(engine, manager, candidate, true);
    d := See(engine);
    next, s := Resume(manager, d, candidate);
  }

  /** Each proposed candidate was analysed as a gap, in the disassembly in which it was proposed. */
  ghost predicate AnalyzedAsGaps(os: seq<Analyzed>, seen: seq<Snapshot>, proposed: seq<int>) {
    && |os| == |proposed| == |seen|
    && forall i :: 0 <= i < |os| ==> os[i].start == proposed[i] && os[i].asGap && seen[i] == SnapshotOf(os[i].was)
  }

  /** The pass so far, from one result to another. */
  ghost predicate PassSoFar(engine: RecursiveDisassembler, g: Setup, from: Result, seen: seq<Snapshot>,
      proposed: seq<int>, os: seq<Analyzed>, to: Result)
  {
    Proposed(g, seen, proposed) && AnalyzedAsGaps(os, seen, proposed) && Leads(engine, g, from, os, to)
  }

  ghost predicate IsAhead(proposed: seq<int>, a: int) {
    proposed != [] ==> proposed[|proposed| - 1] < a
  }

  lemma PassMore(engine: RecursiveDisassembler, g: Setup, from: Result, seen: seq<Snapshot>, proposed: seq<int>,
      os: seq<Analyzed>, o: Analyzed)
    requires PassSoFar(engine, g, from, seen, proposed, os, o.was) && Came(engine, g, o) && o.asGap
    requires Proposable(g, SnapshotOf(o.was), o.start) && IsAhead(proposed, o.start)
    ensures PassSoFar(engine, g, from, seen + [SnapshotOf(o.was)], proposed + [o.start], os + [o], o.now)
  {
    ProposeOne(g, seen, proposed, SnapshotOf(o.was), o.start);
    LeadsFurther(engine, g, from, os, o);
  }

  /** The search began behind a candidate, at the next gap or at the end of the function it became. */
  ghost predicate FromNextGap(g: Setup, gaps: seq<Gap>, d: Snapshot, s: Search, candidate: int) {
    s.previous == candidate && Some(s.pointer) == NextGap(g, gaps, d, candidate, true)
  }

  /** The last search found a proposable candidate behind those before, or nothing. It began where the first one does,
      if no candidate was proposed yet and the gaps were listed for it, or at the next gap. */
  ghost predicate Seeking(g: Setup, gaps: seq<Gap>, d: Snapshot, listed: bool, proposed: seq<int>, s: Search,
      c: Option<int>)
  {
    && Searched(g, d, s, c)
    && (c.Some? ==> Proposable(g, d, c.value) && IsAhead(proposed, c.value))
    && (proposed != [] ==> FromNextGap(g, gaps, d, s, proposed[|proposed| - 1]))
    && (proposed == [] && listed ==> s.pointer == if gaps != [] then gaps[0].start else g.End())
  }

  lemma SeekingOn(g: Setup, gaps: seq<Gap>, d: Snapshot, listed: bool, before: seq<int>, a: int, s: Search,
      c: Option<int>)
    requires Searched(g, d, s, c) && FromNextGap(g, gaps, d, s, a)
    requires c.Some? ==> Proposable(g, d, c.value) && c.value > a
    ensures Seeking(g, gaps, d, listed, before + [a], s, c)
  {
  }

  /** A pass over the gaps: the candidates, each with what the scan saw and what came of it, and the last search. */
  datatype Pass = Pass(proposed: seq<int>, seen: seq<Snapshot>, os: seq<Analyzed>, last: Search)

  /** What a pass from one result to another is worth, whose last search gave `c`. */
  ghost predicate Passing(engine: RecursiveDisassembler, g: Setup, gaps: seq<Gap>, listed: bool, from: Result, p: Pass,
      to: Result, c: Option<int>)
  {
    && PassSoFar(engine, g, from, p.seen, p.proposed, p.os, to)
    && Seeking(g, gaps, SnapshotOf(to), listed, p.proposed, p.last, c)
  }

  lemma PassingOn(engine: RecursiveDisassembler, g: Setup, gaps: seq<Gap>, listed: bool, from: Result, p: Pass,
      o: Analyzed, last: Search, next: Option<int>)
    requires Passing(engine, g, gaps, listed, from, p, o.was, Some(o.start)) && Came(engine, g, o) && o.asGap
    requires Searched(g, SnapshotOf(o.now), last, next) && FromNextGap(g, gaps, SnapshotOf(o.now), last, o.start)
    requires next.Some? ==> Proposable(g, SnapshotOf(o.now), next.value) && next.value > o.start
    ensures Passing(engine, g, gaps, listed, from,
              Pass(p.proposed + [o.start], p.seen + [SnapshotOf(o.was)], p.os + [o], last), o.now, next)
  {
    PassMore(engine, g, from, p.seen, p.proposed, p.os, o);
    SeekingOn(g, gaps, SnapshotOf(o.now), listed, p.proposed, o.start, last, next);
  }

  /** Analyses a candidate and looks for the next one. */
  method TakeCandidate(engine: RecursiveDisassembler, manager: FunctionCandidateManager, a: int, ghost listed: bool,
      ghost from: Result, ghost before: Pass)
    returns (next: Option<int>, ghost p: Pass)
    requires Sane(engine) && manager.Ready() && manager.gapPointer == Some(a) && manager.previouslyAnalyzedGap == a
    requires Passing(engine, manager.g, manager.functionGaps, listed, from, before, engine.disassembly.View(), Some(a))
    modifies manager`gapPointer, manager`previouslyAnalyzedGap, manager`gapCandidates, manager.exceptions
    modifies engine`candidates, engine.disassembly, engine.disassembly.codeRefsFrom, engine.disassembly.codeRefsTo
    ensures Sane(engine) && manager.Ready() && p.proposed == before.proposed + [a]
    ensures Passing(engine, manager.g, manager.functionGaps, listed, from, p, engine.disassembly.View(), next)
    ensures next.Some? ==> manager.gapPointer == next && manager.previouslyAnalyzedGap == next.value && next.value > a
  {
    ghost var o, last;
    var d;
    d, next, o, last := AnalyzeGap(engine, manager, a);
    PassingOn(engine, manager.g, manager.functionGaps, listed, from, before, o, last, next);
    p := Pass(before.proposed + [a], before.seen + [SnapshotOf(o.was)], before.os + [o], last);
  }

  /** The first candidate, and the pass that has seen none yet. */
  method Begin(engine: RecursiveDisassembler, manager: FunctionCandidateManager)
    returns (candidate: Option<int>, ghost p: Pass)
    requires Sane(engine) && manager.Ready()
    modifies manager, manager.exceptions
    ensures manager.Ready() && p.proposed == []
    ensures candidate.Some? ==> manager.gapPointer == candidate && manager.previouslyAnalyzedGap == candidate.value
    ensures Passing(engine, manager.g, manager.functionGaps, old(manager.gapPointer) == None,
              engine.disassembly.View(), p, engine.disassembly.View(), candidate)
  {
    var d := See(engine);
    ghost var last;
    candidate, last := LookFirst(manager, d);
    p := Pass([], [], [], last);
  }

  /** The whole gap pass of the engine, from any disassembly it can have left, whether blocks lost instructions or not:
      it ends, each candidate is proposable when it is proposed and is then analysed, candidates strictly increase, so
      none is proposed twice, and functions stay apart. Unless time ran out, it ends because the last search found
      nothing: one from the next gap after the last candidate, or the first search of all. */
  method AnalyzeGaps(engine: RecursiveDisassembler, manager: FunctionCandidateManager)
    returns (proposed: seq<int>, timedOut: bool, ghost p: Pass, ghost c: Option<int>)
    requires Sane(engine) && manager.Ready()
    modifies manager, manager.exceptions, engine`candidates
    modifies engine.disassembly, engine.disassembly.codeRefsFrom, engine.disassembly.codeRefsTo
    ensures Sane(engine) && manager.Ready() && p.proposed == proposed && (timedOut || c == None)
    ensures Passing(engine, manager.g, manager.functionGaps, old(manager.gapPointer) == None,
              old(engine.disassembly.View()), p, engine.disassembly.View(), c)
  {
    ghost var from, listed := engine.disassembly.View(), manager.gapPointer == None;
    proposed, timedOut := [], false;
    var candidate;
    candidate, p := Begin(engine, manager);
    while candidate.Some?
      invariant Sane(engine) && manager.Ready() && p.proposed == proposed
      invariant Passing(engine, manager.g, manager.functionGaps, listed, from, p, engine.disassembly.View(), candidate)
      invariant candidate.Some? ==>
        manager.gapPointer == candidate && manager.previouslyAnalyzedGap == candidate.value
      decreases if candidate.Some? then manager.g.End() - candidate.value else 0
    {
      timedOut := engine.AnalysisTimeoutTripped();
      if timedOut {
        return proposed, true, p, candidate;
      }
      proposed := proposed + [candidate.value];
      candidate, p := TakeCandidate(engine, manager, candidate.value, listed, from, p);
    }
    c := candidate;
  }

  /** Nothing is disassembled yet. */
  lemma NothingIsSafe()
    ensures Safe(EMPTY)
  {
  }

  /** Candidates one after the other until there are none or time runs out. How many there are and which comes next is
      chosen arbitrarily, so it may depend on all that was found before. */
  method DrainCandidates(engine: RecursiveDisassembler, manager: FunctionCandidateManager)
    returns (ghost os: seq<Analyzed>)
    requires Sane(engine) && manager.Ready()
    modifies manager.exceptions, engine`candidates
    modifies engine.disassembly, engine.disassembly.codeRefsFrom, engine.disassembly.codeRefsTo
    ensures Sane(engine) && manager.Ready()
    ensures Leads(engine, manager.g, old(engine.disassembly.View()), os, engine.disassembly.View())
  {
    os := [];
    var left: nat := *;
    while left > 0
      invariant Sane(engine) && manager.Ready()
      invariant Leads(engine, manager.g, old(engine.disassembly.View()), os, engine.disassembly.View())
    {
      var tripped := engine.AnalysisTimeoutTripped();
      if tripped {
        return;
      }
      var candidate: Address := *;
      ghost var o := AnalyzeCandidate(engine, manager, candidate, false);
      LeadsFurther(engine, manager.g, old(engine.disassembly.View()), os, o);
      os := os + [o];
      left := left - 1;
    }
  }

  /** From an empty result over the first candidates, the gap pass and the candidates that come late, whichever these
      are, however the backend reacts and whenever time runs out: it ends with functions that share no byte, and the gap
      pass proposed each address at most once. */
  method AnalyzeBuffer(arch: Architecture, env: Environment, candidates: map<Address, Candidate>,
      manager: FunctionCandidateManager)
    returns (result: DisassemblyResult, proposed: seq<int>, ghost pass: Pass, ghost engine: RecursiveDisassembler,
      ghost os: seq<Analyzed>)
    requires env.Contract() && manager.Ready()
    modifies manager, manager.exceptions
    ensures fresh(result) && result.Valid() && Safe(result.View())
    ensures forall f, g {:trigger Body(result.View(), f), Body(result.View(), g)} :: f != g ==>
      BytesOf(Body(result.View(), f)) !! BytesOf(Body(result.View(), g))
    ensures Proposed(manager.g, pass.seen, proposed)
    ensures engine.arch == arch && engine.env == env && Leads(engine, manager.g, EMPTY, os, result.View())
  {
    result := new DisassemblyResult();
    var analyzer := new RecursiveDisassembler(arch, result, candidates, env);
    engine := analyzer;
    NothingIsSafe();
    ghost var first := DrainCandidates(analyzer, manager);
    ghost var mid := result.View();
    ghost var late, c;
    var timedOut;
    proposed, timedOut, pass, c := AnalyzeGaps(analyzer, manager);
    LeadsOn(engine, manager.g, EMPTY, first, mid, pass.os, result.View());
    mid := result.View();
    late := DrainCandidates(analyzer, manager);
    LeadsOn(engine, manager.g, EMPTY, first + pass.os, mid, late, result.View());
    os := first + pass.os + late;
    forall f, g | f != g
      ensures BytesOf(Body(result.View(), f)) !! BytesOf(Body(result.View(), g))
    {
      FunctionsAreDisjoint(result.View(), f, g);
    }
  }
}
