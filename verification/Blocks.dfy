/** Block reconstruction: how booked instructions and references become basic blocks. */
module Blocks {
  import opened AddressReferences
  import opened Collections
  import opened Disassembly

  /** The references of one function. */
  datatype Flow = Flow(from: Refs, to: Refs, jumpRefs: set<(Address, Address)>, jumpTargets: set<Address>)

  function WithRef(g: Flow, a: Address, b: Address, byJump: bool): Flow {
    g.(from := Added(g.from, a, b),
       to := Added(g.to, b, a),
       jumpRefs := if byJump then g.jumpRefs + {(a, b)} else g.jumpRefs,
       jumpTargets := if byJump then g.jumpTargets + {b} else g.jumpTargets)
  }

  /** Removing a reference keeps the entries it was in; a target stays one as long as another jump refers to it. */
  function WithoutRef(g: Flow, a: Address, b: Address): Flow {
    g.(from := if b in At(g.from, a) then g.from[a := g.from[a] - {b}] else g.from,
       to := if a in At(g.to, b) then g.to[b := g.to[b] - {a}] else g.to,
       jumpRefs := g.jumpRefs - {(a, b)},
       jumpTargets := if (a, b) in g.jumpRefs && !(exists r :: r in g.jumpRefs - {(a, b)} && r.1 == b)
         then g.jumpTargets - {b} else g.jumpTargets)
  }

  /** Every jump target has an entry among the reference targets. */
  ghost predicate TargetsKeyed(g: Flow) {
    forall b :: b in g.jumpTargets ==> b in g.to
  }

  /** Adding a reference keeps that, and so does removing one in the middle of block reconstruction. */
  lemma TargetsStayKeyed(g: Flow, a: Address, b: Address, byJump: bool)
    requires TargetsKeyed(g)
    ensures TargetsKeyed(WithRef(g, a, b, byJump)) && TargetsKeyed(WithoutRef(g, a, b))
  {
  }

  /** The jump targets are exactly what some jump refers to. */
  ghost predicate TargetsExact(g: Flow) {
    forall b :: b in g.jumpTargets <==> Jumped(g.jumpRefs, b)
  }

  ghost predicate Jumped(jumpRefs: set<(Address, Address)>, b: Address) {
    exists r :: r in jumpRefs && r.1 == b
  }

  /** Adding a reference keeps that. So does removing one: its target stays a target as long as another jump refers to
      it, and no longer. */
  lemma TargetsStayExact(g: Flow, a: Address, b: Address, byJump: bool)
    requires TargetsExact(g)
    ensures TargetsExact(WithRef(g, a, b, byJump)) && TargetsExact(WithoutRef(g, a, b))
    ensures WithRef(g, a, b, byJump).jumpRefs == g.jumpRefs + if byJump then {(a, b)} else {}
    ensures WithoutRef(g, a, b).jumpRefs == g.jumpRefs - {(a, b)}
  {
    var more, less := WithRef(g, a, b, byJump), WithoutRef(g, a, b);
    forall t
      ensures t in more.jumpTargets <==> Jumped(more.jumpRefs, t)
      ensures t in less.jumpTargets <==> Jumped(less.jumpRefs, t)
    {
      OneJumpMore(g.jumpRefs, a, b, t);
      OneJumpLess(g.jumpRefs, a, b, t);
      assert t in g.jumpTargets <==> Jumped(g.jumpRefs, t);
    }
  }

  lemma OneJumpMore(refs: set<(Address, Address)>, a: Address, b: Address, t: Address)
    ensures Jumped(refs + {(a, b)}, t) <==> t == b || Jumped(refs, t)
  {
    assert (a, b) in refs + {(a, b)} && (a, b).1 == b;
    if r :| r in refs && r.1 == t {
      assert r in refs + {(a, b)};
    }
  }

  lemma OneJumpLess(refs: set<(Address, Address)>, a: Address, b: Address, t: Address)
    ensures t != b ==> (Jumped(refs - {(a, b)}, t) <==> Jumped(refs, t))
    ensures (a, b) !in refs ==> refs - {(a, b)} == refs
    ensures (a, b) in refs ==> Jumped(refs, b)
  {
    if r :| r in refs && r.1 == t {
      assert t != b ==> r in refs - {(a, b)};
    }
    assert (a, b).1 == b;
  }

  /** Both maps of references gain exactly the new one, or lose exactly the one removed. */
  lemma FlowGainsAndLoses(g: Flow, a: Address, b: Address, byJump: bool, s: Address, t: Address)
    ensures t in At(WithRef(g, a, b, byJump).from, s) <==> t in At(g.from, s) || (s, t) == (a, b)
    ensures s in At(WithRef(g, a, b, byJump).to, t) <==> s in At(g.to, t) || (s, t) == (a, b)
    ensures t in At(WithoutRef(g, a, b).from, s) <==> t in At(g.from, s) && (s, t) != (a, b)
    ensures s in At(WithoutRef(g, a, b).to, t) <==> s in At(g.to, t) && (s, t) != (a, b)
  {
  }

  /** What a mnemonic says once its prefixes are dropped. */
  function LastWord(mnemonic: string): string
    decreases |mnemonic|
  {
    if ' ' !in mnemonic then mnemonic else LastWord(mnemonic[1..])
  }

  /** It is the part behind the last space. */
  lemma {:induction false} LastWordIsLast(prefixes: string, word: string)
    requires ' ' !in word
    ensures LastWord(word) == word && LastWord(prefixes + " " + word) == word
    decreases |prefixes|
  {
    var all := prefixes + " " + word;
    assert all[|prefixes|] == ' ';
    if prefixes == [] {
      assert all[1..] == word;
    } else {
      assert all[1..] == prefixes[1..] + " " + word;
      LastWordIsLast(prefixes[1..], word);
    }
  }

  ghost predicate StrictlyAscending(xs: seq<Instruction>) {
    forall i, j :: 0 <= i < j < |xs| ==> xs[i].address < xs[j].address
  }

  /** What block reconstruction looks at besides the references: the instructions in address order, the potential
      block starts, the rules of the architecture, and the addresses found to belong to another function. */
  datatype Context = Context(
    ins: seq<Instruction>,
    starts: set<Address>,
    calls: set<string>,
    ends: set<string>,
    endsBlock: (Instruction, Option<set<Address>>) -> bool,
    colliding: set<Address>)
  {
    predicate IsStart(i: nat)
      requires i < |ins|
    {
      ins[i].address in starts
    }

    /** No instruction reaches into a later one. */
    ghost predicate Apart() {
      forall i, j :: 0 <= i < j < |ins| ==> ins[i].End() <= ins[j].address && ins[i].address < ins[j].address
    }

    /** Every start but the lowest instruction has an entry among the reference targets. */
    ghost predicate Keyed(g: Flow) {
      forall i :: 0 < i < |ins| && IsStart(i) ==> ins[i].address in g.to
    }
  }

  /** How the walk along a block goes on after an instruction: on to the next one, or no further; `Cut` also drops
      the reference to the address that follows. */
  datatype Verdict = Continue | Break | Cut

  function Judge(c: Context, g: Flow, i: nat): Verdict
    requires i < |c.ins|
  {
    var x := c.ins[i];
    var refs := if x.address in g.from then Some(g.from[x.address]) else None;
    if refs.Some? && LastWord(x.mnemonic) !in c.calls && i + 1 < |c.ins|
       && (|refs.value| > 1 || (|refs.value| == 1 && c.ins[i + 1].address !in refs.value)) then Break
    else if refs.Some? && x.End() in refs.value && x.End() in c.colliding then Cut
    else if i + 1 < |c.ins| && c.ins[i + 1].address in g.to
            && (c.IsStart(i + 1) || |g.to[c.ins[i + 1].address]| > 1) then Break
    else if LastWord(x.mnemonic) in c.ends || c.endsBlock(x, refs) then Break
    else Continue
  }

  /** Where the block that starts at instruction i ends, and the references left. */
  function Walk(c: Context, g: Flow, i: nat): (r: (nat, Flow))
    requires i < |c.ins|
    ensures i < r.0 <= |c.ins|
    decreases |c.ins| - i
  {
    match Judge(c, g, i)
    case Break => (i + 1, g)
    case Cut => (i + 1, WithoutRef(g, c.ins[i].address, c.ins[i].End()))
    case Continue => if i + 1 < |c.ins| then Walk(c, g, i + 1) else (i + 1, g)
  }

  /** The blocks that start at instruction i or later, each walked with the references its predecessors left. */
  function BlocksFrom(c: Context, g: Flow, i: nat): (seq<Block>, Flow)
    requires i <= |c.ins|
    decreases |c.ins| - i
  {
    if i == |c.ins| then ([], g)
    else if !c.IsStart(i) then BlocksFrom(c, g, i + 1)
    else
      var (end, left) := Walk(c, g, i);
      var (rest, last) := BlocksFrom(c, left, i + 1);
      ([c.ins[i..end]] + rest, last)
  }

  // ----- blocks are slices, one for each start

  /** The instructions that are starts, from index i on. */
  function StartsFrom(c: Context, i: nat): (r: seq<nat>)
    requires i <= |c.ins|
    ensures forall k :: 0 <= k < |r| ==> i <= r[k] < |c.ins|
    decreases |c.ins| - i
  {
    if i == |c.ins| then [] else (if c.IsStart(i) then [i] else []) + StartsFrom(c, i + 1)
  }

  /** `b` is a run of consecutive instructions that begins at index i. */
  ghost predicate SliceAt(c: Context, b: Block, i: nat) {
    exists end :: i < end <= |c.ins| && b == c.ins[i..end]
  }

  /** There is one block for each instruction that is a potential start, in address order; it begins there and is a
      run of consecutive instructions. */
  lemma {:induction false} BlocksAreSlices(c: Context, g: Flow, i: nat)
    requires i <= |c.ins|
    ensures var blocks, starts := BlocksFrom(c, g, i).0, StartsFrom(c, i);
      |blocks| == |starts| && forall k :: 0 <= k < |blocks| ==> SliceAt(c, blocks[k], starts[k])
    decreases |c.ins| - i
  {
    if i < |c.ins| {
      if c.IsStart(i) {
        var (end, left) := Walk(c, g, i);
        BlocksAreSlices(c, left, i + 1);
        assert SliceAt(c, c.ins[i..end], i);
        assert StartsFrom(c, i) == [i] + StartsFrom(c, i + 1);
      } else {
        BlocksAreSlices(c, g, i + 1);
        assert StartsFrom(c, i) == StartsFrom(c, i + 1);
      }
    }
  }

  lemma KeyedKept(c: Context, g: Flow, a: Address, b: Address)
    requires c.Keyed(g)
    ensures c.Keyed(WithoutRef(g, a, b))
  {
  }

  /** A walk goes on exactly as long as nothing tells it to stop, passes no start, and drops at most the reference
      out of its last instruction. */
  lemma {:induction false} WalkStops(c: Context, g: Flow, i: nat)
    requires i < |c.ins| && c.Keyed(g)
    ensures var (end, left) := Walk(c, g, i);
      && (forall j :: i <= j < end - 1 ==> Judge(c, g, j) == Continue)
      && (end < |c.ins| ==> Judge(c, g, end - 1) != Continue)
      && (forall j :: i < j < end ==> !c.IsStart(j))
      && (left == g || left == WithoutRef(g, c.ins[end - 1].address, c.ins[end - 1].End()))
      && c.Keyed(left)
    decreases |c.ins| - i
  {
    match Judge(c, g, i)
    case Break =>
    case Cut => KeyedKept(c, g, c.ins[i].address, c.ins[i].End());
    case Continue =>
      if i + 1 < |c.ins| {
        WalkStops(c, g, i + 1);
        assert !c.IsStart(i + 1);
      }
  }

  /** No start lies after the k-th and before instruction `end`, which is not past the next start. */
  ghost predicate ClearOfStarts(c: Context, starts: seq<nat>, k: nat, end: nat)
    requires k < |starts|
  {
    && end <= |c.ins|
    && (forall j :: starts[k] < j < end ==> !c.IsStart(j))
    && (k + 1 < |starts| ==> end <= starts[k + 1])
  }

  ghost predicate Clear(c: Context, blocks: seq<Block>, starts: seq<nat>) {
    && |blocks| == |starts|
    && forall k :: 0 <= k < |blocks| ==> ClearOfStarts(c, starts, k, starts[k] + |blocks[k]|)
  }

  lemma ClearCons(c: Context, i: nat, end: nat, blocks: seq<Block>, starts: seq<nat>)
    requires i < end <= |c.ins| && forall j :: i < j < end ==> !c.IsStart(j)
    requires Clear(c, blocks, starts)
    requires forall k :: 0 <= k < |starts| ==> i < starts[k] < |c.ins| && c.IsStart(starts[k])
    ensures Clear(c, [c.ins[i..end]] + blocks, [i] + starts)
  {
    var allBlocks, allStarts := [c.ins[i..end]] + blocks, [i] + starts;
    forall k | 0 <= k < |allBlocks|
      ensures ClearOfStarts(c, allStarts, k, allStarts[k] + |allBlocks[k]|)
    {
      if k > 0 {
        assert ClearOfStarts(c, starts, k - 1, starts[k - 1] + |blocks[k - 1]|);
      } else if |starts| > 0 {
        assert allStarts[1] == starts[0];
      }
    }
  }

  /** No potential start lies inside another block, so blocks are disjoint and in order: each ends before the next
      one begins. */
  lemma {:induction false} NoStartInsideABlock(c: Context, g: Flow, i: nat)
    requires i <= |c.ins| && c.Keyed(g)
    ensures var blocks, starts := BlocksFrom(c, g, i).0, StartsFrom(c, i);
      Clear(c, blocks, starts)
    decreases |c.ins| - i
  {
    if i < |c.ins| {
      if c.IsStart(i) {
        var (end, left) := Walk(c, g, i);
        WalkStops(c, g, i);
        NoStartInsideABlock(c, left, i + 1);
        StartsAreStarts(c, i + 1);
        ClearCons(c, i, end, BlocksFrom(c, left, i + 1).0, StartsFrom(c, i + 1));
      } else {
        NoStartInsideABlock(c, g, i + 1);
        assert StartsFrom(c, i) == StartsFrom(c, i + 1);
      }
    }
  }

  lemma {:induction false} StartsAreStarts(c: Context, i: nat)
    requires i <= |c.ins|
    ensures forall k :: 0 <= k < |StartsFrom(c, i)| ==> c.IsStart(StartsFrom(c, i)[k])
    decreases |c.ins| - i
  {
    if i < |c.ins| {
      StartsAreStarts(c, i + 1);
    }
  }

  /** No instruction that a start reaches passes the walk on to another start. */
  ghost predicate Sealed(c: Context, g: Flow) {
    forall i :: 0 < i < |c.ins| && c.IsStart(i) ==> SealedAt(c, g, i)
  }

  predicate SealedAt(c: Context, g: Flow, i: nat)
    requires 0 < i < |c.ins|
  {
    Covered(c, g, i - 1) ==> Judge(c, g, i - 1) != Continue
  }

  lemma KeyedIsSealed(c: Context, g: Flow)
    requires c.Keyed(g)
    ensures Sealed(c, g)
  {
    forall i | 0 < i < |c.ins| && c.IsStart(i)
      ensures SealedAt(c, g, i)
    {
      assert c.ins[i].address in g.to;
    }
  }

  lemma {:induction false} WalkRuns(c: Context, g: Flow, i: nat)
    requires i < |c.ins|
    ensures var (end, left) := Walk(c, g, i);
      && (forall j :: i <= j < end - 1 ==> Judge(c, g, j) == Continue)
      && (end < |c.ins| ==> Judge(c, g, end - 1) != Continue)
      && left == (if Judge(c, g, end - 1) == Cut
                  then WithoutRef(g, c.ins[end - 1].address, c.ins[end - 1].End()) else g)
    decreases |c.ins| - i
  {
    if Judge(c, g, i) == Continue && i + 1 < |c.ins| {
      WalkRuns(c, g, i + 1);
    }
  }

  lemma {:induction false} SkipStarts(c: Context, i: nat, j: nat)
    requires i <= j <= |c.ins| && forall k :: i <= k < j ==> !c.IsStart(k)
    ensures StartsFrom(c, i) == StartsFrom(c, j)
    decreases j - i
  {
    if i < j {
      SkipStarts(c, i + 1, j);
      assert StartsFrom(c, i) == StartsFrom(c, i + 1);
    }
  }

  /** The instructions a walk passes are covered, and decided alike. */
  lemma WalkIsCovered(c: Context, g: Flow, h: Flow, i: nat, j: nat)
    requires i <= j < |c.ins| && Alike(c, g, h, i) && Covered(c, h, i)
    requires forall k :: i <= k < j ==> Judge(c, g, k) == Continue
    ensures Covered(c, h, j)
    decreases j
  {
    if i < j {
      assert Judge(c, g, j - 1) == Continue && Judge(c, h, j - 1) == Judge(c, g, j - 1);
      WalkIsCovered(c, g, h, i, j - 1);
    }
  }

  lemma SealedWalk(c: Context, g: Flow, h: Flow, i: nat)
    requires i < |c.ins| && c.IsStart(i) && Alike(c, g, h, i) && Sealed(c, h)
    ensures forall j :: i < j < Walk(c, g, i).0 ==> !c.IsStart(j)
  {
    WalkRuns(c, g, i);
    forall j | i < j < Walk(c, g, i).0
      ensures !c.IsStart(j)
    {
      WalkIsCovered(c, g, h, i, j - 1);
      assert Judge(c, g, j - 1) == Continue && Judge(c, h, j - 1) == Judge(c, g, j - 1);
      assert c.IsStart(j) ==> SealedAt(c, h, j);
    }
  }

  lemma StaysAlike(c: Context, g: Flow, h: Flow, left: Flow, i: nat, end: nat)
    requires i <= end && Alike(c, g, h, i) && (left == g || Alike(c, g, left, end))
    ensures Alike(c, left, h, end)
  {
  }

  lemma WalkStaysAlike(c: Context, g: Flow, h: Flow, i: nat)
    requires i < |c.ins| && c.Apart() && Alike(c, g, h, i)
    ensures Alike(c, Walk(c, g, i).1, h, Walk(c, g, i).0)
  {
    var walked := Walk(c, g, i);
    WalkRuns(c, g, i);
    CutIsLocal(c, g, walked.0);
    StaysAlike(c, g, h, walked.1, i, walked.0);
  }

  /** What follows a block that began at i and holds no other start. */
  lemma AfterBlock(c: Context, g: Flow, i: nat)
    requires i < |c.ins| && c.IsStart(i)
    requires forall j :: i < j < Walk(c, g, i).0 ==> !c.IsStart(j)
    ensures var (end, left) := Walk(c, g, i);
      && BlocksFrom(c, g, i).0 == [c.ins[i..end]] + BlocksFrom(c, left, end).0
      && StartsFrom(c, i) == [i] + StartsFrom(c, end)
  {
    var (end, left) := Walk(c, g, i);
    SkipToStart(c, left, i + 1, end);
    SkipStarts(c, i + 1, end);
  }

  lemma {:induction false} SealedIsClear(c: Context, g: Flow, h: Flow, i: nat)
    requires i <= |c.ins| && c.Apart() && Alike(c, g, h, i) && Sealed(c, h)
    ensures Clear(c, BlocksFrom(c, g, i).0, StartsFrom(c, i))
    decreases |c.ins| - i
  {
    if i < |c.ins| {
      if c.IsStart(i) {
        var (end, left) := Walk(c, g, i);
        SealedWalk(c, g, h, i);
        AfterBlock(c, g, i);
        WalkStaysAlike(c, g, h, i);
        SealedIsClear(c, left, h, end);
        StartsAreStarts(c, end);
        ClearCons(c, i, end, BlocksFrom(c, left, end).0, StartsFrom(c, end));
      } else {
        SealedIsClear(c, g, h, i + 1);
        SkipStarts(c, i, i + 1);
      }
    }
  }

  lemma WalkIsRun(c: Context, g: Flow, h: Flow, i: nat)
    requires i < |c.ins| && Alike(c, g, h, i)
    ensures var end := Walk(c, g, i).0;
      && (forall j :: i <= j < end - 1 ==> Judge(c, h, j) == Continue)
      && (end < |c.ins| ==> Judge(c, h, end - 1) != Continue)
  {
    WalkRuns(c, g, i);
  }

  lemma FirstIsClear(c: Context, g: Flow, i: nat)
    requires i < |c.ins| && c.IsStart(i) && Clear(c, BlocksFrom(c, g, i).0, StartsFrom(c, i))
    ensures forall j :: i < j < Walk(c, g, i).0 ==> !c.IsStart(j)
  {
    var (end, left) := Walk(c, g, i);
    assert StartsFrom(c, i)[0] == i && BlocksFrom(c, g, i).0[0] == c.ins[i..end];
    assert ClearOfStarts(c, StartsFrom(c, i), 0, end);
  }

  lemma ClearAfterBlock(c: Context, g: Flow, i: nat)
    requires i < |c.ins| && c.IsStart(i) && Clear(c, BlocksFrom(c, g, i).0, StartsFrom(c, i))
    ensures var (end, left) := Walk(c, g, i);
      && (forall j :: i < j < end ==> !c.IsStart(j))
      && Clear(c, BlocksFrom(c, left, end).0, StartsFrom(c, end))
  {
    var (end, left) := Walk(c, g, i);
    FirstIsClear(c, g, i);
    AfterBlock(c, g, i);
    ClearTail(c, c.ins[i..end], BlocksFrom(c, left, end).0, i, StartsFrom(c, end));
  }

  lemma {:induction false} ClearIsSealed(c: Context, g: Flow, h: Flow, i: nat, k: nat)
    requires i <= k < |c.ins| && c.Apart() && Alike(c, g, h, i)
    requires c.IsStart(i) || !Covered(c, h, i)
    requires Clear(c, BlocksFrom(c, g, i).0, StartsFrom(c, i))
    requires 0 < k && c.IsStart(k) && (k == i ==> SealedAt(c, h, i))
    ensures SealedAt(c, h, k)
    decreases |c.ins| - i
  {
    if i < k {
      if c.IsStart(i) {
        var (end, left) := Walk(c, g, i);
        ClearAfterBlock(c, g, i);
        WalkStaysAlike(c, g, h, i);
        WalkIsRun(c, g, h, i);
        ClearIsSealed(c, left, h, end, k);
      } else {
        SkipStarts(c, i, i + 1);
        ClearIsSealed(c, g, h, i + 1, k);
      }
    }
  }

  lemma ClearTail(c: Context, b: Block, blocks: seq<Block>, i: nat, starts: seq<nat>)
    requires Clear(c, [b] + blocks, [i] + starts)
    ensures Clear(c, blocks, starts)
  {
    forall k | 0 <= k < |blocks|
      ensures ClearOfStarts(c, starts, k, starts[k] + |blocks[k]|)
    {
      assert ClearOfStarts(c, [i] + starts, k + 1, ([i] + starts)[k + 1] + |([b] + blocks)[k + 1]|);
    }
  }

  /** No start lies inside another block exactly when no instruction that a start reaches passes the walk on to another
      start. */
  lemma StartsStayOutsideExactlyWhenSealed(c: Context, g: Flow)
    requires c.Apart()
    ensures Clear(c, BlocksFrom(c, g, 0).0, StartsFrom(c, 0)) <==> Sealed(c, g)
  {
    if Sealed(c, g) {
      SealedIsClear(c, g, g, 0);
    }
    if Clear(c, BlocksFrom(c, g, 0).0, StartsFrom(c, 0)) {
      forall k | 0 < k < |c.ins| && c.IsStart(k)
        ensures SealedAt(c, g, k)
      {
        ClearIsSealed(c, g, g, 0, k);
      }
    }
  }

  // ----- which instructions end up in a block

  /** Going back over instructions that pass the walk on, a start is met. */
  predicate Covered(c: Context, g: Flow, i: nat)
    requires i < |c.ins|
  {
    c.IsStart(i) || (i > 0 && Judge(c, g, i - 1) == Continue && Covered(c, g, i - 1))
  }

  function CoveredFrom(c: Context, g: Flow, i: nat): seq<Instruction>
    requires i <= |c.ins|
    decreases |c.ins| - i
  {
    if i == |c.ins| then [] else (if Covered(c, g, i) then [c.ins[i]] else []) + CoveredFrom(c, g, i + 1)
  }

  /** Two reference maps that decide alike from instruction i on. */
  ghost predicate Alike(c: Context, g: Flow, h: Flow, i: nat) {
    forall j :: i <= j < |c.ins| ==> Judge(c, g, j) == Judge(c, h, j)
  }

  lemma CutIsLocal(c: Context, g: Flow, end: nat)
    requires c.Apart() && 0 < end <= |c.ins|
    ensures Alike(c, g, WithoutRef(g, c.ins[end - 1].address, c.ins[end - 1].End()), end)
  {
    var x := c.ins[end - 1];
    var h := WithoutRef(g, x.address, x.End());
    forall j | end <= j < |c.ins|
      ensures Judge(c, g, j) == Judge(c, h, j)
    {
      assert c.ins[j].address != x.address;
      if j + 1 < |c.ins| {
        assert x.End() <= c.ins[j].address < c.ins[j + 1].address;
      }
    }
  }

  lemma SliceCons(xs: seq<Instruction>, i: nat, end: nat, rest: seq<Instruction>)
    requires i < end <= |xs|
    ensures [xs[i]] + (xs[i + 1..end] + rest) == xs[i..end] + rest
  {
  }

  lemma {:induction false} CoveredRun(c: Context, g: Flow, i: nat, end: nat)
    requires i < end <= |c.ins| && Covered(c, g, i)
    requires forall j :: i <= j < end - 1 ==> Judge(c, g, j) == Continue
    ensures CoveredFrom(c, g, i) == c.ins[i..end] + CoveredFrom(c, g, end)
    ensures Covered(c, g, end - 1)
    decreases end - i
  {
    SliceCons(c.ins, i, end, CoveredFrom(c, g, end));
    assert CoveredFrom(c, g, i) == [c.ins[i]] + CoveredFrom(c, g, i + 1);
    if i + 1 < end {
      assert Judge(c, g, i) == Continue;
      CoveredRun(c, g, i + 1, end);
    } else {
      assert c.ins[i + 1..end] + CoveredFrom(c, g, end) == CoveredFrom(c, g, end);
    }
  }

  lemma {:induction false} SkipToStart(c: Context, g: Flow, i: nat, j: nat)
    requires i <= j <= |c.ins|
    requires forall k :: i <= k < j ==> !c.IsStart(k)
    ensures BlocksFrom(c, g, i) == BlocksFrom(c, g, j)
    decreases j - i
  {
    if i < j {
      SkipToStart(c, g, i + 1, j);
    }
  }

  lemma {:induction false} FlatCons(b: Block, rest: seq<Block>)
    ensures Flat([b] + rest) == b + Flat(rest)
  {
    if rest == [] {
      assert [b] + rest == [b] && [b][..0] == [];
      assert Flat([b]) == Flat([]) + b;
    } else {
      var all := [b] + rest;
      assert all[..|all| - 1] == [b] + rest[..|rest| - 1];
      FlatCons(b, rest[..|rest| - 1]);
    }
  }

  /** A block holds a run of covered instructions, and what follows is decided as before. */
  lemma BlockHoldsRun(c: Context, g: Flow, h: Flow, i: nat)
    requires i < |c.ins| && c.IsStart(i) && c.Apart() && Sealed(c, h) && Alike(c, g, h, i)
    ensures var (end, left) := Walk(c, g, i);
      && Flat(BlocksFrom(c, g, i).0) == c.ins[i..end] + Flat(BlocksFrom(c, left, end).0)
      && CoveredFrom(c, h, i) == c.ins[i..end] + CoveredFrom(c, h, end)
      && Alike(c, left, h, end) && (end < |c.ins| ==> c.IsStart(end) || !Covered(c, h, end))
  {
    var (end, left) := Walk(c, g, i);
    SealedWalk(c, g, h, i);
    AfterBlock(c, g, i);
    WalkStaysAlike(c, g, h, i);
    WalkIsRun(c, g, h, i);
    CoveredRun(c, h, i, end);
    FlatCons(c.ins[i..end], BlocksFrom(c, left, end).0);
  }

  lemma {:induction false} BlocksHoldCoveredFrom(c: Context, g: Flow, h: Flow, i: nat)
    requires i <= |c.ins| && c.Apart() && Sealed(c, h) && Alike(c, g, h, i)
    requires i < |c.ins| ==> c.IsStart(i) || !Covered(c, h, i)
    ensures Flat(BlocksFrom(c, g, i).0) == CoveredFrom(c, h, i)
    decreases |c.ins| - i
  {
    if i < |c.ins| {
      if c.IsStart(i) {
        var (end, left) := Walk(c, g, i);
        BlockHoldsRun(c, g, h, i);
        BlocksHoldCoveredFrom(c, left, h, end);
      } else {
        BlocksHoldCoveredFrom(c, g, h, i + 1);
      }
    }
  }

  /** The blocks, one after the other, are the instructions a start reaches without anything stopping the walk,
      each once and in address order. */
  lemma BlocksHoldCovered(c: Context, g: Flow)
    requires c.Apart() && Sealed(c, g)
    ensures Flat(BlocksFrom(c, g, 0).0) == CoveredFrom(c, g, 0)
  {
    BlocksHoldCoveredFrom(c, g, g, 0);
  }

  predicate LinkedAt(c: Context, g: Flow, i: nat)
    requires i < |c.ins|
  {
    c.IsStart(i) || (i > 0 && Judge(c, g, i - 1) == Continue)
  }

  /** Every instruction is a start, or follows one that passes the walk on. */
  ghost predicate Linked(c: Context, g: Flow) {
    forall i :: 0 <= i < |c.ins| ==> LinkedAt(c, g, i)
  }

  ghost predicate AllCovered(c: Context, g: Flow, i: nat) {
    forall j :: i <= j < |c.ins| ==> Covered(c, g, j)
  }

  lemma {:induction false} CoveredCount(c: Context, g: Flow, i: nat)
    requires i <= |c.ins|
    ensures |CoveredFrom(c, g, i)| <= |c.ins| - i
    ensures CoveredFrom(c, g, i) == c.ins[i..] <==> AllCovered(c, g, i)
    decreases |c.ins| - i
  {
    if i < |c.ins| {
      CoveredCount(c, g, i + 1);
      assert c.ins[i..] == [c.ins[i]] + c.ins[i + 1..];
      if Covered(c, g, i) {
        assert CoveredFrom(c, g, i)[1..] == CoveredFrom(c, g, i + 1);
        assert c.ins[i..][1..] == c.ins[i + 1..];
      }
    }
  }

  lemma {:induction false} LinkedIsCovered(c: Context, g: Flow, i: nat)
    requires Linked(c, g) && i < |c.ins|
    ensures Covered(c, g, i)
  {
    assert LinkedAt(c, g, i);
    if i > 0 && !c.IsStart(i) {
      LinkedIsCovered(c, g, i - 1);
    }
  }

  lemma AllCoveredWhenLinked(c: Context, g: Flow)
    ensures AllCovered(c, g, 0) <==> Linked(c, g)
  {
    if Linked(c, g) {
      forall i | 0 <= i < |c.ins|
        ensures Covered(c, g, i)
      {
        LinkedIsCovered(c, g, i);
      }
    }
    if AllCovered(c, g, 0) {
      forall i | 0 <= i < |c.ins|
        ensures LinkedAt(c, g, i)
      {
        assert Covered(c, g, i);
      }
    }
  }

  /** The blocks lose no instruction exactly when every instruction is a start or follows one that passes the walk
      on. */
  lemma BlocksCoverExactlyWhenLinked(c: Context, g: Flow)
    requires c.Apart() && Sealed(c, g)
    ensures Flat(BlocksFrom(c, g, 0).0) == c.ins <==> Linked(c, g)
  {
    BlocksHoldCovered(c, g);
    CoveredCount(c, g, 0);
    AllCoveredWhenLinked(c, g);
    assert c.ins[0..] == c.ins;
  }
}
