/** Which instructions end up in a block, with no hypothesis about where starts lie: walks are counted. */
module Coverage {
  import opened AddressReferences
  import opened Blocks
  import opened Collections
  import opened Disassembly

  /** The verdict on an instruction once the reference to the address behind it was dropped. */
  function Rejudge(c: Context, g: Flow, m: nat): Verdict
    requires m < |c.ins|
  {
    Judge(c, DroppedAt(c, g, m), m)
  }

  function DroppedAt(c: Context, g: Flow, m: nat): Flow
    requires m < |c.ins|
  {
    WithoutRef(g, c.ins[m].address, c.ins[m].End())
  }

  /** How many of the walks from starts before index `before` come to instruction m. */
  function Reaching(c: Context, g: Flow, m: nat, before: nat): nat
    requires m < |c.ins|
    decreases m, 0
  {
    (if m < before && c.IsStart(m) then 1 else 0) + (if m == 0 then 0 else Passing(c, g, m - 1, before))
  }

  /** How many of them go on behind it. At a collision the first walk drops the reference and ends; those that come
      later find it gone. */
  function Passing(c: Context, g: Flow, m: nat, before: nat): nat
    requires m < |c.ins|
    decreases m, 1
  {
    var reaching := Reaching(c, g, m, before);
    match Judge(c, g, m)
    case Continue => reaching
    case Cut => if Rejudge(c, g, m) == Continue && reaching > 0 then reaching - 1 else 0
    case Break => 0
  }

  /** Some walk comes to the instruction. */
  predicate Reached(c: Context, g: Flow, m: nat)
    requires m < |c.ins|
  {
    Reaching(c, g, m, |c.ins|) > 0
  }

  predicate WasCut(c: Context, g: Flow, m: nat, before: nat)
    requires m < |c.ins|
  {
    Judge(c, g, m) == Cut && Reaching(c, g, m, before) > 0
  }

  // ----- what a dropped reference changes

  ghost predicate SameEntry(m: Refs, n: Refs, a: Address) {
    (a in m <==> a in n) && (a in m ==> m[a] == n[a])
  }

  /** Two reference maps agree on what the verdict on instruction m looks at. */
  ghost predicate SameAt(c: Context, g: Flow, h: Flow, m: nat)
    requires m < |c.ins|
  {
    && SameEntry(g.from, h.from, c.ins[m].address)
    && (m + 1 < |c.ins| ==> SameEntry(g.to, h.to, c.ins[m + 1].address))
  }

  ghost predicate Solid(c: Context) {
    c.Apart() && forall i :: 0 <= i < |c.ins| ==> c.ins[i].size > 0
  }

  lemma SameAtDecides(c: Context, g: Flow, h: Flow, m: nat)
    requires m < |c.ins| && SameAt(c, g, h, m)
    ensures Judge(c, g, m) == Judge(c, h, m)
    ensures SameAt(c, DroppedAt(c, g, m), DroppedAt(c, h, m), m)
  {
  }

  lemma DroppingIsLocal(c: Context, g: Flow, p: nat, m: nat)
    requires Solid(c) && p < |c.ins| && m < |c.ins| && p != m
    ensures SameAt(c, DroppedAt(c, g, p), g, m)
  {
    assert c.ins[p].address != c.ins[m].address;
    if m + 1 < |c.ins| {
      assert m + 1 <= p ==> c.ins[m + 1].address <= c.ins[p].address;
      assert p < m ==> c.ins[p].End() <= c.ins[m].address < c.ins[m + 1].address;
    }
  }

  /** A dropped reference is not dropped twice. */
  lemma NeverCutTwice(c: Context, g: Flow, m: nat)
    requires m < |c.ins|
    ensures Rejudge(c, g, m) != Cut
  {
  }

  // ----- one walk after the other

  /** The reference map as the walks from starts before index `before` left it. */
  ghost predicate Marked(c: Context, g: Flow, h: Flow, before: nat) {
    forall m :: 0 <= m < |c.ins| ==> MarkedAt(c, g, h, before, m)
  }

  ghost predicate MarkedAt(c: Context, g: Flow, h: Flow, before: nat, m: nat)
    requires m < |c.ins|
  {
    SameAt(c, h, if WasCut(c, g, m, before) then DroppedAt(c, g, m) else g, m)
  }

  lemma {:induction false} NoWalkYet(c: Context, g: Flow, m: nat)
    requires m < |c.ins|
    ensures Reaching(c, g, m, 0) == 0
  {
    if m > 0 {
      NoWalkYet(c, g, m - 1);
    }
  }

  lemma MarkedAtFirst(c: Context, g: Flow)
    ensures Marked(c, g, g, 0)
  {
    forall m | 0 <= m < |c.ins|
      ensures MarkedAt(c, g, g, 0, m)
    {
      NoWalkYet(c, g, m);
    }
  }

  /** What a walk that comes to instruction m adds to those that pass it. */
  lemma OneMorePasses(c: Context, g: Flow, h: Flow, i: nat, m: nat, one: nat)
    requires m < |c.ins| && MarkedAt(c, g, h, i, m) && one <= 1
    requires Reaching(c, g, m, i + 1) == Reaching(c, g, m, i) + one
    ensures Passing(c, g, m, i + 1) == Passing(c, g, m, i) + if one == 1 && Judge(c, h, m) == Continue then 1 else 0
  {
    SameAtDecides(c, h, if WasCut(c, g, m, i) then DroppedAt(c, g, m) else g, m);
  }

  /** The walk from a start is counted where it goes, and nowhere else. */
  lemma {:induction false} WalkCounts(c: Context, g: Flow, h: Flow, i: nat, m: nat)
    requires i < |c.ins| && m < |c.ins| && c.IsStart(i) && Marked(c, g, h, i)
    ensures var one := if i <= m < Walk(c, h, i).0 then 1 else 0;
      Reaching(c, g, m, i + 1) == Reaching(c, g, m, i) + one
    decreases m
  {
    WalkRuns(c, h, i);
    if m > 0 {
      WalkCounts(c, g, h, i, m - 1);
      assert MarkedAt(c, g, h, i, m - 1);
      OneMorePasses(c, g, h, i, m - 1, if i <= m - 1 < Walk(c, h, i).0 then 1 else 0);
    }
  }

  lemma {:induction false} NoStartNoWalk(c: Context, g: Flow, i: nat, m: nat)
    requires i < |c.ins| && m < |c.ins| && !c.IsStart(i)
    ensures Reaching(c, g, m, i + 1) == Reaching(c, g, m, i)
    decreases m
  {
    if m > 0 {
      NoStartNoWalk(c, g, i, m - 1);
    }
  }

  /** What a walk leaves at an instruction that it does not cut at. */
  lemma WalkLeaves(c: Context, g: Flow, h: Flow, left: Flow, i: nat, m: nat)
    requires m < |c.ins| && MarkedAt(c, g, h, i, m) && SameAt(c, left, h, m)
    requires WasCut(c, g, m, i + 1) <==> WasCut(c, g, m, i)
    ensures MarkedAt(c, g, left, i + 1, m)
  {
  }

  lemma WalkCuts(c: Context, g: Flow, h: Flow, i: nat, m: nat)
    requires m < |c.ins| && MarkedAt(c, g, h, i, m) && Judge(c, h, m) == Cut && Reaching(c, g, m, i + 1) > 0
    ensures MarkedAt(c, g, DroppedAt(c, h, m), i + 1, m)
  {
    SameAtDecides(c, h, if WasCut(c, g, m, i) then DroppedAt(c, g, m) else g, m);
    NeverCutTwice(c, g, m);
  }

  /** An instruction that a walk comes to and does not cut at was cut before, if the verdict on it was to cut. */
  lemma CutBefore(c: Context, g: Flow, h: Flow, i: nat, m: nat)
    requires m < |c.ins| && MarkedAt(c, g, h, i, m) && Judge(c, h, m) != Cut
    ensures Judge(c, g, m) == Cut ==> WasCut(c, g, m, i)
  {
    SameAtDecides(c, h, if WasCut(c, g, m, i) then DroppedAt(c, g, m) else g, m);
  }

  lemma WalkMarks(c: Context, g: Flow, h: Flow, i: nat, m: nat)
    requires i < |c.ins| && m < |c.ins| && c.IsStart(i) && Marked(c, g, h, i) && Solid(c)
    ensures MarkedAt(c, g, Walk(c, h, i).1, i + 1, m)
  {
    var (end, left) := Walk(c, h, i);
    WalkRuns(c, h, i);
    WalkCounts(c, g, h, i, m);
    assert MarkedAt(c, g, h, i, m);
    if m == end - 1 && Judge(c, h, m) == Cut {
      WalkCuts(c, g, h, i, m);
    } else {
      if i <= m < end {
        CutBefore(c, g, h, i, m);
      }
      WalkChangesNothing(c, h, i, m);
      WalkLeaves(c, g, h, left, i, m);
    }
  }

  lemma WalkChangesNothing(c: Context, h: Flow, i: nat, m: nat)
    requires i < |c.ins| && m < |c.ins| && Solid(c)
    requires m == Walk(c, h, i).0 - 1 ==> Judge(c, h, m) != Cut
    ensures SameAt(c, Walk(c, h, i).1, h, m)
  {
    WalkRuns(c, h, i);
    if Walk(c, h, i).1 != h {
      DroppingIsLocal(c, h, Walk(c, h, i).0 - 1, m);
    }
  }

  lemma WalksMark(c: Context, g: Flow, h: Flow, i: nat)
    requires i < |c.ins| && Marked(c, g, h, i) && Solid(c)
    ensures Marked(c, g, if c.IsStart(i) then Walk(c, h, i).1 else h, i + 1)
  {
    var left, next := if c.IsStart(i) then Walk(c, h, i).1 else h, i + 1;
    forall m | 0 <= m < |c.ins|
      ensures MarkedAt(c, g, left, next, m)
    {
      assert MarkedAt(c, g, h, i, m);
      if c.IsStart(i) {
        WalkMarks(c, g, h, i, m);
      } else {
        NoStartNoWalk(c, g, i, m);
      }
    }
  }

  lemma InSlice(c: Context, i: nat, end: nat, m: nat)
    requires c.Apart() && i <= end <= |c.ins| && m < |c.ins|
    ensures c.ins[m] in c.ins[i..end] <==> i <= m < end
  {
    if i <= m < end {
      assert c.ins[i..end][m - i] == c.ins[m];
    }
  }

  /** The blocks from index i on hold the instructions that some walk still to come reaches. */
  lemma {:induction false} BlocksHoldWalked(c: Context, g: Flow, h: Flow, i: nat, m: nat)
    requires i <= |c.ins| && m < |c.ins| && Marked(c, g, h, i) && Solid(c)
    ensures Reaching(c, g, m, |c.ins|) >= Reaching(c, g, m, i)
    ensures c.ins[m] in Flat(BlocksFrom(c, h, i).0) <==> Reaching(c, g, m, |c.ins|) > Reaching(c, g, m, i)
    decreases |c.ins| - i
  {
    if i < |c.ins| {
      WalksMark(c, g, h, i);
      if c.IsStart(i) {
        var (end, left) := Walk(c, h, i);
        WalkCounts(c, g, h, i, m);
        BlocksHoldWalked(c, g, left, i + 1, m);
        FlatCons(c.ins[i..end], BlocksFrom(c, left, i + 1).0);
        InSlice(c, i, end, m);
      } else {
        NoStartNoWalk(c, g, i, m);
        BlocksHoldWalked(c, g, h, i + 1, m);
      }
    }
  }

  /** An instruction is in a block exactly when some walk reaches it, wherever starts lie and whatever collides. */
  lemma BlocksHoldReached(c: Context, g: Flow, m: nat)
    requires m < |c.ins| && Solid(c)
    ensures c.ins[m] in Flat(BlocksFrom(c, g, 0).0) <==> Reached(c, g, m)
  {
    MarkedAtFirst(c, g);
    NoWalkYet(c, g, m);
    BlocksHoldWalked(c, g, g, 0, m);
  }

  // ----- where blocks end, in terms of mnemonics and references

  /** The instruction is a call, or refers to nothing but the next one. */
  ghost predicate LeadsOn(c: Context, g: Flow, m: nat)
    requires m + 1 < |c.ins|
  {
    || LastWord(c.ins[m].mnemonic) in c.calls
    || forall t :: t in At(g.from, c.ins[m].address) ==> t == c.ins[m + 1].address
  }

  /** The next instruction, if it is a reference target, is no start and has at most one source. */
  ghost predicate Unjoined(c: Context, g: Flow, m: nat)
    requires m + 1 < |c.ins|
  {
    var next := c.ins[m + 1].address;
    next in g.to ==> next !in c.starts && forall s, t :: s in g.to[next] && t in g.to[next] ==> s == t
  }

  /** Neither the mnemonic nor the architecture says that a block ends here. */
  ghost predicate Unended(c: Context, g: Flow, m: nat)
    requires m < |c.ins|
  {
    var x := c.ins[m];
    && LastWord(x.mnemonic) !in c.ends
    && !c.endsBlock(x, if x.address in g.from then Some(g.from[x.address]) else None)
  }

  /** The reference to the address behind the instruction leads into another function. */
  ghost predicate Collides(c: Context, g: Flow, m: nat)
    requires m < |c.ins|
  {
    c.ins[m].End() in At(g.from, c.ins[m].address) && c.ins[m].End() in c.colliding
  }

  /** A block that holds an instruction goes on to the next one. Where the next address belongs to another function,
      the first such block ends and the reference is dropped; later ones are decided without it. */
  ghost predicate GoesOn(c: Context, g: Flow, m: nat, isFirst: bool)
    requires m + 1 < |c.ins|
  {
    var left := if Collides(c, g, m) then DroppedAt(c, g, m) else g;
    LeadsOn(c, g, m) && (isFirst ==> !Collides(c, g, m)) && LeadsOn(c, left, m) && Unjoined(c, left, m)
    && Unended(c, left, m)
  }

  lemma TwoOf<T>(ts: set<T>) returns (s: T, t: T)
    requires |ts| > 1
    ensures s in ts && t in ts && s != t
  {
    s :| s in ts;
    assert |ts - {s}| == |ts| - 1;
    t :| t in ts - {s};
  }

  lemma TwoAreSeveral<T>(ts: set<T>, s: T, t: T)
    requires s in ts && t in ts && s != t
    ensures |ts| > 1
  {
    SubsetIsSmaller({s, t}, ts);
  }

  lemma OneOf<T>(ts: set<T>, s: T)
    requires |ts| == 1 && s in ts
    ensures ts == {s}
  {
    assert |ts - {s}| == 0;
  }

  lemma SubsetIsSmaller<T>(p: set<T>, q: set<T>)
    requires p <= q
    ensures |p| <= |q|
  {
    assert q == p + (q - p);
  }

  lemma ElsewhereCounts<T>(ts: set<T>, next: T, t: T)
    requires t in ts && t != next
    ensures |ts| > 1 || (|ts| == 1 && next !in ts)
  {
    if |ts| == 1 {
      OneOf(ts, t);
    }
  }

  lemma Elsewhere<T>(ts: set<T>, next: T) returns (t: T)
    requires |ts| > 1 || (|ts| == 1 && next !in ts)
    ensures t in ts && t != next
  {
    if |ts| > 1 {
      var s;
      s, t := TwoOf(ts);
      t := if s == next then t else s;
    } else {
      t :| t in ts;
    }
  }

  lemma RuleOfReferences(c: Context, g: Flow, m: nat)
    requires m + 1 < |c.ins|
    ensures var x, next := c.ins[m], c.ins[m + 1].address;
      !LeadsOn(c, g, m) <==> (
        && x.address in g.from && LastWord(x.mnemonic) !in c.calls
        && (|g.from[x.address]| > 1 || (|g.from[x.address]| == 1 && next !in g.from[x.address])))
  {
    var ts, next := At(g.from, c.ins[m].address), c.ins[m + 1].address;
    if |ts| > 1 || (|ts| == 1 && next !in ts) {
      var t := Elsewhere(ts, next);
    }
    if !(forall t :: t in ts ==> t == next) {
      var t :| t in ts && t != next;
      ElsewhereCounts(ts, next, t);
    }
  }

  lemma RuleOfSources(c: Context, g: Flow, m: nat)
    requires m + 1 < |c.ins|
    ensures var next := c.ins[m + 1].address;
      !Unjoined(c, g, m) <==> next in g.to && (next in c.starts || |g.to[next]| > 1)
  {
    var ts := At(g.to, c.ins[m + 1].address);
    if |ts| > 1 {
      var s, t := TwoOf(ts);
    }
    if !(forall s, t :: s in ts && t in ts ==> s == t) {
      var s, t :| s in ts && t in ts && s != t;
      TwoAreSeveral(ts, s, t);
    }
  }

  lemma JudgedByRules(c: Context, g: Flow, m: nat)
    requires m + 1 < |c.ins|
    ensures Judge(c, g, m) == Continue <==>
      LeadsOn(c, g, m) && !Collides(c, g, m) && Unjoined(c, g, m) && Unended(c, g, m)
    ensures Judge(c, g, m) == Cut <==> LeadsOn(c, g, m) && Collides(c, g, m)
  {
    RuleOfReferences(c, g, m);
    RuleOfSources(c, g, m);
  }

  lemma DroppedIsGone(c: Context, g: Flow, m: nat)
    requires m < |c.ins|
    ensures !Collides(c, DroppedAt(c, g, m), m)
  {
  }

  /** What the walk that comes to an instruction finds there. */
  lemma VerdictByRules(c: Context, g: Flow, h: Flow, i: nat, m: nat)
    requires m + 1 < |c.ins| && MarkedAt(c, g, h, i, m)
    ensures Judge(c, h, m) == Continue <==> GoesOn(c, g, m, Reaching(c, g, m, i) == 0)
  {
    JudgedByRules(c, g, m);
    JudgedByRules(c, DroppedAt(c, g, m), m);
    DroppedIsGone(c, g, m);
    SameAtDecides(c, h, if WasCut(c, g, m, i) then DroppedAt(c, g, m) else g, m);
  }

  /** No earlier block holds the instruction. */
  ghost predicate FirstWith(blocks: seq<Block>, k: nat, x: Instruction)
    requires k < |blocks|
  {
    forall j :: 0 <= j < k ==> x !in blocks[j]
  }

  lemma FirstInRest(b: Block, rest: seq<Block>, k: nat, x: Instruction)
    requires k < |rest|
    ensures FirstWith([b] + rest, k + 1, x) <==> x !in b && FirstWith(rest, k, x)
  {
    var all := [b] + rest;
    assert all[0] == b && forall j :: 0 <= j < |rest| ==> all[j + 1] == rest[j];
    if FirstWith(all, k + 1, x) {
      forall j | 0 <= j < k
        ensures x !in rest[j]
      {
        var next := j + 1;
        assert x !in all[next];
      }
    }
  }

  lemma WalkEndsByRules(c: Context, g: Flow, h: Flow, i: nat, m: nat)
    requires c.Apart() && m + 1 < |c.ins| && i <= m < Walk(c, h, i).0 && MarkedAt(c, g, h, i, m)
    ensures c.ins[m] in c.ins[i..Walk(c, h, i).0]
    ensures c.ins[m + 1] in c.ins[i..Walk(c, h, i).0] <==> GoesOn(c, g, m, Reaching(c, g, m, i) == 0)
  {
    var end := Walk(c, h, i).0;
    InSlice(c, i, end, m);
    InSlice(c, i, end, m + 1);
    WalkRuns(c, h, i);
    VerdictByRules(c, g, h, i, m);
  }

  /** Block k goes on behind instruction m as the rules say, `seen` telling whether an earlier walk came there. */
  ghost predicate EndsAt(c: Context, g: Flow, blocks: seq<Block>, k: nat, m: nat, seen: bool)
    requires k < |blocks| && m + 1 < |c.ins|
  {
    c.ins[m] in blocks[k] ==>
      (c.ins[m + 1] in blocks[k] <==> GoesOn(c, g, m, !seen && FirstWith(blocks, k, c.ins[m])))
  }

  lemma EndsInRest(c: Context, g: Flow, b: Block, rest: seq<Block>, k: nat, m: nat, seen: bool)
    requires k < |rest| && m + 1 < |c.ins| && EndsAt(c, g, rest, k, m, seen || c.ins[m] in b)
    ensures EndsAt(c, g, [b] + rest, k + 1, m, seen)
  {
    assert ([b] + rest)[k + 1] == rest[k];
    FirstInRest(b, rest, k, c.ins[m]);
  }

  lemma {:induction false} BlocksEndFrom(c: Context, g: Flow, h: Flow, i: nat, k: nat, m: nat)
    requires i <= |c.ins| && m + 1 < |c.ins| && Marked(c, g, h, i) && Solid(c) && k < |BlocksFrom(c, h, i).0|
    ensures EndsAt(c, g, BlocksFrom(c, h, i).0, k, m, Reaching(c, g, m, i) > 0)
    decreases |c.ins| - i
  {
    if i < |c.ins| {
      WalksMark(c, g, h, i);
      if !c.IsStart(i) {
        NoStartNoWalk(c, g, i, m);
        BlocksEndFrom(c, g, h, i + 1, k, m);
      } else if k == 0 {
        FirstBlockEnds(c, g, h, i, m);
      } else {
        var (end, left) := Walk(c, h, i);
        InSlice(c, i, end, m);
        WalkCounts(c, g, h, i, m);
        BlocksEndFrom(c, g, left, i + 1, k - 1, m);
        EndsInRest(c, g, c.ins[i..end], BlocksFrom(c, left, i + 1).0, k - 1, m, Reaching(c, g, m, i) > 0);
      }
    }
  }

  lemma FirstBlockEnds(c: Context, g: Flow, h: Flow, i: nat, m: nat)
    requires i < |c.ins| && m + 1 < |c.ins| && Marked(c, g, h, i) && Solid(c) && c.IsStart(i)
    ensures EndsAt(c, g, BlocksFrom(c, h, i).0, 0, m, Reaching(c, g, m, i) > 0)
  {
    InSlice(c, i, Walk(c, h, i).0, m);
    if i <= m < Walk(c, h, i).0 {
      assert MarkedAt(c, g, h, i, m);
      WalkEndsByRules(c, g, h, i, m);
    }
  }

  /** A block that holds an instruction holds the next one exactly when the first is a call or refers to nothing but
      the second, the second is no start with a reference to it and has at most one source, and neither the mnemonic
      nor the architecture ends the block; and at a collision the first block that comes there ends. */
  lemma BlocksEndByRules(c: Context, g: Flow, k: nat, m: nat)
    requires Solid(c) && m + 1 < |c.ins|
    requires k < |BlocksFrom(c, g, 0).0| && c.ins[m] in BlocksFrom(c, g, 0).0[k]
    ensures var blocks := BlocksFrom(c, g, 0).0;
      c.ins[m + 1] in blocks[k] <==> GoesOn(c, g, m, FirstWith(blocks, k, c.ins[m]))
  {
    MarkedAtFirst(c, g);
    NoWalkYet(c, g, m);
    BlocksEndFrom(c, g, g, 0, k, m);
  }

  // ----- when nothing collides

  lemma {:induction false} ReachedIsCovered(c: Context, g: Flow, m: nat)
    requires m < |c.ins| && forall i :: 0 <= i < |c.ins| ==> Judge(c, g, i) != Cut
    ensures Reached(c, g, m) <==> Covered(c, g, m)
  {
    if m > 0 {
      ReachedIsCovered(c, g, m - 1);
      assert Passing(c, g, m - 1, |c.ins|) > 0 <==> Judge(c, g, m - 1) == Continue && Reached(c, g, m - 1);
    }
  }

  /** Where nothing collides, every instruction is reached exactly when each is a start or follows one that passes the
      walk on. */
  lemma ReachedExactlyWhenLinked(c: Context, g: Flow)
    requires c.colliding == {}
    ensures (forall m :: 0 <= m < |c.ins| ==> Reached(c, g, m)) <==> Linked(c, g)
  {
    forall m | 0 <= m < |c.ins|
      ensures Reached(c, g, m) <==> Covered(c, g, m)
    {
      ReachedIsCovered(c, g, m);
    }
    AllCoveredWhenLinked(c, g);
  }
}
