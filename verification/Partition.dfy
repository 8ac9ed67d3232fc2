/** Splitting a function where the exception directory says another one ends. */
module Partition {
  import opened AddressReferences
  import opened Blocks
  import opened Collections
  import opened Disassembly
  import opened Recording

  // ----- segments

  /** The function an address falls to: the greatest split point not above it, or else the function being split. */
  function Segment(fn: Address, splits: seq<Address>, a: Address): Address {
    ([fn] + splits)[BisectRight(splits, a)]
  }

  lemma SegmentIsGreatest(fn: Address, splits: seq<Address>, a: Address)
    requires Increasing(splits)
    ensures var g := Segment(fn, splits, a);
      || (g == fn && forall p :: p in splits ==> p > a)
      || (g in splits && g <= a && forall p :: p in splits && p <= a ==> p <= g)
  {
    BisectRightSplits(splits, a);
    var k := BisectRight(splits, a);
    forall p | p in splits
      ensures p <= a ==> k > 0 && p <= splits[k - 1]
    {
      var i :| 0 <= i < |splits| && splits[i] == p;
    }
  }

  // ----- fragments of blocks

  /** A block, cut wherever the segment changes. */
  function Runs(fn: Address, splits: seq<Address>, b: Block): seq<Block> {
    if b == [] then [] else WithNext(fn, splits, Runs(fn, splits, b[..|b| - 1]), b[|b| - 1])
  }

  function WithNext(fn: Address, splits: seq<Address>, rs: seq<Block>, x: Instruction): seq<Block> {
    if rs != [] && OfSegment(fn, splits, rs[|rs| - 1], Segment(fn, splits, x.address))
    then rs[..|rs| - 1] + [rs[|rs| - 1] + [x]] else rs + [[x]]
  }

  /** A fragment is not empty and belongs to the segment of its first instruction. */
  predicate OfSegment(fn: Address, splits: seq<Address>, b: Block, g: Address) {
    b != [] && Segment(fn, splits, b[0].address) == g
  }

  ghost predicate Uniform(fn: Address, splits: seq<Address>, b: Block) {
    b != [] && forall x :: x in b ==> Segment(fn, splits, x.address) == Segment(fn, splits, b[0].address)
  }

  lemma FlatSnoc(bs: seq<Block>, b: Block)
    ensures Flat(bs + [b]) == Flat(bs) + b
  {
    assert (bs + [b])[..|bs|] == bs;
  }

  lemma {:induction false} FlatJoin(p: seq<Block>, q: seq<Block>)
    ensures Flat(p + q) == Flat(p) + Flat(q)
  {
    if q == [] {
      assert p + q == p;
    } else {
      var before, last := q[..|q| - 1], q[|q| - 1];
      FlatJoin(p, before);
      assert q == before + [last] && p + q == (p + before) + [last];
      FlatSnoc(p + before, last);
    }
  }

  ghost predicate AllUniform(fn: Address, splits: seq<Address>, rs: seq<Block>) {
    forall r :: r in rs ==> Uniform(fn, splits, r)
  }

  lemma NextRun(fn: Address, splits: seq<Address>, rs: seq<Block>, x: Instruction)
    requires AllUniform(fn, splits, rs)
    ensures AllUniform(fn, splits, WithNext(fn, splits, rs, x))
    ensures Flat(WithNext(fn, splits, rs, x)) == Flat(rs) + [x]
  {
    if rs != [] && OfSegment(fn, splits, rs[|rs| - 1], Segment(fn, splits, x.address)) {
      var before, last := rs[..|rs| - 1], rs[|rs| - 1];
      assert rs == before + [last] && last in rs;
      FlatSnoc(before, last);
      FlatSnoc(before, last + [x]);
      assert Uniform(fn, splits, last + [x]);
    } else {
      FlatSnoc(rs, [x]);
      assert Uniform(fn, splits, [x]);
    }
  }

  /** The fragments make up the block, and each lies in one segment. */
  lemma {:induction false} RunsMakeUpBlock(fn: Address, splits: seq<Address>, b: Block)
    ensures Flat(Runs(fn, splits, b)) == b && AllUniform(fn, splits, Runs(fn, splits, b))
  {
    if b != [] {
      var prefix, x := b[..|b| - 1], b[|b| - 1];
      var rs := Runs(fn, splits, prefix);
      RunsMakeUpBlock(fn, splits, prefix);
      NextRun(fn, splits, rs, x);
      var all := WithNext(fn, splits, rs, x);
      assert Runs(fn, splits, b) == all;
      assert prefix + [x] == b;
    }
  }

  function RunsOf(fn: Address, splits: seq<Address>, blocks: seq<Block>): seq<Block> {
    if blocks == [] then [] else
      RunsOf(fn, splits, blocks[..|blocks| - 1]) + Runs(fn, splits, blocks[|blocks| - 1])
  }

  /** The fragments of one segment, in order. */
  function Select(fn: Address, splits: seq<Address>, rs: seq<Block>, g: Address): seq<Block> {
    if rs == [] then [] else
      Select(fn, splits, rs[..|rs| - 1], g)
      + if OfSegment(fn, splits, rs[|rs| - 1], g) then [rs[|rs| - 1]] else []
  }

  /** The blocks a segment gets. */
  function Part(fn: Address, splits: seq<Address>, blocks: seq<Block>, g: Address): seq<Block> {
    Select(fn, splits, RunsOf(fn, splits, blocks), g)
  }

  /** The instructions of one segment, in order. */
  function Keep(fn: Address, splits: seq<Address>, xs: seq<Instruction>, g: Address): seq<Instruction> {
    if xs == [] then [] else
      Keep(fn, splits, xs[..|xs| - 1], g)
      + if Segment(fn, splits, xs[|xs| - 1].address) == g then [xs[|xs| - 1]] else []
  }

  lemma {:induction false} KeepJoin(fn: Address, splits: seq<Address>, p: seq<Instruction>, q: seq<Instruction>,
      g: Address)
    ensures Keep(fn, splits, p + q, g) == Keep(fn, splits, p, g) + Keep(fn, splits, q, g)
  {
    if q == [] {
      assert p + q == p;
    } else {
      KeepJoin(fn, splits, p, q[..|q| - 1], g);
      assert (p + q)[..|p + q| - 1] == p + q[..|q| - 1];
    }
  }

  lemma {:induction false} KeepAllOrNothing(fn: Address, splits: seq<Address>, xs: seq<Instruction>, g: Address)
    ensures (forall x :: x in xs ==> Segment(fn, splits, x.address) == g) ==> Keep(fn, splits, xs, g) == xs
    ensures (forall x :: x in xs ==> Segment(fn, splits, x.address) != g) ==> Keep(fn, splits, xs, g) == []
  {
    if xs != [] {
      KeepAllOrNothing(fn, splits, xs[..|xs| - 1], g);
      assert xs == xs[..|xs| - 1] + [xs[|xs| - 1]];
    }
  }

  lemma {:induction false} SelectKeeps(fn: Address, splits: seq<Address>, rs: seq<Block>, g: Address)
    requires AllUniform(fn, splits, rs)
    ensures Flat(Select(fn, splits, rs, g)) == Keep(fn, splits, Flat(rs), g)
  {
    if rs != [] {
      var before, last := rs[..|rs| - 1], rs[|rs| - 1];
      SelectKeeps(fn, splits, before, g);
      assert last in rs && Uniform(fn, splits, last);
      KeepJoin(fn, splits, Flat(before), last, g);
      KeepAllOrNothing(fn, splits, last, g);
      assert Flat(rs) == Flat(before) + last;
      if OfSegment(fn, splits, last, g) {
        assert forall x :: x in last ==> Segment(fn, splits, x.address) == g;
        FlatSnoc(Select(fn, splits, before, g), last);
        assert Select(fn, splits, rs, g) == Select(fn, splits, before, g) + [last];
      } else {
        assert forall x :: x in last ==> Segment(fn, splits, x.address) != g;
        assert Select(fn, splits, rs, g) == Select(fn, splits, before, g);
      }
    }
  }

  lemma {:induction false} RunsOfMakeUpBlocks(fn: Address, splits: seq<Address>, blocks: seq<Block>)
    ensures Flat(RunsOf(fn, splits, blocks)) == Flat(blocks)
    ensures AllUniform(fn, splits, RunsOf(fn, splits, blocks))
  {
    if blocks != [] {
      var before, last := blocks[..|blocks| - 1], blocks[|blocks| - 1];
      RunsOfMakeUpBlocks(fn, splits, before);
      RunsMakeUpBlock(fn, splits, last);
      FlatJoin(RunsOf(fn, splits, before), Runs(fn, splits, last));
    }
  }

  /** Nothing is lost, doubled or reordered: the instructions a segment gets are those of the function whose segment
      it is, in their old order, whatever the blocks look like. */
  lemma PartsConserveInstructions(fn: Address, splits: seq<Address>, blocks: seq<Block>, g: Address)
    ensures Flat(Part(fn, splits, blocks, g)) == Keep(fn, splits, Flat(blocks), g)
  {
    RunsOfMakeUpBlocks(fn, splits, blocks);
    SelectKeeps(fn, splits, RunsOf(fn, splits, blocks), g);
  }

  lemma {:induction false} KeepMembers(fn: Address, splits: seq<Address>, xs: seq<Instruction>, g: Address,
      x: Instruction)
    ensures x in Keep(fn, splits, xs, g) <==> x in xs && Segment(fn, splits, x.address) == g
  {
    if xs != [] {
      KeepMembers(fn, splits, xs[..|xs| - 1], g, x);
      assert xs == xs[..|xs| - 1] + [xs[|xs| - 1]];
    }
  }

  // ----- collecting the fragments

  /** Every segment has the fragments of its own among those seen so far. */
  ghost predicate Collected(fn: Address, splits: seq<Address>, parts: map<Address, seq<Block>>, seen: seq<Block>) {
    forall g :: g == fn || g in splits ==> g in parts && parts[g] == Select(fn, splits, seen, g)
  }

  lemma CollectOne(fn: Address, splits: seq<Address>, parts: map<Address, seq<Block>>, seen: seq<Block>, r: Block,
      g: Address)
    requires Collected(fn, splits, parts, seen) && OfSegment(fn, splits, r, g) && g in parts
    ensures Collected(fn, splits, parts[g := parts[g] + [r]], seen + [r])
  {
    assert (seen + [r])[..|seen|] == seen;
  }

  /** The fragments of a prefix of a block are those already collected and the one being collected. */
  ghost predicate Collecting(fn: Address, splits: seq<Address>, prefix: Block, closed: seq<Block>,
      current: Option<Address>,
      fragment: Block)
  {
    if prefix == [] then closed == [] && current == None && fragment == []
    else Runs(fn, splits, prefix) == closed + [fragment]
         && current.Some? && OfSegment(fn, splits, fragment, current.value)
  }

  lemma CollectNext(fn: Address, splits: seq<Address>, b: Block, i: nat, closed: seq<Block>, current: Option<Address>,
      fragment: Block)
    requires i < |b| && Collecting(fn, splits, b[..i], closed, current, fragment)
    ensures var g := Segment(fn, splits, b[i].address);
      if Some(g) != current && fragment != []
      then Collecting(fn, splits, b[..i + 1], closed + [fragment], Some(g), [b[i]])
      else Collecting(fn, splits, b[..i + 1], closed, Some(g), fragment + [b[i]])
  {
    var x, prefix := b[i], b[..i + 1];
    assert prefix[..i] == b[..i] && prefix != [] && prefix[|prefix| - 1] == x;
    if i > 0 {
      var rs := Runs(fn, splits, b[..i]);
      assert rs[..|rs| - 1] == closed && rs[|rs| - 1] == fragment;
      if Some(Segment(fn, splits, x.address)) != current {
        assert Runs(fn, splits, prefix) == closed + [fragment] + [[x]];
      } else {
        assert Runs(fn, splits, prefix) == closed + [fragment + [x]];
      }
    } else {
      assert b[..i] == [] && fragment + [x] == [x];
      assert Runs(fn, splits, prefix) == [] + [[x]];
    }
  }

  /** Hands the fragments of one block to their segments. */
  method PartitionBlock(fn: Address, splits: seq<Address>, b: Block, before: map<Address, seq<Block>>,
      ghost seen: seq<Block>) returns (parts: map<Address, seq<Block>>)
    requires Collected(fn, splits, before, seen)
    ensures Collected(fn, splits, parts, seen + Runs(fn, splits, b))
  {
    parts := before;
    var current: Option<Address>, fragment: Block := None, [];
    ghost var closed: seq<Block> := [];
    assert seen + closed == seen;
    var i := 0;
    while i < |b|
      invariant i <= |b| && Collecting(fn, splits, b[..i], closed, current, fragment)
      invariant Collected(fn, splits, parts, seen + closed)
    {
      var segment := ([fn] + splits)[BisectRight(splits, b[i].address)];
      CollectNext(fn, splits, b, i, closed, current, fragment);
      if Some(segment) != current && fragment != [] {
        parts := Hand(fn, splits, parts, current.value, fragment, seen + closed);
        assert seen + closed + [fragment] == seen + (closed + [fragment]);
        closed := closed + [fragment];
        fragment := [];
        assert fragment + [b[i]] == [b[i]];
      }
      current := Some(segment);
      fragment := fragment + [b[i]];
      i := i + 1;
    }
    assert b[..i] == b;
    if fragment != [] {
      parts := Hand(fn, splits, parts, current.value, fragment, seen + closed);
      assert seen + closed + [fragment] == seen + Runs(fn, splits, b);
    }
  }

  method Hand(fn: Address, splits: seq<Address>, before: map<Address, seq<Block>>, g: Address, fragment: Block,
      ghost seen: seq<Block>) returns (parts: map<Address, seq<Block>>)
    requires Collected(fn, splits, before, seen) && OfSegment(fn, splits, fragment, g)
    ensures Collected(fn, splits, parts, seen + [fragment])
  {
    SegmentIsOne(fn, splits, fragment[0].address);
    CollectOne(fn, splits, before, seen, fragment, g);
    parts := before[g := before[g] + [fragment]];
  }

  /** Cuts every block where the segment changes and hands the fragments to their segments. */
  method PartitionBlocks(fn: Address, splits: seq<Address>,
      blocks: seq<Block>) returns (parts: map<Address, seq<Block>>)
    ensures forall g :: g == fn || g in splits ==> g in parts && parts[g] == Part(fn, splits, blocks, g)
  {
    parts := map g | g in [fn] + splits :: [];
    ghost var seen: seq<Block> := [];
    var k := 0;
    while k < |blocks|
      invariant k <= |blocks| && seen == RunsOf(fn, splits, blocks[..k]) && Collected(fn, splits, parts, seen)
    {
      assert blocks[..k + 1][..k] == blocks[..k];
      parts := PartitionBlock(fn, splits, blocks[k], parts, seen);
      seen := seen + Runs(fn, splits, blocks[k]);
      k := k + 1;
    }
    assert blocks[..k] == blocks;
  }

  lemma SegmentIsOne(fn: Address, splits: seq<Address>, a: Address)
    ensures Segment(fn, splits, a) == fn || Segment(fn, splits, a) in splits
  {
  }

  // ----- the split result

  /** What the split asks others: symbols, and which instructions reference an imported function. */
  datatype Lookup = Lookup(symbolOf: Address -> string, apiRefs: set<Address>)

  predicate IsCall(x: Instruction) {
    LastWord(x.mnemonic) == "call"
  }

  predicate HasCall(xs: seq<Instruction>) {
    exists i :: 0 <= i < |xs| && IsCall(xs[i])
  }

  predicate IsApiJumpThunk(look: Lookup, xs: seq<Instruction>) {
    |xs| == 1 && LastWord(xs[0].mnemonic) == "jmp" && xs[0].address in look.apiRefs
  }

  predicate CallsItself(refs: set<(Address, Address)>, xs: seq<Instruction>, g: Address) {
    exists i :: 0 <= i < |xs| && IsCall(xs[i]) && (xs[i].address, g) in refs
  }

  /** One segment stored as a function of its own. */
  ghost function Assign(d: Result, look: Lookup, g: Address, blocks: seq<Block>): Result {
    var xs := Flat(blocks);
    if xs == [] then d else
      d.(functions := d.functions[g := blocks],
         borders := d.borders[g := (Lowest(xs), Highest(xs))],
         ins2fn := Claim(d.ins2fn, xs, g),
         symbols := d.symbols[g := look.symbolOf(g)],
         leaf := if HasCall(xs) then d.leaf else d.leaf + {g},
         recursive := if CallsItself(d.codeRefs, xs, g) then d.recursive + {g} else d.recursive,
         thunk := if IsApiJumpThunk(look, xs) then d.thunk + {g} else d.thunk)
  }

  /** The segments stored one after the other. */
  ghost function AssignAll(d: Result, look: Lookup, fn: Address, splits: seq<Address>, blocks: seq<Block>,
      segments: seq<Address>): Result
  {
    if segments == [] then d else
      var g := segments[|segments| - 1];
      Assign(AssignAll(d, look, fn, splits, blocks, segments[..|segments| - 1]), look, g, Part(fn, splits, blocks, g))
  }

  lemma AssignOneMore(d: Result, look: Lookup, fn: Address, splits: seq<Address>, blocks: seq<Block>,
      segments: seq<Address>, g: Address)
    ensures AssignAll(d, look, fn, splits, blocks, segments + [g])
      == Assign(AssignAll(d, look, fn, splits, blocks, segments), look, g, Part(fn, splits, blocks, g))
  {
    assert (segments + [g])[..|segments|] == segments;
  }

  lemma AssignUpTo(d: Result, look: Lookup, fn: Address, splits: seq<Address>, blocks: seq<Block>,
      segments: seq<Address>, i: nat)
    requires i < |segments|
    ensures AssignAll(d, look, fn, splits, blocks, segments[..i + 1])
      == Assign(AssignAll(d, look, fn, splits, blocks, segments[..i]), look, segments[i],
                Part(fn, splits, blocks, segments[i]))
  {
    assert segments[..i + 1] == segments[..i] + [segments[i]];
    AssignOneMore(d, look, fn, splits, blocks, segments[..i], segments[i]);
  }

  /** An edge that falls through into a split point from an instruction of another function. */
  ghost predicate FallsInto(d: Result, splits: seq<Address>, r: (Address, Address)) {
    && r.1 in splits && r.0 in d.instructions && r.0 + d.instructions[r.0].size == r.1
    && !(r.0 in d.ins2fn && d.ins2fn[r.0] == r.1)
  }

  ghost function WithoutFallThrough(d: Result, splits: seq<Address>): Result {
    d.(codeRefs := set r | r in d.codeRefs && !FallsInto(d, splits, r))
  }

  ghost function Unflagged(d: Result, fn: Address): Result {
    d.(recursive := d.recursive - {fn}, leaf := d.leaf - {fn}, thunk := d.thunk - {fn})
  }

  /** The result of splitting a function, if every segment gets something. */
  ghost function Split(d: Result, look: Lookup, fn: Address, splits: seq<Address>): Result
    requires fn in d.functions
  {
    WithoutFallThrough(AssignAll(Unflagged(d, fn), look, fn, splits, d.functions[fn], [fn] + splits), splits)
  }

  /** How a segment is marked: it is a leaf unless it holds a call, recursive if one of its calls refers to its start,
      and a thunk if it is a lone jump to an imported function. Other functions keep their marks. */
  lemma SegmentMarks(d: Result, look: Lookup, g: Address, blocks: seq<Block>, f: Address)
    requires Flat(blocks) != []
    ensures var xs, e := Flat(blocks), Assign(d, look, g, blocks);
      && (f in e.leaf <==> f in d.leaf || (f == g && forall x :: x in xs ==> LastWord(x.mnemonic) != "call"))
      && (f in e.recursive <==>
           f in d.recursive
           || (f == g && exists x :: x in xs && LastWord(x.mnemonic) == "call" && (x.address, g) in d.codeRefs))
      && (f in e.thunk <==>
           f in d.thunk
           || (f == g && |xs| == 1 && LastWord(xs[0].mnemonic) == "jmp" && xs[0].address in look.apiRefs))
      && (g in e.functions && e.functions[g] == blocks && g in e.symbols && e.symbols[g] == look.symbolOf(g))
  {
    HasCallMeans(Flat(blocks));
    CallsItselfMeans(d.codeRefs, Flat(blocks), g);
  }

  lemma HasCallMeans(xs: seq<Instruction>)
    ensures HasCall(xs) <==> exists x :: x in xs && LastWord(x.mnemonic) == "call"
  {
    if i :| 0 <= i < |xs| && IsCall(xs[i]) {
      assert xs[i] in xs;
    }
    if x :| x in xs && LastWord(x.mnemonic) == "call" {
      var i :| 0 <= i < |xs| && xs[i] == x;
    }
  }

  lemma CallsItselfMeans(refs: set<(Address, Address)>, xs: seq<Instruction>, g: Address)
    ensures CallsItself(refs, xs, g)
      <==> exists x :: x in xs && LastWord(x.mnemonic) == "call" && (x.address, g) in refs
  {
    if i :| 0 <= i < |xs| && IsCall(xs[i]) && (xs[i].address, g) in refs {
      assert xs[i] in xs;
    }
    if x :| x in xs && LastWord(x.mnemonic) == "call" && (x.address, g) in refs {
      var i :| 0 <= i < |xs| && xs[i] == x;
    }
  }

  /** After a split an edge into a split point is gone exactly when it comes from an instruction that ends there and
      does not belong to the segment that begins there; every other edge stays. */
  lemma EdgesAfterSplit(d: Result, look: Lookup, fn: Address, splits: seq<Address>, a: Address, p: Address)
    requires fn in d.functions
    ensures var e := Split(d, look, fn, splits);
      (a, p) in e.codeRefs <==>
        (a, p) in d.codeRefs && !(&& p in splits && a in e.instructions && a + e.instructions[a].size == p
                                  && (a in e.ins2fn ==> e.ins2fn[a] != p))
  {
    AssignKeepsRefs(Unflagged(d, fn), look, fn, splits, d.functions[fn], [fn] + splits);
  }

  lemma {:induction false} AssignKeepsRefs(d: Result, look: Lookup, fn: Address, splits: seq<Address>,
      blocks: seq<Block>, segments: seq<Address>)
    ensures AssignAll(d, look, fn, splits, blocks, segments).codeRefs == d.codeRefs
    ensures AssignAll(d, look, fn, splits, blocks, segments).instructions == d.instructions
  {
    if segments != [] {
      AssignKeepsRefs(d, look, fn, splits, blocks, segments[..|segments| - 1]);
    }
  }

  // ----- splitting keeps ownership

  /** Where a function may be split: the points lie above its entry and begin instructions of it. */
  ghost predicate Splittable(d: Result, fn: Address, splits: seq<Address>) {
    && fn in d.functions && Increasing(splits)
    && forall p :: p in splits ==> p > fn && p in AddressesOf(Body(d, fn))
  }

  /** No instruction of the function reaches across a split point. */
  ghost predicate NoneAcross(d: Result, fn: Address, splits: seq<Address>) {
    forall x, p :: x in Body(d, fn) && p in splits ==> !(x.address < p < x.End())
  }

  ghost function PartBytes(d: Result, fn: Address, splits: seq<Address>, g: Address): set<Address>
    requires fn in d.functions
  {
    BytesOf(Flat(Part(fn, splits, d.functions[fn], g)))
  }

  /** Every segment gets something. */
  ghost predicate Full(d: Result, fn: Address, splits: seq<Address>, segments: seq<Address>)
    requires fn in d.functions
  {
    forall g {:trigger Part(fn, splits, d.functions[fn], g)} :: g in segments ==>
      Flat(Part(fn, splits, d.functions[fn], g)) != []
  }

  /** A segment gets an instruction exactly when it gets a block. */
  lemma PartsAreFull(d: Result, fn: Address, splits: seq<Address>, g: Address)
    requires fn in d.functions
    ensures Flat(Part(fn, splits, d.functions[fn], g)) != [] <==> Part(fn, splits, d.functions[fn], g) != []
  {
    RunsOfMakeUpBlocks(fn, splits, d.functions[fn]);
    SelectedIsUniform(fn, splits, RunsOf(fn, splits, d.functions[fn]), g);
  }

  lemma {:induction false} SelectedIsUniform(fn: Address, splits: seq<Address>, rs: seq<Block>, g: Address)
    requires AllUniform(fn, splits, rs)
    ensures Flat(Select(fn, splits, rs, g)) != [] <==> Select(fn, splits, rs, g) != []
  {
    if rs != [] {
      var before, last := rs[..|rs| - 1], rs[|rs| - 1];
      SelectedIsUniform(fn, splits, before, g);
      assert last in rs && last != [];
      FlatSnoc(Select(fn, splits, before, g), last);
      assert Select(fn, splits, before, g) + [] == Select(fn, splits, before, g);
    }
  }

  lemma DropNone(d: Result)
    ensures WithoutFallThrough(d, []) == d
  {
    assert WithoutFallThrough(d, []).codeRefs == d.codeRefs;
  }

  lemma DropMore(d: Result, splits: seq<Address>, p: Address)
    ensures WithoutFallThrough(d, splits + [p]) == WithoutFallThrough(WithoutFallThrough(d, splits), [p])
  {
    var e := WithoutFallThrough(d, splits);
    forall r
      ensures FallsInto(d, splits + [p], r) <==> FallsInto(d, splits, r) || FallsInto(e, [p], r)
    {
      assert r.1 in splits + [p] <==> r.1 in splits || r.1 in [p];
    }
    assert WithoutFallThrough(d, splits + [p]).codeRefs == WithoutFallThrough(e, [p]).codeRefs;
  }

  ghost predicate StoredAs(e: Result, g: Address, blocks: seq<Block>) {
    && g in e.functions && e.functions[g] == blocks && g in e.symbols
    && Flat(blocks) != [] && g in e.borders && e.borders[g] == (Lowest(Flat(blocks)), Highest(Flat(blocks)))
  }

  ghost predicate SameFunction(d: Result, e: Result, g: Address) {
    && (g in e.functions <==> g in d.functions) && (g in d.functions ==> e.functions[g] == d.functions[g])
    && (g in e.borders <==> g in d.borders) && (g in d.borders ==> e.borders[g] == d.borders[g])
    && (g in e.symbols <==> g in d.symbols)
    && (g in e.leaf <==> g in d.leaf) && (g in e.recursive <==> g in d.recursive) && (g in e.thunk <==> g in d.thunk)
  }

  lemma {:induction false} AssignedFunction(d: Result, d0: Result, look: Lookup, fn: Address, splits: seq<Address>,
      segments: seq<Address>, g: Address)
    requires fn in d0.functions && NoDuplicates(segments) && Full(d0, fn, splits, segments)
    ensures var e := AssignAll(d, look, fn, splits, d0.functions[fn], segments);
      && e.instructions == d.instructions
      && (if g in segments then StoredAs(e, g, Part(fn, splits, d0.functions[fn], g)) else SameFunction(d, e, g))
  {
    if segments != [] {
      var before, last := segments[..|segments| - 1], segments[|segments| - 1];
      assert segments == before + [last];
      AssignedFunction(d, d0, look, fn, splits, before, g);
      assert Flat(Part(fn, splits, d0.functions[fn], last)) != [];
    }
  }

  /** After one segment is stored its bytes are its own, and all others are as before. */
  lemma OwnerAfterAssign(d: Result, look: Lookup, g: Address, blocks: seq<Block>, b: Address)
    ensures var e := Assign(d, look, g, blocks);
      if b in BytesOf(Flat(blocks)) then b in e.ins2fn && e.ins2fn[b] == g else SameOwner(d, e, b)
  {
    assert Flat(blocks) == [] ==> b !in BytesOf(Flat(blocks));
  }

  ghost predicate SameOwner(d: Result, e: Result, b: Address) {
    (b in e.ins2fn <==> b in d.ins2fn) && (b in d.ins2fn ==> e.ins2fn[b] == d.ins2fn[b])
  }

  /** No segment but g has an instruction over the byte. */
  ghost predicate OnlyIn(d: Result, fn: Address, splits: seq<Address>, segments: seq<Address>, b: Address, g: Address)
    requires fn in d.functions
  {
    forall i :: 0 <= i < |segments| && segments[i] != g ==> b !in PartBytes(d, fn, splits, segments[i])
  }

  lemma {:induction false} AssignedOwner(d: Result, d0: Result, look: Lookup, fn: Address, splits: seq<Address>,
      segments: seq<Address>, b: Address, g: Address)
    requires fn in d0.functions && OnlyIn(d0, fn, splits, segments, b, g)
    ensures var e := AssignAll(d, look, fn, splits, d0.functions[fn], segments);
      if g in segments && b in PartBytes(d0, fn, splits, g)
      then b in e.ins2fn && e.ins2fn[b] == g else SameOwner(d, e, b)
  {
    if segments != [] {
      var before, last := segments[..|segments| - 1], segments[|segments| - 1];
      assert segments == before + [last];
      AssignedOwner(d, d0, look, fn, splits, before, b, g);
      var blocks := d0.functions[fn];
      OwnerAfterAssign(AssignAll(d, look, fn, splits, blocks, before), look, last, Part(fn, splits, blocks, last), b);
    }
  }

  // ----- the parts of an owned function

  lemma PartMembers(d: Result, fn: Address, splits: seq<Address>, g: Address, x: Instruction)
    requires fn in d.functions
    ensures x in Flat(Part(fn, splits, d.functions[fn], g))
      <==> x in Body(d, fn) && Segment(fn, splits, x.address) == g
  {
    PartsConserveInstructions(fn, splits, d.functions[fn], g);
    KeepMembers(fn, splits, Body(d, fn), g, x);
  }

  /** Instructions of different segments share no byte if none reaches across a split point. */
  lemma SegmentsApart(d: Result, fn: Address, splits: seq<Address>, x: Instruction, y: Instruction, b: Address)
    requires Splittable(d, fn, splits) && NoneAcross(d, fn, splits)
    requires x in Body(d, fn) && y in Body(d, fn) && Spans(x, b) && Spans(y, b)
    ensures Segment(fn, splits, x.address) == Segment(fn, splits, y.address)
  {
    SegmentIsGreatest(fn, splits, x.address);
    SegmentIsGreatest(fn, splits, y.address);
  }

  /** Every segment gets something: the entry, or the instruction at its split point. */
  lemma SplitIsFull(d: Result, fn: Address, splits: seq<Address>)
    requires Owned(d) && Splittable(d, fn, splits)
    ensures Full(d, fn, splits, [fn] + splits)
  {
    forall g | g in [fn] + splits
      ensures Flat(Part(fn, splits, d.functions[fn], g)) != []
    {
      var x := SegmentEntry(d, fn, splits, g);
    }
  }

  lemma SegmentEntry(d: Result, fn: Address, splits: seq<Address>, g: Address) returns (x: Instruction)
    requires Owned(d) && Splittable(d, fn, splits) && g in [fn] + splits
    ensures x in Flat(Part(fn, splits, d.functions[fn], g)) && x.address == g
  {
    assert Bordered(d, fn);
    x :| x in Body(d, fn) && x.address == g;
    SegmentIsGreatest(fn, splits, g);
    PartMembers(d, fn, splits, g, x);
  }

  lemma SegmentsAreDistinct(d: Result, fn: Address, splits: seq<Address>)
    requires Splittable(d, fn, splits)
    ensures NoDuplicates([fn] + splits)
  {
    var all := [fn] + splits;
    forall i, j | 0 <= i < j < |all|
      ensures all[i] != all[j]
    {
      var p := all[j];
      assert p == splits[j - 1] && p in splits;
    }
  }

  /** A split point had no function of its own. */
  lemma SplitIsNew(d: Result, fn: Address, splits: seq<Address>, p: Address)
    requires Owned(d) && Splittable(d, fn, splits) && p in splits
    ensures p !in d.functions
  {
    OwnEntry(d, p);
    var x :| x in Body(d, fn) && x.address == p;
    assert Claimed(d, fn, x) && Spans(x, p);
  }

  lemma ByteAfter(d: Result, look: Lookup, fn: Address, splits: seq<Address>, b: Address, x: Instruction)
    requires Splittable(d, fn, splits) && NoneAcross(d, fn, splits) && x in Body(d, fn) && Spans(x, b)
    ensures var e := Split(d, look, fn, splits);
      b in e.ins2fn && e.ins2fn[b] == Segment(fn, splits, x.address)
  {
    var segments, g := [fn] + splits, Segment(fn, splits, x.address);
    SegmentIsGreatest(fn, splits, x.address);
    PartMembers(d, fn, splits, g, x);
    forall i | 0 <= i < |segments| && segments[i] != g
      ensures b !in PartBytes(d, fn, splits, segments[i])
    {
      if b in PartBytes(d, fn, splits, segments[i]) {
        var y :| y in Flat(Part(fn, splits, d.functions[fn], segments[i])) && Spans(y, b);
        PartMembers(d, fn, splits, segments[i], y);
        SegmentsApart(d, fn, splits, x, y, b);
        assert false;
      }
    }
    AssignedOwner(Unflagged(d, fn), d, look, fn, splits, segments, b, g);
  }

  lemma ByteElsewhere(d: Result, look: Lookup, fn: Address, splits: seq<Address>, b: Address)
    requires Splittable(d, fn, splits) && b !in BytesOf(Body(d, fn))
    ensures SameOwner(d, Split(d, look, fn, splits), b)
  {
    var segments := [fn] + splits;
    forall g
      ensures b !in PartBytes(d, fn, splits, g)
    {
      if y :| y in Flat(Part(fn, splits, d.functions[fn], g)) && Spans(y, b) {
        PartMembers(d, fn, splits, g, y);
        assert false;
      }
    }
    AssignedOwner(Unflagged(d, fn), d, look, fn, splits, segments, b, fn);
  }

  lemma FunctionAfter(d: Result, look: Lookup, fn: Address, splits: seq<Address>, g: Address)
    requires Owned(d) && Splittable(d, fn, splits)
    ensures var e := Split(d, look, fn, splits);
      && e.instructions == d.instructions
      && if g in [fn] + splits then StoredAs(e, g, Part(fn, splits, d.functions[fn], g))
         else SameFunction(Unflagged(d, fn), e, g)
  {
    SegmentsAreDistinct(d, fn, splits);
    SplitIsFull(d, fn, splits);
    AssignedFunction(Unflagged(d, fn), d, look, fn, splits, [fn] + splits, g);
  }

  lemma ClaimedAfterSplit(d: Result, look: Lookup, fn: Address, splits: seq<Address>, g: Address, x: Instruction)
    requires Owned(d) && Splittable(d, fn, splits) && NoneAcross(d, fn, splits)
    requires x in Body(Split(d, look, fn, splits), g)
    ensures Claimed(Split(d, look, fn, splits), g, x)
  {
    FunctionAfter(d, look, fn, splits, g);
    if g in [fn] + splits {
      PartMembers(d, fn, splits, g, x);
      assert Claimed(d, fn, x);
      forall b | Spans(x, b)
        ensures b in Split(d, look, fn, splits).ins2fn && Split(d, look, fn, splits).ins2fn[b] == g
      {
        ByteAfter(d, look, fn, splits, b, x);
      }
    } else {
      assert Claimed(d, g, x);
      OwnerOfBytes(d, fn);
      forall b | Spans(x, b)
        ensures b in Split(d, look, fn, splits).ins2fn && Split(d, look, fn, splits).ins2fn[b] == g
      {
        ByteElsewhere(d, look, fn, splits, b);
      }
    }
  }

  /** An instruction of the function is in the part of its segment; one of another function stays where it was. */
  lemma BodyAfterSplit(d: Result, look: Lookup, fn: Address, splits: seq<Address>, f: Address, x: Instruction)
    requires Owned(d) && Splittable(d, fn, splits) && x in Body(d, f)
    ensures x in Body(Split(d, look, fn, splits), if f == fn then Segment(fn, splits, x.address) else f)
  {
    if f == fn {
      var g := Segment(fn, splits, x.address);
      SegmentIsGreatest(fn, splits, x.address);
      PartMembers(d, fn, splits, g, x);
      FunctionAfter(d, look, fn, splits, g);
    } else {
      if f in splits {
        SplitIsNew(d, fn, splits, f);
        assert false;
      }
      FunctionAfter(d, look, fn, splits, f);
    }
  }

  lemma JustifiedAfterSplit(d: Result, look: Lookup, fn: Address, splits: seq<Address>, b: Address)
    requires Owned(d) && Splittable(d, fn, splits) && NoneAcross(d, fn, splits)
    requires b in Split(d, look, fn, splits).ins2fn
    ensures Justified(Split(d, look, fn, splits), b)
  {
    if b in BytesOf(Body(d, fn)) {
      var x :| x in Body(d, fn) && Spans(x, b);
      ByteAfter(d, look, fn, splits, b, x);
      BodyAfterSplit(d, look, fn, splits, fn, x);
    } else {
      ByteElsewhere(d, look, fn, splits, b);
      assert Justified(d, b);
      var x :| x in Body(d, d.ins2fn[b]) && Spans(x, b);
      BodyAfterSplit(d, look, fn, splits, d.ins2fn[b], x);
    }
  }

  lemma BegunAfterSplit(d: Result, look: Lookup, fn: Address, splits: seq<Address>, a: Address)
    requires Owned(d) && Splittable(d, fn, splits) && NoneAcross(d, fn, splits) && a in d.instructions
    ensures Begun(Split(d, look, fn, splits), a)
  {
    assert Begun(d, a);
    var f := d.ins2fn[a];
    var x :| x in Body(d, f) && x.address == a;
    assert Claimed(d, f, x) && Spans(x, a);
    BodyAfterSplit(d, look, fn, splits, f, x);
    if f == fn {
      ByteAfter(d, look, fn, splits, a, x);
    } else {
      OwnerOfBytes(d, fn);
      ByteElsewhere(d, look, fn, splits, a);
    }
  }

  lemma BorderedAfterSplit(d: Result, look: Lookup, fn: Address, splits: seq<Address>, g: Address)
    requires Owned(d) && Splittable(d, fn, splits) && g in Split(d, look, fn, splits).functions
    ensures Bordered(Split(d, look, fn, splits), g)
  {
    FunctionAfter(d, look, fn, splits, g);
    if g in [fn] + splits {
      var x := SegmentEntry(d, fn, splits, g);
    } else {
      assert Bordered(d, g);
    }
  }

  lemma AllClaimedAfterSplit(d: Result, look: Lookup, fn: Address, splits: seq<Address>)
    requires Owned(d) && Splittable(d, fn, splits) && NoneAcross(d, fn, splits)
    ensures AllClaimed(Split(d, look, fn, splits))
  {
    var e := Split(d, look, fn, splits);
    forall g, x | x in Body(e, g)
      ensures Claimed(e, g, x)
    {
      ClaimedAfterSplit(d, look, fn, splits, g, x);
    }
  }

  lemma AllJustifiedAfterSplit(d: Result, look: Lookup, fn: Address, splits: seq<Address>)
    requires Owned(d) && Splittable(d, fn, splits) && NoneAcross(d, fn, splits)
    ensures AllJustified(Split(d, look, fn, splits))
  {
    var e := Split(d, look, fn, splits);
    forall b | b in e.ins2fn
      ensures Justified(e, b)
    {
      JustifiedAfterSplit(d, look, fn, splits, b);
    }
  }

  lemma AllBegunAfterSplit(d: Result, look: Lookup, fn: Address, splits: seq<Address>)
    requires Owned(d) && Splittable(d, fn, splits) && NoneAcross(d, fn, splits)
    ensures AllBegun(Split(d, look, fn, splits))
  {
    var e := Split(d, look, fn, splits);
    FunctionAfter(d, look, fn, splits, fn);
    forall a | a in e.instructions
      ensures Begun(e, a)
    {
      BegunAfterSplit(d, look, fn, splits, a);
    }
  }

  lemma AllBorderedAfterSplit(d: Result, look: Lookup, fn: Address, splits: seq<Address>)
    requires Owned(d) && Splittable(d, fn, splits)
    ensures AllBordered(Split(d, look, fn, splits)) && NothingElse(Split(d, look, fn, splits))
  {
    var e := Split(d, look, fn, splits);
    forall g | g in e.functions
      ensures Bordered(e, g)
    {
      BorderedAfterSplit(d, look, fn, splits, g);
    }
    forall g | g in e.borders || g in e.symbols || g in e.recursive || g in e.leaf || g in e.thunk
      ensures g in e.functions
    {
      FunctionAfter(d, look, fn, splits, g);
    }
  }

  /** Splitting keeps the owner map exact, and so functions disjoint and borders exact, exactly when no instruction
      of the function reaches across a split point. */
  lemma SplitKeepsOwnership(d: Result, look: Lookup, fn: Address, splits: seq<Address>)
    requires Owned(d) && Splittable(d, fn, splits)
    ensures Owned(Split(d, look, fn, splits)) <==> NoneAcross(d, fn, splits)
  {
    if NoneAcross(d, fn, splits) {
      AllClaimedAfterSplit(d, look, fn, splits);
      AllJustifiedAfterSplit(d, look, fn, splits);
      AllBegunAfterSplit(d, look, fn, splits);
      AllBorderedAfterSplit(d, look, fn, splits);
    } else {
      var x, p :| x in Body(d, fn) && p in splits && x.address < p < x.End();
      AcrossIsTorn(d, look, fn, splits, x, p);
    }
  }

  lemma AcrossIsTorn(d: Result, look: Lookup, fn: Address, splits: seq<Address>, x: Instruction, p: Address)
    requires Owned(d) && Splittable(d, fn, splits) && x in Body(d, fn) && p in splits && x.address < p < x.End()
    ensures !Owned(Split(d, look, fn, splits))
  {
    var e, g := Split(d, look, fn, splits), Segment(fn, splits, x.address);
    SegmentIsGreatest(fn, splits, x.address);
    BodyAfterSplit(d, look, fn, splits, fn, x);
    var y := SegmentEntry(d, fn, splits, p);
    FunctionAfter(d, look, fn, splits, p);
    if AllClaimed(e) {
      assert Claimed(e, g, x) && Spans(x, p);
      assert Claimed(e, p, y) && Spans(y, p);
      assert false;
    }
  }
}
