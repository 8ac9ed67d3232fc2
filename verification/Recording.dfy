/** What a finished function adds to the result, what undoing it takes away, and who owns which byte. */
module Recording {
  import opened AddressReferences
  import opened Collections
  import opened Disassembly

  /** The part of a function's analysis that reaches the result. */
  datatype Findings = Findings(
    start: Address,
    symbol: string,
    instructions: seq<Instruction>,
    blocks: seq<Block>,
    codeRefs: set<(Address, Address)>,
    dataRefs: set<(Address, Address)>,
    dataBytes: set<Address>,
    recursive: bool,
    leaf: bool,
    thunk: bool)

  function Lowest(xs: seq<Instruction>): Address
    requires xs != []
  {
    var last := xs[|xs| - 1].address;
    if |xs| == 1 then last else
      var low := Lowest(xs[..|xs| - 1]);
      if last < low then last else low
  }

  function Highest(xs: seq<Instruction>): Address
    requires xs != []
  {
    var last := xs[|xs| - 1].End();
    if |xs| == 1 then last else
      var high := Highest(xs[..|xs| - 1]);
      if last > high then last else high
  }

  function Shapes(m: map<Address, Shape>, xs: seq<Instruction>): map<Address, Shape> {
    if xs == [] then m else
      var x := xs[|xs| - 1];
      Shapes(m, xs[..|xs| - 1])[x.address := Shape(x.mnemonic, x.size)]
  }

  ghost function Finalized(d: Result, f: Findings): Result
    requires f.instructions != []
  {
    d.(symbols := d.symbols[f.start := f.symbol],
       instructions := Shapes(d.instructions, f.instructions),
       ins2fn := Claim(d.ins2fn, f.instructions, f.start),
       borders := d.borders[f.start := (Lowest(f.instructions), Highest(f.instructions))],
       dataMap := d.dataMap + f.dataBytes,
       functions := d.functions[f.start := f.blocks],
       codeRefs := d.codeRefs + f.codeRefs,
       dataRefs := d.dataRefs + f.dataRefs,
       recursive := if f.recursive then d.recursive + {f.start} else d.recursive,
       leaf := if f.leaf then d.leaf + {f.start} else d.leaf,
       thunk := if f.thunk then d.thunk + {f.start} else d.thunk)
  }

  ghost function Reverted(d: Result, f: Findings): Result {
    d.(borders := d.borders - {f.start},
       symbols := d.symbols - {f.start},
       recursive := d.recursive - {f.start},
       leaf := d.leaf - {f.start},
       thunk := d.thunk - {f.start},
       instructions := d.instructions - AddressesOf(f.instructions),
       ins2fn := d.ins2fn - BytesOf(f.instructions),
       codeRefs := d.codeRefs - f.codeRefs,
       dataRefs := d.dataRefs - f.dataRefs,
       functions := d.functions - {f.start})
  }

  /** What recording a function changes, for any function g, byte b and reference r: its marks and references are added,
      its bytes become its own, and its borders are the least and the greatest address its instructions take up. */
  lemma FinalizedInPlainTerms(d: Result, f: Findings, g: Address, b: Address, r: (Address, Address))
    requires f.instructions != []
    ensures var e := Finalized(d, f);
      && (g in e.recursive <==> g in d.recursive || (f.recursive && g == f.start))
      && (g in e.leaf <==> g in d.leaf || (f.leaf && g == f.start))
      && (g in e.thunk <==> g in d.thunk || (f.thunk && g == f.start))
      && (g in e.functions <==> g in d.functions || g == f.start)
      && (g in e.functions ==> e.functions[g] == if g == f.start then f.blocks else d.functions[g])
      && (r in e.codeRefs <==> r in d.codeRefs || r in f.codeRefs)
      && (r in e.dataRefs <==> r in d.dataRefs || r in f.dataRefs)
      && (b in e.dataMap <==> b in d.dataMap || b in f.dataBytes)
      && (b in e.ins2fn <==> b in d.ins2fn || exists x :: x in f.instructions && Spans(x, b))
      && (b in e.ins2fn ==> e.ins2fn[b] == if exists x :: x in f.instructions && Spans(x, b) then f.start
                                           else d.ins2fn[b])
  {
    assert b in BytesOf(f.instructions) <==> exists x :: x in f.instructions && Spans(x, b);
  }

  // ----- undoing a function

  /** Nothing of the function is in the result yet. */
  ghost predicate Absent(d: Result, f: Findings) {
    && f.start !in d.functions && f.start !in d.borders && f.start !in d.symbols
    && f.start !in d.recursive && f.start !in d.leaf && f.start !in d.thunk
    && AddressesOf(f.instructions) !! d.instructions.Keys
    && BytesOf(f.instructions) !! d.ins2fn.Keys
    && f.codeRefs !! d.codeRefs
    && f.dataRefs !! d.dataRefs
  }

  lemma ExtendsOnce<K, V>(m: map<K, V>, n: map<K, V>, ks: set<K>, k: K, v: V)
    requires Extends(m, n, ks)
    ensures Extends(m, n[k := v], ks + {k})
  {
  }

  lemma {:induction false} ShapesExtend(m: map<Address, Shape>, xs: seq<Instruction>)
    ensures Extends(m, Shapes(m, xs), AddressesOf(xs))
  {
    if xs == [] {
      assert AddressesOf(xs) == {};
      assert Extends(m, m, {});
    } else {
      var x := xs[|xs| - 1];
      var before := xs[..|xs| - 1];
      ShapesExtend(m, before);
      ExtendsOnce(m, Shapes(m, before), AddressesOf(before), x.address, Shape(x.mnemonic, x.size));
      assert xs == before + [x];
      assert AddressesOf(xs) == AddressesOf(before) + {x.address};
    }
  }

  lemma PutAndTake<K, V>(m: map<K, V>, k: K, v: V)
    ensures m[k := v] - {k} == m <==> k !in m
  {
  }

  lemma AddAndDrop<T>(s: set<T>, x: T)
    ensures s + {x} - {x} == s <==> x !in s
    ensures s - {x} == s <==> x !in s
  {
  }

  lemma JoinAndDrop<T>(s: set<T>, t: set<T>)
    ensures s + t - t == s <==> t !! s
  {
    if t * s != {} {
      var x := Member(t * s);
      assert x in s && x !in s + t - t;
    }
  }

  lemma TakeBack<K, V>(m: map<K, V>, n: map<K, V>, ks: set<K>)
    requires Extends(m, n, ks)
    ensures n - ks == m <==> ks !! m.Keys
  {
    if ks * m.Keys != {} {
      var k := Member(ks * m.Keys);
      assert k in m && k !in n - ks;
    }
  }

  /** Undoing a function right after it was recorded restores the result, but for the data map, exactly when nothing
      of the function had been there before. */
  lemma RevertUndoesFinalize(d: Result, f: Findings)
    requires f.instructions != []
    ensures Reverted(Finalized(d, f), f) == d.(dataMap := d.dataMap + f.dataBytes) <==> Absent(d, f)
  {
    ShapesExtend(d.instructions, f.instructions);
    TakeBack(d.instructions, Shapes(d.instructions, f.instructions), AddressesOf(f.instructions));
    TakeBack(d.ins2fn, Claim(d.ins2fn, f.instructions, f.start), BytesOf(f.instructions));
    PutAndTake(d.symbols, f.start, f.symbol);
    PutAndTake(d.borders, f.start, (Lowest(f.instructions), Highest(f.instructions)));
    PutAndTake(d.functions, f.start, f.blocks);
    JoinAndDrop(d.codeRefs, f.codeRefs);
    JoinAndDrop(d.dataRefs, f.dataRefs);
    AddAndDrop(d.recursive, f.start);
    AddAndDrop(d.leaf, f.start);
    AddAndDrop(d.thunk, f.start);
  }

  // ----- ownership

  /** The instructions stored for a function. */
  ghost function Body(d: Result, f: Address): seq<Instruction> {
    if f in d.functions then Flat(d.functions[f]) else []
  }

  /** Every byte of a stored instruction belongs to the function that stores it, and its address is known. */
  ghost predicate Claimed(d: Result, f: Address, x: Instruction) {
    && x.size > 0
    && x.address in d.instructions && d.instructions[x.address] == Shape(x.mnemonic, x.size)
    && forall b :: Spans(x, b) ==> b in d.ins2fn && d.ins2fn[b] == f
  }

  /** Some stored instruction of the owner covers the byte. */
  ghost predicate Justified(d: Result, b: Address)
    requires b in d.ins2fn
  {
    exists x :: x in Body(d, d.ins2fn[b]) && Spans(x, b)
  }

  /** Some stored instruction begins there. */
  ghost predicate Begun(d: Result, a: Address) {
    a in d.ins2fn && exists x :: x in Body(d, d.ins2fn[a]) && x.address == a
  }

  ghost predicate Bordered(d: Result, f: Address) {
    && f in d.borders && f in d.symbols
    && Body(d, f) != []
    && d.borders[f] == (Lowest(Body(d, f)), Highest(Body(d, f)))
    && f in AddressesOf(Body(d, f))
  }

  /** The owner map is exactly the map from the bytes of stored instructions to their functions, the address map
      holds exactly the stored instructions, and every function has its extent as its borders and an instruction at
      its start. */
  ghost predicate Owned(d: Result) {
    AllClaimed(d) && AllJustified(d) && AllBegun(d) && AllBordered(d) && NothingElse(d)
  }

  ghost predicate AllClaimed(d: Result) {
    forall f, x {:trigger Claimed(d, f, x)} :: x in Body(d, f) ==> Claimed(d, f, x)
  }

  ghost predicate AllJustified(d: Result) {
    forall b {:trigger Justified(d, b)} :: b in d.ins2fn ==> Justified(d, b)
  }

  ghost predicate AllBegun(d: Result) {
    forall a {:trigger Begun(d, a)} :: a in d.instructions ==> Begun(d, a)
  }

  ghost predicate AllBordered(d: Result) {
    forall f {:trigger Bordered(d, f)} :: f in d.functions ==> Bordered(d, f)
  }

  ghost predicate NothingElse(d: Result) {
    forall f :: f in d.borders || f in d.symbols || f in d.recursive || f in d.leaf || f in d.thunk ==> f in d.functions
  }

  lemma OwnerOfBytes(d: Result, f: Address)
    requires AllClaimed(d)
    ensures forall b :: b in BytesOf(Body(d, f)) ==> b in d.ins2fn && d.ins2fn[b] == f
  {
    forall b | b in BytesOf(Body(d, f))
      ensures b in d.ins2fn && d.ins2fn[b] == f
    {
      var x :| x in Body(d, f) && Spans(x, b);
      assert Claimed(d, f, x);
    }
  }

  /** Two functions share no byte. */
  lemma FunctionsAreDisjoint(d: Result, f: Address, g: Address)
    requires AllClaimed(d) && f != g
    ensures BytesOf(Body(d, f)) !! BytesOf(Body(d, g))
  {
    OwnerOfBytes(d, f);
    OwnerOfBytes(d, g);
  }

  /** The extent of instructions holds all of them, and is no larger than that. */
  lemma {:induction false} ExtentHolds(xs: seq<Instruction>)
    requires xs != []
    ensures forall x :: x in xs ==> Lowest(xs) <= x.address && x.End() <= Highest(xs)
    ensures exists x :: x in xs && x.address == Lowest(xs)
    ensures exists x :: x in xs && x.End() == Highest(xs)
  {
    if |xs| > 1 {
      ExtentHolds(xs[..|xs| - 1]);
    }
  }

  /** An owned byte lies between the borders of its function. */
  lemma BordersEnclose(d: Result, b: Address)
    requires Owned(d) && b in d.ins2fn
    ensures var f := d.ins2fn[b];
      && f in d.functions && f in d.borders
      && d.borders[f].0 <= b < d.borders[f].1
      && f in d.ins2fn && d.ins2fn[f] == f
  {
    var f := d.ins2fn[b];
    assert Justified(d, b);
    assert Bordered(d, f);
    ExtentHolds(Body(d, f));
    OwnEntry(d, f);
  }

  // ----- recording keeps ownership

  lemma SameExtent(p: seq<Instruction>, q: seq<Instruction>)
    requires SameMembers(p, q) && p != [] && q != []
    ensures Lowest(p) == Lowest(q) && Highest(p) == Highest(q)
  {
    ExtentHolds(p);
    ExtentHolds(q);
  }

  /** One instruction at an address. */
  ghost predicate Distinct(xs: seq<Instruction>) {
    forall x, y :: x in xs && y in xs && x.address == y.address ==> x == y
  }

  lemma {:induction false} ShapesHold(m: map<Address, Shape>, xs: seq<Instruction>, x: Instruction)
    requires Distinct(xs) && x in xs
    ensures x.address in Shapes(m, xs) && Shapes(m, xs)[x.address] == Shape(x.mnemonic, x.size)
  {
    var last := xs[|xs| - 1];
    if x.address != last.address {
      ShapesHold(m, xs[..|xs| - 1], x);
    }
  }

  lemma OwnEntry(d: Result, f: Address)
    requires AllBordered(d) && AllClaimed(d)
    ensures f in d.functions ==> f in d.ins2fn && d.ins2fn[f] == f
  {
    if f in d.functions {
      assert Bordered(d, f);
      var y :| y in Body(d, f) && y.address == f;
      assert Claimed(d, f, y) && Spans(y, f);
    }
  }

  /** A function is ready to be recorded: its instructions are new to the result, one of them is at its start, and
      its blocks hold all of them. */
  ghost predicate Ready(d: Result, f: Findings) {
    && f.instructions != [] && Distinct(f.instructions)
    && (forall x :: x in f.instructions ==> x.size > 0)
    && BytesOf(f.instructions) !! d.ins2fn.Keys
    && f.start in AddressesOf(f.instructions)
    && SameMembers(Flat(f.blocks), f.instructions)
  }

  lemma ReadyStartIsNew(d: Result, f: Findings)
    requires Owned(d) && Ready(d, f)
    ensures f.start in BytesOf(f.instructions) && f.start !in d.functions
  {
    var x :| x in f.instructions && x.address == f.start;
    assert Spans(x, f.start);
    OwnEntry(d, f.start);
  }

  lemma ClaimedAfter(d: Result, f: Findings, g: Address, x: Instruction)
    requires Owned(d) && Ready(d, f) && x in Body(Finalized(d, f), g)
    ensures Claimed(Finalized(d, f), g, x)
  {
    ShapesExtend(d.instructions, f.instructions);
    if g == f.start {
      ShapesHold(d.instructions, f.instructions, x);
    } else {
      assert Claimed(d, g, x) && Spans(x, x.address);
      assert x.address !in AddressesOf(f.instructions) by {
        if y :| y in f.instructions && y.address == x.address {
          assert Spans(y, x.address);
        }
      }
    }
  }

  lemma JustifiedAfter(d: Result, f: Findings, b: Address)
    requires Owned(d) && Ready(d, f) && b in Finalized(d, f).ins2fn
    ensures Justified(Finalized(d, f), b)
  {
    if b in BytesOf(f.instructions) {
      var x :| x in f.instructions && Spans(x, b);
      assert x in Body(Finalized(d, f), f.start);
    } else {
      assert Justified(d, b);
      var x :| x in Body(d, d.ins2fn[b]) && Spans(x, b);
      ReadyStartIsNew(d, f);
    }
  }

  lemma BegunAfter(d: Result, f: Findings, a: Address)
    requires Owned(d) && Ready(d, f) && a in Finalized(d, f).instructions
    ensures Begun(Finalized(d, f), a)
  {
    ShapesExtend(d.instructions, f.instructions);
    if a in AddressesOf(f.instructions) {
      var x :| x in f.instructions && x.address == a;
      assert Spans(x, a);
      assert x in Body(Finalized(d, f), f.start);
    } else {
      assert Begun(d, a);
      ReadyStartIsNew(d, f);
    }
  }

  lemma BorderedAfter(d: Result, f: Findings, g: Address)
    requires Owned(d) && Ready(d, f) && g in Finalized(d, f).functions
    ensures Bordered(Finalized(d, f), g)
  {
    var e := Finalized(d, f);
    if g == f.start {
      assert f.instructions[0] in Body(e, g);
      SameExtent(Body(e, g), f.instructions);
    } else {
      assert Bordered(d, g) && Body(e, g) == Body(d, g);
    }
  }

  /** Recording a function that is ready keeps the owner map exact. */
  lemma FinalizeKeepsOwnership(d: Result, f: Findings)
    requires Owned(d) && Ready(d, f)
    ensures Owned(Finalized(d, f))
  {
    var e := Finalized(d, f);
    ReadyStartIsNew(d, f);
    forall g, x | x in Body(e, g)
      ensures Claimed(e, g, x)
    {
      ClaimedAfter(d, f, g, x);
    }
    forall b | b in e.ins2fn
      ensures Justified(e, b)
    {
      JustifiedAfter(d, f, b);
    }
    forall a | a in e.instructions
      ensures Begun(e, a)
    {
      BegunAfter(d, f, a);
    }
    forall g | g in e.functions
      ensures Bordered(e, g)
    {
      BorderedAfter(d, f, g);
    }
    assert NothingElse(e);
  }

  /** What the engine rebuilds of a stored function in order to undo it. */
  ghost predicate Rebuilt(d: Result, f: Findings) {
    f.start in d.functions && f.instructions == Body(d, f.start)
  }

  /** Undoing a stored function keeps the owner map exact: no byte keeps an owner that is gone. */
  lemma RevertKeepsOwnership(d: Result, f: Findings)
    requires Owned(d) && Rebuilt(d, f)
    ensures Owned(Reverted(d, f))
  {
    var e := Reverted(d, f);
    OwnerOfBytes(d, f.start);
    forall g, x | x in Body(e, g)
      ensures Claimed(e, g, x)
    {
      assert Claimed(d, g, x) && Spans(x, x.address);
      AddressesAreBytes(d, f.start);
    }
    forall b | b in e.ins2fn
      ensures Justified(e, b)
    {
      assert Justified(d, b);
      var x :| x in Body(d, d.ins2fn[b]) && Spans(x, b);
      assert Body(e, d.ins2fn[b]) == Body(d, d.ins2fn[b]);
    }
    forall a | a in e.instructions
      ensures Begun(e, a)
    {
      BegunElsewhere(d, f, a);
    }
    forall g | g in e.functions
      ensures Bordered(e, g)
    {
      assert Bordered(d, g) && Body(e, g) == Body(d, g);
    }
  }

  lemma AddressesAreBytes(d: Result, f: Address)
    requires AllClaimed(d)
    ensures AddressesOf(Body(d, f)) <= BytesOf(Body(d, f))
  {
    forall a | a in AddressesOf(Body(d, f))
      ensures a in BytesOf(Body(d, f))
    {
      var x :| x in Body(d, f) && x.address == a;
      assert Claimed(d, f, x) && Spans(x, a);
    }
  }

  lemma BegunElsewhere(d: Result, f: Findings, a: Address)
    requires Owned(d) && Rebuilt(d, f) && a in Reverted(d, f).instructions
    ensures Begun(Reverted(d, f), a)
  {
    OwnerOfBytes(d, f.start);
    assert Begun(d, a);
    var g := d.ins2fn[a];
    var x :| x in Body(d, g) && x.address == a;
    assert g != f.start;
    assert Body(Reverted(d, f), g) == Body(d, g);
  }

  // ----- words

  /** The instruction form of a fixed-width architecture: AArch64. */
  const WIDTH: nat := 4

  ghost predicate Fixed(x: Instruction) {
    x.size == WIDTH && x.address % WIDTH == 0
  }

  lemma WordsAreApart(x: Instruction, y: Instruction, b: Address)
    requires Fixed(x) && Fixed(y) && Spans(x, b) && Spans(y, b)
    ensures x.address == y.address
  {
  }

  ghost predicate AllFixed(xs: seq<Instruction>) {
    forall x :: x in xs ==> Fixed(x)
  }

  /** Ownership, with nothing but words stored. */
  ghost predicate OwnedWords(d: Result) {
    Owned(d) && forall f {:trigger Body(d, f)} :: AllFixed(Body(d, f))
  }

  lemma FinalizeKeepsWords(d: Result, f: Findings)
    requires OwnedWords(d) && Ready(d, f) && AllFixed(f.instructions)
    ensures OwnedWords(Finalized(d, f))
  {
    FinalizeKeepsOwnership(d, f);
    forall g
      ensures AllFixed(Body(Finalized(d, f), g))
    {
      assert AllFixed(Body(d, g));
    }
  }

  lemma RevertKeepsWords(d: Result, f: Findings)
    requires OwnedWords(d) && Rebuilt(d, f)
    ensures OwnedWords(Reverted(d, f))
  {
    RevertKeepsOwnership(d, f);
    forall g
      ensures AllFixed(Body(Reverted(d, f), g))
    {
      assert AllFixed(Body(d, g));
    }
  }

  // ----- what holds even if blocks lose instructions

  /** Every byte of a stored instruction belongs to the function that stores it, only words are stored, and every
      function has an instruction at its start. Unlike exact ownership, this asks nothing of bytes and addresses that
      no stored instruction covers. */
  ghost predicate Safe(d: Result) {
    && AllClaimed(d)
    && (forall f {:trigger Body(d, f)} :: AllFixed(Body(d, f)))
    && (forall f {:trigger Body(d, f)} :: f in d.functions ==> f in AddressesOf(Body(d, f)))
  }

  /** No stored function owns the address of an instruction. */
  ghost predicate Free(d: Result, x: Instruction) {
    x.address in d.ins2fn ==> d.ins2fn[x.address] !in d.functions
  }

  ghost predicate AllFree(d: Result, xs: seq<Instruction>) {
    forall x :: x in xs ==> Free(d, x)
  }

  /** A function whose words no stored function owns, with blocks that hold some of them, the one at its start
      included. */
  ghost predicate Storable(d: Result, f: Findings) {
    && f.instructions != [] && Distinct(f.instructions) && AllFixed(f.instructions) && AllFree(d, f.instructions)
    && (forall x :: x in Flat(f.blocks) ==> x in f.instructions)
    && f.start in AddressesOf(Flat(f.blocks))
  }

  /** A stored word shares no byte with a free one. */
  lemma FreeIsApart(d: Result, g: Address, y: Instruction, x: Instruction, b: Address)
    requires Safe(d) && y in Body(d, g) && Fixed(x) && Free(d, x)
    ensures !(Spans(x, b) && Spans(y, b)) && x.address != y.address
  {
    assert Claimed(d, g, y) && AllFixed(Body(d, g));
    assert Spans(y, y.address);
    if Spans(x, b) && Spans(y, b) {
      WordsAreApart(x, y, b);
      assert false;
    }
  }

  lemma FreeIsNew(d: Result, f: Findings, g: Address, y: Instruction)
    requires Safe(d) && AllFixed(f.instructions) && AllFree(d, f.instructions) && y in Body(d, g)
    ensures y.address !in AddressesOf(f.instructions)
    ensures forall b :: Spans(y, b) ==> b !in BytesOf(f.instructions)
  {
    forall x | x in f.instructions
      ensures x.address != y.address
    {
      FreeIsApart(d, g, y, x, 0);
    }
    forall b | Spans(y, b)
      ensures b !in BytesOf(f.instructions)
    {
      if x :| x in f.instructions && Spans(x, b) {
        FreeIsApart(d, g, y, x, b);
        assert false;
      }
    }
  }

  lemma ClaimedWhenStored(d: Result, f: Findings, g: Address, x: Instruction)
    requires Safe(d) && Storable(d, f) && x in Body(Finalized(d, f), g)
    ensures Claimed(Finalized(d, f), g, x)
  {
    ShapesExtend(d.instructions, f.instructions);
    if g == f.start {
      ShapesHold(d.instructions, f.instructions, x);
    } else {
      assert Claimed(d, g, x);
      FreeIsNew(d, f, g, x);
    }
  }

  /** Recording a function keeps functions apart, whether its blocks hold all of its instructions or not. */
  lemma FinalizeKeepsSafe(d: Result, f: Findings)
    requires Safe(d) && Storable(d, f)
    ensures Safe(Finalized(d, f))
  {
    var e := Finalized(d, f);
    forall g, x | x in Body(e, g)
      ensures Claimed(e, g, x)
    {
      ClaimedWhenStored(d, f, g, x);
    }
    forall g
      ensures AllFixed(Body(e, g)) && (g in e.functions ==> g in AddressesOf(Body(e, g)))
    {
      assert g != f.start ==> Body(e, g) == Body(d, g);
      assert AllFixed(Body(d, g));
    }
  }

  /** Undoing a stored function keeps the others apart. */
  lemma RevertKeepsSafe(d: Result, f: Findings)
    requires Safe(d) && Rebuilt(d, f)
    ensures Safe(Reverted(d, f))
  {
    var e := Reverted(d, f);
    OwnerOfBytes(d, f.start);
    AddressesAreBytes(d, f.start);
    forall g, x | x in Body(e, g)
      ensures Claimed(e, g, x)
    {
      assert Claimed(d, g, x) && Spans(x, x.address);
    }
    forall g
      ensures AllFixed(Body(e, g)) && (g in e.functions ==> g in AddressesOf(Body(e, g)))
    {
      assert g in e.functions ==> Body(e, g) == Body(d, g);
      assert AllFixed(Body(d, g));
    }
  }

  /** With exact ownership a free word has no owner at all. */
  lemma FreeHasNoOwner(d: Result, xs: seq<Instruction>)
    requires OwnedWords(d) && AllFixed(xs) && AllFree(d, xs)
    ensures BytesOf(xs) !! d.ins2fn.Keys
  {
    forall b | b in BytesOf(xs)
      ensures b !in d.ins2fn
    {
      var x :| x in xs && Spans(x, b);
      OwnedWord(d, x, b);
      assert Free(d, x);
      assert b in d.ins2fn ==> Justified(d, b);
    }
  }

  lemma OwnedWord(d: Result, x: Instruction, b: Address)
    requires OwnedWords(d) && Fixed(x) && Spans(x, b)
    ensures b in d.ins2fn ==> x.address in d.ins2fn && d.ins2fn[x.address] == d.ins2fn[b]
  {
    if b in d.ins2fn {
      assert Justified(d, b);
      var y :| y in Body(d, d.ins2fn[b]) && Spans(y, b);
      assert Claimed(d, d.ins2fn[b], y);
      WordsAreApart(x, y, b);
      assert Spans(y, y.address);
    }
  }

  lemma BlockBytesDecide(f: Findings)
    requires Distinct(f.instructions) && AllFixed(f.instructions)
    requires forall x :: x in Flat(f.blocks) ==> x in f.instructions
    ensures BytesOf(f.instructions) <= BytesOf(Flat(f.blocks)) <==> SameMembers(Flat(f.blocks), f.instructions)
  {
    if BytesOf(f.instructions) <= BytesOf(Flat(f.blocks)) {
      forall x | x in f.instructions
        ensures x in Flat(f.blocks)
      {
        assert Spans(x, x.address);
        assert x.address in BytesOf(f.instructions);
        var y :| y in Flat(f.blocks) && Spans(y, x.address);
        WordsAreApart(x, y, x.address);
      }
    } else {
      assert exists b :: b in BytesOf(f.instructions) && b !in BytesOf(Flat(f.blocks));
    }
  }

  /** Undoing a stored function from its blocks alone gives every byte back exactly when the blocks held every
      instruction that was booked: an instruction in no block leaves stale owners behind. */
  lemma StaleOwners(d: Result, f: Findings, stored: Findings)
    requires f.instructions != [] && Distinct(f.instructions)
    requires AllFixed(f.instructions)
    requires forall x :: x in Flat(f.blocks) ==> x in f.instructions
    requires BytesOf(f.instructions) !! d.ins2fn.Keys
    requires Rebuilt(Finalized(d, f), stored) && stored.start == f.start
    ensures Reverted(Finalized(d, f), stored).ins2fn == d.ins2fn <==> SameMembers(Flat(f.blocks), f.instructions)
  {
    BlockBytesDecide(f);
    assert BytesOf(Flat(f.blocks)) <= BytesOf(f.instructions);
    TakeBackSome(d.ins2fn, BytesOf(f.instructions), BytesOf(Flat(f.blocks)), f.start);
  }

  lemma TakeBackSome<K, V>(m: map<K, V>, put: set<K>, taken: set<K>, v: V)
    requires put !! m.Keys && taken <= put
    ensures Overlay(m, put, v) - taken == m <==> put <= taken
  {
    if put - taken != {} {
      var k := Member(put - taken);
      assert k in Overlay(m, put, v) - taken && k !in m;
    } else {
      assert forall k :: k in put ==> k in taken || k in put - taken;
      assert Overlay(m, put, v) - taken == m;
    }
  }
}
