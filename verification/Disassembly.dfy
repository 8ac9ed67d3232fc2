/** The result of a disassembly, to which functions are added and from which they are taken back. */
module Disassembly {
  import opened AddressReferences
  import opened Collections

  datatype Instruction = Instruction(address: Address, size: nat, mnemonic: string, operands: string) {
    function End(): Address {
      address + size
    }
  }

  predicate Between(b: Address, lo: Address, hi: Address) {
    lo <= b < hi
  }

  function Interval(lo: Address, hi: Address): set<Address> {
    set b | lo <= b < hi && Between(b, lo, hi)
  }

  /** What the address map keeps of an instruction. */
  datatype Shape = Shape(mnemonic: string, size: nat)

  type Block = seq<Instruction>

  /** The bytes an instruction covers. */
  predicate Spans(x: Instruction, b: Address) {
    x.address <= b < x.End()
  }

  function BytesOf(xs: seq<Instruction>): set<Address> {
    set x, b | x in xs && x.address <= b < x.End() && Spans(x, b) :: b
  }

  ghost function AddressesOf(xs: seq<Instruction>): set<Address> {
    set x | x in xs :: x.address
  }

  lemma PrefixSets(xs: seq<Instruction>, x: Instruction)
    ensures AddressesOf(xs + [x]) == AddressesOf(xs) + {x.address}
    ensures BytesOf(xs + [x]) == BytesOf(xs) + BytesOf([x])
  {
    assert forall y :: y in xs + [x] <==> y in xs || y in [x];
  }

  /** `n` is `m` but for values given to the keys `ks`. */
  ghost predicate Extends<K, V>(m: map<K, V>, n: map<K, V>, ks: set<K>) {
    n.Keys == m.Keys + ks && forall k :: k in m && k !in ks ==> n[k] == m[k]
  }

  ghost function Overlay<K, V>(m: map<K, V>, ks: set<K>, v: V): (n: map<K, V>)
    ensures Extends(m, n, ks)
    ensures forall k :: k in ks ==> n[k] == v
  {
    m + map k | k in ks :: v
  }

  ghost function Claim(owners: map<Address, Address>, xs: seq<Instruction>, start: Address): map<Address, Address> {
    Overlay(owners, BytesOf(xs), start)
  }

  lemma BytesOfOne(x: Instruction, s: set<Address>)
    requires forall c :: c in s <==> x.address <= c < x.End()
    ensures s == BytesOf([x])
  {
    assert x in [x];
    forall c | c in s
      ensures c in BytesOf([x])
    {
      assert Spans(x, c);
    }
    assert forall c :: c in BytesOf([x]) ==> c in s;
  }

  lemma ClaimNothing(owners: map<Address, Address>, start: Address)
    ensures Claim(owners, [], start) == owners
  {
    assert BytesOf([]) == {};
    OverlayNothing(owners, start);
  }

  lemma ClaimOne(owners: map<Address, Address>, xs: seq<Instruction>, x: Instruction, start: Address)
    ensures Claim(owners, xs + [x], start) == Claim(Claim(owners, xs, start), [x], start)
  {
    assert BytesOf(xs + [x]) == BytesOf(xs) + BytesOf([x]) by {
      assert forall y :: y in xs + [x] <==> y in xs || y in [x];
    }
    OverlayTwice(owners, BytesOf(xs), BytesOf([x]), start);
  }

  lemma OverlayNothing<K, V>(m: map<K, V>, v: V)
    ensures Overlay(m, {}, v) == m
  {
  }

  lemma OverlayTwice<K, V>(m: map<K, V>, p: set<K>, q: set<K>, v: V)
    ensures Overlay(m, p + q, v) == Overlay(Overlay(m, p, v), q, v)
  {
  }

  lemma OverlayOne<K, V>(m: map<K, V>, p: set<K>, k: K, v: V)
    ensures Overlay(m, p + {k}, v) == Overlay(m, p, v)[k := v]
  {
  }

  lemma DropTwice<K, V>(m: map<K, V>, p: set<K>, q: set<K>)
    ensures m - (p + q) == m - p - q
  {
  }

  /** The instructions of consecutive blocks. */
  function Flat(blocks: seq<Block>): seq<Instruction> {
    if blocks == [] then [] else Flat(blocks[..|blocks| - 1]) + blocks[|blocks| - 1]
  }

  lemma {:induction false} FlatHas(blocks: seq<Block>, x: Instruction)
    ensures x in Flat(blocks) <==> exists k :: 0 <= k < |blocks| && x in blocks[k]
  {
    if blocks != [] {
      var before := blocks[..|blocks| - 1];
      FlatHas(before, x);
      assert x in Flat(before) ==> exists k :: 0 <= k < |before| && x in blocks[k];
      assert forall k :: 0 <= k < |before| ==> before[k] == blocks[k];
    }
  }

  /** The value of a disassembly result: references are pairs of addresses. */
  datatype Result = Result(
    functions: map<Address, seq<Block>>,
    ins2fn: map<Address, Address>,
    borders: map<Address, (Address, Address)>,
    instructions: map<Address, Shape>,
    symbols: map<Address, string>,
    recursive: set<Address>,
    leaf: set<Address>,
    thunk: set<Address>,
    codeRefs: set<(Address, Address)>,
    dataRefs: set<(Address, Address)>,
    dataMap: set<Address>)

  class DisassemblyResult {
    var functions: map<Address, seq<Block>>
    var recursiveFunctions: set<Address>
    var leafFunctions: set<Address>
    var thunkFunctions: set<Address>
    var functionBorders: map<Address, (Address, Address)>
    var instructions: map<Address, Shape>
    var ins2fn: map<Address, Address>
    var dataRefsFrom: Refs
    var dataRefsTo: Refs
    const codeRefsFrom: AddressRefs
    const codeRefsTo: AddressRefs
    var functionSymbols: map<Address, string>
    var dataMap: set<Address>

    ghost predicate Valid()
      reads this, codeRefsFrom, codeRefsTo
    {
      && codeRefsFrom != codeRefsTo
      && Converse(codeRefsFrom.Contents(), codeRefsTo.Contents())
      && Converse(dataRefsFrom, dataRefsTo)
    }

    ghost function View(): Result
      reads this, codeRefsFrom
    {
      Result(functions, ins2fn, functionBorders, instructions, functionSymbols, recursiveFunctions, leafFunctions,
             thunkFunctions, Edges(codeRefsFrom.Contents()), Edges(dataRefsFrom), dataMap)
    }

    constructor ()
      ensures Valid() && fresh(codeRefsFrom) && fresh(codeRefsTo)
      ensures View() == Result(map[], map[], map[], map[], map[], {}, {}, {}, {}, {}, {})
    {
      functions, functionBorders, instructions, ins2fn, functionSymbols := map[], map[], map[], map[], map[];
      recursiveFunctions, leafFunctions, thunkFunctions, dataMap := {}, {}, {}, {};
      dataRefsFrom, dataRefsTo := map[], map[];
      codeRefsFrom := new AddressRefs();
      codeRefsTo := new AddressRefs();
      new;
      assert Edges(codeRefsFrom.Contents()) == {};
      assert Edges(dataRefsFrom) == {};
    }

    /** Gives the bytes of an instruction to a function. */
    method ClaimBytes(x: Instruction, start: Address)
      modifies `ins2fn
      ensures ins2fn == Claim(old(ins2fn), [x], start)
    {
      var b := x.address;
      ghost var done: set<Address> := {};
      OverlayNothing(ins2fn, start);
      while b < x.End()
        invariant x.address <= b <= x.End()
        invariant forall c :: c in done <==> x.address <= c < b
        invariant ins2fn == Overlay(old(ins2fn), done, start)
      {
        OverlayOne(old(ins2fn), done, b, start);
        ins2fn := ins2fn[b := start];
        done := done + {b};
        b := b + 1;
      }
      BytesOfOne(x, done);
    }

    method ClaimAll(xs: seq<Instruction>, start: Address)
      modifies `ins2fn
      ensures ins2fn == Claim(old(ins2fn), xs, start)
    {
      ghost var owners := ins2fn;
      ClaimNothing(owners, start);
      var i := 0;
      while i < |xs|
        invariant i <= |xs| && ins2fn == Claim(owners, xs[..i], start)
      {
        assert xs[..i + 1] == xs[..i] + [xs[i]];
        ClaimOne(owners, xs[..i], xs[i], start);
        ClaimBytes(xs[i], start);
        i := i + 1;
      }
      assert xs[..i] == xs;
    }

    /** Takes the bytes of an instruction away from whoever owns them. */
    method ReleaseBytes(x: Instruction)
      modifies `ins2fn
      ensures ins2fn == old(ins2fn) - BytesOf([x])
    {
      var k := 0;
      ghost var done: set<Address> := {};
      while k < x.size
        invariant k <= x.size
        invariant forall c :: c in done <==> x.address <= c < x.address + k
        invariant ins2fn == old(ins2fn) - done
      {
        DropTwice(old(ins2fn), done, {x.address + k});
        ins2fn := ins2fn - {x.address + k};
        done := done + {x.address + k};
        k := k + 1;
      }
      BytesOfOne(x, done);
    }

    method AddCodeRefs(addrFrom: Address, addrTo: Address)
      requires Valid()
      modifies codeRefsFrom, codeRefsTo
      ensures Valid()
      ensures View() == old(View()).(codeRefs := old(View()).codeRefs + {(addrFrom, addrTo)})
    {
      EdgesAdded(codeRefsFrom.Contents(), addrFrom, addrTo);
      ConverseAdded(codeRefsFrom.Contents(), codeRefsTo.Contents(), addrFrom, addrTo);
      codeRefsFrom.Add(addrFrom, addrTo);
      codeRefsTo.Add(addrTo, addrFrom);
    }

    /** Adds the edges out of one address. */
    method MergeFrom(addrFrom: Address, dests: set<Address>)
      requires Valid()
      modifies codeRefsFrom, codeRefsTo
      ensures Valid() && View() == old(View()).(codeRefs := View().codeRefs)
      ensures forall a, b :: (a, b) in View().codeRefs <==>
        (a, b) in old(View()).codeRefs || (a == addrFrom && b in dests)
    {
      var todo := dests;
      while todo != {}
        invariant Valid() && todo <= dests
        invariant View() == old(View()).(codeRefs := View().codeRefs)
        invariant forall a, b :: (a, b) in View().codeRefs <==>
          (a, b) in old(View()).codeRefs || (a == addrFrom && b in dests && b !in todo)
        decreases |todo|
      {
        var addrTo := Any(todo);
        AddCodeRefs(addrFrom, addrTo);
        todo := todo - {addrTo};
      }
    }

    /** Adds every edge of a function's own map. */
    method MergeCodeRefs(refs: Refs)
      requires Valid()
      modifies codeRefsFrom, codeRefsTo
      ensures Valid()
      ensures View() == old(View()).(codeRefs := old(View()).codeRefs + Edges(refs))
    {
      ghost var before := View();
      var keys := refs.Keys;
      while keys != {}
        invariant Valid() && forall a :: a in keys ==> a in refs
        invariant View() == before.(codeRefs := View().codeRefs)
        invariant forall a, b :: (a, b) in View().codeRefs <==>
          (a, b) in before.codeRefs || ((a, b) in Edges(refs) && a !in keys)
        decreases |keys|
      {
        var addrFrom := Any(keys);
        MergeFrom(addrFrom, refs[addrFrom]);
        keys := keys - {addrFrom};
      }
      assert View().codeRefs == before.codeRefs + Edges(refs);
    }

    method RemoveCodeRefs(addrFrom: Address, addrTo: Address)
      requires Valid()
      modifies codeRefsFrom, codeRefsTo
      ensures Valid()
      ensures View() == old(View()).(codeRefs := old(View()).codeRefs - {(addrFrom, addrTo)})
    {
      EdgesDiscarded(codeRefsFrom.Contents(), addrFrom, addrTo);
      ConverseDiscarded(codeRefsFrom.Contents(), codeRefsTo.Contents(), addrFrom, addrTo);
      codeRefsFrom.Discard(addrFrom, addrTo);
      codeRefsTo.Discard(addrTo, addrFrom);
    }

    method AddDataRefs(addrFrom: Address, addrTo: Address)
      requires Valid()
      modifies `dataRefsFrom, `dataRefsTo
      ensures Valid()
      ensures View() == old(View()).(dataRefs := old(View()).dataRefs + {(addrFrom, addrTo)})
    {
      EdgesAdded(dataRefsFrom, addrFrom, addrTo);
      ConverseAdded(dataRefsFrom, dataRefsTo, addrFrom, addrTo);
      dataRefsFrom := dataRefsFrom[addrFrom := At(dataRefsFrom, addrFrom) + {addrTo}];
      dataRefsTo := dataRefsTo[addrTo := At(dataRefsTo, addrTo) + {addrFrom}];
    }

    method RemoveDataRefs(addrFrom: Address, addrTo: Address)
      requires Valid()
      modifies `dataRefsFrom, `dataRefsTo
      ensures Valid()
      ensures View() == old(View()).(dataRefs := old(View()).dataRefs - {(addrFrom, addrTo)})
    {
      EdgesDiscarded(dataRefsFrom, addrFrom, addrTo);
      ConverseDiscarded(dataRefsFrom, dataRefsTo, addrFrom, addrTo);
      dataRefsFrom := dataRefsFrom[addrFrom := At(dataRefsFrom, addrFrom) - {addrTo}];
      dataRefsTo := dataRefsTo[addrTo := At(dataRefsTo, addrTo) - {addrFrom}];
    }

    /** What an instruction of a function references outside it: the function's own entry counts as outside. */
    ghost function External(entry: Address, addr: Address, baseAddr: Address, maxAddr: Address): set<Address>
      requires entry in functions
      reads this, codeRefsFrom
    {
      set to | to in At(codeRefsFrom.Contents(), addr) && baseAddr <= to < maxAddr
               && (to == entry || to !in AddressesOf(Flat(functions[entry])))
    }

    /** The references leaving a function, for exactly the instructions that have some, each in ascending order. */
    method GetOutRefs(entry: Address, baseAddr: Address, binarySize: nat) returns (out: map<Address, seq<Address>>)
      requires entry in functions
      ensures forall a :: a in out <==>
        a in AddressesOf(Flat(functions[entry])) && External(entry, a, baseAddr, baseAddr + binarySize) != {}
      ensures forall a :: a in out ==> Enumerates(out[a], External(entry, a, baseAddr, baseAddr + binarySize))
    {
      var maxAddr := baseAddr + binarySize;
      var all := Flat(functions[entry]);
      var addrs := (set x | x in all :: x.address) - {entry};
      out := map[];
      var i := 0;
      while i < |all|
        invariant i <= |all|
        invariant forall a :: a in out <==> a in AddressesOf(all[..i]) && External(entry, a, baseAddr, maxAddr) != {}
        invariant forall a :: a in out ==> Enumerates(out[a], External(entry, a, baseAddr, maxAddr))
      {
        var addr := all[i].address;
        assert AddressesOf(all[..i + 1]) == AddressesOf(all[..i]) + {addr};
        i := i + 1;
        if addr in codeRefsFrom.stored {
          var dests := match codeRefsFrom.stored[addr] case Lone(ref) => {ref} case Several(refs) => refs;
          var external := set to | to in dests && baseAddr <= to < maxAddr && to !in addrs;
          assert external == External(entry, addr, baseAddr, maxAddr);
          if external != {} {
            var sorted := Sorted(external);
            out := out[addr := sorted];
          }
        }
      }
      assert all[..i] == all;
    }
  }
}
