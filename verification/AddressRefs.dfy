/** The compressed map from an address to the set of addresses it references. */
module AddressReferences {
  import opened Collections

  type Address = int

  /** What is stored for an address: a lone reference bare, or a set of them. */
  datatype Stored = Lone(ref: Address) | Several(refs: set<Address>)

  /** The plain map the compressed one stands for. */
  type Refs = map<Address, set<Address>>

  function Boxed(e: Stored): set<Address> {
    match e
    case Lone(ref) => {ref}
    case Several(refs) => refs
  }

  function Boxes(m: map<Address, Stored>): Refs {
    map a | a in m :: Boxed(m[a])
  }

  function At(m: Refs, addr: Address): set<Address> {
    if addr in m then m[addr] else {}
  }

  // ----- operations of the plain map

  function Added(m: Refs, addr: Address, ref: Address): Refs {
    m[addr := At(m, addr) + {ref}]
  }

  /** Discarding leaves an entry behind, even where there was none. */
  function Discarded(m: Refs, addr: Address, ref: Address): Refs {
    m[addr := At(m, addr) - {ref}]
  }

  datatype Operation = Add(addr: Address, ref: Address) | Discard(addr: Address, ref: Address)

  function Applied(m: Refs, op: Operation): Refs {
    match op
    case Add(addr, ref) => Added(m, addr, ref)
    case Discard(addr, ref) => Discarded(m, addr, ref)
  }

  function Run(m: Refs, ops: seq<Operation>): Refs {
    if ops == [] then m else Applied(Run(m, ops[..|ops| - 1]), ops[|ops| - 1])
  }

  /** The class below is used through `Add` and `Discard` alone, in any order and number. */
  class AddressRefs {
    var stored: map<Address, Stored>

    function Contents(): Refs
      reads this
    {
      Boxes(stored)
    }

    constructor ()
      ensures Contents() == map[]
    {
      stored := map[];
    }

    method Add(addr: Address, ref: Address)
      modifies this
      ensures Contents() == Added(old(Contents()), addr, ref)
    {
      ghost var before := Contents();
      if addr !in stored {
        stored := stored[addr := Lone(ref)];
      } else {
        match stored[addr]
        case Lone(other) =>
          if other != ref {
            stored := stored[addr := Several({other, ref})];
          }
        case Several(refs) =>
          stored := stored[addr := Several(refs + {ref})];
      }
      assert At(before, addr) + {ref} == Boxed(stored[addr]);
      assert Contents() == Added(before, addr, ref);
    }

    method Discard(addr: Address, ref: Address)
      modifies this
      ensures Contents() == Discarded(old(Contents()), addr, ref)
    {
      ghost var before := Contents();
      if addr !in stored || stored[addr] == Lone(ref) {
        stored := stored[addr := Several({})];
      } else if stored[addr].Several? {
        stored := stored[addr := Several(stored[addr].refs - {ref})];
      }
      assert At(before, addr) - {ref} == Boxed(stored[addr]);
      assert Contents() == Discarded(before, addr, ref);
    }

    method Get(addr: Address) returns (refs: Option<set<Address>>)
      ensures refs == if addr in Contents() then Some(Contents()[addr]) else None
    {
      if addr !in stored {
        return None;
      }
      match stored[addr]
      case Lone(ref) => return Some({ref});
      case Several(several) => return Some(several);
    }

    /** Every entry, boxed. */
    method Items() returns (items: Refs)
      ensures items == Contents()
    {
      items := map[];
      var todo := stored.Keys;
      while todo != {}
        invariant todo <= stored.Keys
        invariant forall a :: a in items <==> a in stored && a !in todo
        invariant forall a :: a in items ==> items[a] == Boxed(stored[a])
        decreases |todo|
      {
        var a := Any(todo);
        items := items[a := match stored[a] case Lone(ref) => {ref} case Several(refs) => refs];
        todo := todo - {a};
      }
      assert forall a :: a in items ==> a in Contents() && items[a] == Contents()[a];
      assert forall a :: a in Contents() ==> a in items;
      assert items == Contents();
    }

    /** Equality with any mapping of addresses to sets: it does not see which entries are stored bare. */
    method EqualsMapping(other: Refs) returns (equal: bool)
      ensures equal <==> Contents() == other
    {
      DomainOfBoxes(stored);
      if |stored| != |other| {
        return false;
      }
      var todo := stored.Keys;
      while todo != {}
        invariant todo <= stored.Keys
        invariant forall a :: a in stored && a !in todo ==> a in other && other[a] == Boxed(stored[a])
        decreases |todo|
      {
        var a := Any(todo);
        if a !in other || other[a] != Boxed(stored[a]) {
          assert a in Contents() && (a in other ==> other[a] != Contents()[a]);
          return false;
        }
        todo := todo - {a};
      }
      forall a | a in stored.Keys
        ensures a in other.Keys
      {
        assert a in stored && a !in todo;
      }
      SubsetCardinality(stored.Keys, other.Keys);
      assert forall a :: a in stored.Keys ==> a in stored && a !in todo;
      SameBoxes(stored, other);
      return true;
    }

    /** Equality with another map of references, whose entries are boxed as they are looked up. */
    method Equals(other: AddressRefs) returns (equal: bool)
      ensures equal <==> Contents() == other.Contents()
    {
      var items := other.Items();
      equal := EqualsMapping(items);
    }
  }

  lemma DomainOfBoxes(m: map<Address, Stored>)
    ensures Boxes(m).Keys == m.Keys && |Boxes(m)| == |m|
  {
    assert Boxes(m).Keys == m.Keys;
    SubsetCardinality(Boxes(m).Keys, m.Keys);
  }

  lemma SameBoxes(m: map<Address, Stored>, n: Refs)
    requires m.Keys == n.Keys
    requires forall a :: a in m ==> a in n && n[a] == Boxed(m[a])
    ensures Boxes(m) == n
  {
    DomainOfBoxes(m);
    assert forall a :: a in Boxes(m) ==> Boxes(m)[a] == n[a];
  }

  /** `op` is about the reference from `addr` to `ref`. */
  predicate Concerns(op: Operation, addr: Address, ref: Address) {
    op.addr == addr && op.ref == ref
  }

  /** No operation is about the reference. */
  predicate Silent(ops: seq<Operation>, addr: Address, ref: Address) {
    forall i :: 0 <= i < |ops| ==> !Concerns(ops[i], addr, ref)
  }

  /** The last operation about the reference is the i-th, and it adds. */
  predicate AddedLast(ops: seq<Operation>, i: nat, addr: Address, ref: Address) {
    i < |ops| && ops[i] == Add(addr, ref) && Silent(ops[i + 1..], addr, ref)
  }

  /** After any sequence of operations a reference is present exactly when the last operation about it added it,
      or nothing was said about it and it was there before. */
  lemma {:induction false} LastOperationDecides(m: Refs, ops: seq<Operation>, addr: Address, ref: Address)
    ensures ref in At(Run(m, ops), addr)
      <==> (ref in At(m, addr) && Silent(ops, addr, ref)) || exists i: nat :: AddedLast(ops, i, addr, ref)
  {
    if ops != [] {
      var last := ops[|ops| - 1];
      var before := ops[..|ops| - 1];
      LastOperationDecides(m, before, addr, ref);
      assert ops == before + [last];
      if Concerns(last, addr, ref) {
        assert last.Add? ==> AddedLast(ops, |ops| - 1, addr, ref);
        forall i: nat | AddedLast(ops, i, addr, ref)
          ensures last.Add?
        {
          assert i < |ops| - 1 ==> ops[i + 1..][|ops| - 2 - i] == last;
        }
      } else {
        OtherOperation(before, last, addr, ref);
      }
    }
  }

  lemma OtherOperation(before: seq<Operation>, last: Operation, addr: Address, ref: Address)
    requires !Concerns(last, addr, ref)
    ensures Silent(before + [last], addr, ref) <==> Silent(before, addr, ref)
    ensures forall i: nat :: AddedLast(before + [last], i, addr, ref) <==> AddedLast(before, i, addr, ref)
  {
    assert Silent(before + [last], addr, ref) ==> forall i :: 0 <= i < |before| ==> (before + [last])[i] == before[i];
    forall i: nat
      ensures AddedLast(before + [last], i, addr, ref) <==> AddedLast(before, i, addr, ref)
    {
      if i < |before| {
        var p, q := (before + [last])[i + 1..], before[i + 1..];
        assert p == q + [last];
        assert forall j :: 0 <= j < |q| ==> p[j] == q[j];
      }
    }
  }

  // ----- a map and its converse

  ghost function Edges(m: Refs): set<(Address, Address)> {
    set a, b | a in m && b in m[a] :: (a, b)
  }

  lemma EdgeAt(m: Refs, a: Address, b: Address)
    ensures (a, b) in Edges(m) <==> b in At(m, a)
  {
  }

  ghost predicate Converse(from: Refs, to: Refs) {
    forall a, b :: b in At(from, a) <==> a in At(to, b)
  }

  lemma EdgesAdded(m: Refs, a: Address, b: Address)
    ensures Edges(Added(m, a, b)) == Edges(m) + {(a, b)}
  {
  }

  lemma EdgesDiscarded(m: Refs, a: Address, b: Address)
    ensures Edges(Discarded(m, a, b)) == Edges(m) - {(a, b)}
  {
  }

  lemma ConverseAdded(from: Refs, to: Refs, a: Address, b: Address)
    requires Converse(from, to)
    ensures Converse(Added(from, a, b), Added(to, b, a))
  {
    forall c, d
      ensures d in At(Added(from, a, b), c) <==> c in At(Added(to, b, a), d)
    {
      assert d in At(from, c) <==> c in At(to, d);
    }
  }

  lemma ConverseDiscarded(from: Refs, to: Refs, a: Address, b: Address)
    requires Converse(from, to)
    ensures Converse(Discarded(from, a, b), Discarded(to, b, a))
  {
    forall c, d
      ensures d in At(Discarded(from, a, b), c) <==> c in At(Discarded(to, b, a), d)
    {
      assert d in At(from, c) <==> c in At(to, d);
    }
  }
}
