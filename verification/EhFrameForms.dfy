/** Frame descriptions and landing-pad tables as they are written, and that they are read back. */
module EhFrameForms {
  import opened Collections
  import opened EhFrame
  import opened Leb128

  // ----- numbers

  /** A number in so many bytes, the lowest first. */
  function LeBytes(n: nat, size: nat): (bs: seq<Byte>)
    ensures |bs| == size
    decreases size
  {
    if size == 0 then [] else [n % 256] + LeBytes(n / 256, size - 1)
  }

  lemma {:induction false} LittleEndianReadsBack(n: nat, size: nat)
    requires n < PowerOf256(size)
    ensures LittleEndian(LeBytes(n, size)) == n
    decreases size
  {
    if size > 0 {
      LittleEndianReadsBack(n / 256, size - 1);
      assert LeBytes(n, size)[1..] == LeBytes(n / 256, size - 1);
    }
  }

  /** The top bit of the last byte says whether the number is in the upper half. */
  lemma {:induction false} TopBit(n: nat, size: nat)
    requires 0 < size && n < PowerOf256(size)
    ensures LeBytes(n, size)[size - 1] >= 128 <==> 2 * n >= PowerOf256(size)
    decreases size
  {
    if size == 1 {
      assert PowerOf256(1) == 256 && LeBytes(n, 1) == [n % 256];
    } else {
      TopBit(n / 256, size - 1);
      assert LeBytes(n, size)[size - 1] == LeBytes(n / 256, size - 1)[size - 2];
      HalfOf(n, PowerOf256(size - 2));
      assert PowerOf256(size - 1) == 256 * PowerOf256(size - 2);
      assert PowerOf256(size) == 256 * PowerOf256(size - 1);
    }
  }

  lemma HalfOf(n: nat, p: nat)
    ensures 2 * (n / 256) >= 256 * p <==> 2 * n >= 256 * (256 * p)
  {
    var q, r := n / 256, n % 256;
    assert n == 256 * q + r;
    if q >= 128 * p {
      assert n >= 32768 * p;
    } else {
      assert q + 1 <= 128 * p;
    }
  }

  /** A number of a fixed width: two's complement, if it is signed. */
  predicate FixedFits(v: int, size: nat, signed: bool) {
    var bound: int := PowerOf256(size);
    if signed && size > 0 then -bound <= 2 * v < bound else 0 <= v < bound
  }

  function FixedBytes(v: int, size: nat): (bs: seq<Byte>)
    ensures |bs| == size
  {
    LeBytes(Wrapped(v, PowerOf256(size)), size)
  }

  function Wrapped(v: int, modulus: nat): nat {
    if v >= 0 then v else if v + modulus >= 0 then v + modulus else 0
  }

  lemma FixedReadsBack(v: int, size: nat, signed: bool)
    requires FixedFits(v, size, signed)
    ensures Number(FixedBytes(v, size), signed) == v
  {
    var n := Wrapped(v, PowerOf256(size));
    LittleEndianReadsBack(n, size);
    if size > 0 {
      TopBit(n, size);
    }
  }

  // ----- encoded values

  /** The values an encoding can hold. */
  predicate Fits(v: int, encoding: Byte, pointerSize: nat) {
    if Format(encoding) == 0x1 then 0 <= v < Power(10)
    else if Format(encoding) == 0x9 then -64 * Power(8) <= v < 64 * Power(9)
    else
      var width := ValueSize(Format(encoding), pointerSize);
      width.Some? && FixedFits(v, width.value.0, width.value.1)
  }

  /** The shortest form of a value that an encoding can hold. */
  function ValueBytes(v: int, encoding: Byte, pointerSize: nat): seq<Byte> {
    if Format(encoding) == 0x1 then UlebBytes(if v < 0 then 0 else v)
    else if Format(encoding) == 0x9 then SlebBytes(v)
    else
      match ValueSize(Format(encoding), pointerSize)
      case None => []
      case Some((size, _)) => FixedBytes(v, size)
  }

  /** Outside the tables no LEB128 format is accepted. */
  predicate IsFixed(encoding: Byte) {
    Format(encoding) != 0x1 && Format(encoding) != 0x9
  }

  lemma UlebValueReadsBack(data: seq<Byte>, pos: nat, end: nat, v: int, encoding: Byte, pointerSize: nat)
    requires Format(encoding) == 0x1 && Fits(v, encoding, pointerSize)
    requires StandsAt(data, pos, end, ValueBytes(v, encoding, pointerSize))
    ensures LsdaValue(data, pos, end, encoding, pointerSize) == (Some(v), pos + |ValueBytes(v, encoding, pointerSize)|)
  {
    UlebRoundTrip(data, pos, end, v);
  }

  lemma SlebValueReadsBack(data: seq<Byte>, pos: nat, end: nat, v: int, encoding: Byte, pointerSize: nat)
    requires Format(encoding) == 0x9 && Fits(v, encoding, pointerSize)
    requires StandsAt(data, pos, end, ValueBytes(v, encoding, pointerSize))
    ensures LsdaValue(data, pos, end, encoding, pointerSize) == (Some(v), pos + |ValueBytes(v, encoding, pointerSize)|)
  {
    SlebRoundTrip(data, pos, end, v);
    SlebReadsBack(data, pos, end, v, 10);
  }

  lemma FixedValueReadsBack(data: seq<Byte>, pos: nat, end: nat, v: int, encoding: Byte, pointerSize: nat)
    requires IsFixed(encoding) && Fits(v, encoding, pointerSize)
    requires StandsAt(data, pos, end, ValueBytes(v, encoding, pointerSize))
    ensures EncodedValue(data, pos, end, encoding, pointerSize)
      == (Some(v), pos + |ValueBytes(v, encoding, pointerSize)|)
  {
    var (size, signed) := ValueSize(Format(encoding), pointerSize).value;
    assert data[pos..pos + size] == FixedBytes(v, size);
    FixedReadsBack(v, size, signed);
  }

  /** A value is read back as it was written, wherever it stands. */
  lemma ValueReadsBack(data: seq<Byte>, pos: nat, end: nat, v: int, encoding: Byte, pointerSize: nat)
    requires Fits(v, encoding, pointerSize)
    requires StandsAt(data, pos, end, ValueBytes(v, encoding, pointerSize))
    ensures LsdaValue(data, pos, end, encoding, pointerSize)
      == (Some(v), pos + |ValueBytes(v, encoding, pointerSize)|)
  {
    if Format(encoding) == 0x1 {
      UlebValueReadsBack(data, pos, end, v, encoding, pointerSize);
    } else if Format(encoding) == 0x9 {
      SlebValueReadsBack(data, pos, end, v, encoding, pointerSize);
    } else {
      FixedValueReadsBack(data, pos, end, v, encoding, pointerSize);
    }
  }

  // ----- readers, whatever they read

  /** A reader: what it reads at a position, and the position after that. */
  type Parser<!T> = nat -> (Option<T>, nat)

  /** Wherever some bytes stand, a value is read there, and all of them are read. */
  ghost predicate ReadsAs<T>(data: seq<Byte>, end: nat, read: Parser<T>, bs: seq<Byte>, v: T) {
    forall pos: nat :: StandsAt(data, pos, end, bs) ==> read(pos) == (Some(v), pos + |bs|)
  }

  /** What stands at a position as two parts is each of them where it stands. */
  lemma StandsInTwo(data: seq<Byte>, pos: nat, end: nat, p: seq<Byte>, q: seq<Byte>)
    requires StandsAt(data, pos, end, p + q)
    ensures StandsAt(data, pos, end, p) && StandsAt(data, pos + |p|, end, q)
  {
    forall k: nat | k < |p|
      ensures data[pos + k] == p[k]
    {
      assert (p + q)[k] == p[k];
    }
    forall k: nat | k < |q|
      ensures data[pos + |p| + k] == q[k]
    {
      assert (p + q)[|p| + k] == q[k];
    }
  }

  lemma StandsInFour(data: seq<Byte>, pos: nat, end: nat, p: seq<Byte>, q: seq<Byte>, r: seq<Byte>, s: seq<Byte>)
    requires StandsAt(data, pos, end, p + q + r + s)
    ensures StandsAt(data, pos, end, p) && StandsAt(data, pos + |p|, end, q)
    ensures StandsAt(data, pos + |p| + |q|, end, r) && StandsAt(data, pos + |p| + |q| + |r|, end, s)
  {
    StandsInTwo(data, pos, end, p + q + r, s);
    StandsInTwo(data, pos, end, p + q, r);
    StandsInTwo(data, pos, end, p, q);
  }

  function Concat<T>(bytes: T -> seq<Byte>, xs: seq<T>): seq<Byte> {
    if xs == [] then [] else bytes(xs[0]) + Concat(bytes, xs[1..])
  }

  /** The pads of entries read one after the other. */
  function PadsVia(read: Parser<int>, base: int, pos: nat, end: nat): Option<set<int>>
    decreases if pos < end then end - pos else 0
  {
    if pos >= end then Some({}) else
      var (pad, next) := read(pos);
      if pad == None || next <= pos then None
      else WithMore(PadsVia(read, base, next, end), PadSet(base, pad.value))
  }

  /** What entries mean: the landing pads they name, relative to a base; zero names none. */
  ghost function PadsOf<T>(padOf: T -> int, base: int, xs: seq<T>): set<int> {
    set x | x in xs && padOf(x) != 0 :: base + padOf(x)
  }

  lemma PadsOfNone<T>(padOf: T -> int, base: int)
    ensures PadsOf(padOf, base, []) == {}
  {
  }

  lemma PadsOfMore<T>(padOf: T -> int, base: int, xs: seq<T>)
    requires xs != []
    ensures PadsOf(padOf, base, xs)
      == PadsOf(padOf, base, xs[1..]) + if padOf(xs[0]) != 0 then {base + padOf(xs[0])} else {}
  {
    assert xs == [xs[0]] + xs[1..];
  }

  ghost predicate EachReads<T>(data: seq<Byte>, end: nat, read: Parser<int>, bytes: T -> seq<Byte>, padOf: T -> int,
      xs: seq<T>)
  {
    forall x :: x in xs ==> bytes(x) != [] && ReadsAs(data, end, read, bytes(x), padOf(x))
  }

  lemma PadsStep(read: Parser<int>, base: int, pos: nat, end: nat, pad: int, next: nat, rest: set<int>)
    requires pos < next && pos < end && read(pos) == (Some(pad), next) && PadsVia(read, base, next, end) == Some(rest)
    ensures PadsVia(read, base, pos, end) == Some(rest + if pad != 0 then {base + pad} else {})
  {
  }

  lemma RestReads<T>(data: seq<Byte>, end: nat, read: Parser<int>, bytes: T -> seq<Byte>, padOf: T -> int, xs: seq<T>)
    requires xs != [] && EachReads(data, end, read, bytes, padOf, xs)
    ensures bytes(xs[0]) != [] && ReadsAs(data, end, read, bytes(xs[0]), padOf(xs[0]))
    ensures EachReads(data, end, read, bytes, padOf, xs[1..])
  {
    assert xs[0] in xs;
  }

  lemma ConcatCons<T>(bytes: T -> seq<Byte>, xs: seq<T>)
    requires xs != []
    ensures Concat(bytes, xs) == bytes(xs[0]) + Concat(bytes, xs[1..])
  {
  }

  lemma StandsInParts(data: seq<Byte>, pos: nat, end: nat, whole: seq<Byte>, p: seq<Byte>, q: seq<Byte>)
    requires whole == p + q && StandsAt(data, pos, end, whole)
    ensures StandsAt(data, pos, end, p) && StandsAt(data, pos + |p|, end, q) && |whole| == |p| + |q|
  {
    StandsInTwo(data, pos, end, p, q);
  }

  lemma FirstStands<T>(data: seq<Byte>, pos: nat, end: nat, bytes: T -> seq<Byte>, xs: seq<T>)
    requires xs != [] && StandsAt(data, pos, end, Concat(bytes, xs))
    ensures StandsAt(data, pos, end, bytes(xs[0]))
    ensures StandsAt(data, pos + |bytes(xs[0])|, end, Concat(bytes, xs[1..]))
    ensures |Concat(bytes, xs)| == |bytes(xs[0])| + |Concat(bytes, xs[1..])|
  {
    ConcatCons(bytes, xs);
    StandsInParts(data, pos, end, Concat(bytes, xs), bytes(xs[0]), Concat(bytes, xs[1..]));
  }

  lemma {:induction false} EntriesReadBack<T>(data: seq<Byte>, end: nat, read: Parser<int>, bytes: T -> seq<Byte>,
      padOf: T -> int, base: int, xs: seq<T>, pos: nat)
    requires EachReads(data, end, read, bytes, padOf, xs)
    requires StandsAt(data, pos, end, Concat(bytes, xs)) && pos + |Concat(bytes, xs)| == end
    ensures PadsVia(read, base, pos, end) == Some(PadsOf(padOf, base, xs))
    decreases |xs|
  {
    if xs == [] {
      PadsOfNone(padOf, base);
    } else {
      var next := pos + |bytes(xs[0])|;
      RestReads(data, end, read, bytes, padOf, xs);
      FirstStands(data, pos, end, bytes, xs);
      EntriesReadBack(data, end, read, bytes, padOf, base, xs[1..], next);
      PadsStep(read, base, pos, end, padOf(xs[0]), next, PadsOf(padOf, base, xs[1..]));
      PadsOfMore(padOf, base, xs);
    }
  }

  /** An entry of three values, of which the last counts, and a number. */
  function EntryVia(value: Parser<int>, number: Parser<int>, pos: nat): (Option<int>, nat) {
    var (start, p1) := value(pos);
    var (length, p2) := value(p1);
    var (pad, p3) := value(p2);
    var (action, p4) := number(p3);
    if pad == None || action == None then (None, pos) else (pad, p4)
  }

  /** Four values, each read by a reader of its own where the one before ends. */
  lemma FourReadBack(data: seq<Byte>, end: nat, r1: Parser<int>, r2: Parser<int>, r3: Parser<int>, r4: Parser<int>,
      pos: nat, b1: seq<Byte>, v1: int, b2: seq<Byte>, v2: int, b3: seq<Byte>, v3: int, b4: seq<Byte>, v4: int)
    requires ReadsAs(data, end, r1, b1, v1) && ReadsAs(data, end, r2, b2, v2)
    requires ReadsAs(data, end, r3, b3, v3) && ReadsAs(data, end, r4, b4, v4)
    requires StandsAt(data, pos, end, b1 + b2 + b3 + b4)
    ensures var p1, p2, p3 := pos + |b1|, pos + |b1| + |b2|, pos + |b1| + |b2| + |b3|;
      && r1(pos) == (Some(v1), p1) && r2(p1) == (Some(v2), p2) && r3(p2) == (Some(v3), p3)
      && r4(p3) == (Some(v4), p3 + |b4|)
  {
    StandsInFour(data, pos, end, b1, b2, b3, b4);
  }

  lemma EntryReadsBack(data: seq<Byte>, end: nat, value: Parser<int>, number: Parser<int>, pos: nat,
      b1: seq<Byte>, v1: int, b2: seq<Byte>, v2: int, b3: seq<Byte>, v3: int, b4: seq<Byte>, v4: int)
    requires ReadsAs(data, end, value, b1, v1) && ReadsAs(data, end, value, b2, v2)
    requires ReadsAs(data, end, value, b3, v3) && ReadsAs(data, end, number, b4, v4)
    requires StandsAt(data, pos, end, b1 + b2 + b3 + b4)
    ensures EntryVia(value, number, pos) == (Some(v3), pos + |b1 + b2 + b3 + b4|)
  {
    FourReadBack(data, end, value, value, value, number, pos, b1, v1, b2, v2, b3, v3, b4, v4);
  }

  ghost predicate IsEntryReader(read: Parser<int>, value: Parser<int>, number: Parser<int>) {
    forall pos: nat :: read(pos) == EntryVia(value, number, pos)
  }

  lemma EntryReads(data: seq<Byte>, end: nat, read: Parser<int>, value: Parser<int>, number: Parser<int>,
      b1: seq<Byte>, v1: int, b2: seq<Byte>, v2: int, b3: seq<Byte>, v3: int, b4: seq<Byte>, v4: int)
    requires IsEntryReader(read, value, number)
    requires ReadsAs(data, end, value, b1, v1) && ReadsAs(data, end, value, b2, v2)
    requires ReadsAs(data, end, value, b3, v3) && ReadsAs(data, end, number, b4, v4)
    ensures ReadsAs(data, end, read, b1 + b2 + b3 + b4, v3)
  {
    forall pos: nat | StandsAt(data, pos, end, b1 + b2 + b3 + b4)
      ensures read(pos) == (Some(v3), pos + |b1 + b2 + b3 + b4|)
    {
      EntryReadsBack(data, end, value, number, pos, b1, v1, b2, v2, b3, v3, b4, v4);
    }
  }

  // ----- call-site tables

  datatype Site = Site(start: int, length: int, pad: int, action: nat)

  predicate SiteFits(s: Site, encoding: Byte, pointerSize: nat) {
    && Fits(s.start, encoding, pointerSize) && Fits(s.length, encoding, pointerSize)
    && Fits(s.pad, encoding, pointerSize) && s.action < Power(10)
  }

  function SiteBytes(s: Site, encoding: Byte, pointerSize: nat): (bs: seq<Byte>)
    ensures bs != []
  {
    ValueBytes(s.start, encoding, pointerSize) + ValueBytes(s.length, encoding, pointerSize)
    + ValueBytes(s.pad, encoding, pointerSize) + UlebBytes(s.action)
  }

  function SitesBytes(sites: seq<Site>, encoding: Byte, pointerSize: nat): seq<Byte> {
    Concat((s: Site) => SiteBytes(s, encoding, pointerSize), sites)
  }

  function ValueReader(data: seq<Byte>, end: nat, encoding: Byte, pointerSize: nat): Parser<int>
    requires end <= |data|
  {
    (pos: nat) => LsdaValue(data, pos, end, encoding, pointerSize)
  }

  function NumberReader(data: seq<Byte>, end: nat): Parser<int>
    requires end <= |data|
  {
    (pos: nat) => Uleb(data, pos, end)
  }

  lemma ReadsValue(data: seq<Byte>, end: nat, encoding: Byte, pointerSize: nat, pos: nat)
    requires end <= |data|
    ensures ValueReader(data, end, encoding, pointerSize)(pos) == LsdaValue(data, pos, end, encoding, pointerSize)
  {
  }

  lemma ValueReads(data: seq<Byte>, end: nat, v: int, encoding: Byte, pointerSize: nat)
    requires end <= |data| && Fits(v, encoding, pointerSize)
    ensures ReadsAs(data, end, ValueReader(data, end, encoding, pointerSize), ValueBytes(v, encoding, pointerSize), v)
  {
    var read, bs := ValueReader(data, end, encoding, pointerSize), ValueBytes(v, encoding, pointerSize);
    forall pos: nat | StandsAt(data, pos, end, bs)
      ensures read(pos) == (Some(v), pos + |bs|)
    {
      ReadsValue(data, end, encoding, pointerSize, pos);
      ValueReadsBack(data, pos, end, v, encoding, pointerSize);
    }
  }

  function FixedReader(data: seq<Byte>, end: nat, encoding: Byte, pointerSize: nat): Parser<int>
    requires end <= |data|
  {
    (pos: nat) => EncodedValue(data, pos, end, encoding, pointerSize)
  }

  lemma FixedReads(data: seq<Byte>, end: nat, v: int, encoding: Byte, pointerSize: nat)
    requires end <= |data| && IsFixed(encoding) && Fits(v, encoding, pointerSize)
    ensures ReadsAs(data, end, FixedReader(data, end, encoding, pointerSize), ValueBytes(v, encoding, pointerSize), v)
  {
    var read, bs := FixedReader(data, end, encoding, pointerSize), ValueBytes(v, encoding, pointerSize);
    forall pos: nat | StandsAt(data, pos, end, bs)
      ensures read(pos) == (Some(v), pos + |bs|)
    {
      FixedValueReadsBack(data, pos, end, v, encoding, pointerSize);
    }
  }

  lemma NumberReads(data: seq<Byte>, end: nat, n: nat)
    requires end <= |data| && n < Power(10)
    ensures ReadsAs(data, end, NumberReader(data, end), UlebBytes(n), n)
  {
    var read, bs := NumberReader(data, end), UlebBytes(n);
    forall pos: nat | StandsAt(data, pos, end, bs)
      ensures read(pos).0 == Some(n) && read(pos).1 == pos + |bs|
    {
      UlebRoundTrip(data, pos, end, n);
    }
  }

  /** An entry as a reader reads it. */
  function EntryReader(data: seq<Byte>, t: Table, pointerSize: nat): Parser<int>
    requires t.end <= |data|
  {
    (pos: nat) =>
      match EntryAt(data, t, pos, pointerSize)
      case None => (None, pos)
      case Some((pad, next)) => (Some(pad), next)
  }

  lemma EntryIsVia(data: seq<Byte>, t: Table, pointerSize: nat)
    requires t.end <= |data|
    ensures IsEntryReader(EntryReader(data, t, pointerSize),
              ValueReader(data, t.end, t.encoding, pointerSize), NumberReader(data, t.end))
  {
  }

  lemma {:induction false} PadsAreVia(data: seq<Byte>, t: Table, pos: nat, pointerSize: nat)
    requires t.end <= |data|
    ensures PadsFrom(data, t, pos, pointerSize) == PadsVia(EntryReader(data, t, pointerSize), t.base, pos, t.end)
    decreases t.end - pos
  {
    if pos < t.end && EntryAt(data, t, pos, pointerSize).Some? {
      PadsAreVia(data, t, EntryAt(data, t, pos, pointerSize).value.1, pointerSize);
    }
  }

  lemma SiteReads(data: seq<Byte>, t: Table, s: Site, pointerSize: nat)
    requires t.end <= |data| && SiteFits(s, t.encoding, pointerSize)
    ensures ReadsAs(data, t.end, EntryReader(data, t, pointerSize), SiteBytes(s, t.encoding, pointerSize), s.pad)
  {
    var start, length := ValueBytes(s.start, t.encoding, pointerSize), ValueBytes(s.length, t.encoding, pointerSize);
    var pad, action := ValueBytes(s.pad, t.encoding, pointerSize), UlebBytes(s.action);
    var value, number := ValueReader(data, t.end, t.encoding, pointerSize), NumberReader(data, t.end);
    ValueReads(data, t.end, s.start, t.encoding, pointerSize);
    ValueReads(data, t.end, s.length, t.encoding, pointerSize);
    ValueReads(data, t.end, s.pad, t.encoding, pointerSize);
    NumberReads(data, t.end, s.action);
    EntryIsVia(data, t, pointerSize);
    EntryReads(data, t.end, EntryReader(data, t, pointerSize), value, number,
      start, s.start, length, s.length, pad, s.pad, action, s.action);
  }

  ghost predicate SitesFit(sites: seq<Site>, encoding: Byte, pointerSize: nat) {
    forall s :: s in sites ==> SiteFits(s, encoding, pointerSize)
  }

  lemma SitesReadBack(data: seq<Byte>, t: Table, sites: seq<Site>, pointerSize: nat)
    requires t.pos <= t.end <= |data| && SitesFit(sites, t.encoding, pointerSize)
    requires StandsAt(data, t.pos, t.end, SitesBytes(sites, t.encoding, pointerSize))
    requires t.pos + |SitesBytes(sites, t.encoding, pointerSize)| == t.end
    ensures PadsFrom(data, t, t.pos, pointerSize) == Some(PadsOf((s: Site) => s.pad, t.base, sites))
  {
    var read, bytes := EntryReader(data, t, pointerSize), (s: Site) => SiteBytes(s, t.encoding, pointerSize);
    forall s | s in sites
      ensures bytes(s) != [] && ReadsAs(data, t.end, read, bytes(s), ((s: Site) => s.pad)(s))
    {
      SiteReads(data, t, s, pointerSize);
    }
    EntriesReadBack(data, t.end, read, bytes, (s: Site) => s.pad, t.base, sites, t.pos);
    PadsAreVia(data, t, t.pos, pointerSize);
  }

  // ----- the tables of landing pads

  /** A table as it is written: the start its pads are relative to, if it is given, with its encoding; the encoding and
      offset of the type table, if there is one; and the call sites with theirs. */
  datatype PadTable = PadTable(
    start: Option<(Byte, int)>,
    types: Option<(Byte, nat)>,
    encoding: Byte,
    sites: seq<Site>)

  predicate StartFits(start: Option<(Byte, int)>, pointerSize: nat) {
    start.Some? ==> start.value.0 != 0xFF && Mode(start.value.0) <= 1 && Fits(start.value.1, start.value.0, pointerSize)
  }

  predicate TypesFit(types: Option<(Byte, nat)>) {
    types.Some? ==> types.value.0 != 0xFF && types.value.1 < Power(10)
  }

  ghost predicate Writable(w: PadTable, pointerSize: nat) {
    && StartFits(w.start, pointerSize) && TypesFit(w.types)
    && Mode(w.encoding) == 0 && SitesFit(w.sites, w.encoding, pointerSize)
    && |SitesBytes(w.sites, w.encoding, pointerSize)| < Power(10)
  }

  function StartBytes(start: Option<(Byte, int)>, pointerSize: nat): seq<Byte> {
    if start == None then [0xFF]
    else [start.value.0] + ValueBytes(start.value.1, start.value.0, pointerSize)
  }

  function TypesBytes(types: Option<(Byte, nat)>): seq<Byte> {
    if types == None then [0xFF] else [types.value.0] + UlebBytes(types.value.1)
  }

  function HeaderBytes(w: PadTable, pointerSize: nat): seq<Byte> {
    StartBytes(w.start, pointerSize) + TypesBytes(w.types) + [w.encoding]
    + UlebBytes(|SitesBytes(w.sites, w.encoding, pointerSize)|)
  }

  function TableBytes(w: PadTable, pointerSize: nat): seq<Byte> {
    HeaderBytes(w, pointerSize) + SitesBytes(w.sites, w.encoding, pointerSize)
  }

  /** What the pads of a table are relative to: the start of the function if no other start is given; one that is given
      relative to its own field counts from there. */
  function BaseOf(start: Option<(Byte, int)>, lsdaVa: int, functionStart: int): int {
    if start == None then functionStart
    else if start.value.0 / 16 % 8 == 1 then lsdaVa + 1 + start.value.1
    else start.value.1
  }

  lemma StartStands(data: seq<Byte>, lsdaVa: int, functionStart: int, pointerSize: nat, v: int, next: nat)
    requires data != [] && data[0] != 0xFF && Mode(data[0]) <= 1
    requires LsdaValue(data, 1, |data|, data[0], pointerSize) == (Some(v), next)
    ensures PadBase(data, lsdaVa, functionStart, pointerSize)
      == (Some(v + if data[0] / 16 % 8 == 1 then lsdaVa + 1 else 0), next)
  {
  }

  lemma StartGiven(data: seq<Byte>, encoding: Byte, v: int, bs: seq<Byte>, lsdaVa: int, functionStart: int,
      pointerSize: nat)
    requires encoding != 0xFF && Mode(encoding) <= 1 && StandsAt(data, 0, |data|, [encoding] + bs)
    requires ReadsAs(data, |data|, ValueReader(data, |data|, encoding, pointerSize), bs, v)
    ensures data != [] && PadBase(data, lsdaVa, functionStart, pointerSize)
      == (Some(v + if encoding / 16 % 8 == 1 then lsdaVa + 1 else 0), 1 + |bs|)
  {
    StandsInTwo(data, 0, |data|, [encoding], bs);
    assert data[0 + 0] == [encoding][0];
    ReadsValue(data, |data|, encoding, pointerSize, 1);
    StartStands(data, lsdaVa, functionStart, pointerSize, v, 1 + |bs|);
  }

  lemma StartReadsBack(data: seq<Byte>, start: Option<(Byte, int)>, lsdaVa: int, functionStart: int, pointerSize: nat)
    requires StartFits(start, pointerSize) && StandsAt(data, 0, |data|, StartBytes(start, pointerSize))
    ensures data != []
    ensures PadBase(data, lsdaVa, functionStart, pointerSize)
      == (Some(BaseOf(start, lsdaVa, functionStart)), |StartBytes(start, pointerSize)|)
  {
    if start.Some? {
      var encoding, v := start.value.0, start.value.1;
      ValueReads(data, |data|, v, encoding, pointerSize);
      StartGiven(data, encoding, v, ValueBytes(v, encoding, pointerSize), lsdaVa, functionStart, pointerSize);
    } else {
      assert data[0 + 0] == StartBytes(start, pointerSize)[0];
    }
  }

  lemma TypesReadBack(data: seq<Byte>, pos: nat, types: Option<(Byte, nat)>)
    requires TypesFit(types) && StandsAt(data, pos, |data|, TypesBytes(types))
    ensures pos < |data| && TypesAt(data, pos).0.Some? && TypesAt(data, pos).1 == pos + |TypesBytes(types)|
  {
    assert data[pos + 0] == TypesBytes(types)[0];
    if types.Some? {
      StandsInTwo(data, pos, |data|, [types.value.0], UlebBytes(types.value.1));
      UlebRoundTrip(data, pos + 1, |data|, types.value.1);
    }
  }

  function TypesReader(data: seq<Byte>): Parser<int> {
    (pos: nat) => if pos < |data| then TypesAt(data, pos) else (None, pos)
  }

  ghost predicate ReadsSome(data: seq<Byte>, end: nat, read: Parser<int>, bs: seq<Byte>) {
    forall pos: nat :: StandsAt(data, pos, end, bs) ==> pos < |data| && read(pos).0.Some? && read(pos).1 == pos + |bs|
  }

  lemma TypesRead(data: seq<Byte>, types: Option<(Byte, nat)>)
    requires TypesFit(types)
    ensures ReadsSome(data, |data|, TypesReader(data), TypesBytes(types))
  {
    var read, bs := TypesReader(data), TypesBytes(types);
    forall pos: nat | StandsAt(data, pos, |data|, bs)
      ensures pos < |data| && read(pos).0.Some? && read(pos).1 == pos + |bs|
    {
      TypesReadBack(data, pos, types);
    }
  }

  /** A header whose first value is read already. */
  function HeaderVia(data: seq<Byte>, start: Reading, types: Parser<int>, number: Parser<int>): Option<Table> {
    var (base, ttypePos) := start;
    if base == None || ttypePos >= |data| then None else
      var (offset, sitePos) := types(ttypePos);
      if offset == None || sitePos >= |data| || Mode(data[sitePos]) != 0 then None else
        var (length, pos) := number(sitePos + 1);
        if length == None || length.value < 0 || pos + length.value > |data| then None
        else Some(Table(base.value, data[sitePos], pos, pos + length.value))
  }

  lemma HeaderIsVia(data: seq<Byte>, lsdaVa: int, functionStart: int, pointerSize: nat)
    requires data != []
    ensures TableOf(data, lsdaVa, functionStart, pointerSize)
      == HeaderVia(data, PadBase(data, lsdaVa, functionStart, pointerSize), TypesReader(data),
                   NumberReader(data, |data|))
  {
    var ttypePos := PadBase(data, lsdaVa, functionStart, pointerSize).1;
    if ttypePos < |data| {
      assert TypesReader(data)(ttypePos) == TypesAt(data, ttypePos);
    }
  }

  lemma HeaderReads(data: seq<Byte>, types: Parser<int>, number: Parser<int>, base: int,
      b1: seq<Byte>, b2: seq<Byte>, encoding: Byte, b3: seq<Byte>, sites: seq<Byte>)
    requires ReadsSome(data, |data|, types, b2) && ReadsAs(data, |data|, number, b3, |sites|) && Mode(encoding) == 0
    requires StandsAt(data, 0, |data|, b1 + b2 + [encoding] + b3 + sites)
    ensures var pos := |b1 + b2 + [encoding] + b3|;
      && HeaderVia(data, (Some(base), |b1|), types, number) == Some(Table(base, encoding, pos, pos + |sites|))
      && StandsAt(data, pos, pos + |sites|, sites)
  {
    StandsInTwo(data, 0, |data|, b1 + b2 + [encoding] + b3, sites);
    StandsInFour(data, 0, |data|, b1, b2, [encoding], b3);
    assert data[|b1| + |b2| + 0] == [encoding][0];
  }

  lemma HeaderReadsBack(data: seq<Byte>, w: PadTable, lsdaVa: int, functionStart: int, pointerSize: nat)
    returns (t: Table)
    requires Writable(w, pointerSize) && StandsAt(data, 0, |data|, TableBytes(w, pointerSize))
    ensures TableOf(data, lsdaVa, functionStart, pointerSize) == Some(t)
    ensures t.base == BaseOf(w.start, lsdaVa, functionStart) && t.encoding == w.encoding
    ensures t.pos <= t.end <= |data| && StandsAt(data, t.pos, t.end, SitesBytes(w.sites, w.encoding, pointerSize))
    ensures t.pos + |SitesBytes(w.sites, w.encoding, pointerSize)| == t.end
  {
    var start, types := StartBytes(w.start, pointerSize), TypesBytes(w.types);
    var sites, base := SitesBytes(w.sites, w.encoding, pointerSize), BaseOf(w.start, lsdaVa, functionStart);
    var length := UlebBytes(|sites|);
    StandsInTwo(data, 0, |data|, start, types + [w.encoding] + length + sites) by {
      Regroup(start, types, [w.encoding], length, sites);
    }
    StartReadsBack(data, w.start, lsdaVa, functionStart, pointerSize);
    TypesRead(data, w.types);
    NumberReads(data, |data|, |sites|);
    HeaderReads(data, TypesReader(data), NumberReader(data, |data|), base, start, types, w.encoding, length, sites);
    HeaderIsVia(data, lsdaVa, functionStart, pointerSize);
    t := TableOf(data, lsdaVa, functionStart, pointerSize).value;
  }

  lemma Regroup(p: seq<Byte>, q: seq<Byte>, r: seq<Byte>, s: seq<Byte>, t: seq<Byte>)
    ensures p + q + r + s + t == p + (q + r + s + t)
  {
  }

  /** What call sites mean: the landing pads they name, relative to a base; zero names none. */
  function SitePads(sites: seq<Site>, base: int): set<int> {
    set s | s in sites && s.pad != 0 :: base + s.pad
  }

  lemma PadsOfSites(base: int, sites: seq<Site>)
    ensures PadsOf((s: Site) => s.pad, base, sites) == SitePads(sites, base)
  {
  }

  /** A table is read back as what its call sites mean, whatever follows it: for every header and every list of call
      sites, in every encoding, exactly the pads that are not zero, each added to what they are relative to: the start
      of the function if no other start is given, or else that start, which may count from its own field. */
  lemma TableRoundTrip(data: seq<Byte>, w: PadTable, lsdaVa: int, functionStart: int, pointerSize: nat, base: int)
    requires Writable(w, pointerSize) && StandsAt(data, 0, |data|, TableBytes(w, pointerSize))
    requires w.start == None ==> base == functionStart
    requires w.start.Some? && w.start.value.0 / 16 % 8 == 0 ==> base == w.start.value.1
    requires w.start.Some? && w.start.value.0 / 16 % 8 == 1 ==> base == lsdaVa + 1 + w.start.value.1
    ensures Lsda(data, lsdaVa, functionStart, pointerSize) == Some(SitePads(w.sites, base))
  {
    var t := HeaderReadsBack(data, w, lsdaVa, functionStart, pointerSize);
    SitesReadBack(data, t, w.sites, pointerSize);
    PadsOfSites(t.base, w.sites);
  }

  // ----- frame descriptions

  /** The beginning of a frame description: location and length of its function, the length of what follows, and where
      its table is. */
  datatype Description = Description(location: int, range: int, rest: nat, pointer: int)

  predicate DescriptionFits(w: Description, cie: Cie, pointerSize: nat) {
    && IsFixed(cie.fdeEncoding) && Fits(w.location, cie.fdeEncoding, pointerSize)
    && Fits(w.range, cie.fdeEncoding % 16, pointerSize) && 0 < w.rest < Power(10)
    && Fits(w.pointer, cie.lsdaEncoding, pointerSize) && w.pointer != 0
  }

  function FunctionBytes(w: Description, cie: Cie, pointerSize: nat): seq<Byte> {
    ValueBytes(w.location, cie.fdeEncoding, pointerSize) + ValueBytes(w.range, cie.fdeEncoding % 16, pointerSize)
    + UlebBytes(w.rest)
  }

  function DescriptionBytes(w: Description, cie: Cie, pointerSize: nat): seq<Byte> {
    FunctionBytes(w, cie, pointerSize) + ValueBytes(w.pointer, cie.lsdaEncoding, pointerSize)
  }

  /** What a description means at a position: a relative location counts from its own field, and so does a relative
      pointer to a table, in the address space of the section. */
  function HeadAt(w: Description, f: Fde, sectionVa: int, pointerSize: nat): Head {
    HeadFrom(w, f, sectionVa, |FunctionBytes(w, f.cie, pointerSize)|)
  }

  function HeadFrom(w: Description, f: Fde, sectionVa: int, before: nat): Head {
    Head(w.location + (if f.cie.fdeEncoding / 16 % 8 == 1 then sectionVa + f.pos else 0), w.range,
         w.pointer + if f.cie.lsdaEncoding / 16 % 8 == 1 then sectionVa + f.pos + before else 0)
  }

  /** The head of a description by readers of its four values. */
  function HeadVia(location: Parser<int>, range: Parser<int>, rest: Parser<int>, pointer: Parser<int>,
      f: Fde, sectionVa: int): Option<Head>
  {
    var (start, p1) := location(f.pos);
    var (length, p2) := range(p1);
    if start == None || length == None then None else
      var (more, p3) := rest(p2);
      if more == None || more.value == 0 then None else
        var (table, p4) := pointer(p3);
        if table == None || table.value == 0 then None
        else Some(Head(start.value + (if Mode(f.cie.fdeEncoding) == 1 then sectionVa + f.pos else 0), length.value,
                       table.value + if Mode(f.cie.lsdaEncoding) == 1 then sectionVa + p3 else 0))
  }

  lemma HeadIsVia(data: seq<Byte>, f: Fde, sectionVa: int, pointerSize: nat)
    requires f.end <= |data|
    ensures HeadOf(data, f, sectionVa, pointerSize)
      == HeadVia(FixedReader(data, f.end, f.cie.fdeEncoding, pointerSize),
                 FixedReader(data, f.end, f.cie.fdeEncoding % 16, pointerSize), NumberReader(data, f.end),
                 ValueReader(data, f.end, f.cie.lsdaEncoding, pointerSize), f, sectionVa)
  {
  }

  lemma HeadReads(data: seq<Byte>, r1: Parser<int>, r2: Parser<int>, r3: Parser<int>, r4: Parser<int>, f: Fde,
      sectionVa: int, w: Description, b1: seq<Byte>, b2: seq<Byte>, b3: seq<Byte>, b4: seq<Byte>)
    requires ReadsAs(data, f.end, r1, b1, w.location) && ReadsAs(data, f.end, r2, b2, w.range)
    requires ReadsAs(data, f.end, r3, b3, w.rest) && ReadsAs(data, f.end, r4, b4, w.pointer)
    requires w.rest > 0 && w.pointer != 0 && StandsAt(data, f.pos, f.end, b1 + b2 + b3 + b4)
    ensures HeadVia(r1, r2, r3, r4, f, sectionVa) == Some(HeadFrom(w, f, sectionVa, |b1 + b2 + b3|))
  {
    FourReadBack(data, f.end, r1, r2, r3, r4, f.pos, b1, w.location, b2, w.range, b3, w.rest, b4, w.pointer);
  }

  /** A frame description is read back as what it means. */
  lemma HeadRoundTrip(data: seq<Byte>, f: Fde, sectionVa: int, pointerSize: nat, w: Description)
    requires f.end <= |data| && DescriptionFits(w, f.cie, pointerSize)
    requires StandsAt(data, f.pos, f.end, DescriptionBytes(w, f.cie, pointerSize))
    ensures HeadOf(data, f, sectionVa, pointerSize) == Some(HeadAt(w, f, sectionVa, pointerSize))
  {
    var b1, b2 := ValueBytes(w.location, f.cie.fdeEncoding, pointerSize),
      ValueBytes(w.range, f.cie.fdeEncoding % 16, pointerSize);
    var b3, b4 := UlebBytes(w.rest), ValueBytes(w.pointer, f.cie.lsdaEncoding, pointerSize);
    FixedReads(data, f.end, w.location, f.cie.fdeEncoding, pointerSize);
    FixedReads(data, f.end, w.range, f.cie.fdeEncoding % 16, pointerSize);
    NumberReads(data, f.end, w.rest);
    ValueReads(data, f.end, w.pointer, f.cie.lsdaEncoding, pointerSize);
    HeadReads(data, FixedReader(data, f.end, f.cie.fdeEncoding, pointerSize),
      FixedReader(data, f.end, f.cie.fdeEncoding % 16, pointerSize), NumberReader(data, f.end),
      ValueReader(data, f.end, f.cie.lsdaEncoding, pointerSize), f, sectionVa, w, b1, b2, b3, b4);
    HeadIsVia(data, f, sectionVa, pointerSize);
  }

  // ----- records

  /** The width of the length and of the id of a record, in the extended form and in the short one. */
  function WidthOf(wide: bool): nat {
    if wide then 8 else 4
  }

  /** A record in the short form, or in the extended one, which begins with four bytes of ones. */
  function RecordBytes(wide: bool, id: nat, body: seq<Byte>): seq<Byte> {
    if wide then WideBytes(WidthOf(!wide), WidthOf(wide), id, body) else ShortBytes(WidthOf(wide), id, body)
  }

  function ShortBytes(size: nat, id: nat, body: seq<Byte>): seq<Byte> {
    LeBytes(|body| + size, size) + LeBytes(id, size) + body
  }

  function WideBytes(half: nat, size: nat, id: nat, body: seq<Byte>): seq<Byte> {
    LeBytes(0xFFFFFFFF, half) + LeBytes(|body| + size, size) + LeBytes(id, size) + body
  }

  predicate RecordFits(wide: bool, id: nat, body: seq<Byte>) {
    && id < PowerOf256(WidthOf(wide))
    && |body| + WidthOf(wide) < if wide then PowerOf256(WidthOf(wide)) else 0xFFFFFFFF
  }

  /** A reader of numbers of a fixed width. */
  function LeReader(data: seq<Byte>, size: nat): Parser<int> {
    (pos: nat) => NumberAt(data, pos, size)
  }

  function NumberAt(data: seq<Byte>, pos: nat, size: nat): (r: Reading) {
    if pos + size <= |data| then (Some(Number(data[pos..pos + size], false)), pos + size) else (None, pos)
  }

  lemma LeReads(data: seq<Byte>, size: nat, n: nat)
    requires n < PowerOf256(size)
    ensures ReadsAs(data, |data|, LeReader(data, size), LeBytes(n, size), n)
  {
    var read, bs := LeReader(data, size), LeBytes(n, size);
    LittleEndianReadsBack(n, size);
    forall pos: nat | StandsAt(data, pos, |data|, bs)
      ensures read(pos).0 == Some(n) && read(pos).1 == pos + |bs|
    {
      assert data[pos..pos + size] == bs;
    }
  }

  lemma ShortIsFour(size: nat)
    requires size == 4
    ensures PowerOf256(size) == 0x1_0000_0000
  {
    assert PowerOf256(1) == 256 && PowerOf256(2) == 0x1_0000 && PowerOf256(3) == 0x100_0000;
  }

  /** A record by readers of its numbers, narrow and wide. */
  function RecordVia(narrow: Parser<int>, wide: Parser<int>, total: nat, start: nat): Option<Record> {
    var (short, p1) := narrow(start);
    if short == None || short.value <= 0 then None
    else if short.value != 0xFFFFFFFF then RestVia(narrow, total, start, p1, short.value)
    else
      var (length, p2) := wide(p1);
      if length == None || length.value < 0 then None else RestVia(wide, total, start, p2, length.value)
  }

  function RestVia(read: Parser<int>, total: nat, start: nat, idPos: nat, length: nat): Option<Record> {
    if idPos + length > total then None else
      var (id, body) := read(idPos);
      if id == None || id.value < 0 || body > idPos + length then None
      else Some(Record(start, idPos, id.value, body, idPos + length))
  }

  lemma RecordIsVia(data: seq<Byte>, start: nat, four: nat, eight: nat)
    requires four == 4 && eight == 8
    ensures RecordAt(data, start) == RecordVia(LeReader(data, four), LeReader(data, eight), |data|, start)
  {
  }

  lemma ShortReads(data: seq<Byte>, narrow: Parser<int>, wide: Parser<int>, start: nat, id: nat,
      length: nat, b1: seq<Byte>, b2: seq<Byte>, body: seq<Byte>)
    requires ReadsAs(data, |data|, narrow, b1, length) && ReadsAs(data, |data|, narrow, b2, id)
    requires 0 < length < 0xFFFFFFFF && length == |b2| + |body| && StandsAt(data, start, |data|, b1 + b2 + body)
    ensures RecordVia(narrow, wide, |data|, start)
      == Some(Record(start, start + |b1|, id, start + |b1| + |b2|, start + |b1| + length))
  {
    StandsInTwo(data, start, |data|, b1 + b2, body);
    StandsInTwo(data, start, |data|, b1, b2);
  }

  lemma WideReads(data: seq<Byte>, narrow: Parser<int>, wide: Parser<int>, start: nat, id: nat, length: nat,
      b0: seq<Byte>, b1: seq<Byte>, b2: seq<Byte>, body: seq<Byte>)
    requires ReadsAs(data, |data|, narrow, b0, 0xFFFFFFFF)
    requires ReadsAs(data, |data|, wide, b1, length) && ReadsAs(data, |data|, wide, b2, id)
    requires length == |b2| + |body| && StandsAt(data, start, |data|, b0 + b1 + b2 + body)
    ensures RecordVia(narrow, wide, |data|, start)
      == Some(Record(start, start + |b0| + |b1|, id, start + |b0| + |b1| + |b2|, start + |b0| + |b1| + length))
  {
    StandsInFour(data, start, |data|, b0, b1, b2, body);
  }

  /** Bytes that stand for a number. */
  ghost predicate Says(data: seq<Byte>, size: nat, n: int, bs: seq<Byte>) {
    |bs| == size && ReadsAs(data, |data|, LeReader(data, size), bs, n)
  }

  lemma LeSays(data: seq<Byte>, size: nat, n: nat)
    requires n < PowerOf256(size)
    ensures Says(data, size, n, LeBytes(n, size))
  {
    LeReads(data, size, n);
  }

  lemma ShortRecord(data: seq<Byte>, start: nat, four: nat, eight: nat, length: nat, id: nat,
      b1: seq<Byte>, b2: seq<Byte>, body: seq<Byte>)
    requires four == 4 && length == |body| + 4 < 0xFFFFFFFF && Says(data, four, length, b1)
    requires Says(data, four, id, b2) && StandsAt(data, start, |data|, b1 + b2 + body)
    ensures RecordVia(LeReader(data, four), LeReader(data, eight), |data|, start)
      == Some(Record(start, start + 4, id, start + 8, start + 8 + |body|))
  {
    ShortReads(data, LeReader(data, four), LeReader(data, eight), start, id, length, b1, b2, body);
  }

  lemma WideRecord(data: seq<Byte>, start: nat, four: nat, eight: nat, length: nat, id: nat,
      b0: seq<Byte>, b1: seq<Byte>, b2: seq<Byte>, body: seq<Byte>)
    requires four == 4 && eight == 8 && length == |body| + 8 && Says(data, four, 0xFFFFFFFF, b0)
    requires Says(data, eight, length, b1) && Says(data, eight, id, b2)
    requires StandsAt(data, start, |data|, b0 + b1 + b2 + body)
    ensures RecordVia(LeReader(data, four), LeReader(data, eight), |data|, start)
      == Some(Record(start, start + 12, id, start + 20, start + 20 + |body|))
  {
    WideReads(data, LeReader(data, four), LeReader(data, eight), start, id, length, b0, b1, b2, body);
  }

  lemma ShortIsRead(data: seq<Byte>, start: nat, four: nat, eight: nat, id: nat, body: seq<Byte>)
    requires four == 4 && eight == 8 && |body| + four < 0xFFFFFFFF && id < PowerOf256(four)
    requires StandsAt(data, start, |data|, ShortBytes(four, id, body))
    ensures RecordAt(data, start) == Some(Record(start, start + 4, id, start + 8, start + 8 + |body|))
  {
    RecordIsVia(data, start, four, eight);
    ShortIsFour(four);
    LeSays(data, four, |body| + four);
    LeSays(data, four, id);
    ShortRecord(data, start, four, eight, |body| + four, id, LeBytes(|body| + four, four), LeBytes(id, four), body);
  }

  lemma WideIsRead(data: seq<Byte>, start: nat, four: nat, eight: nat, id: nat, body: seq<Byte>)
    requires four == 4 && eight == 8 && |body| + eight < PowerOf256(eight) && id < PowerOf256(eight)
    requires StandsAt(data, start, |data|, WideBytes(four, eight, id, body))
    ensures RecordAt(data, start) == Some(Record(start, start + 12, id, start + 20, start + 20 + |body|))
  {
    RecordIsVia(data, start, four, eight);
    ShortIsFour(four);
    LeSays(data, four, 0xFFFFFFFF);
    LeSays(data, eight, |body| + eight);
    LeSays(data, eight, id);
    WideRecord(data, start, four, eight, |body| + eight, id, LeBytes(0xFFFFFFFF, four), LeBytes(|body| + eight, eight),
      LeBytes(id, eight), body);
  }

  /** A record as it is read: after the length, which takes 4 bytes or 12, comes the id of 4 bytes or 8. */
  function Recorded(start: nat, wide: bool, id: nat, length: nat): Record {
    if wide then Record(start, start + 12, id, start + 20, start + 20 + length)
    else Record(start, start + 4, id, start + 8, start + 8 + length)
  }

  /** A record is read back as it was written, in either form: its id, and where its body and the next one begin. */
  lemma RecordRoundTrip(data: seq<Byte>, start: nat, wide: bool, id: nat, body: seq<Byte>)
    requires RecordFits(wide, id, body) && StandsAt(data, start, |data|, RecordBytes(wide, id, body))
    ensures RecordAt(data, start) == Some(Recorded(start, wide, id, |body|))
  {
    if wide {
      WideIsRead(data, start, WidthOf(!wide), WidthOf(wide), id, body);
    } else {
      ShortIsRead(data, start, WidthOf(wide), WidthOf(!wide), id, body);
    }
  }
}
