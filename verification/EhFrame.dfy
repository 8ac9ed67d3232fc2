/** Exception landing pads decoded from `.eh_frame` and the tables it points to, under budgets and with memos. */
module EhFrame {
  import opened Collections
  import opened Leb128

  const OMIT: Byte := 0xFF
  const MAX_LSDA_BYTES: nat := 0x10000

  // ----- encoded values

  /** The value format of a pointer encoding. */
  function Format(encoding: Byte): nat {
    encoding % 16
  }

  /** Its application mode: 0 is absolute, 1 is relative to the field. */
  function Mode(encoding: Byte): nat {
    encoding / 16 % 8
  }

  function LittleEndian(bs: seq<Byte>): nat {
    if bs == [] then 0 else bs[0] + 256 * LittleEndian(bs[1..])
  }

  function PowerOf256(k: nat): nat {
    if k == 0 then 1 else 256 * PowerOf256(k - 1)
  }

  function Number(bs: seq<Byte>, signed: bool): int {
    if signed && bs != [] && bs[|bs| - 1] >= 128 then LittleEndian(bs) - PowerOf256(|bs|) else LittleEndian(bs)
  }

  /** How wide a value of a fixed-width format is, and whether it is signed. */
  function ValueSize(format: nat, pointerSize: nat): Option<(nat, bool)> {
    match format
    case 0x0 => Some((pointerSize, false))
    case 0x2 => Some((2, false))
    case 0x3 => Some((4, false))
    case 0x4 => Some((8, false))
    case 0xA => Some((2, true))
    case 0xB => Some((4, true))
    case 0xC => Some((8, true))
    case _ => None
  }

  function EncodedValue(data: seq<Byte>, pos: nat, end: nat, encoding: Byte, pointerSize: nat): (r: Reading)
    requires end <= |data|
    ensures r.1 >= pos && (r.0.Some? ==> r.1 <= end)
  {
    match ValueSize(Format(encoding), pointerSize)
    case Some((size, signed)) =>
      if pos + size > end then (None, pos) else (Some(Number(data[pos..pos + size], signed)), pos + size)
    case None => (None, pos)
  }

  /** In the tables the LEB128 formats are accepted too. */
  function LsdaValue(data: seq<Byte>, pos: nat, end: nat, encoding: Byte, pointerSize: nat): (r: Reading)
    requires end <= |data|
    ensures r.1 >= pos && (r.0.Some? ==> r.1 <= end)
  {
    if Format(encoding) == 0x1 then Uleb(data, pos, end)
    else if Format(encoding) == 0x9 then Sleb(data, pos, end)
    else EncodedValue(data, pos, end, encoding, pointerSize)
  }

  // ----- frame descriptions

  datatype Cie = Cie(fdeEncoding: Byte, supported: bool, lsdaEncoding: Byte)

  /** A frame description: its CIE, and where its body begins and ends. */
  datatype Fde = Fde(cie: Cie, pos: nat, end: nat)

  /** How the body of a CIE is read: data, position, end, pointer size. */
  type CieParser = (seq<Byte>, nat, nat, nat) -> Cie

  /** One record: where its body and the next record begin, and what its id field says. */
  datatype Record = Record(start: nat, idPos: nat, id: nat, body: nat, end: nat)

  /** The record at a position, unless the section ends there or the cursor can no longer be trusted. */
  function RecordAt(data: seq<Byte>, start: nat): (r: Option<Record>)
    ensures r.Some? ==> start < r.value.idPos < r.value.body <= r.value.end <= |data| && r.value.start == start
  {
    if start + 4 > |data| then None else
      var short := LittleEndian(data[start..start + 4]);
      if short == 0 || (short == 0xFFFFFFFF && start + 12 > |data|) then None else
        var wide := short == 0xFFFFFFFF;
        var length := if wide then LittleEndian(data[start + 4..start + 12]) else short;
        var idPos := if wide then start + 12 else start + 4;
        var idSize := if wide then 8 else 4;
        if idPos + length > |data| || idPos + idSize > idPos + length then None
        else Some(Record(start, idPos, LittleEndian(data[idPos..idPos + idSize]), idPos + idSize, idPos + length))
  }

  /** A record with id 0 is a CIE; any other is a frame description, of the CIE that lies its id before the field. */
  function Noted(data: seq<Byte>, pointerSize: nat, parse: CieParser, r: Record, cies: map<int, Cie>): map<int, Cie> {
    if r.id == 0 then cies[r.start := parse(data, r.body, r.end, pointerSize)] else cies
  }

  function Given(r: Record, cies: map<int, Cie>): seq<Fde> {
    var key := r.idPos - r.id;
    if r.id != 0 && key in cies && cies[key].supported then [Fde(cies[key], r.body, r.end)] else []
  }

  /** The frame descriptions from a position on, in at most `left` records; `cies` are the CIEs met so far. */
  function FdesFrom(data: seq<Byte>, pointerSize: nat, parse: CieParser, pos: nat, cies: map<int, Cie>,
      left: nat): (fs: seq<Fde>)
    ensures forall f :: f in fs ==> f.cie.supported && pos < f.pos <= f.end <= |data|
    decreases left
  {
    if left == 0 then [] else
      match RecordAt(data, pos)
      case None => []
      case Some(r) =>
        Given(r, cies) + FdesFrom(data, pointerSize, parse, r.end, Noted(data, pointerSize, parse, r, cies), left - 1)
  }

  lemma FdesNext(data: seq<Byte>, pointerSize: nat, parse: CieParser, pos: nat, cies: map<int, Cie>, left: nat,
      r: Record, fdes: seq<Fde>)
    requires left > 0 && RecordAt(data, pos) == Some(r)
    ensures fdes + FdesFrom(data, pointerSize, parse, pos, cies, left)
      == (fdes + Given(r, cies))
         + FdesFrom(data, pointerSize, parse, r.end, Noted(data, pointerSize, parse, r, cies), left - 1)
  {
    Regrouped(fdes, Given(r, cies),
      FdesFrom(data, pointerSize, parse, r.end, Noted(data, pointerSize, parse, r, cies), left - 1));
  }

  lemma Regrouped<T>(p: seq<T>, q: seq<T>, r: seq<T>)
    ensures p + (q + r) == (p + q) + r
  {
  }

  method ReadRecord(data: seq<Byte>, start: nat) returns (r: Option<Record>)
    ensures r == RecordAt(data, start)
  {
    var pos, total := start, |data|;
    if pos + 4 > total {
      return None;
    }
    var length := LittleEndian(data[pos..pos + 4]);
    pos := pos + 4;
    if length == 0 {
      return None;
    }
    var idSize := 4;
    if length == 0xFFFFFFFF {
      if pos + 8 > total {
        return None;
      }
      length := LittleEndian(data[pos..pos + 8]);
      pos := pos + 8;
      idSize := 8;
    }
    var recordEnd := pos + length;
    if length > total || recordEnd > total || pos + idSize > recordEnd {
      return None;
    }
    return Some(Record(start, pos, LittleEndian(data[pos..pos + idSize]), pos + idSize, recordEnd));
  }

  /** Keeps a CIE, or gives out a frame description of a known one. */
  method TakeRecord(data: seq<Byte>, pointerSize: nat, parse: CieParser, r: Record, known: map<int, Cie>,
      given: seq<Fde>) returns (cies: map<int, Cie>, fdes: seq<Fde>)
    ensures cies == Noted(data, pointerSize, parse, r, known) && fdes == given + Given(r, known)
  {
    cies, fdes := known, given;
    if r.id == 0 {
      cies := cies[r.start := parse(data, r.body, r.end, pointerSize)];
    } else {
      var key := r.idPos - r.id;
      if key in cies && cies[key].supported {
        fdes := fdes + [Fde(cies[key], r.body, r.end)];
      }
    }
  }

  /** Walks the records of a section: the CIEs are kept, the frame descriptions of a known one given out. */
  method WalkEhFrameFdes(data: seq<Byte>, pointerSize: nat, parse: CieParser, maxRecords: nat) returns (fdes: seq<Fde>)
    ensures fdes == FdesFrom(data, pointerSize, parse, 0, map[], maxRecords)
  {
    var cies: map<int, Cie> := map[];
    var pos := 0;
    fdes := [];
    ghost var all := FdesFrom(data, pointerSize, parse, 0, map[], maxRecords);
    var n := 0;
    while n < maxRecords
      invariant n <= maxRecords && all == fdes + FdesFrom(data, pointerSize, parse, pos, cies, maxRecords - n)
    {
      n := n + 1;
      var record := ReadRecord(data, pos);
      if record == None {
        return;
      }
      var r := record.value;
      FdesNext(data, pointerSize, parse, pos, cies, maxRecords - n + 1, r, fdes);
      cies, fdes := TakeRecord(data, pointerSize, parse, r, cies, fdes);
      pos := r.end;
    }
  }

  ghost predicate InOrder(fs: seq<Fde>) {
    forall i, j :: 0 <= i < j < |fs| ==> fs[i].end < fs[j].pos
  }

  lemma InOrderMore(given: seq<Fde>, rest: seq<Fde>)
    requires |given| <= 1 && InOrder(rest)
    requires forall f, g :: f in given && g in rest ==> f.end < g.pos
    ensures InOrder(given + rest)
  {
    forall i, j | 0 <= i < j < |given + rest|
      ensures (given + rest)[i].end < (given + rest)[j].pos
    {
      if i < |given| {
        assert (given + rest)[i] in given && (given + rest)[j] in rest;
      }
    }
  }

  /** Bodies of frame descriptions do not overlap, and come in the order of the section. */
  lemma {:induction false} FdesAreInOrder(data: seq<Byte>, pointerSize: nat, parse: CieParser, pos: nat,
      cies: map<int, Cie>, left: nat)
    ensures var fs := FdesFrom(data, pointerSize, parse, pos, cies, left);
      |fs| <= left && InOrder(fs)
    decreases left
  {
    if left > 0 && RecordAt(data, pos).Some? {
      var r := RecordAt(data, pos).value;
      var after := Noted(data, pointerSize, parse, r, cies);
      var rest := FdesFrom(data, pointerSize, parse, r.end, after, left - 1);
      FdesAreInOrder(data, pointerSize, parse, r.end, after, left - 1);
      InOrderMore(Given(r, cies), rest);
    }
  }

  // ----- the table of landing pads

  /** The call-site table of an LSDA: what its pads are relative to, how its entries are encoded, and where it is. */
  datatype Table = Table(base: int, encoding: Byte, pos: nat, end: nat)

  function PadBase(data: seq<Byte>, lsdaVa: int, functionStart: int, pointerSize: nat): (r: Reading)
    requires data != []
    ensures r.1 >= 1
  {
    if data[0] == OMIT then (Some(functionStart), 1)
    else if Mode(data[0]) > 1 then (None, 1)
    else
      var (value, pos) := LsdaValue(data, 1, |data|, data[0], pointerSize);
      (if value.Some? then Some(value.value + if Mode(data[0]) == 1 then lsdaVa + 1 else 0) else None, pos)
  }

  /** The offset of the type table, if there is one; the call-site encoding follows. */
  function TypesAt(data: seq<Byte>, pos: nat): (r: Reading)
    requires pos < |data|
    ensures r.1 > pos
  {
    if data[pos] == OMIT then (Some(0), pos + 1) else Uleb(data, pos + 1, |data|)
  }

  /** The header of an LSDA. */
  function TableOf(data: seq<Byte>, lsdaVa: int, functionStart: int, pointerSize: nat): (t: Option<Table>)
    ensures t.Some? ==> 0 < t.value.pos <= t.value.end <= |data|
  {
    if data == [] then None else
      var (base, ttypePos) := PadBase(data, lsdaVa, functionStart, pointerSize);
      if base == None || ttypePos >= |data| then None else
        var (offset, sitePos) := TypesAt(data, ttypePos);
        if offset == None || sitePos >= |data| || Mode(data[sitePos]) != 0 then None else
          var (length, pos) := Uleb(data, sitePos + 1, |data|);
          if length == None || pos + length.value > |data| then None
          else Some(Table(base.value, data[sitePos], pos, pos + length.value))
  }

  /** The entry at a position: its landing pad, and where the next one is. Only these and the action are looked at. */
  function EntryAt(data: seq<Byte>, t: Table, pos: nat, pointerSize: nat): (e: Option<(int, nat)>)
    requires t.end <= |data|
    ensures e.Some? ==> pos < e.value.1 <= t.end
  {
    var (start, p1) := LsdaValue(data, pos, t.end, t.encoding, pointerSize);
    var (length, p2) := LsdaValue(data, p1, t.end, t.encoding, pointerSize);
    var (pad, p3) := LsdaValue(data, p2, t.end, t.encoding, pointerSize);
    var (action, p4) := Uleb(data, p3, t.end);
    if pad == None || action == None then None else Some((pad.value, p4))
  }

  /** The landing pads of the entries from a position on; none if an entry cannot be read. */
  function PadsFrom(data: seq<Byte>, t: Table, pos: nat, pointerSize: nat): Option<set<int>>
    requires t.end <= |data|
    decreases t.end - pos
  {
    if pos >= t.end then Some({}) else
      match EntryAt(data, t, pos, pointerSize)
      case None => None
      case Some((pad, next)) => WithMore(PadsFrom(data, t, next, pointerSize), PadSet(t.base, pad))
  }

  /** A zero landing pad means that there is none. */
  function PadSet(base: int, pad: int): set<int> {
    if pad != 0 then {base + pad} else {}
  }

  function WithMore<T>(s: Option<set<T>>, more: set<T>): Option<set<T>> {
    if s == None then None else Some(s.value + more)
  }

  /** What an LSDA declares, if it decodes. */
  function Lsda(data: seq<Byte>, lsdaVa: int, functionStart: int, pointerSize: nat): Option<set<int>> {
    match TableOf(data, lsdaVa, functionStart, pointerSize)
    case None => None
    case Some(t) => PadsFrom(data, t, t.pos, pointerSize)
  }

  // ----- one frame description

  /** What a frame description says: where its function begins, how long it is, and where its LSDA is. */
  datatype Head = Head(start: int, range: int, lsdaVa: int)

  function HeadOf(data: seq<Byte>, f: Fde, sectionVa: int, pointerSize: nat): Option<Head>
    requires f.end <= |data|
  {
    var (location, p1) := EncodedValue(data, f.pos, f.end, f.cie.fdeEncoding, pointerSize);
    var (range, p2) := EncodedValue(data, p1, f.end, f.cie.fdeEncoding % 16, pointerSize);
    if location == None || range == None then None else
      var start := location.value + if Mode(f.cie.fdeEncoding) == 1 then sectionVa + f.pos else 0;
      var (length, p3) := Uleb(data, p2, f.end);
      if length == None || length.value == 0 then None else
        var (pointer, p4) := LsdaValue(data, p3, f.end, f.cie.lsdaEncoding, pointerSize);
        if pointer == None || pointer.value == 0 then None
        else Some(Head(start, range.value, pointer.value + if Mode(f.cie.lsdaEncoding) == 1 then sectionVa + p3 else 0))
  }

  /** The descriptions that name an LSDA, in order. */
  function HeadsOf(data: seq<Byte>, fdes: seq<Fde>, sectionVa: int, pointerSize: nat): seq<Head>
    requires forall f :: f in fdes ==> f.end <= |data|
  {
    if fdes == [] then [] else
      var before := HeadsOf(data, fdes[..|fdes| - 1], sectionVa, pointerSize);
      var f := fdes[|fdes| - 1];
      if f.cie.lsdaEncoding == OMIT || HeadOf(data, f, sectionVa, pointerSize) == None then before
      else before + [HeadOf(data, f, sectionVa, pointerSize).value]
  }

  /** The bytes at an address, at most as many as asked for or not. */
  type Reader = (int, nat) -> seq<Byte>

  function Declared(read: Reader, lsdaVa: int, start: int, pointerSize: nat): set<int> {
    var pads := Lsda(read(lsdaVa, MAX_LSDA_BYTES), lsdaVa, start, pointerSize);
    if pads == None then {} else pads.value
  }

  predicate InRange(h: Head, pad: int) {
    h.start <= pad < h.start + h.range
  }

  /** What a description declares, with no memo and no budget. */
  function PlainPads(read: Reader, h: Head, pointerSize: nat): set<int> {
    set pad | pad in Declared(read, h.lsdaVa, h.start, pointerSize) && InRange(h, pad)
  }

  function PlainUnion(read: Reader, hs: seq<Head>, pointerSize: nat): set<int> {
    if hs == [] then {} else PlainUnion(read, hs[..|hs| - 1], pointerSize) + PlainPads(read, hs[|hs| - 1], pointerSize)
  }

  // ----- memos and budgets

  /** Tables decoded, addresses that read back empty, and the bytes still allowed: decoded, and read in vain. */
  datatype Memo = Memo(decoded: map<(int, int), set<int>>, unreadable: set<int>, budget: int, readBudget: int)

  /** The table bytes an LSDA costs: the length of its call-site table, if the header decodes. */
  function Cost(data: seq<Byte>, lsdaVa: int, start: int, pointerSize: nat): nat {
    match TableOf(data, lsdaVa, start, pointerSize)
    case None => 0
    case Some(t) => t.end - t.pos
  }

  /** One description, with memos and budgets. */
  function Next(m: Memo, read: Reader, h: Head, pointerSize: nat): (Memo, set<int>) {
    var key := (h.lsdaVa, h.start);
    if key in m.decoded then (m, set pad | pad in m.decoded[key] && InRange(h, pad))
    else if h.lsdaVa in m.unreadable || m.budget <= 0 || m.readBudget <= 0 then (m, {})
    else
      var bytes := read(h.lsdaVa, MAX_LSDA_BYTES);
      if bytes == [] then (m.(unreadable := m.unreadable + {h.lsdaVa}), {})
      else
        var pads := Declared(read, h.lsdaVa, h.start, pointerSize);
        (m.(decoded := m.decoded[key := pads],
            budget := m.budget - Cost(bytes, h.lsdaVa, h.start, pointerSize),
            readBudget := if pads == {} then m.readBudget - |bytes| else m.readBudget),
         set pad | pad in pads && InRange(h, pad))
  }

  function All(m: Memo, read: Reader, hs: seq<Head>, pointerSize: nat): (Memo, set<int>) {
    if hs == [] then (m, {}) else
      var (before, pads) := All(m, read, hs[..|hs| - 1], pointerSize);
      var (after, more) := Next(before, read, hs[|hs| - 1], pointerSize);
      (after, pads + more)
  }

  function Fresh(maxTableBytes: nat, maxFailedReadBytes: nat): Memo {
    Memo(map[], {}, maxTableBytes, maxFailedReadBytes)
  }

  // ----- the memos change nothing, the budgets only lose

  /** The memos hold what the plain decoder says. */
  ghost predicate Faithful(m: Memo, read: Reader, pointerSize: nat) {
    && (forall k :: k in m.decoded ==> m.decoded[k] == Declared(read, k.0, k.1, pointerSize))
    && (forall va :: va in m.unreadable ==> read(va, MAX_LSDA_BYTES) == [])
  }

  lemma NextIsFaithful(m: Memo, read: Reader, h: Head, pointerSize: nat)
    requires Faithful(m, read, pointerSize)
    ensures var (after, pads) := Next(m, read, h, pointerSize);
      && Faithful(after, read, pointerSize)
      && pads <= PlainPads(read, h, pointerSize)
      && after.budget <= m.budget && after.readBudget <= m.readBudget
      && (m.budget > 0 && m.readBudget > 0 ==> pads == PlainPads(read, h, pointerSize))
  {
  }

  /** With memos and budgets no pad is invented, and none is lost unless a budget is exhausted. */
  lemma {:induction false} MemosAgreeWithPlainDecoding(m: Memo, read: Reader, hs: seq<Head>, pointerSize: nat)
    requires Faithful(m, read, pointerSize)
    ensures var (after, pads) := All(m, read, hs, pointerSize);
      && Faithful(after, read, pointerSize)
      && pads <= PlainUnion(read, hs, pointerSize)
      && after.budget <= m.budget && after.readBudget <= m.readBudget
      && (after.budget > 0 && after.readBudget > 0 ==> pads == PlainUnion(read, hs, pointerSize))
  {
    if hs != [] {
      MemosAgreeWithPlainDecoding(m, read, hs[..|hs| - 1], pointerSize);
      var before := All(m, read, hs[..|hs| - 1], pointerSize).0;
      NextIsFaithful(before, read, hs[|hs| - 1], pointerSize);
    }
  }

  /** Every pad lies in the range of a description that declares it. */
  lemma {:induction false} PadsLieInTheirRange(read: Reader, hs: seq<Head>, pointerSize: nat, pad: int)
    requires pad in PlainUnion(read, hs, pointerSize)
    ensures exists h :: h in hs && InRange(h, pad) && pad in Declared(read, h.lsdaVa, h.start, pointerSize)
  {
    var last := hs[|hs| - 1];
    if pad in PlainPads(read, last, pointerSize) {
      assert last in hs;
    } else {
      PadsLieInTheirRange(read, hs[..|hs| - 1], pointerSize, pad);
    }
  }

  /** The reader gives no more than it is asked for. */
  ghost predicate Modest(read: Reader) {
    forall va, n :: |read(va, n)| <= n
  }

  lemma CostIsBelowLength(data: seq<Byte>, lsdaVa: int, start: int, pointerSize: nat)
    ensures data != [] ==> Cost(data, lsdaVa, start, pointerSize) < |data|
  {
  }

  /** Each budget is overdrawn by less than one LSDA: fewer table bytes are charged than the budget and
      `MAX_LSDA_BYTES` together, and so are fewer bytes that were read in vain. */
  lemma {:induction false} ChargesAreBounded(m: Memo, read: Reader, hs: seq<Head>, pointerSize: nat)
    requires Modest(read) && m.budget + MAX_LSDA_BYTES > 0 && m.readBudget + MAX_LSDA_BYTES > 0
    ensures var after := All(m, read, hs, pointerSize).0;
      && m.budget - after.budget < m.budget + MAX_LSDA_BYTES
      && m.readBudget - after.readBudget < m.readBudget + MAX_LSDA_BYTES
  {
    if hs != [] {
      var h := hs[|hs| - 1];
      ChargesAreBounded(m, read, hs[..|hs| - 1], pointerSize);
      var bytes := read(h.lsdaVa, MAX_LSDA_BYTES);
      CostIsBelowLength(bytes, h.lsdaVa, h.start, pointerSize);
    }
  }

  // ----- the decoder

  /** What was read so far, and what is still to be read. */
  ghost function Joined<T>(found: set<T>, rest: Option<set<T>>): Option<set<T>> {
    if rest == None then None else Some(found + rest.value)
  }

  lemma JoinMore<T>(found: set<T>, rest: Option<set<T>>, more: set<T>)
    ensures Joined(found, WithMore(rest, more)) == Joined(found + more, rest)
  {
    if rest.Some? {
      assert found + (rest.value + more) == (found + more) + rest.value;
    }
  }

  lemma JoinNothing<T>(found: set<T>)
    ensures found + {} == found
    ensures Joined(found, Some({})) == Some(found)
  {
    assert found + {} == found;
  }

  lemma NothingJoined<T>(rest: Option<set<T>>)
    ensures Joined({}, rest) == rest
  {
    if rest.Some? {
      assert {} + rest.value == rest.value;
    }
  }

  lemma EntryJoins(data: seq<Byte>, t: Table, pos: nat, pointerSize: nat, found: set<int>)
    requires pos < t.end <= |data| && EntryAt(data, t, pos, pointerSize).Some?
    ensures var (pad, next) := EntryAt(data, t, pos, pointerSize).value;
      Joined(found, PadsFrom(data, t, pos, pointerSize))
      == Joined(found + PadSet(t.base, pad), PadsFrom(data, t, next, pointerSize))
  {
    var (pad, next) := EntryAt(data, t, pos, pointerSize).value;
    JoinMore(found, PadsFrom(data, t, next, pointerSize), PadSet(t.base, pad));
  }

  /** An entry without a landing pad has 0 in its place. */
  method WithPad(found: set<int>, base: int, pad: int) returns (pads: set<int>)
    ensures pads == found + PadSet(base, pad)
  {
    pads := found;
    if pad != 0 {
      pads := pads + {base + pad};
    }
  }

  class LandingPadDecoder {
    const read: Reader
    const sectionVa: int
    const pointerSize: nat
    var decoded: map<(int, int), set<int>>
    var unreadable: set<int>
    var budget: int
    var readBudget: int

    function View(): Memo
      reads this
    {
      Memo(decoded, unreadable, budget, readBudget)
    }

    constructor (read: Reader, sectionVa: int, pointerSize: nat, maxTableBytes: nat, maxFailedReadBytes: nat)
      ensures View() == Fresh(maxTableBytes, maxFailedReadBytes)
      ensures this.read == read && this.sectionVa == sectionVa && this.pointerSize == pointerSize
    {
      this.read, this.sectionVa, this.pointerSize := read, sectionVa, pointerSize;
      decoded, unreadable, budget, readBudget := map[], {}, maxTableBytes, maxFailedReadBytes;
    }

    method ReadEntry(data: seq<Byte>, t: Table, pos: nat) returns (entry: Option<(int, nat)>)
      requires t.end <= |data|
      ensures entry == EntryAt(data, t, pos, pointerSize)
    {
      var start := LsdaValue(data, pos, t.end, t.encoding, pointerSize);
      var length := LsdaValue(data, start.1, t.end, t.encoding, pointerSize);
      var pad := LsdaValue(data, length.1, t.end, t.encoding, pointerSize);
      var action, next := ReadUleb128(data, pad.1, t.end);
      if pad.0 == None || action == None {
        return None;
      }
      return Some((pad.0.value, next));
    }

    /** The call-site table, entry by entry. */
    method ReadTable(data: seq<Byte>, t: Table) returns (pads: Option<set<int>>)
      requires t.pos <= t.end <= |data|
      ensures pads == PadsFrom(data, t, t.pos, pointerSize)
    {
      var pos := t.pos;
      var found: set<int> := {};
      ghost var all := PadsFrom(data, t, pos, pointerSize);
      NothingJoined(all);
      while pos < t.end
        invariant all == Joined(found, PadsFrom(data, t, pos, pointerSize))
        decreases t.end - pos
      {
        var entry := ReadEntry(data, t, pos);
        if entry == None {
          return None;
        }
        var (pad, next) := entry.value;
        EntryJoins(data, t, pos, pointerSize, found);
        found := WithPad(found, t.base, pad);
        pos := next;
      }
      JoinNothing(found);
      return Some(found);
    }

    /** What an LSDA declares, charged to the budget; none if it does not decode or the budget is spent. */
    method DecodeLsdaLandingPads(data: seq<Byte>, lsdaVa: int, start: int) returns (pads: Option<set<int>>)
      modifies `budget
      ensures pads == if old(budget) > 0 then Lsda(data, lsdaVa, start, pointerSize) else None
      ensures budget == if old(budget) > 0 then old(budget) - Cost(data, lsdaVa, start, pointerSize) else old(budget)
    {
      var table := TableOf(data, lsdaVa, start, pointerSize);
      if table == None || budget <= 0 {
        return None;
      }
      budget := budget - (table.value.end - table.value.pos);
      pads := ReadTable(data, table.value);
    }

    method FdeLandingPads(data: seq<Byte>, f: Fde) returns (pads: set<int>)
      requires f.end <= |data|
      modifies this
      ensures var h := HeadOf(data, f, sectionVa, pointerSize);
        if h == None then View() == old(View()) && pads == {}
        else View() == Next(old(View()), read, h.value, pointerSize).0
             && pads == Next(old(View()), read, h.value, pointerSize).1
    {
      var head := HeadOf(data, f, sectionVa, pointerSize);
      if head == None {
        return {};
      }
      var h := head.value;
      var key := (h.lsdaVa, h.start);
      if key !in decoded {
        if h.lsdaVa in unreadable {
          return {};
        }
        if budget <= 0 || readBudget <= 0 {
          return {};
        }
        var bytes := read(h.lsdaVa, MAX_LSDA_BYTES);
        if bytes == [] {
          unreadable := unreadable + {h.lsdaVa};
          return {};
        }
        var found := DecodeLsdaLandingPads(bytes, h.lsdaVa, h.start);
        var declared := if found == None then {} else found.value;
        if declared == {} {
          readBudget := readBudget - |bytes|;
        }
        decoded := decoded[key := declared];
      }
      return set pad | pad in decoded[key] && h.start <= pad < h.start + h.range;
    }

    /** The frame descriptions one after the other. */
    method DecodeAll(data: seq<Byte>, parse: CieParser, maxRecords: nat) returns (pads: set<int>)
      modifies this
      ensures var fdes := FdesFrom(data, pointerSize, parse, 0, map[], maxRecords);
        var result := All(old(View()), read, HeadsOf(data, fdes, sectionVa, pointerSize), pointerSize);
        View() == result.0 && pads == result.1
    {
      var fdes := WalkEhFrameFdes(data, pointerSize, parse, maxRecords);
      pads := {};
      ghost var expected: (Memo, set<int>) := (View(), {});
      var k := 0;
      while k < |fdes|
        invariant k <= |fdes|
        invariant expected == All(old(View()), read, HeadsOf(data, fdes[..k], sectionVa, pointerSize), pointerSize)
        invariant View() == expected.0 && pads == expected.1
      {
        OneMoreHead(old(View()), read, data, fdes, k, sectionVa, pointerSize);
        expected := All(old(View()), read, HeadsOf(data, fdes[..k + 1], sectionVa, pointerSize), pointerSize);
        if fdes[k].cie.lsdaEncoding != OMIT {
          var more := FdeLandingPads(data, fdes[k]);
          pads := pads + more;
        }
        k := k + 1;
      }
      assert fdes[..k] == fdes;
    }
  }

  lemma OneMoreHead(m: Memo, read: Reader, data: seq<Byte>, fdes: seq<Fde>, k: nat, sectionVa: int, pointerSize: nat)
    requires k < |fdes| && forall f :: f in fdes ==> f.end <= |data|
    ensures var before := All(m, read, HeadsOf(data, fdes[..k], sectionVa, pointerSize), pointerSize);
      All(m, read, HeadsOf(data, fdes[..k + 1], sectionVa, pointerSize), pointerSize)
      == if fdes[k].cie.lsdaEncoding == OMIT || HeadOf(data, fdes[k], sectionVa, pointerSize) == None then before
         else var next := Next(before.0, read, HeadOf(data, fdes[k], sectionVa, pointerSize).value, pointerSize);
           (next.0, before.1 + next.1)
  {
    assert fdes[..k + 1][..k] == fdes[..k];
    var hs := HeadsOf(data, fdes[..k], sectionVa, pointerSize);
    var head := HeadOf(data, fdes[k], sectionVa, pointerSize);
    if head.Some? {
      assert (hs + [head.value])[..|hs|] == hs;
    }
  }

  /** Every landing pad a section declares, decoded with fresh memos and budgets: no pad is invented, each lies in the
      range of a description that declares it, none is missing as long as both budgets last, and a reader that gives
      no more than it is asked for is charged less than the budget and one LSDA together. */
  method DecodeEhFrameLandingPads(data: seq<Byte>, sectionVa: int, read: Reader, pointerSize: nat, parse: CieParser,
      maxRecords: nat, maxTableBytes: nat, maxFailedReadBytes: nat)
    returns (pads: set<int>, charged: int, chargedInVain: int)
    ensures var hs := HeadsOf(data, FdesFrom(data, pointerSize, parse, 0, map[], maxRecords), sectionVa, pointerSize);
      && pads <= PlainUnion(read, hs, pointerSize)
      && (charged < maxTableBytes && chargedInVain < maxFailedReadBytes ==> pads == PlainUnion(read, hs, pointerSize))
      && forall pad :: pad in pads ==> exists h :: h in hs && InRange(h, pad)
    ensures Modest(read) ==>
      charged < maxTableBytes + MAX_LSDA_BYTES && chargedInVain < maxFailedReadBytes + MAX_LSDA_BYTES
  {
    var decoder := new LandingPadDecoder(read, sectionVa, pointerSize, maxTableBytes, maxFailedReadBytes);
    ghost var initial := decoder.View();
    pads := decoder.DecodeAll(data, parse, maxRecords);
    charged, chargedInVain := maxTableBytes - decoder.budget, maxFailedReadBytes - decoder.readBudget;
    ghost var hs := HeadsOf(data, FdesFrom(data, pointerSize, parse, 0, map[], maxRecords), sectionVa, pointerSize);
    MemosAgreeWithPlainDecoding(initial, read, hs, pointerSize);
    forall pad | pad in pads
      ensures exists h :: h in hs && InRange(h, pad)
    {
      PadsLieInTheirRange(read, hs, pointerSize, pad);
    }
    if Modest(read) {
      ChargesAreBounded(initial, read, hs, pointerSize);
    }
  }
}
