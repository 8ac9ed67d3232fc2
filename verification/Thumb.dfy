/** T32 branches: their targets, and the form in which the offset plays no part (ARM DDI 0406C, section A6.3.4). */
module Thumb {
  import opened Collections

  /** A 32-bit Thumb instruction: the first halfword in the low half. */
  type Word = bv32

  function First(w: Word): bv32 {
    w & 0xFFFF
  }

  function Second(w: Word): bv32 {
    w >> 16
  }

  /** The branches with an offset, by the architecture's encoding table. */
  datatype Kind = Always | Call | CallExchange | When(condition: bv32)

  function KindOf(w: Word): Option<Kind> {
    var hw1, hw2 := First(w), Second(w);
    if hw1 & 0xF800 != 0xF000 then None
    else if hw2 & 0xD000 == 0x9000 then Some(Always)
    else if hw2 & 0xD000 == 0xD000 then Some(Call)
    else if hw2 & 0xD001 == 0xC000 then Some(CallExchange)
    else if hw2 & 0xD000 == 0x8000 && (hw1 >> 6) & 0xE != 0xE then Some(When((hw1 >> 6) & 0xF))
    else None
  }

  // ----- targets

  function SignExtend(value: bv32, sign: bv32): bv32 {
    (value & (sign - 1)) - (value & sign)
  }

  /** The integer a word in two's complement stands for. */
  function Signed(offset: bv32): int {
    if offset < 0x80000000 then offset as int else offset as int - 0x1_0000_0000
  }

  /** What an instruction reads as the program counter. Addresses are integers until they are targets. */
  function PcValue(address: int, thumb: bool, aligned: bool): int {
    if thumb then if aligned then address + 4 - (address + 4) % 4 else address + 4 else address + 8
  }

  /** The target of an A32 B, BL or BLX, modulo 2^32, and whether it is in Thumb. */
  function BranchTarget(word: Word, address: int): Option<(int, bool)> {
    if word & 0xFE000000 == 0xFA000000 then
      Some(((PcValue(address, false, false) + ExchangeOffset(word)) % 0x1_0000_0000, true))
    else if word & 0x0E000000 == 0x0A000000 && word & 0xF0000000 != 0xF0000000 then
      Some(((PcValue(address, false, false) + BranchOffset(word)) % 0x1_0000_0000, false))
    else None
  }

  /** The low 24 bits are an offset in words, the highest of them its sign. */
  function BranchOffset(word: Word): int {
    4 * ((word & 0x007FFFFF) as int - (word & 0x00800000) as int)
  }

  /** A BLX goes to any halfword: bit 24 says which one of a word. */
  function ExchangeOffset(word: Word): int {
    BranchOffset(word) + if word & 0x01000000 != 0 then 2 else 0
  }

  /** The offset of a BL or BLX. */
  function Offset(hw1: bv32, hw2: bv32): bv32 {
    var s := (hw1 >> 10) & 1;
    var j1 := (hw2 >> 13) & 1;
    var j2 := (hw2 >> 11) & 1;
    var i1 := 1 - (j1 ^ s);
    var i2 := 1 - (j2 ^ s);
    SignExtend((s << 24) | (i1 << 23) | (i2 << 22) | ((hw1 & 0x3FF) << 12) | ((hw2 & 0x7FF) << 1), 0x1000000)
  }

  /** Targets are modulo 2^32. */
  function Sum(pc: int, offset: bv32): int {
    (pc + Signed(offset)) % 0x1_0000_0000
  }

  /** The target of a BL or BLX, modulo 2^32, and whether it stays in Thumb. */
  function CallTarget(hw1: bv32, hw2: bv32, address: int): Option<(int, bool)> {
    TargetAt(hw1, hw2, address, Offset(hw1, hw2))
  }

  function TargetAt(hw1: bv32, hw2: bv32, address: int, offset: bv32): Option<(int, bool)> {
    if hw1 & 0xF800 != 0xF000 then None
    else
      var isBl := hw2 & 0xD000 == 0xD000;
      var isBlx := hw2 & 0xD001 == 0xC000;
      if !(isBl || isBlx) then None
      else if isBl then Some((Sum(PcValue(address, true, false), offset), true))
      else Some((Sum(PcValue(address, true, true), offset & 0xFFFFFFFC), false))
  }

  /** The offsets a BL or a BLX can hold. */
  predicate Representable(kind: Kind, offset: bv32) {
    match kind
    case Call => offset & 1 == 0 && offset + 0x1000000 < 0x2000000
    case CallExchange => offset & 3 == 0 && offset + 0x1000000 < 0x2000000
    case _ => false
  }

  /** The architecture's encoding of BL and BLX: S, I1, I2, imm10 and imm11 from the offset, J = NOT(I) EOR S. */
  function Encode(kind: Kind, offset: bv32): Word {
    var s := (offset >> 24) & 1;
    var j1 := ((offset >> 23) & 1) ^ s ^ 1;
    var j2 := ((offset >> 22) & 1) ^ s ^ 1;
    Assemble(TopOf(kind), s, j1, j2, (offset >> 12) & 0x3FF, (offset >> 1) & 0x7FF)
  }

  function Assemble(top: bv32, s: bv32, j1: bv32, j2: bv32, imm10: bv32, imm11: bv32): Word {
    (0xF000 | (s << 10) | imm10) | ((top | (j1 << 13) | (j2 << 11) | imm11) << 16)
  }

  function TopOf(kind: Kind): bv32 {
    if kind == Call then 0xD000 else 0xC000
  }

  /** Where a BL or BLX at an address goes, by its offset. */
  function Destination(kind: Kind, address: int, offset: int): int {
    if kind == Call then (address + 4 + offset) % 0x1_0000_0000
    else (address + 4 - (address + 4) % 4 + offset) % 0x1_0000_0000
  }

  // ----- bit fields

  lemma OffsetFromFields(offset: bv32)
    requires offset & 1 == 0 && offset + 0x1000000 < 0x2000000
    ensures SignExtend(
              (((offset >> 24) & 1) << 24) | (((offset >> 23) & 1) << 23) | (((offset >> 22) & 1) << 22)
              | (((offset >> 12) & 0x3FF) << 12) | (((offset >> 1) & 0x7FF) << 1), 0x1000000) == offset
  {
  }

  lemma JumpBit(i: bv32, s: bv32)
    requires i <= 1 && s <= 1
    ensures (i ^ s ^ 1) <= 1 && 1 - ((i ^ s ^ 1) ^ s) == i
  {
  }

  lemma FieldsAreSmall(offset: bv32)
    ensures (offset >> 24) & 1 <= 1 && (offset >> 23) & 1 <= 1 && (offset >> 22) & 1 <= 1
    ensures (offset >> 12) & 0x3FF <= 0x3FF && (offset >> 1) & 0x7FF <= 0x7FF
    ensures offset & 3 == 0 ==> ((offset >> 1) & 0x7FF) & 1 == 0 && offset & 1 == 0 && offset & 0xFFFFFFFC == offset
  {
  }

  /** The halfwords that hold some fields. */
  ghost predicate Fields(hw1: bv32, hw2: bv32, top: bv32, s: bv32, j1: bv32, j2: bv32, imm10: bv32, imm11: bv32) {
    && hw1 & 0xF800 == 0xF000 && (hw1 >> 10) & 1 == s && hw1 & 0x3FF == imm10
    && hw2 & 0xD000 == top && (hw2 >> 13) & 1 == j1 && (hw2 >> 11) & 1 == j2 && hw2 & 0x7FF == imm11
    && hw2 & 0xD001 == top | (imm11 & 1)
  }

  lemma OffsetOfFields(hw1: bv32, hw2: bv32, top: bv32, s: bv32, i1: bv32, i2: bv32, imm10: bv32, imm11: bv32)
    requires Fields(hw1, hw2, top, s, i1 ^ s ^ 1, i2 ^ s ^ 1, imm10, imm11) && s <= 1 && i1 <= 1 && i2 <= 1
    ensures Offset(hw1, hw2)
      == SignExtend((s << 24) | (i1 << 23) | (i2 << 22) | (imm10 << 12) | (imm11 << 1), 0x1000000)
  {
    JumpBit(i1, s);
    JumpBit(i2, s);
  }

  lemma EncodedFields(kind: Kind, offset: bv32, s: bv32, i1: bv32, i2: bv32, imm10: bv32, imm11: bv32)
    requires s == (offset >> 24) & 1 && i1 == (offset >> 23) & 1 && i2 == (offset >> 22) & 1
    requires imm10 == (offset >> 12) & 0x3FF && imm11 == (offset >> 1) & 0x7FF
    ensures var w := Encode(kind, offset);
      Fields(First(w), Second(w), TopOf(kind), s, i1 ^ s ^ 1, i2 ^ s ^ 1, imm10, imm11)
  {
    FieldsAreSmall(offset);
    EncodeParts(TopOf(kind), s, i1 ^ s ^ 1, i2 ^ s ^ 1, imm10, imm11);
  }

  lemma EncodeParts(top: bv32, s: bv32, j1: bv32, j2: bv32, imm10: bv32, imm11: bv32)
    requires (top == 0xD000 || top == 0xC000) && s <= 1 && j1 <= 1 && j2 <= 1 && imm10 <= 0x3FF && imm11 <= 0x7FF
    ensures var w := Assemble(top, s, j1, j2, imm10, imm11);
      Fields(First(w), Second(w), top, s, j1, j2, imm10, imm11)
  {
  }

  lemma EncodedOffset(kind: Kind, offset: bv32)
    requires offset & 1 == 0 && offset + 0x1000000 < 0x2000000
    ensures Offset(First(Encode(kind, offset)), Second(Encode(kind, offset))) == offset
  {
    var s, i1, i2 := (offset >> 24) & 1, (offset >> 23) & 1, (offset >> 22) & 1;
    var imm10, imm11 := (offset >> 12) & 0x3FF, (offset >> 1) & 0x7FF;
    FieldsAreSmall(offset);
    EncodedFields(kind, offset, s, i1, i2, imm10, imm11);
    OffsetOfFields(First(Encode(kind, offset)), Second(Encode(kind, offset)), TopOf(kind), s, i1, i2, imm10, imm11);
    OffsetFromFields(offset);
  }

  lemma KindOfFields(w: Word, kind: Kind)
    requires kind == Call || kind == CallExchange
    ensures KindOf(w) == Some(kind) <==>
      && First(w) & 0xF800 == 0xF000 && Second(w) & 0xD000 == TopOf(kind)
      && (kind == CallExchange ==> Second(w) & 0xD001 == 0xC000)
  {
  }

  lemma EncodedKind(kind: Kind, offset: bv32)
    requires kind == Call || (kind == CallExchange && offset & 3 == 0)
    ensures KindOf(Encode(kind, offset)) == Some(kind)
  {
    var s, i1, i2 := (offset >> 24) & 1, (offset >> 23) & 1, (offset >> 22) & 1;
    FieldsAreSmall(offset);
    EncodedFields(kind, offset, s, i1, i2, (offset >> 12) & 0x3FF, (offset >> 1) & 0x7FF);
    KindOfFields(Encode(kind, offset), kind);
  }

  lemma TargetIsAt(hw1: bv32, hw2: bv32, address: int, offset: bv32)
    requires Offset(hw1, hw2) == offset
    ensures CallTarget(hw1, hw2, address) == TargetAt(hw1, hw2, address, offset)
  {
  }

  lemma CallAt(hw1: bv32, hw2: bv32, offset: bv32, address: int)
    requires hw1 & 0xF800 == 0xF000 && hw2 & 0xD000 == 0xD000
    ensures TargetAt(hw1, hw2, address, offset) == Some((Destination(Call, address, Signed(offset)), true))
  {
  }

  lemma CallExchangeAt(hw1: bv32, hw2: bv32, offset: bv32, address: int)
    requires hw1 & 0xF800 == 0xF000 && hw2 & 0xD000 == 0xC000 && hw2 & 0xD001 == 0xC000 && offset & 0xFFFFFFFC == offset
    ensures TargetAt(hw1, hw2, address, offset) == Some((Destination(CallExchange, address, Signed(offset)), false))
  {
  }

  lemma TargetOfWord(kind: Kind, w: Word, offset: bv32, address: int)
    requires KindOf(w) == Some(kind) && Representable(kind, offset) && Offset(First(w), Second(w)) == offset
    ensures CallTarget(First(w), Second(w), address) == Some((Destination(kind, address, Signed(offset)), kind == Call))
  {
    KindOfFields(w, kind);
    TargetIsAt(First(w), Second(w), address, offset);
    FieldsAreSmall(offset);
    if kind == Call {
      CallAt(First(w), Second(w), offset, address);
    } else {
      CallExchangeAt(First(w), Second(w), offset, address);
    }
  }

  /** Decoding inverts encoding, for every offset that can be represented: a BL goes to its own address plus 4 plus the
      offset, and a BLX aligns the sum of the first two down to a word, modulo 2^32. */
  lemma CallTargetInvertsEncode(kind: Kind, offset: bv32, address: int)
    requires Representable(kind, offset)
    ensures var w, o := Encode(kind, offset), Signed(offset);
      && KindOf(w) == Some(kind)
      && CallTarget(First(w), Second(w), address)
         == Some((if kind == Call then (address + 4 + o) % 0x1_0000_0000
                  else (address + 4 - (address + 4) % 4 + o) % 0x1_0000_0000, kind == Call))
  {
    FieldsAreSmall(offset);
    EncodedOffset(kind, offset);
    EncodedKind(kind, offset);
    TargetOfWord(kind, Encode(kind, offset), offset, address);
  }

  // ----- branches of A32

  /** The architecture's encodings of B and BL under a condition, and of BLX. */
  function EncodeBranch(condition: bv32, link: bool, field: bv32): Word {
    (condition << 28) | (if link then 0x0B000000 else 0x0A000000) | field
  }

  function EncodeExchange(half: bool, field: bv32): Word {
    (if half then 0xFB000000 else 0xFA000000) | field
  }

  lemma PlainBranchFields(condition: bv32, field: bv32)
    requires condition < 0xF && field <= 0x00FFFFFF
    ensures var w := (condition << 28) | 0x0A000000 | field;
      && w & 0xFE000000 != 0xFA000000 && w & 0x0E000000 == 0x0A000000 && w & 0xF0000000 != 0xF0000000
      && w & 0x007FFFFF == field & 0x007FFFFF && w & 0x00800000 == field & 0x00800000
  {
  }

  lemma LinkBranchFields(condition: bv32, field: bv32)
    requires condition < 0xF && field <= 0x00FFFFFF
    ensures var w := (condition << 28) | 0x0B000000 | field;
      && w & 0xFE000000 != 0xFA000000 && w & 0x0E000000 == 0x0A000000 && w & 0xF0000000 != 0xF0000000
      && w & 0x007FFFFF == field & 0x007FFFFF && w & 0x00800000 == field & 0x00800000
  {
  }

  lemma BranchFields(condition: bv32, link: bool, field: bv32)
    requires condition < 0xF && field <= 0x00FFFFFF
    ensures var w := EncodeBranch(condition, link, field);
      && w & 0xFE000000 != 0xFA000000 && w & 0x0E000000 == 0x0A000000 && w & 0xF0000000 != 0xF0000000
      && w & 0x007FFFFF == field & 0x007FFFFF && w & 0x00800000 == field & 0x00800000
  {
    if link {
      LinkBranchFields(condition, field);
    } else {
      PlainBranchFields(condition, field);
    }
  }

  lemma ExchangeFields(half: bool, field: bv32)
    requires field <= 0x00FFFFFF
    ensures var w := EncodeExchange(half, field);
      && w & 0xFE000000 == 0xFA000000 && (w & 0x01000000 != 0 <==> half)
      && w & 0x007FFFFF == field & 0x007FFFFF && w & 0x00800000 == field & 0x00800000
  {
    if half {
      OddExchangeFields(field);
    } else {
      EvenExchangeFields(field);
    }
  }

  lemma OddExchangeFields(field: bv32)
    requires field <= 0x00FFFFFF
    ensures var w := 0xFB000000 | field;
      && w & 0xFE000000 == 0xFA000000 && w & 0x01000000 != 0
      && w & 0x007FFFFF == field & 0x007FFFFF && w & 0x00800000 == field & 0x00800000
  {
  }

  lemma EvenExchangeFields(field: bv32)
    requires field <= 0x00FFFFFF
    ensures var w := 0xFA000000 | field;
      && w & 0xFE000000 == 0xFA000000 && w & 0x01000000 == 0
      && w & 0x007FFFFF == field & 0x007FFFFF && w & 0x00800000 == field & 0x00800000
  {
  }

  lemma SignOfField(field: bv32)
    requires field <= 0x00FFFFFF
    ensures field < 0x00800000 ==> field & 0x00800000 == 0 && field & 0x007FFFFF == field
    ensures field >= 0x00800000 ==> field & 0x00800000 == 0x00800000
  {
  }

  /** The offset a field stands for, in two's complement. */
  function FieldOffset(field: bv32): int {
    if field < 0x00800000 then 4 * (field as int) else 4 * ((field & 0x007FFFFF) as int - 0x00800000)
  }

  lemma OffsetOfField(w: Word, field: bv32)
    requires field <= 0x00FFFFFF
    requires w & 0x007FFFFF == field & 0x007FFFFF && w & 0x00800000 == field & 0x00800000
    ensures BranchOffset(w) == FieldOffset(field)
  {
    SignOfField(field);
    assert (0 as bv32) as int == 0 && (0x00800000 as bv32) as int == 0x00800000;
  }

  /** A B or BL at any address goes to that address plus 8 plus the offset its field stands for, under any condition. */
  lemma BranchTargetInvertsEncode(condition: bv32, link: bool, field: bv32, address: int)
    requires condition < 0xF && field <= 0x00FFFFFF
    ensures BranchTarget(EncodeBranch(condition, link, field), address)
      == Some(((address + 8 + FieldOffset(field)) % 0x1_0000_0000, false))
  {
    BranchFields(condition, link, field);
    OffsetOfField(EncodeBranch(condition, link, field), field);
  }

  /** So does a BLX, to either halfword there, and it lands in Thumb. */
  lemma ExchangeTargetInvertsEncode(half: bool, field: bv32, address: int)
    requires field <= 0x00FFFFFF
    ensures BranchTarget(EncodeExchange(half, field), address)
      == Some(((address + 8 + FieldOffset(field) + if half then 2 else 0) % 0x1_0000_0000, true))
  {
    ExchangeFields(half, field);
    OffsetOfField(EncodeExchange(half, field), field);
  }

  ghost predicate IsBranch(w: Word, condition: bv32, link: bool, field: bv32) {
    condition < 0xF && field <= 0x00FFFFFF && w == EncodeBranch(condition, link, field)
  }

  ghost predicate IsExchange(w: Word, half: bool, field: bv32) {
    field <= 0x00FFFFFF && w == EncodeExchange(half, field)
  }

  lemma PartsOfBranch(w: Word)
    ensures w & 0x0F000000 == 0x0A000000 ==> w == (w >> 28 << 28) | 0x0A000000 | (w & 0x00FFFFFF)
    ensures w & 0x0F000000 == 0x0B000000 ==> w == (w >> 28 << 28) | 0x0B000000 | (w & 0x00FFFFFF)
    ensures w & 0x0F000000 == 0x0A000000 || w & 0x0F000000 == 0x0B000000 <==> w & 0x0E000000 == 0x0A000000
    ensures w & 0x00FFFFFF <= 0x00FFFFFF && (w >> 28 < 0xF <==> w & 0xF0000000 != 0xF0000000)
  {
  }

  lemma PartsOfExchange(w: Word)
    requires w & 0xFE000000 == 0xFA000000
    ensures w & 0x00FFFFFF <= 0x00FFFFFF
    ensures w == (if w & 0x01000000 != 0 then 0xFB000000 else 0xFA000000) | (w & 0x00FFFFFF)
  {
  }

  /** Nothing else has a target. */
  lemma OnlyBranchesHaveTargets(w: Word, address: int)
    ensures BranchTarget(w, address).Some? <==>
      || (exists condition, link, field :: IsBranch(w, condition, link, field))
      || (exists half, field :: IsExchange(w, half, field))
  {
    PartsOfBranch(w);
    if w & 0xFE000000 == 0xFA000000 {
      PartsOfExchange(w);
      assert IsExchange(w, w & 0x01000000 != 0, w & 0x00FFFFFF);
    } else if BranchTarget(w, address).Some? {
      assert IsBranch(w, w >> 28, w & 0x0F000000 == 0x0B000000, w & 0x00FFFFFF);
    }
    if condition, link, field :| IsBranch(w, condition, link, field) {
      BranchTargetInvertsEncode(condition, link, field, address);
    }
    if half, field :| IsExchange(w, half, field) {
      ExchangeTargetInvertsEncode(half, field, address);
    }
  }

  // ----- every call word is an encoding

  lemma CallWord(w: Word)
    requires First(w) & 0xF800 == 0xF000 && Second(w) & 0xD000 == 0xD000
    ensures Encode(Call, Offset(First(w), Second(w))) == w
  {
  }

  lemma CallExchangeWord(w: Word)
    requires First(w) & 0xF800 == 0xF000 && Second(w) & 0xD000 == 0xC000
    ensures Encode(CallExchange, Offset(First(w), Second(w))) == w
  {
  }

  lemma OffsetIsEven(hw1: bv32, hw2: bv32)
    ensures Offset(hw1, hw2) & 1 == 0
    ensures hw2 & 0xD001 == 0xC000 ==> Offset(hw1, hw2) & 3 == 0
  {
  }

  lemma OffsetIsInRange(hw1: bv32, hw2: bv32)
    ensures Offset(hw1, hw2) + 0x1000000 < 0x2000000
  {
  }

  /** Every BL and BLX is the encoding of its own offset. */
  lemma EncodeInvertsOffset(w: Word, kind: Kind)
    requires KindOf(w) == Some(kind) && (kind == Call || kind == CallExchange)
    ensures Representable(kind, Offset(First(w), Second(w))) && Encode(kind, Offset(First(w), Second(w))) == w
  {
    KindOfFields(w, kind);
    OffsetIsEven(First(w), Second(w));
    OffsetIsInRange(First(w), Second(w));
    if kind == Call {
      CallWord(w);
    } else {
      CallExchangeWord(w);
    }
  }

  /** Nothing but BL and BLX has a call target. */
  lemma OnlyCallsHaveTargets(w: Word, address: int)
    ensures CallTarget(First(w), Second(w), address).Some?
      <==> KindOf(w) == Some(Call) || KindOf(w) == Some(CallExchange)
  {
    KindOfFields(w, Call);
    KindOfFields(w, CallExchange);
  }

  // ----- branches with the offset taken out

  /** A branch re-encoded with a zero offset. */
  function BranchAtZero(value: Word): Option<Word> {
    var hw1, hw2 := First(value), Second(value);
    if hw1 & 0xF800 != 0xF000 || hw2 & 0x8000 == 0 then None
    else if hw2 & 0x5000 != 0 then Some((value & 0xD000F800) | 0x28000000)
    else if hw2 & 0xD000 == 0x8000 && (hw1 >> 6) & 0xE != 0xE then Some(value & 0xD000FBC0)
    else None
  }

  /** The one word a kind of branch is re-encoded as. */
  function AtZero(kind: Kind): Word {
    match kind
    case Always => 0xB800F000
    case Call => 0xF800F000
    case CallExchange => 0xE800F000
    case When(condition) => 0x8000F000 | (condition << 6)
  }

  /** All branches of one kind are re-encoded alike, whatever their offset. */
  lemma OffsetPlaysNoPart(value: Word)
    requires KindOf(value).Some?
    ensures BranchAtZero(value) == Some(AtZero(KindOf(value).value))
  {
  }

  /** Besides the branches only the undefined form of BLX, with the low bit of its offset set, is re-encoded. */
  lemma OnlyBranchesAreReencoded(value: Word)
    ensures BranchAtZero(value).Some? <==>
      KindOf(value).Some? || (First(value) & 0xF800 == 0xF000 && Second(value) & 0xD001 == 0xC001)
  {
  }

  predicate ProperCondition(kind: Kind) {
    kind.When? ==> kind.condition <= 0xF && kind.condition & 0xE != 0xE
  }

  lemma KindsAreProper(value: Word)
    ensures KindOf(value).Some? ==> ProperCondition(KindOf(value).value)
  {
  }

  /** Re-encoding keeps the kind, and the condition. */
  lemma KindIsKept(kind: Kind)
    requires ProperCondition(kind)
    ensures KindOf(AtZero(kind)) == Some(kind)
  {
  }

  /** A re-encoded call goes to what it reads as the program counter: its offset is zero. */
  lemma CallsGoNowhere(value: Word, address: int)
    requires KindOf(value) == Some(Call) || KindOf(value) == Some(CallExchange)
    ensures var kind, w := KindOf(value).value, AtZero(KindOf(value).value);
      BranchAtZero(value) == Some(w) && w == Encode(kind, 0)
      && CallTarget(First(w), Second(w), address)
         == Some((if kind == Call then (address + 4) % 0x1_0000_0000
                  else (address + 4 - (address + 4) % 4) % 0x1_0000_0000, kind == Call))
  {
    var kind := KindOf(value).value;
    OffsetPlaysNoPart(value);
    CallTargetInvertsEncode(kind, 0, address);
  }

  // ----- hexadecimal with wildcards

  function HexDigit(n: bv32): char {
    if n == 0 then '0' else if n == 1 then '1' else if n == 2 then '2' else if n == 3 then '3'
    else if n == 4 then '4' else if n == 5 then '5' else if n == 6 then '6' else if n == 7 then '7'
    else if n == 8 then '8' else if n == 9 then '9' else if n == 10 then 'a' else if n == 11 then 'b'
    else if n == 12 then 'c' else if n == 13 then 'd' else if n == 14 then 'e' else 'f'
  }

  lemma DigitsDiffer(a: bv32, b: bv32)
    requires a <= 0xF && b <= 0xF && HexDigit(a) == HexDigit(b)
    ensures a == b
  {
  }

  /** A nibble, or a wildcard where the mask does not keep it. */
  function Digit(nibble: bv32, kept: bool): char {
    if kept then HexDigit(nibble & 0xF) else '?'
  }

  /** The two nibbles of a byte, with the lowest two bits of the mask saying which are kept. */
  function HighDigit(byte: bv32, keepMask: bv32): char {
    Digit((byte >> 4) & 0xF, keepMask & 2 != 0)
  }

  function LowDigit(byte: bv32, keepMask: bv32): char {
    Digit(byte & 0xF, keepMask & 1 != 0)
  }

  /** The bytes of a value in little-endian order, the high nibble of each first. */
  function Rendered(value: bv32, size: nat, keepMask: bv32): string {
    if size == 0 then ""
    else [HighDigit(value & 0xFF, keepMask), LowDigit(value & 0xFF, keepMask)]
         + Rendered(value >> 8, size - 1, keepMask >> 2)
  }

  lemma ByteNibbles(value: bv32)
    ensures ((value & 0xFF) >> 4) & 0xF == (value >> 4) & 0xF && (value & 0xFF) & 0xF == value & 0xF
  {
  }

  method Render(value: bv32, size: nat, keepMask: bv32) returns (result: string)
    ensures result == Rendered(value, size, keepMask)
  {
    result := "";
    var rest, mask := value, keepMask;
    ghost var all := Rendered(value, size, keepMask);
    var byteIndex := 0;
    while byteIndex < size
      invariant byteIndex <= size && all == result + Rendered(rest, size - byteIndex, mask)
    {
      var byte := rest & 0xFF;
      var high, low := HighDigit(byte, mask), LowDigit(byte, mask);
      ghost var more := Rendered(rest >> 8, size - byteIndex - 1, mask >> 2);
      assert Rendered(rest, size - byteIndex, mask) == [high, low] + more;
      assert result + ([high, low] + more) == result + [high] + [low] + more;
      result := result + [high] + [low];
      rest, mask := rest >> 8, mask >> 2;
      byteIndex := byteIndex + 1;
    }
  }

  // ----- escaping

  /** What is kept of a re-encoded branch: the opcode nibbles, and the condition where there is one. */
  function KeepMask(branch: Word): bv32 {
    if branch & 0x50000000 != 0 then 0x88 else 0x8E
  }

  /** The escaped form of a branch. */
  function Escaped(value: Word): string
    requires BranchAtZero(value).Some?
  {
    Rendered(BranchAtZero(value).value, 4, KeepMask(BranchAtZero(value).value))
  }

  /** The escaped form of a 32-bit Thumb instruction. What is kept of one that is no branch is a parameter. */
  method EscapeBinary(value: Word, bytes: string, otherMask: Option<bv32>) returns (result: string)
    ensures result == if BranchAtZero(value).Some? then Escaped(value)
                      else if otherMask.Some? then Rendered(value, 4, otherMask.value) else bytes
  {
    var branch := BranchAtZero(value);
    if branch.Some? {
      result := Render(branch.value, 4, if branch.value & 0x50000000 != 0 then 0x88 else 0x8E);
      return;
    }
    if otherMask == None {
      return bytes;
    }
    result := Render(value, 4, otherMask.value);
  }

  function Form(kind: Kind): string {
    match kind
    case Always => "??f???b?"
    case Call => "??f???f?"
    case CallExchange => "??f???e?"
    case When(c) => [HexDigit((c & 3) << 2), '?', 'f', HexDigit(c >> 2), '?', '?', '8', '?']
  }

  lemma ShiftedNibbles(value: bv32)
    ensures ((value >> 8) >> 4) & 0xF == (value >> 12) & 0xF && (value >> 8) & 0xF == (value >> 8) & 0xF
    ensures (((value >> 8) >> 8) >> 4) & 0xF == (value >> 20) & 0xF && ((value >> 8) >> 8) & 0xF == (value >> 16) & 0xF
    ensures ((((value >> 8) >> 8) >> 8) >> 4) & 0xF == (value >> 28) & 0xF
    ensures (((value >> 8) >> 8) >> 8) & 0xF == (value >> 24) & 0xF
  {
  }

  lemma ShiftedMask(mask: bv32)
    ensures (mask >> 2) & 2 != 0 <==> mask & 8 != 0
    ensures (mask >> 2) & 1 != 0 <==> mask & 4 != 0
    ensures ((mask >> 2) >> 2) & 2 != 0 <==> mask & 32 != 0
    ensures ((mask >> 2) >> 2) & 1 != 0 <==> mask & 16 != 0
    ensures (((mask >> 2) >> 2) >> 2) & 2 != 0 <==> mask & 128 != 0
    ensures (((mask >> 2) >> 2) >> 2) & 1 != 0 <==> mask & 64 != 0
  {
  }

  function DigitAt(nibble: bv32, bit: bv32): char {
    Digit(nibble, bit != 0)
  }

  lemma RenderedByte(value: bv32, size: nat, mask: bv32, high: char, low: char, rest: string)
    requires high == DigitAt((value >> 4) & 0xF, mask & 2) && low == DigitAt(value & 0xF, mask & 1)
    requires rest == Rendered(value >> 8, size, mask >> 2)
    ensures Rendered(value, size + 1, mask) == [high, low] + rest
  {
    ByteNibbles(value);
  }

  lemma EightDigits(d0: char, d1: char, d2: char, d3: char, d4: char, d5: char, d6: char, d7: char)
    ensures [d0, d1] + ([d2, d3] + ([d4, d5] + ([d6, d7] + ""))) == [d0, d1, d2, d3, d4, d5, d6, d7]
  {
  }

  lemma RenderedWord(value: bv32, mask: bv32)
    ensures Rendered(value, 4, mask) == [
      DigitAt((value >> 4) & 0xF, mask & 2), DigitAt(value & 0xF, mask & 1),
      DigitAt((value >> 12) & 0xF, mask & 8), DigitAt((value >> 8) & 0xF, mask & 4),
      DigitAt((value >> 20) & 0xF, mask & 32), DigitAt((value >> 16) & 0xF, mask & 16),
      DigitAt((value >> 28) & 0xF, mask & 128), DigitAt((value >> 24) & 0xF, mask & 64)]
  {
    ShiftedNibbles(value);
    ShiftedMask(mask);
    var v1, k1 := value >> 8, mask >> 2;
    var v2, k2 := v1 >> 8, k1 >> 2;
    var v3, k3 := v2 >> 8, k2 >> 2;
    var d0, d1 := DigitAt((value >> 4) & 0xF, mask & 2), DigitAt(value & 0xF, mask & 1);
    var d2, d3 := DigitAt((value >> 12) & 0xF, mask & 8), DigitAt((value >> 8) & 0xF, mask & 4);
    var d4, d5 := DigitAt((value >> 20) & 0xF, mask & 32), DigitAt((value >> 16) & 0xF, mask & 16);
    var d6, d7 := DigitAt((value >> 28) & 0xF, mask & 128), DigitAt((value >> 24) & 0xF, mask & 64);
    RenderedByte(v3, 0, k3, d6, d7, "");
    RenderedByte(v2, 1, k2, d4, d5, [d6, d7] + "");
    RenderedByte(v1, 2, k1, d2, d3, [d4, d5] + ([d6, d7] + ""));
    RenderedByte(value, 3, mask, d0, d1, [d2, d3] + ([d4, d5] + ([d6, d7] + "")));
    EightDigits(d0, d1, d2, d3, d4, d5, d6, d7);
  }

  /** The escaped form of a branch says its kind and condition, and nothing else. */
  lemma EscapedForm(value: Word)
    requires KindOf(value).Some?
    ensures BranchAtZero(value).Some? && Escaped(value) == Form(KindOf(value).value)
  {
    var kind := KindOf(value).value;
    KindsAreProper(value);
    OffsetPlaysNoPart(value);
    RenderedWord(AtZero(kind), KeepMask(AtZero(kind)));
  }

  lemma FormsDiffer(k: Kind, l: Kind)
    requires ProperCondition(k) && ProperCondition(l) && Form(k) == Form(l)
    ensures k == l
  {
    assert Form(k)[6] == Form(l)[6];
    if k.When? && l.When? {
      var c, d := k.condition, l.condition;
      assert Form(k)[0] == Form(l)[0] && Form(k)[3] == Form(l)[3];
      DigitsDiffer((c & 3) << 2, (d & 3) << 2);
      DigitsDiffer(c >> 2, d >> 2);
    }
  }

  /** Two branches are escaped alike exactly when they are of one kind, with one condition, whatever their offsets. */
  lemma EscapedAlike(v: Word, w: Word)
    requires KindOf(v).Some? && KindOf(w).Some?
    ensures BranchAtZero(v).Some? && BranchAtZero(w).Some? && (Escaped(v) == Escaped(w) <==> KindOf(v) == KindOf(w))
  {
    EscapedForm(v);
    EscapedForm(w);
    KindsAreProper(v);
    KindsAreProper(w);
    if Escaped(v) == Escaped(w) {
      FormsDiffer(KindOf(v).value, KindOf(w).value);
    }
  }

  /** With only the opcode nibbles kept, the condition goes too. */
  function OpcodeOnly(value: Word): string {
    Rendered(if BranchAtZero(value).Some? then BranchAtZero(value).value else value, 4, 0x88)
  }

  function OpcodeForm(kind: Kind): string {
    match kind
    case Always => "??f???b?"
    case Call => "??f???f?"
    case CallExchange => "??f???e?"
    case When(_) => "??f???8?"
  }

  /** The opcode form of a branch says which of the four branches it is, and nothing else. */
  lemma OpcodeOnlyForm(value: Word)
    requires KindOf(value).Some?
    ensures OpcodeOnly(value) == OpcodeForm(KindOf(value).value)
  {
    var kind := KindOf(value).value;
    KindsAreProper(value);
    OffsetPlaysNoPart(value);
    RenderedWord(AtZero(kind), 0x88);
  }
}
