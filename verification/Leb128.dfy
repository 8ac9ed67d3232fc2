/** Numbers in LEB128: how they are read, and that they are read back as they are written. */
module Leb128 {
  import opened Collections

  type Byte = b: int | 0 <= b < 256

  /** A number read, if there is one, and the position after what was read. */
  type Reading = (Option<int>, nat)

  // ----- LEB128

  /** The unsigned number at a position, seven bits a byte, the lowest first, in at most `left` bytes. */
  function UlebFrom(data: seq<Byte>, pos: nat, end: nat, left: nat): (r: Reading)
    requires end <= |data|
    ensures pos <= r.1 && (r.0.Some? ==> pos < r.1 <= end && r.0.value >= 0)
    decreases left
  {
    if pos >= end || left == 0 then (None, pos)
    else if data[pos] < 128 then (Some(data[pos]), pos + 1)
    else Above(data[pos] % 128, UlebFrom(data, pos + 1, end, left - 1))
  }

  /** The signed number: the sign bit of the last byte counts only while fewer than 64 bits were read. */
  function SlebFrom(data: seq<Byte>, pos: nat, end: nat, left: nat): (r: Reading)
    requires end <= |data|
    ensures pos <= r.1 && (r.0.Some? ==> pos < r.1 <= end)
    decreases left
  {
    if pos >= end || left == 0 then (None, pos)
    else if data[pos] < 128 then
      (Some(if data[pos] >= 64 && left > 1 then data[pos] as int - 128 else data[pos]), pos + 1)
    else Above(data[pos] % 128, SlebFrom(data, pos + 1, end, left - 1))
  }

  /** A number seven bits up, over the digit below it. */
  function Above(digit: int, r: Reading): Reading {
    (if r.0.Some? then Some(digit + 128 * r.0.value) else None, r.1)
  }

  function Uleb(data: seq<Byte>, pos: nat, end: nat): (r: Reading)
    requires end <= |data|
    ensures pos <= r.1 && (r.0.Some? ==> pos < r.1 <= end && r.0.value >= 0)
  {
    UlebFrom(data, pos, end, 10)
  }

  function Sleb(data: seq<Byte>, pos: nat, end: nat): (r: Reading)
    requires end <= |data|
    ensures pos <= r.1 && (r.0.Some? ==> pos < r.1 <= end)
  {
    SlebFrom(data, pos, end, 10)
  }

  /** A number still to be read, shifted up and added to what was read. */
  ghost function Shifted(r: Reading, sum: int, scale: int): Reading {
    (if r.0.Some? then Some(sum + scale * r.0.value) else None, r.1)
  }

  lemma ShiftOnce(digit: int, r: Reading, sum: int, scale: int)
    ensures Shifted(Above(digit, r), sum, scale) == Shifted(r, sum + digit * scale, scale * 128)
  {
    if r.0.Some? {
      Distribute(digit, r.0.value, scale);
    }
  }

  lemma Distribute(digit: int, rest: int, scale: int)
    ensures scale * (digit + 128 * rest) == digit * scale + scale * 128 * rest
  {
  }

  lemma ShiftLast(digit: int, pos: nat, sum: int, scale: int)
    ensures Shifted((Some(digit), pos), sum, scale) == (Some(sum + digit * scale), pos)
    ensures Shifted((Some(digit - 128), pos), sum, scale) == (Some(sum + digit * scale - scale * 128), pos)
  {
    Distribute(digit, -1, scale);
  }

  method ReadUleb128(data: seq<Byte>, start: nat, end: nat) returns (value: Option<int>, pos: nat)
    requires end <= |data|
    ensures (value, pos) == Uleb(data, start, end)
  {
    var sum: int, scale: int, shift: int := 0, 1, 0;
    ghost var left: nat := 10;
    pos := start;
    while pos < end && shift < 64
      invariant start <= pos && shift == 70 - 7 * left
      invariant Uleb(data, start, end) == Shifted(UlebFrom(data, pos, end, left), sum, scale)
    {
      var byte: int := data[pos];
      var digit := byte % 128;
      ghost var before := sum;
      sum := sum + digit * scale;
      pos := pos + 1;
      if byte < 128 {
        ShiftLast(digit, pos, before, scale);
        return Some(sum), pos;
      }
      ShiftOnce(digit, UlebFrom(data, pos, end, left - 1), before, scale);
      scale := scale * 128;
      shift := shift + 7;
      left := left - 1;
    }
    return None, pos;
  }

  method ReadSleb128(data: seq<Byte>, start: nat, end: nat) returns (value: Option<int>, pos: nat)
    requires end <= |data|
    ensures (value, pos) == Sleb(data, start, end)
  {
    var sum: int, scale: int, shift: int := 0, 1, 0;
    ghost var left: nat := 10;
    pos := start;
    while pos < end && shift < 64
      invariant start <= pos && shift == 70 - 7 * left
      invariant Sleb(data, start, end) == Shifted(SlebFrom(data, pos, end, left), sum, scale)
    {
      var byte: int := data[pos];
      var digit := byte % 128;
      ghost var before, scaleBefore := sum, scale;
      sum := sum + digit * scale;
      pos := pos + 1;
      scale := scale * 128;
      shift := shift + 7;
      if byte < 128 {
        ShiftLast(digit, pos, before, scaleBefore);
        if byte >= 64 && shift < 64 {
          sum := sum - scale;
        }
        return Some(sum), pos;
      }
      ShiftOnce(digit, SlebFrom(data, pos, end, left - 1), before, scaleBefore);
      left := left - 1;
    }
    return None, pos;
  }

  // ----- LEB128 as it is written

  function Power(k: nat): (p: nat)
    ensures p > 0
  {
    if k == 0 then 1 else 128 * Power(k - 1)
  }

  /** The shortest unsigned form. */
  function UlebBytes(n: nat): (bs: seq<Byte>)
    ensures |bs| > 0
  {
    if n < 128 then [n] else
      var first: Byte := n % 128 + 128;
      [first] + UlebBytes(n / 128)
  }

  /** The shortest signed form. */
  function SlebBytes(n: int): (bs: seq<Byte>)
    ensures |bs| > 0
    decreases if n < 0 then -n else n
  {
    if -64 <= n < 64 then [n % 128] else
      var first: Byte := n % 128 + 128;
      [first] + SlebBytes(n / 128)
  }

  /** Some bytes, one by one, from a position on and before another. */
  ghost predicate StandsAt(data: seq<Byte>, pos: nat, end: nat, bs: seq<Byte>) {
    pos + |bs| <= end <= |data| && forall k: nat {:trigger bs[k]} :: k < |bs| ==> data[pos + k] == bs[k]
  }

  lemma FirstOfBytes(data: seq<Byte>, pos: nat, end: nat, bs: seq<Byte>)
    requires StandsAt(data, pos, end, bs) && bs != []
    ensures data[pos] == bs[0] && StandsAt(data, pos + 1, end, bs[1..])
  {
    assert data[pos + 0] == bs[0];
    forall k: nat | k < |bs[1..]|
      ensures data[pos + 1 + k] == bs[1..][k]
    {
      assert bs[1..][k] == bs[k + 1];
    }
  }

  lemma {:induction false} UlebFits(n: nat, k: nat)
    requires k > 0
    ensures |UlebBytes(n)| <= k <==> n < Power(k)
  {
    if k == 1 {
      assert Power(1) == 128;
    } else {
      assert Power(k) == 128 * Power(k - 1) >= 128;
      if n >= 128 {
        UlebFits(n / 128, k - 1);
      }
    }
  }

  lemma {:induction false} UlebReadsBack(data: seq<Byte>, pos: nat, end: nat, n: nat, left: nat)
    requires StandsAt(data, pos, end, UlebBytes(n))
    ensures var r := UlebFrom(data, pos, end, left);
      if |UlebBytes(n)| <= left then r.0 == Some(n) && r.1 == pos + |UlebBytes(n)| else r.0 == None
    decreases left
  {
    var bs := UlebBytes(n);
    FirstOfBytes(data, pos, end, bs);
    if left > 0 && n >= 128 {
      assert bs[1..] == UlebBytes(n / 128);
      UlebReadsBack(data, pos + 1, end, n / 128, left - 1);
    }
  }

  /** An unsigned number is read back as it was written, wherever it stands, exactly when it fits 70 bits. */
  lemma UlebRoundTrip(data: seq<Byte>, pos: nat, end: nat, n: nat)
    requires StandsAt(data, pos, end, UlebBytes(n))
    ensures var r := Uleb(data, pos, end);
      if n < Power(10) then r.0 == Some(n) && r.1 == pos + |UlebBytes(n)| else r.0 == None
  {
    UlebReadsBack(data, pos, end, n, 10);
    UlebFits(n, 10);
  }

  lemma {:induction false} SlebFits(n: int, k: nat)
    requires k > 0
    ensures |SlebBytes(n)| <= k <==> -64 * Power(k - 1) <= n < 64 * Power(k - 1)
    decreases k
  {
    if k == 1 {
      assert Power(0) == 1;
    } else {
      assert Power(k - 1) == 128 * Power(k - 2) >= 128;
      if !(-64 <= n < 64) {
        SlebFits(n / 128, k - 1);
      }
    }
  }

  lemma {:induction false} SlebReadsBack(data: seq<Byte>, pos: nat, end: nat, n: int, left: nat)
    requires StandsAt(data, pos, end, SlebBytes(n))
    ensures var r, length := SlebFrom(data, pos, end, left), |SlebBytes(n)|;
      && (length < left ==> r.0 == Some(n))
      && (length == left ==> r.0 == Some(if n >= 0 then n else n + Power(left)))
      && (length > left ==> r.0 == None)
      && (length <= left ==> r.1 == pos + length)
    decreases left
  {
    var bs := SlebBytes(n);
    FirstOfBytes(data, pos, end, bs);
    if left > 0 && !(-64 <= n < 64) {
      assert bs[1..] == SlebBytes(n / 128);
      SlebReadsBack(data, pos + 1, end, n / 128, left - 1);
    }
  }

  lemma SlebCases(data: seq<Byte>, pos: nat, end: nat, n: int, left: nat)
    requires StandsAt(data, pos, end, SlebBytes(n)) && left > 1
    ensures SlebFrom(data, pos, end, left).0 == Some(n) <==> -64 * Power(left - 2) <= n < 64 * Power(left - 1)
  {
    SlebReadsBack(data, pos, end, n, left);
    SlebFits(n, left - 1);
    SlebFits(n, left);
    assert Power(left - 1) == 128 * Power(left - 2);
  }

  /** A signed number is read back as it was written exactly when it fits nine bytes, or is not negative and fits
      ten: the tenth byte's sign bit is not looked at. */
  lemma SlebRoundTrip(data: seq<Byte>, pos: nat, end: nat, n: int)
    requires StandsAt(data, pos, end, SlebBytes(n))
    ensures Sleb(data, pos, end).0 == Some(n) <==> -64 * Power(8) <= n < 64 * Power(9)
  {
    SlebCases(data, pos, end, n, 10);
  }
}
