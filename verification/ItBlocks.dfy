/** Decoding Thumb code window by window, with IT blocks kept intact across windows. */
module ItBlocks {
  import opened Collections

  /** What the bytes at an address decode to: how many, and for an IT instruction how many instructions it governs. */
  datatype Raw = Raw(size: nat, slots: nat)

  /** A decoder of single instructions. */
  type Decoder = nat -> Option<Raw>

  /** A decoded instruction; one in an IT block knows the block's IT instruction and how many slots were left. */
  datatype Ins = Ins(address: nat, size: nat, slots: nat, condition: Option<(nat, nat)>)

  /** Where decoding xs: the address, the last IT instruction, and how many instructions it still governs. */
  datatype Cursor = Cursor(pos: nat, anchor: nat, left: nat)

  predicate Sane(decode: Decoder, base: nat, a: nat) {
    decode(a).Some? ==> a >= base && decode(a).value.size > 0
  }

  ghost predicate Contract(decode: Decoder, base: nat) {
    forall a :: Sane(decode, base, a)
  }

  function InsAt(c: Cursor, r: Raw): Ins {
    Ins(c.pos, r.size, r.slots, if c.left > 0 then Some((c.anchor, c.left)) else None)
  }

  /** Outside an IT block the last IT instruction is of no interest. */
  function At(pos: nat, anchor: nat, left: nat): Cursor {
    Cursor(pos, if left > 0 then anchor else 0, left)
  }

  function After(c: Cursor, r: Raw): Cursor {
    if r.slots > 0 then At(c.pos + r.size, c.pos, r.slots)
    else At(c.pos + r.size, c.anchor, if c.left > 0 then c.left - 1 else 0)
  }

  /** Whether an instruction lies whole before the end. */
  predicate Fits(decode: Decoder, c: Cursor, end: nat) {
    decode(c.pos).Some? && decode(c.pos).value.size > 0 && c.pos + decode(c.pos).value.size <= end
  }

  /** What is decoded from a cursor up to an end, and where decoding then is. */
  function Decode(decode: Decoder, c: Cursor, end: nat): (r: (seq<Ins>, Cursor))
    ensures c.pos <= r.1.pos && (r.1.pos <= end || r.1 == c)
    ensures forall i :: 0 <= i < |r.0| ==> c.pos <= r.0[i].address < r.1.pos
    decreases end - c.pos
  {
    if !Fits(decode, c, end) then ([], c)
    else
      var raw := decode(c.pos).value;
      var (rest, last) := Decode(decode, After(c, raw), end);
      ([InsAt(c, raw)] + rest, last)
  }

  /** One call of the decoder starts outside any IT block. */
  function Call(decode: Decoder, start: nat, end: nat): seq<Ins> {
    Decode(decode, Cursor(start, 0, 0), end).0
  }

  /** Decoding up to one end and then on to a later one is decoding to the later one. */
  lemma {:induction false} DecodeInTwo(decode: Decoder, c: Cursor, mid: nat, end: nat)
    requires mid <= end
    ensures var first := Decode(decode, c, mid);
      && Decode(decode, c, end).0 == first.0 + Decode(decode, first.1, end).0
      && Decode(decode, c, end).1 == Decode(decode, first.1, end).1
    decreases mid - c.pos
  {
    if Fits(decode, c, mid) {
      var x, next := InsAt(c, decode(c.pos).value), After(c, decode(c.pos).value);
      DecodeInTwo(decode, next, mid, end);
      DecodeOne(decode, c, mid);
      DecodeOne(decode, c, end);
      Associates([x], Decode(decode, next, mid).0, Decode(decode, Decode(decode, next, mid).1, end).0);
    }
  }

  lemma Associates<T>(p: seq<T>, q: seq<T>, r: seq<T>)
    ensures p + (q + r) == p + q + r
  {
  }

  lemma DecodeOne(decode: Decoder, c: Cursor, end: nat)
    requires Fits(decode, c, end)
    ensures var next := After(c, decode(c.pos).value);
      && Decode(decode, c, end).0 == [InsAt(c, decode(c.pos).value)] + Decode(decode, next, end).0
      && Decode(decode, c, end).1 == Decode(decode, next, end).1
  {
  }

  /** Decoding afresh from the IT instruction of a cursor leads to the cursor. */
  ghost predicate Anchored(decode: Decoder, c: Cursor) {
    c.left > 0 ==> c.anchor < c.pos && Decode(decode, Cursor(c.anchor, 0, 0), c.pos).1 == c
  }

  lemma StaysAnchored(decode: Decoder, c: Cursor, end: nat)
    requires Anchored(decode, c) && Fits(decode, c, end)
    ensures Anchored(decode, After(c, decode(c.pos).value))
  {
    var raw := decode(c.pos).value;
    var next := After(c, raw);
    if raw.slots > 0 {
      var anew := Cursor(c.pos, 0, 0);
      assert Fits(decode, anew, next.pos) && After(anew, raw) == next;
      assert !Fits(decode, next, next.pos);
    } else if c.left > 1 {
      DecodeInTwo(decode, Cursor(c.anchor, 0, 0), c.pos, next.pos);
      assert Fits(decode, c, next.pos) && !Fits(decode, next, next.pos);
    }
  }

  /** What is left of a decode when everything before an address is dropped. */
  function From(xs: seq<Ins>, offset: nat): seq<Ins> {
    if xs == [] then []
    else From(xs[..|xs| - 1], offset) + if xs[|xs| - 1].address >= offset then [xs[|xs| - 1]] else []
  }

  lemma {:induction false} FromJoin(p: seq<Ins>, q: seq<Ins>, offset: nat)
    ensures From(p + q, offset) == From(p, offset) + From(q, offset)
  {
    if q == [] {
      assert p + q == p;
    } else {
      var before, last := q[..|q| - 1], q[|q| - 1];
      FromJoin(p, before, offset);
      assert (p + q)[..|p + q| - 1] == p + before && (p + q)[|p + q| - 1] == last;
    }
  }

  lemma {:induction false} FromAllOrNone(p: seq<Ins>, offset: nat)
    ensures (forall i :: 0 <= i < |p| ==> p[i].address < offset) ==> From(p, offset) == []
    ensures (forall i :: 0 <= i < |p| ==> p[i].address >= offset) ==> From(p, offset) == p
  {
    if p != [] {
      FromAllOrNone(p[..|p| - 1], offset);
    }
  }

  /** Decoding again from the IT instruction and dropping what was already seen gives what decoding on would give. */
  lemma DecodedAgain(decode: Decoder, c: Cursor, end: nat)
    requires Anchored(decode, c) && c.left > 0 && c.pos <= end
    ensures From(Call(decode, c.anchor, end), c.pos) == Decode(decode, c, end).0
  {
    var anew := Cursor(c.anchor, 0, 0);
    var seen, next := Decode(decode, anew, c.pos).0, Decode(decode, c, end).0;
    DecodeInTwo(decode, anew, c.pos, end);
    FromJoin(seen, next, c.pos);
    FromAllOrNone(seen, c.pos);
    FromAllOrNone(next, c.pos);
  }

  /** Where the windows of a run leave decoding: each begins where the one before ended. */
  function Windows(decode: Decoder, c: Cursor, ends: seq<nat>): (seq<Ins>, Cursor) {
    if ends == [] then ([], c) else
      var before := Windows(decode, c, ends[..|ends| - 1]);
      var last := Decode(decode, before.1, ends[|ends| - 1]);
      (before.0 + last.0, last.1)
  }

  ghost predicate Rising(ends: seq<nat>) {
    forall i, j :: 0 <= i < j < |ends| ==> ends[i] <= ends[j]
  }

  lemma NextEnd(ends: seq<nat>, k: nat, pos: nat)
    requires Rising(ends) && k < |ends| && pos <= ends[k]
    ensures k + 1 < |ends| ==> pos <= ends[k + 1]
  {
  }

  /** A run cut into windows decodes as it does in one piece. */
  lemma {:induction false} WindowsDoNotMatter(decode: Decoder, c: Cursor, ends: seq<nat>)
    requires ends != [] && Rising(ends)
    ensures Windows(decode, c, ends) == Decode(decode, c, ends[|ends| - 1])
  {
    if |ends| > 1 {
      var before := ends[..|ends| - 1];
      WindowsDoNotMatter(decode, c, before);
      DecodeInTwo(decode, c, before[|before| - 1], ends[|ends| - 1]);
    } else {
      assert ends[..0] == [];
      assert Windows(decode, c, ends[..0]) == ([], c);
      assert [] + Decode(decode, c, ends[0]).0 == Decode(decode, c, ends[0]).0;
    }
  }

  lemma {:induction false} DecodeKeepsAnchored(decode: Decoder, c: Cursor, end: nat)
    requires Anchored(decode, c)
    ensures Anchored(decode, Decode(decode, c, end).1)
    decreases end - c.pos
  {
    if Fits(decode, c, end) {
      StaysAnchored(decode, c, end);
      DecodeKeepsAnchored(decode, After(c, decode(c.pos).value), end);
    }
  }

  // ----- following the instructions one by one

  /** The cursor after n instructions. */
  ghost function AfterMany(decode: Decoder, c: Cursor, n: nat): Cursor
    decreases n
  {
    if n == 0 || decode(c.pos) == None then c else AfterMany(decode, After(c, decode(c.pos).value), n - 1)
  }

  lemma {:induction false} FollowsDecode(decode: Decoder, c: Cursor, end: nat, n: nat)
    requires n <= |Decode(decode, c, end).0|
    ensures var at, xs := AfterMany(decode, c, n), Decode(decode, c, end).0;
      if n == |xs| then at == Decode(decode, c, end).1
      else Fits(decode, at, end) && xs[n] == InsAt(at, decode(at.pos).value)
           && AfterMany(decode, c, n + 1) == After(at, decode(at.pos).value)
    decreases n
  {
    if n > 0 {
      FollowsDecode(decode, After(c, decode(c.pos).value), end, n - 1);
    } else if Fits(decode, c, end) {
      assert AfterMany(decode, After(c, decode(c.pos).value), 0) == After(c, decode(c.pos).value);
    }
  }

  // ----- what an IT instruction governs

  /** Instruction m is an IT instruction, and there is none behind it before n. */
  ghost predicate LastIt(xs: seq<Ins>, m: nat, n: nat) {
    m < n <= |xs| && xs[m].slots > 0 && forall k :: m < k < n ==> xs[k].slots == 0
  }

  lemma {:induction false} LeftBehindIt(decode: Decoder, c: Cursor, end: nat, m: nat, n: nat)
    requires LastIt(Decode(decode, c, end).0, m, n)
    ensures var xs, at := Decode(decode, c, end).0, AfterMany(decode, c, n);
      && at.left == (if xs[m].slots >= n - m then xs[m].slots - (n - m - 1) else 0)
      && (at.left > 0 ==> at.anchor == xs[m].address)
    decreases n
  {
    FollowsDecode(decode, c, end, n - 1);
    if n > m + 1 {
      LeftBehindIt(decode, c, end, m, n - 1);
    }
  }

  lemma {:induction false} NothingLeft(decode: Decoder, c: Cursor, end: nat, n: nat)
    requires n <= |Decode(decode, c, end).0| && c.left == 0
    requires forall k :: 0 <= k < n ==> Decode(decode, c, end).0[k].slots == 0
    ensures AfterMany(decode, c, n).left == 0
    decreases n
  {
    if n > 0 {
      FollowsDecode(decode, c, end, n - 1);
      NothingLeft(decode, c, end, n - 1);
    }
  }

  /** What instruction n knows of the IT instruction at m, if that is the last one before it. */
  ghost predicate GovernedBy(xs: seq<Ins>, m: nat, n: nat)
    requires m < n < |xs|
  {
    if n - m <= xs[m].slots then
      xs[n].condition.Some? && xs[n].condition.value.0 == xs[m].address
      && xs[n].condition.value.1 == xs[m].slots - (n - m - 1)
    else xs[n].condition == None
  }

  /** An IT instruction governs as many instructions behind it as it has slots, counted down, unless another one comes
      first; what no IT instruction reaches is unconditional. */
  lemma GovernedBySlots(decode: Decoder, start: nat, end: nat, n: nat)
    requires n < |Call(decode, start, end)|
    ensures var xs := Call(decode, start, end);
      && (forall m: nat :: LastIt(xs, m, n) ==> GovernedBy(xs, m, n))
      && ((forall k :: 0 <= k < n ==> xs[k].slots == 0) ==> xs[n].condition == None)
  {
    var c, xs := Cursor(start, 0, 0), Call(decode, start, end);
    FollowsDecode(decode, c, end, n);
    forall m: nat | LastIt(xs, m, n)
      ensures GovernedBy(xs, m, n)
    {
      LeftBehindIt(decode, c, end, m, n);
    }
    if forall k :: 0 <= k < n ==> xs[k].slots == 0 {
      NothingLeft(decode, c, end, n);
    }
  }

  // ----- the wrapper

  class ArmCapstone {
    const arm: Decoder
    const thumb: Decoder
    var isThumb: bool
    var baseAddr: Option<nat>
    var itAnchor: Option<nat>
    var itRemaining: nat
    var nextAddress: Option<nat>

    constructor (arm: Decoder, thumb: Decoder)
      ensures this.arm == arm && this.thumb == thumb && !isThumb && itRemaining == 0 && baseAddr == None
    {
      this.arm, this.thumb := arm, thumb;
      isThumb, baseAddr, itAnchor, itRemaining, nextAddress := false, None, None, 0, None;
    }

    function Current(): Decoder
      reads this
    {
      if isThumb then thumb else arm
    }

    /** The state stands for a cursor; outside an IT block it stands for any address. */
    predicate Tracks(c: Cursor)
      reads this
    {
      itRemaining == c.left && (c.left > 0 ==> isThumb && itAnchor == Some(c.anchor) && nextAddress == Some(c.pos))
    }

    method SetThumb(thumbMode: bool)
      modifies `isThumb, `itRemaining, `nextAddress
      ensures isThumb == thumbMode && forall c: Cursor :: c.left == 0 ==> Tracks(c)
    {
      isThumb := thumbMode;
      itRemaining := 0;
      nextAddress := None;
    }

    /** Where a call at an offset takes up decoding: inside the IT block only if it goes on exactly where it was
        left. */
    function TakenUp(c: Cursor, offset: nat): Cursor
      reads this
    {
      At(offset, c.anchor, if offset == c.pos && baseAddr.Some? then c.left else 0)
    }

    /** Notes where one instruction leaves the decoder. */
    method TrackOne(x: Ins, ghost at: Cursor)
      requires Tracks(at) && Current()(at.pos).Some? && x == InsAt(at, Current()(at.pos).value)
      requires isThumb || x.slots == 0
      modifies `itAnchor, `itRemaining, `nextAddress
      ensures Tracks(After(at, Current()(at.pos).value))
    {
      if isThumb {
        if x.slots > 0 {
          itAnchor := Some(x.address);
          itRemaining := x.slots;
        } else if itRemaining > 0 {
          itRemaining := itRemaining - 1;
        }
      }
      nextAddress := Some(x.address + x.size);
    }

    /** Gives out the instructions from an offset on, and notes where each leaves the decoder. */
    method Track(xs: seq<Ins>, offset: nat, ghost from: Cursor, ghost end: nat) returns (yielded: seq<Ins>)
      requires From(xs, offset) == Decode(Current(), from, end).0 && Tracks(from)
      requires isThumb || forall x :: x in xs ==> x.slots == 0
      modifies `itAnchor, `itRemaining, `nextAddress
      ensures yielded == Decode(Current(), from, end).0 && Tracks(Decode(Current(), from, end).1)
    {
      ghost var wanted := Decode(Current(), from, end);
      yielded := [];
      var i := 0;
      while i < |xs|
        invariant i <= |xs| && yielded == From(xs[..i], offset)
        invariant |yielded| <= |wanted.0| && yielded == wanted.0[..|yielded|]
        invariant Tracks(AfterMany(Current(), from, |yielded|))
      {
        var x := xs[i];
        Prefix(xs, i, offset);
        i := i + 1;
        if x.address >= offset {
          FollowsDecode(Current(), from, end, |yielded|);
          TrackOne(x, AfterMany(Current(), from, |yielded|));
          yielded := yielded + [x];
        }
      }
      assert xs[..i] == xs;
      FollowsDecode(Current(), from, end, |yielded|);
    }

    /** Decodes a window of `length` bytes at an offset. */
    method DisasmLite(offset: nat, length: nat, ghost c: Cursor) returns (yielded: seq<Ins>)
      requires Tracks(c) && Anchored(Current(), c)
      requires isThumb || forall a :: arm(a).Some? ==> arm(a).value.slots == 0
      requires baseAddr.Some? ==> Contract(Current(), baseAddr.value)
      modifies `itAnchor, `itRemaining, `nextAddress
      ensures var r := Decode(Current(), old(TakenUp(c, offset)), offset + length);
        yielded == r.0 && Tracks(r.1) && Anchored(Current(), r.1)
    {
      var engine := Current();
      ghost var from := TakenUp(c, offset);
      ghost var end := offset + length;
      DecodeKeepsAnchored(engine, from, end);
      if isThumb && itRemaining > 0 && nextAddress == Some(offset) && baseAddr.Some? && itAnchor.Some? {
        AnchorInImage(engine, baseAddr.value, c);
        assert from == c;
        var start := itAnchor.value - baseAddr.value;
        if 0 <= start < offset - baseAddr.value + length {
          DecodedAgain(engine, from, end);
          yielded := Track(Call(engine, itAnchor.value, offset + length), offset, from, end);
          return;
        }
      }
      assert from == Cursor(offset, 0, 0);
      itRemaining := 0;
      yielded := TrackCall(offset, offset + length);
    }

    /** Decodes afresh, outside any IT block. */
    method TrackCall(offset: nat, end: nat) returns (yielded: seq<Ins>)
      requires itRemaining == 0 && (isThumb || forall a :: arm(a).Some? ==> arm(a).value.slots == 0)
      modifies `itAnchor, `itRemaining, `nextAddress
      ensures var r := Decode(Current(), Cursor(offset, 0, 0), end);
        yielded == r.0 && Tracks(r.1)
    {
      var xs := Call(Current(), offset, end);
      FromAllOrNone(xs, offset);
      NoSlots(Current(), Cursor(offset, 0, 0), end);
      yielded := Track(xs, offset, Cursor(offset, 0, 0), end);
    }
  }

  lemma Prefix(xs: seq<Ins>, i: nat, offset: nat)
    requires i < |xs|
    ensures From(xs[..i + 1], offset) == From(xs[..i], offset) + if xs[i].address >= offset then [xs[i]] else []
    ensures From(xs[..i + 1], offset) <= From(xs, offset)
  {
    assert xs[..i + 1][..i] == xs[..i];
    assert xs == xs[..i + 1] + xs[i + 1..];
    FromJoin(xs[..i + 1], xs[i + 1..], offset);
  }

  lemma {:induction false} NoSlots(decode: Decoder, c: Cursor, end: nat)
    ensures (forall a :: decode(a).Some? ==> decode(a).value.slots == 0) ==>
      forall x :: x in Decode(decode, c, end).0 ==> x.slots == 0
    decreases end - c.pos
  {
    if Fits(decode, c, end) {
      NoSlots(decode, After(c, decode(c.pos).value), end);
    }
  }

  lemma AnchorInImage(decode: Decoder, base: nat, c: Cursor)
    requires Contract(decode, base) && Anchored(decode, c) && c.left > 0
    ensures base <= c.anchor
  {
    assert Sane(decode, base, c.anchor);
  }

  lemma {:induction false} DecodeEnds(decode: Decoder, c: Cursor, end: nat)
    requires At(c.pos, c.anchor, c.left) == c
    ensures var (xs, last) := Decode(decode, c, end);
      && At(last.pos, last.anchor, last.left) == last
      && last.pos == if xs == [] then c.pos else xs[|xs| - 1].address + xs[|xs| - 1].size
    decreases end - c.pos
  {
    if Fits(decode, c, end) {
      DecodeEnds(decode, After(c, decode(c.pos).value), end);
    }
  }

  /** Where a run of windows is: the wrapper tracks the cursor, which is at the given address. */
  ghost predicate InRun(capstone: ArmCapstone, c: Cursor, pos: nat)
    reads capstone
  {
    && capstone.isThumb && capstone.baseAddr.Some? && Contract(capstone.thumb, capstone.baseAddr.value)
    && capstone.Tracks(c) && Anchored(capstone.thumb, c) && c.pos == pos && At(c.pos, c.anchor, c.left) == c
  }

  method DecodeWindow(capstone: ArmCapstone, pos: nat, end: nat, ghost c: Cursor) returns (more: seq<Ins>, next: nat)
    requires InRun(capstone, c, pos) && pos <= end
    modifies capstone`itAnchor, capstone`itRemaining, capstone`nextAddress
    ensures var r := Decode(capstone.thumb, c, end);
      more == r.0 && InRun(capstone, r.1, next) && next <= end
  {
    assert capstone.TakenUp(c, pos) == c;
    more := capstone.DisasmLite(pos, end - pos, c);
    DecodeEnds(capstone.thumb, c, end);
    next := if more != [] then more[|more| - 1].address + more[|more| - 1].size else pos;
  }

  /** A run of Thumb code decoded through the wrapper, in consecutive windows that end where `ends` says: whatever the
      windows, the instructions and their conditions are those of one decode of the whole run. */
  method DecodeRun(capstone: ArmCapstone, start: nat, ends: seq<nat>) returns (yielded: seq<Ins>)
    requires capstone.isThumb && capstone.itRemaining == 0
    requires capstone.baseAddr.Some? && Contract(capstone.thumb, capstone.baseAddr.value)
    requires ends != [] && ends[0] >= start && Rising(ends)
    modifies capstone`itAnchor, capstone`itRemaining, capstone`nextAddress
    ensures yielded == Call(capstone.thumb, start, ends[|ends| - 1])
  {
    yielded := [];
    var pos := start;
    ghost var c := Cursor(start, 0, 0);
    var k := 0;
    while k < |ends|
      invariant k <= |ends| && InRun(capstone, c, pos) && (k < |ends| ==> pos <= ends[k])
      invariant (yielded, c) == Windows(capstone.thumb, Cursor(start, 0, 0), ends[..k])
    {
      assert ends[..k + 1][..k] == ends[..k];
      ghost var after := Decode(capstone.thumb, c, ends[k]).1;
      var more, next := DecodeWindow(capstone, pos, ends[k], c);
      NextEnd(ends, k, next);
      yielded, pos, c := yielded + more, next, after;
      k := k + 1;
    }
    assert ends[..k] == ends;
    WindowsDoNotMatter(capstone.thumb, Cursor(start, 0, 0), ends);
  }
}
