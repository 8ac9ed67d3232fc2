/** What an analysis leaves behind: for each block the words it went over, and why it went no further. */
module Trails {
  import opened AddressReferences
  import opened Blocks
  import opened Collections
  import opened Disassembly
  import opened FunctionStates
  import opened Recording
  import opened Recovery

  /** One thing a backend does about an instruction. */
  datatype Effect =
    | Enqueue(block: Address)
    | Refer(addrFrom: Address, addrTo: Address, byJump: bool)
    | Unrefer(addrFrom: Address, addrTo: Address)
    | ReferData(addrFrom: Address, addrTo: Address, size: nat, isTable: bool)
    | AbsorbBody(f: Address)
    | Classify(a: Address, what: Candidate)
    | CloseBlock
    | SortBooked
    | Unreachable
    | Ending
    | SaneEnding
    | Recursion
    | Thunk
    | NoLeaf

  /** What surrounds the traversal. */
  datatype Environment = Environment(
    decode: Address -> Option<Instruction>,
    allZero: Address -> bool,
    byteAt: Address -> Option<int>,
    symbolOf: Address -> string,
    landingPad: Address -> bool,
    targets: set<Address>,
    base: Address,
    limit: Address)
  {
    predicate Inside(a: Address) {
      base <= a < limit
    }

    /** Only whole words of the image are decoded. */
    ghost predicate Contract() {
      forall a :: decode(a).Some? ==>
        Inside(a) && decode(a).value.address == a && Fixed(decode(a).value) && decode(a).value.End() <= limit
    }

    /** Of all addresses, inside the image or not, only some are ever queued as blocks. */
    predicate Allows(e: Effect) {
      e.Enqueue? ==> e.block in targets
    }

    /** Every block start there is. */
    ghost function Universe(start: Address): set<Address> {
      {start} + targets
    }
  }

  // ----- effects are steps of a run

  /** What a backend notes. */
  function NotesOf(n: Notes, e: Effect): Notes {
    match e
    case Unreachable => n.(nextReachable := false)
    case Ending => n.(blockEnding := true)
    case SaneEnding => n.(sanelyEnding := true)
    case Recursion => n.(recursive := true)
    case Thunk => n.(thunk := true)
    case NoLeaf => n.(leaf := false)
    case _ => n
  }

  /** The data it refers to. */
  function DataOf(data: DataUse, e: Effect): DataUse {
    match e
    case ReferData(a, b, size, isTable) =>
      var bytes := Interval(b, b + size);
      DataUse(data.bytes + bytes, if isTable then data.tableBytes + bytes else data.tableBytes, data.refs + {(a, b)})
    case _ => data
  }

  /** What happens in a run when a backend does something. */
  ghost function EventOf(c: Config, e: Effect): Event
    requires c.active.Some?
    ensures Enabled(c, EventOf(c, e)) && SameAnalysis(EventOf(c, e))
  {
    var v := c.active.value;
    match e
    case Enqueue(block) => Event.Enqueue(block)
    case Refer(a, b, byJump) => Event.Refer(a, b, byJump)
    case Unrefer(a, b) => Event.Unrefer(a, b)
    case AbsorbBody(f) =>
      if Absorbable(c.d, c.candidates, f, v.start) then Absorb(f) else Note(v.data, v.notes, v.colliding)
    case Classify(a, what) => Event.Classify(a, what)
    case CloseBlock => Event.CloseBlock
    case SortBooked => Sort
    case _ => Note(DataOf(v.data, e), NotesOf(v.notes, e), v.colliding)
  }

  ghost function Reacted(c: Config, e: Effect): (r: Config)
    requires c.active.Some?
    ensures r.active.Some?
  {
    After(c, EventOf(c, e))
  }

  ghost function AllReacted(c: Config, es: seq<Effect>): (r: Config)
    requires c.active.Some?
    ensures r.active.Some?
  {
    if es == [] then c else Reacted(AllReacted(c, es[..|es| - 1]), es[|es| - 1])
  }

  /** What effects leave behind among the references, jump targets and blocks. */
  lemma RoutesInPlainTerms(c: Config, e: Effect)
    requires c.active.Some?
    ensures var v, w := c.active.value, Reacted(c, e).active.value;
      && (e.Refer? ==> e.addrTo in At(w.flow.from, e.addrFrom) && e.addrFrom in At(w.flow.to, e.addrTo)
                       && (e.byJump ==> e.addrTo in w.flow.jumpTargets && w.notes.isJmp))
      && (e.Unrefer? ==> e.addrTo !in At(w.flow.from, e.addrFrom) && e.addrFrom !in At(w.flow.to, e.addrTo))
      && (!e.Refer? && !e.Unrefer? ==> w.flow == v.flow)
      && (e.CloseBlock? ==> w.code.current == [] && !w.notes.isJmp)
  {
  }

  /** What they leave behind among the bytes of data and tables. */
  lemma DataInPlainTerms(data: DataUse, e: Effect, y: Address)
    ensures var after := DataOf(data, e);
      && (y in after.bytes <==> y in data.bytes || (e.ReferData? && e.addrTo <= y < e.addrTo + e.size))
      && (y in after.tableBytes <==>
           y in data.tableBytes || (e.ReferData? && e.isTable && e.addrTo <= y < e.addrTo + e.size))
      && after.refs == data.refs + if e.ReferData? then {(e.addrFrom, e.addrTo)} else {}
  {
  }

  /** And among the notes. */
  lemma NotesInPlainTerms(n: Notes, e: Effect)
    ensures NotesOf(n, e) == Notes(n.isJmp, n.nextReachable && !e.Unreachable?, n.blockEnding || e.Ending?,
                                   n.sanelyEnding || e.SaneEnding?, n.recursive || e.Recursion?, n.leaf && !e.NoLeaf?,
                                   n.thunk || e.Thunk?)
  {
  }

  /** Every effect but those on references and blocks leaves exactly these data and notes. */
  lemma EffectsInPlainTerms(c: Config, e: Effect)
    requires c.active.Some?
    ensures var v, w := c.active.value, Reacted(c, e).active.value;
      && w.data == DataOf(v.data, e)
      && (!e.Refer? && !e.CloseBlock? ==> w.notes == NotesOf(v.notes, e))
  {
  }

  /** Which stored functions an effect undoes: one other than the function under analysis that is absorbed as its body,
      if it is a candidate of its own and none of a gap. */
  lemma EffectsUndo(c: Config, e: Effect, f: Address)
    requires c.active.Some? && f in c.d.functions
    ensures f !in Reacted(c, e).d.functions <==>
      e == AbsorbBody(f) && f != c.active.value.start && f in c.candidates && !c.candidates[f].isGap
  {
  }

  /** Nothing is lost on the way from one state of an analysis to another. */
  ghost predicate Grown(v: State, w: State) {
    && (forall x :: x in v.code.instructions ==> x in w.code.instructions)
    && v.colliding <= w.colliding && v.data.tableBytes <= w.data.tableBytes
    && v.work.processed <= w.work.processed && v.work.queued <= w.work.queued + w.work.processed
    && v.code.blocksAnalyzed <= w.code.blocksAnalyzed && v.start == w.start
  }

  lemma GrownOn(u: State, v: State, w: State)
    requires Grown(u, v) && Grown(v, w)
    ensures Grown(u, w)
  {
  }

  /** No instruction is booked but, at most, one. */
  ghost predicate BooksAtMost(v: State, w: State, x: Option<Instruction>) {
    forall y :: y in w.code.instructions ==> y in v.code.instructions || x == Some(y)
  }

  /** Each block that is queued will be, or was, processed. */
  ghost predicate Queued(w: Worklist, es: seq<Effect>) {
    forall i :: 0 <= i < |es| && es[i].Enqueue? ==> es[i].block in w.queued || es[i].block in w.processed
  }

  ghost predicate Ends(es: seq<Effect>) {
    exists i :: 0 <= i < |es| && es[i].Ending?
  }

  /** What the effects of a backend can do to an analysis. */
  ghost predicate Reaction(v: State, w: State, es: seq<Effect>) {
    && Grown(v, w) && BooksAtMost(v, w, None) && Queued(w.work, es)
    && w.work.processed == v.work.processed && w.colliding == v.colliding
    && (w.notes.blockEnding <==> v.notes.blockEnding || Ends(es))
  }

  lemma SortReaction(v: State, w: State)
    requires w == v.(code := SortedIn(v.code))
    ensures Grown(v, w) && BooksAtMost(v, w, None)
  {
    SortIsAPermutation(ByAddress, v.code.instructions);
  }

  lemma SameBooking(v: State, w: State)
    requires w.code.instructions == v.code.instructions && w.code.blocksAnalyzed >= v.code.blocksAnalyzed
    requires w.start == v.start && w.colliding == v.colliding && v.data.tableBytes <= w.data.tableBytes
    requires w.work == v.work || exists b :: w.work == Pushed(v.work, b)
    ensures Grown(v, w) && BooksAtMost(v, w, None) && w.work.processed == v.work.processed
  {
  }

  lemma OneReaction(c: Config, e: Effect)
    requires c.active.Some?
    ensures var v, w := c.active.value, Reacted(c, e).active.value;
      && Grown(v, w) && BooksAtMost(v, w, None)
      && w.work.processed == v.work.processed && w.colliding == v.colliding
      && w.work == (if e.Enqueue? then Pushed(v.work, e.block) else v.work)
      && (e.Enqueue? ==> e.block in w.work.queued || e.block in w.work.processed)
      && (w.notes.blockEnding <==> v.notes.blockEnding || e.Ending?)
  {
    var v, w := c.active.value, Reacted(c, e).active.value;
    if e.SortBooked? {
      SortReaction(v, w);
    } else {
      SameBooking(v, w);
    }
  }

  lemma QueuedOn(v: State, w: State, es: seq<Effect>)
    requires Queued(v.work, es) && Grown(v, w)
    ensures Queued(w.work, es)
  {
  }

  lemma QueuedMore(w: Worklist, es: seq<Effect>, e: Effect)
    requires Queued(w, es) && (e.Enqueue? ==> e.block in w.queued || e.block in w.processed)
    ensures Queued(w, es + [e])
  {
  }

  lemma EndsMore(es: seq<Effect>, e: Effect)
    ensures Ends(es + [e]) <==> Ends(es) || e.Ending?
  {
    assert forall i :: 0 <= i < |es| ==> (es + [e])[i] == es[i];
    assert (es + [e])[|es|] == e;
  }

  lemma ReactionMore(v: State, u: State, w: State, es: seq<Effect>, e: Effect)
    requires Reaction(v, u, es) && Grown(u, w) && BooksAtMost(u, w, None)
    requires w.work.processed == u.work.processed && w.colliding == u.colliding
    requires e.Enqueue? ==> e.block in w.work.queued || e.block in w.work.processed
    requires w.notes.blockEnding <==> u.notes.blockEnding || e.Ending?
    ensures Reaction(v, w, es + [e])
  {
    GrownOn(v, u, w);
    QueuedOn(u, w, es);
    QueuedMore(w.work, es, e);
    EndsMore(es, e);
  }

  /** Whatever the effects are, nothing is unbooked, blocks that are queued stay so until they are processed, and the
      block ends only if the backend says so. */
  lemma {:induction false} ReactionsKeep(c: Config, es: seq<Effect>)
    requires c.active.Some?
    ensures Reaction(c.active.value, AllReacted(c, es).active.value, es)
  {
    if es != [] {
      var before, e := es[..|es| - 1], es[|es| - 1];
      ReactionsKeep(c, before);
      var u := AllReacted(c, before);
      OneReaction(u, e);
      ReactionMore(c.active.value, u.active.value, Reacted(u, e).active.value, before, e);
      assert es == before + [e];
    }
  }

  // ----- since the analysis began

  /** Every byte with an owner had one before. */
  ghost predicate OwnedBefore(d: Result, was: Result) {
    forall a :: a in d.ins2fn ==> a in was.ins2fn
  }

  /** Since then functions were at most undone, ownership is still exact if it was, and what the analysis ran into
      belonged to functions. */
  ghost predicate Since(d: Result, v: State, was: Result) {
    && (OwnedWords(was) ==> OwnedWords(d))
    && OwnedBefore(d, was) && d.dataMap == was.dataMap
    && forall a :: a in v.colliding ==> a in was.ins2fn
  }

  lemma StepSince(c: Config, e: Event, was: Result)
    requires Kept(c) && c.active.Some? && Enabled(c, e) && SameAnalysis(e) && Since(c.d, c.active.value, was)
    requires e.Note? ==> forall a :: a in e.colliding ==> a in c.active.value.colliding || a in c.d.ins2fn
    ensures Kept(After(c, e)) && After(c, e).active.Some? && Since(After(c, e).d, After(c, e).active.value, was)
  {
    StepKeeps(c, e, After(c, e));
    if OwnedWords(was) {
      StepKeepsOwnership(c, e, After(c, e));
    }
  }

  /** What is booked is what the image decodes to. */
  ghost predicate Decoded(env: Environment, k: Booking) {
    forall x :: x in k.instructions ==> env.decode(x.address) == Some(x)
  }

  // ----- trails

  /** A word the traversal took up, and what the backend did about it. */
  datatype Visit = Visit(x: Instruction, effects: seq<Effect>)

  /** Why a block goes no further: nothing decodes there, a jump table begins, it is the second word of zeros, the
      backend wants the block cut before the word, the backend noted the end, or the last word was there before. */
  datatype Halt = Undecodable | AtTable | GivenUp | CutAt(effects: seq<Effect>) | Ended | Met

  /** One block: the words from its start on. */
  datatype Trail = Trail(block: Address, visits: seq<Visit>, halt: Halt)
  {
    /** The word behind the last one taken up. */
    function Next(): Address {
      block + 4 * |visits|
    }

    /** How many words were reached: one that is cut or given up at is not taken up. */
    function Reached(): nat {
      |visits| + if halt.CutAt? || halt.GivenUp? then 1 else 0
    }
  }

  /** How many of some words are zero. */
  function Zeros(env: Environment, block: Address, n: nat): (r: nat)
    ensures r <= n
  {
    if n == 0 then 0 else Zeros(env, block, n - 1) + if env.allZero(block + 4 * (n - 1)) then 1 else 0
  }

  /** The words follow each other in the image, are booked, and the backend notes the end of none. */
  ghost predicate Goes(env: Environment, v: State, block: Address, visits: seq<Visit>, n: nat) {
    && n <= |visits|
    && forall i :: 0 <= i < n ==> GoesAt(env, v, block, visits, i)
  }

  ghost predicate GoesAt(env: Environment, v: State, block: Address, visits: seq<Visit>, i: nat)
    requires i < |visits|
  {
    && TakenUp(env, v, block + 4 * i, visits[i])
    && visits[i].x in v.code.instructions && !Ends(visits[i].effects)
  }

  ghost predicate TakenUp(env: Environment, v: State, a: Address, t: Visit) {
    env.decode(a) == Some(t.x) && Queued(v.work, t.effects)
  }

  /** An instruction that could not be booked belongs to another function or is data, or it was booked before. */
  ghost predicate Settled(v: State, dataMap: set<Address>, x: Instruction) {
    x in v.code.instructions || x.address in v.colliding || x.address in dataMap
  }

  /** The block ran into what was there before: another function, data, or a word that was booked. */
  ghost predicate Encountered(v: State, w: State, dataMap: set<Address>, x: Instruction) {
    x in v.code.instructions || x.address in w.colliding || x.address in dataMap
  }

  /** The word a trail ends with was taken up, but it may have been there before. */
  ghost predicate LastHolds(env: Environment, v: State, dataMap: set<Address>, t: Trail)
    requires t.visits != []
  {
    var last := t.visits[|t.visits| - 1];
    TakenUp(env, v, t.block + 4 * (|t.visits| - 1), last) && Settled(v, dataMap, last.x)
  }

  ghost predicate Closed(t: Trail) {
    t.halt.Ended? || (t.halt.Met? && |t.visits| > 1) || (t.halt.AtTable? && t.visits != [])
  }

  /** Everything the block went over is booked, up to where it ended, for the reason it ended. */
  ghost predicate Holds(env: Environment, v: State, dataMap: set<Address>, t: Trail) {
    && (Closed(t) ==> v.code.blocksAnalyzed > 0)
    && match t.halt
       case Undecodable => Goes(env, v, t.block, t.visits, |t.visits|) && env.decode(t.Next()) == None
       case AtTable =>
         && Goes(env, v, t.block, t.visits, |t.visits|) && env.decode(t.Next()).Some?
         && BytesOf([env.decode(t.Next()).value]) * v.data.tableBytes != {}
       case GivenUp =>
         Goes(env, v, t.block, t.visits, |t.visits|) && env.decode(t.Next()).Some? && env.allZero(t.Next())
       case CutAt(effects) =>
         Goes(env, v, t.block, t.visits, |t.visits|) && env.decode(t.Next()).Some? && Queued(v.work, effects)
       case Ended =>
         && t.visits != [] && Goes(env, v, t.block, t.visits, |t.visits| - 1) && LastHolds(env, v, dataMap, t)
         && t.visits[|t.visits| - 1].x in v.code.instructions && Ends(t.visits[|t.visits| - 1].effects)
       case Met =>
         t.visits != [] && Goes(env, v, t.block, t.visits, |t.visits| - 1) && LastHolds(env, v, dataMap, t)
  }

  lemma WordsStay(env: Environment, v: State, w: State, block: Address, visits: seq<Visit>, n: nat)
    requires Goes(env, v, block, visits, n) && Grown(v, w)
    ensures Goes(env, w, block, visits, n)
  {
    forall i | 0 <= i < n
      ensures GoesAt(env, w, block, visits, i)
    {
      assert GoesAt(env, v, block, visits, i);
      QueuedOn(v, w, visits[i].effects);
    }
  }

  lemma GoesFurther(env: Environment, v: State, w: State, block: Address, visits: seq<Visit>, next: Visit)
    requires Goes(env, v, block, visits, |visits|) && Grown(v, w)
    requires TakenUp(env, w, block + 4 * |visits|, next) && next.x in w.code.instructions && !Ends(next.effects)
    ensures Goes(env, w, block, visits + [next], |visits| + 1)
  {
    var more := visits + [next];
    WordsStay(env, v, w, block, visits, |visits|);
    forall i | 0 <= i < |more|
      ensures GoesAt(env, w, block, more, i)
    {
      if i < |visits| {
        assert GoesAt(env, w, block, visits, i) && more[i] == visits[i];
      }
    }
  }

  lemma LastStays(env: Environment, v: State, w: State, dataMap: set<Address>, t: Trail)
    requires t.visits != [] && LastHolds(env, v, dataMap, t) && Grown(v, w)
    ensures LastHolds(env, w, dataMap, t)
  {
    QueuedOn(v, w, t.visits[|t.visits| - 1].effects);
  }

  /** A trail holds whatever is analysed afterwards. */
  lemma TrailStays(env: Environment, v: State, w: State, dataMap: set<Address>, t: Trail)
    requires Holds(env, v, dataMap, t) && Grown(v, w)
    ensures Holds(env, w, dataMap, t)
  {
    match t.halt
    case Ended =>
      WordsStay(env, v, w, t.block, t.visits, |t.visits| - 1);
      LastStays(env, v, w, dataMap, t);
    case Met =>
      WordsStay(env, v, w, t.block, t.visits, |t.visits| - 1);
      LastStays(env, v, w, dataMap, t);
    case CutAt(effects) =>
      WordsStay(env, v, w, t.block, t.visits, |t.visits|);
      QueuedOn(v, w, effects);
    case _ => WordsStay(env, v, w, t.block, t.visits, |t.visits|);
  }

  // ----- one word

  /** What happens in a run when a word is to be booked: one that nobody owns, that is no data and was not booked is; so
      is one that a gap function owns, which is undone, unless a gap is being analysed itself; any other ends the
      block. */
  ghost function BookingOf(c: Config, x: Instruction, asGap: bool): Event
    requires c.active.Some? && Fixed(x)
    ensures Enabled(c, BookingOf(c, x, asGap)) && SameAnalysis(BookingOf(c, x, asGap))
  {
    var v := c.active.value;
    if x.address !in c.d.ins2fn && x.address !in c.d.dataMap && x.address !in v.code.processedBytes then Book(x)
    else if !asGap && GapAt(c.d, c.candidates, x.address, v.start) then RevertGapAndBook(x)
    else Note(v.data, v.notes.(blockEnding := true),
              if x.address in c.d.ins2fn then v.colliding + {x.address} else v.colliding)
  }

  /** A booked word is listed with its address and its bytes, and refers to the next address if that is reached. */
  lemma BookingAdds(v: State, x: Instruction, a: Address, b: Address)
    ensures var w := Booked(v, x);
      && w.code.instructions == v.code.instructions + [x]
      && (a in w.code.startBytes <==> a in v.code.startBytes || a == x.address)
      && (a in w.code.processedBytes <==> a in v.code.processedBytes || x.address <= a < x.End())
      && (b in At(w.flow.from, a) <==>
           b in At(v.flow.from, a) || (v.notes.nextReachable && a == x.address && b == x.End()))
  {
    assert x in [x] && forall y :: y in [x] ==> y == x;
    assert a in BytesOf([x]) <==> x.address <= a < x.End() by {
      if x.address <= a < x.End() {
        assert x in [x] && Spans(x, a);
      }
    }
  }

  /** What is done to a word: it is booked, and the block goes on if the backend noted no end, or it is not, and the
      block ends. */
  ghost predicate Handled(v: State, w: State, dataMap: set<Address>, x: Instruction) {
    && Grown(v, w) && BooksAtMost(v, w, Some(x)) && w.work == v.work && Settled(w, dataMap, x)
    && (!w.notes.blockEnding ==> x in w.code.instructions && !v.notes.blockEnding)
    && (w.notes.blockEnding ==> v.notes.blockEnding || Encountered(v, w, dataMap, x))
  }

  lemma ProcessedIsBooked(env: Environment, d: Result, k: Booking, x: Instruction)
    requires Sound(d, k) && Decoded(env, k) && Fixed(x) && env.decode(x.address) == Some(x)
    requires x.address in k.processedBytes
    ensures x in k.instructions
  {
    var y :| y in k.instructions && Spans(y, x.address);
    assert Fixed(y);
    WordsAreApart(x, y, x.address);
  }

  /** In plain terms, for a booking k of an analysis from `start`: the word is booked if nobody owns it, it is no data
      and was not booked; or if a gap function owns it and no gap is being analysed, and then no stored function does.
      In all other cases nothing changes but that the block ends, and that an owned word counts as a collision. */
  ghost predicate BooksPlainly(c: Config, x: Instruction, asGap: bool, after: Config)
    requires c.active.Some? && after.active.Some?
  {
    var d, v, w := c.d, c.active.value, after.active.value;
    var free := x.address !in d.ins2fn && x.address !in d.dataMap && x.address !in v.code.processedBytes;
    var gap := !asGap && GapAt(d, c.candidates, x.address, v.start);
    if free || gap then
      && w.code.instructions == v.code.instructions + [x] && w.code.current == v.code.current + [x]
      && w.code.startBytes == v.code.startBytes + {x.address} && w.notes.blockEnding == v.notes.blockEnding
      && w.colliding == v.colliding && (free ==> after.d == d)
      && (x.address in after.d.ins2fn ==> after.d.ins2fn[x.address] !in after.d.functions)
    else
      && w.code == v.code && w.notes.blockEnding && after.d == d
      && w.colliding == v.colliding + if x.address in d.ins2fn then {x.address} else {}
  }

  lemma BookingIsPlain(c: Config, x: Instruction, asGap: bool)
    requires Kept(c) && c.active.Some? && Fixed(x)
    ensures BooksPlainly(c, x, asGap, After(c, BookingOf(c, x, asGap)))
  {
    if GapAt(c.d, c.candidates, x.address, c.active.value.start) {
      RevertedWordIsFree(c.d, c.active.value.code, x, false);
    }
  }

  /** Which stored functions booking undoes: the owner of the word, if it is a gap function that no landing pad marks,
      while no gap is being analysed. */
  lemma BookingUndoes(c: Config, x: Instruction, asGap: bool, f: Address)
    requires c.active.Some? && Fixed(x) && f in c.d.functions
    ensures f !in After(c, BookingOf(c, x, asGap)).d.functions <==>
      && x.address in c.d.ins2fn && c.d.ins2fn[x.address] == f && !asGap && f != c.active.value.start
      && f in c.candidates && c.candidates[f].isGap && !c.candidates[f].isLandingPad
  {
  }

  lemma BookedIsHandled(env: Environment, v: State, dataMap: set<Address>, x: Instruction)
    requires env.decode(x.address) == Some(x) && Decoded(env, v.code)
    ensures Handled(v, Booked(v, x), dataMap, x) && Decoded(env, Booked(v, x).code)
  {
  }

  lemma EncounterIsHandled(v: State, w: State, dataMap: set<Address>, x: Instruction, colliding: set<Address>)
    requires w == v.(data := v.data, notes := v.notes.(blockEnding := true), colliding := colliding)
    requires v.colliding <= colliding && (x in v.code.instructions || x.address in colliding || x.address in dataMap)
    ensures Handled(v, w, dataMap, x)
  {
  }

  lemma BookingHandles(env: Environment, c: Config, x: Instruction, asGap: bool)
    requires Kept(c) && c.active.Some? && Fixed(x) && env.decode(x.address) == Some(x)
    requires Decoded(env, c.active.value.code)
    ensures var after := After(c, BookingOf(c, x, asGap)).active;
      after.Some? && Handled(c.active.value, after.value, c.d.dataMap, x) && Decoded(env, after.value.code)
  {
    var v, e := c.active.value, BookingOf(c, x, asGap);
    var w := After(c, e).active.value;
    if e.Note? {
      if x.address in v.code.processedBytes {
        ProcessedIsBooked(env, c.d, v.code, x);
      }
      EncounterIsHandled(v, w, c.d.dataMap, x, e.colliding);
    } else {
      BookedIsHandled(env, v, c.d.dataMap, x);
    }
  }

  // ----- along one block

  /** What one word taken up can do: it is booked, or it belongs to another function, is data or was booked before; and
      the traversal goes on behind it only if it is booked and the backend notes no end. */
  ghost predicate TakesWord(v: State, w: State, dataMap: set<Address>, x: Instruction, effects: seq<Effect>,
      cut: bool, done: bool)
  {
    && Grown(v, w) && BooksAtMost(v, w, Some(x)) && Queued(w.work, effects) && w.work.processed == v.work.processed
    && (cut ==> done)
    && (!cut ==> Settled(w, dataMap, x))
    && (done && !cut ==> Encountered(v, w, dataMap, x) || (x in w.code.instructions && Ends(effects)))
    && (!done ==> x in w.code.instructions && !Ends(effects) && !w.notes.blockEnding)
    && (done && !cut && w.code.instructions != [] ==> w.code.blocksAnalyzed > 0)
  }

  /** Nothing was booked but words taken up. */
  ghost predicate BooksOnly(v: State, w: State, visits: seq<Visit>) {
    forall y :: y in w.code.instructions ==> y in v.code.instructions || TakesUp(visits, y)
  }

  ghost predicate TakesUp(visits: seq<Visit>, y: Instruction) {
    exists i :: 0 <= i < |visits| && visits[i].x == y
  }

  lemma TakesUpMore(visits: seq<Visit>, next: Visit, y: Instruction)
    ensures TakesUp(visits + [next], y) <==> TakesUp(visits, y) || next.x == y
  {
    assert forall i :: 0 <= i < |visits| ==> (visits + [next])[i] == visits[i];
    assert (visits + [next])[|visits|] == next;
  }

  lemma BooksOnlyMore(u: State, v: State, w: State, visits: seq<Visit>, next: Visit)
    requires BooksOnly(u, v, visits) && BooksAtMost(v, w, Some(next.x))
    ensures BooksOnly(u, w, visits + [next])
  {
    forall y | y in w.code.instructions
      ensures y in u.code.instructions || TakesUp(visits + [next], y)
    {
      TakesUpMore(visits, next, y);
    }
  }

  /** So far the block goes on, from the state u at its start to v. */
  ghost predicate OnTheWay(env: Environment, u: State, v: State, block: Address, visits: seq<Visit>) {
    && Goes(env, v, block, visits, |visits|) && Grown(u, v) && BooksOnly(u, v, visits)
    && v.work.processed == u.work.processed && !v.notes.blockEnding
  }

  lemma WayGoesOn(env: Environment, u: State, v: State, w: State, dataMap: set<Address>, block: Address,
      visits: seq<Visit>, x: Instruction, effects: seq<Effect>)
    requires OnTheWay(env, u, v, block, visits) && env.decode(block + 4 * |visits|) == Some(x)
    requires TakesWord(v, w, dataMap, x, effects, false, false)
    ensures OnTheWay(env, u, w, block, visits + [Visit(x, effects)])
  {
    GoesFurther(env, v, w, block, visits, Visit(x, effects));
    GrownOn(u, v, w);
    BooksOnlyMore(u, v, w, visits, Visit(x, effects));
  }

  /** What is known of a block that was gone over, from the state u at its start to w. */
  ghost predicate GoneOver(env: Environment, u: State, w: State, dataMap: set<Address>, t: Trail) {
    && (t.halt.Met? ==> t.visits != [] && Encountered(u, w, dataMap, t.visits[|t.visits| - 1].x))
    && Holds(env, w, dataMap, t) && Grown(u, w) && BooksOnly(u, w, t.visits)
    && w.work.processed == u.work.processed
  }

  function EndOfTrail(block: Address, visits: seq<Visit>, x: Instruction, effects: seq<Effect>, cut: bool,
      booked: bool, ends: bool): Trail
  {
    if cut then Trail(block, visits, CutAt(effects))
    else Trail(block, visits + [Visit(x, effects)], if booked && ends then Ended else Met)
  }

  lemma BooksNoMore(u: State, v: State, w: State, visits: seq<Visit>)
    requires BooksOnly(u, v, visits) && BooksAtMost(v, w, None)
    ensures BooksOnly(u, w, visits)
  {
  }

  /** No word is taken up twice along a block. */
  lemma NotTwice(env: Environment, v: State, block: Address, visits: seq<Visit>, x: Instruction)
    requires env.Contract() && Goes(env, v, block, visits, |visits|) && env.decode(block + 4 * |visits|) == Some(x)
    ensures !TakesUp(visits, x)
  {
    forall i | 0 <= i < |visits|
      ensures visits[i].x != x
    {
      assert GoesAt(env, v, block, visits, i);
      assert visits[i].x.address == block + 4 * i && x.address == block + 4 * |visits|;
    }
  }

  lemma PrefixGoes(env: Environment, v: State, block: Address, visits: seq<Visit>, next: Visit)
    requires Goes(env, v, block, visits, |visits|)
    ensures Goes(env, v, block, visits + [next], |visits|)
  {
    var more := visits + [next];
    forall i | 0 <= i < |visits|
      ensures GoesAt(env, v, block, more, i)
    {
      assert GoesAt(env, v, block, visits, i) && more[i] == visits[i];
    }
  }

  /** The word at which a block ends, booked or not. */
  lemma WayEnds(env: Environment, u: State, v: State, w: State, dataMap: set<Address>, block: Address,
      visits: seq<Visit>, x: Instruction, effects: seq<Effect>)
    returns (t: Trail)
    requires env.Contract() && OnTheWay(env, u, v, block, visits) && env.decode(block + 4 * |visits|) == Some(x)
    requires TakesWord(v, w, dataMap, x, effects, false, true)
    ensures GoneOver(env, u, w, dataMap, t) && t.block == block && t.Reached() == |visits| + 1 && !t.halt.GivenUp?
  {
    var last := Visit(x, effects);
    t := EndOfTrail(block, visits, x, effects, false, x in w.code.instructions, Ends(effects));
    WordsStay(env, v, w, block, visits, |visits|);
    PrefixGoes(env, w, block, visits, last);
    GrownOn(u, v, w);
    BooksOnlyMore(u, v, w, visits, last);
    NotTwice(env, v, block, visits, x);
    if |visits| > 0 {
      assert GoesAt(env, w, block, visits, 0);
    }
  }

  /** The word a block is cut before. */
  lemma WayIsCut(env: Environment, u: State, v: State, w: State, dataMap: set<Address>, block: Address,
      visits: seq<Visit>, x: Instruction, effects: seq<Effect>)
    returns (t: Trail)
    requires OnTheWay(env, u, v, block, visits) && env.decode(block + 4 * |visits|) == Some(x)
    requires TakesWord(v, w, dataMap, x, effects, true, true) && BooksAtMost(v, w, None)
    ensures GoneOver(env, u, w, dataMap, t) && t.block == block && t.Reached() == |visits| + 1 && !t.halt.GivenUp?
  {
    t := Trail(block, visits, CutAt(effects));
    WordsStay(env, v, w, block, visits, |visits|);
    GrownOn(u, v, w);
    BooksNoMore(u, v, w, visits);
  }

  /** A block that ends before a word is taken up. */
  lemma WayStops(env: Environment, u: State, v: State, w: State, dataMap: set<Address>, t: Trail)
    requires OnTheWay(env, u, v, t.block, t.visits) && Grown(v, w) && BooksAtMost(v, w, None)
    requires w.work.processed == v.work.processed
    requires t.halt.Undecodable? || t.halt.AtTable? || t.halt.GivenUp?
    requires t.halt.Undecodable? ==> env.decode(t.Next()) == None
    requires t.halt.GivenUp? ==> env.decode(t.Next()).Some? && env.allZero(t.Next())
    requires t.halt.AtTable? ==> env.decode(t.Next()).Some?
    requires t.halt.AtTable? ==> BytesOf([env.decode(t.Next()).value]) * w.data.tableBytes != {}
    requires t.halt.AtTable? && w.code.instructions != [] ==> w.code.blocksAnalyzed > 0
    ensures GoneOver(env, u, w, dataMap, t)
  {
    WordsStay(env, v, w, t.block, t.visits, |t.visits|);
    GrownOn(u, v, w);
    BooksNoMore(u, v, w, t.visits);
    if |t.visits| > 0 {
      assert GoesAt(env, w, t.block, t.visits, 0);
    }
  }

  /** A jump table ends the block before the word: the reference to it, if the last word made one, is dropped. */
  ghost function Stopped(v: State, previous: Option<Instruction>, x: Instruction): State {
    var u := if previous.Some? && previous.value.End() == x.address
      then v.(flow := WithoutRef(v.flow, previous.value.address, x.address)) else v;
    var e := EndBlock(u.(notes := u.notes.(blockEnding := true)));
    e.(notes := e.notes.(sanelyEnding := true))
  }

  /** The reference from the last word is gone if it ends there, no other is; and the function ends sanely. */
  lemma StoppedInPlainTerms(v: State, previous: Option<Instruction>, x: Instruction, a: Address, b: Address)
    ensures var w := Stopped(v, previous, x);
      && (b in At(w.flow.from, a) <==>
           b in At(v.flow.from, a)
           && !(previous.Some? && previous.value.End() == x.address && (a, b) == (previous.value.address, x.address)))
      && w.code.instructions == v.code.instructions && w.code.current == []
      && w.notes.sanelyEnding && w.notes.blockEnding
  {
  }

  lemma EndedIsClosed(d: Result, k: Booking)
    requires Sound(d, k) && k.current == []
    ensures k.instructions != [] ==> k.blocksAnalyzed > 0
  {
  }

  lemma WayStays(env: Environment, u: State, v: State, w: State, block: Address, visits: seq<Visit>)
    requires OnTheWay(env, u, v, block, visits) && Grown(v, w) && BooksAtMost(v, w, None)
    requires w.work == v.work && w.notes.blockEnding == v.notes.blockEnding
    ensures OnTheWay(env, u, w, block, visits)
  {
    WordsStay(env, v, w, block, visits, |visits|);
    GrownOn(u, v, w);
    BooksNoMore(u, v, w, visits);
  }

  // ----- one block after the other

  function AllZeros(env: Environment, ts: seq<Trail>): nat {
    if ts == [] then 0
    else AllZeros(env, ts[..|ts| - 1]) + Zeros(env, ts[|ts| - 1].block, ts[|ts| - 1].Reached())
  }

  ghost predicate ProcessedBy(w: Worklist, ts: seq<Trail>) {
    forall b :: b in w.processed <==> exists i :: 0 <= i < |ts| && ts[i].block == b
  }

  ghost predicate BookedBy(k: Booking, ts: seq<Trail>) {
    forall y :: y in k.instructions ==> exists i :: 0 <= i < |ts| && TakesUp(ts[i].visits, y)
  }

  ghost predicate AllHold(env: Environment, v: State, dataMap: set<Address>, ts: seq<Trail>) {
    forall i :: 0 <= i < |ts| ==> Holds(env, v, dataMap, ts[i])
  }

  /** Blocks ran into nothing but other functions, data and words that earlier blocks had taken up. */
  ghost predicate AllMet(v: State, dataMap: set<Address>, ts: seq<Trail>) {
    forall i :: 0 <= i < |ts| ==> MetAt(v, dataMap, ts, i)
  }

  ghost predicate MetAt(v: State, dataMap: set<Address>, ts: seq<Trail>, i: nat)
    requires i < |ts|
  {
    ts[i].halt.Met? && ts[i].visits != [] ==>
      var x := ts[i].visits[|ts[i].visits| - 1].x;
      || x.address in v.colliding || x.address in dataMap
      || TakenUpBefore(ts, i, x)
  }

  ghost predicate TakenUpBefore(ts: seq<Trail>, i: nat, x: Instruction) {
    exists j :: 0 <= j < i && j < |ts| && TakesUp(ts[j].visits, x)
  }

  lemma TakenUpMore(ts: seq<Trail>, t: Trail, i: nat, x: Instruction)
    requires TakenUpBefore(ts, i, x)
    ensures TakenUpBefore(ts + [t], i, x)
  {
    var j :| 0 <= j < i && j < |ts| && TakesUp(ts[j].visits, x);
    assert (ts + [t])[j] == ts[j];
  }

  /** What is known of an analysis after some blocks: their trails hold, nothing else was processed or booked. */
  ghost predicate Explored(env: Environment, v: State, dataMap: set<Address>, ts: seq<Trail>) {
    && AllHold(env, v, dataMap, ts) && AllMet(v, dataMap, ts) && ProcessedBy(v.work, ts) && BookedBy(v.code, ts)
  }

  lemma MetStays(v: State, w: State, dataMap: set<Address>, ts: seq<Trail>)
    requires AllMet(v, dataMap, ts) && Grown(v, w)
    ensures AllMet(w, dataMap, ts)
  {
    forall i | 0 <= i < |ts|
      ensures MetAt(w, dataMap, ts, i)
    {
      assert MetAt(v, dataMap, ts, i);
    }
  }

  lemma MetMore(u: State, w: State, dataMap: set<Address>, ts: seq<Trail>, t: Trail)
    requires AllMet(w, dataMap, ts) && BookedBy(u.code, ts)
    requires t.halt.Met? ==> t.visits != [] && Encountered(u, w, dataMap, t.visits[|t.visits| - 1].x)
    ensures AllMet(w, dataMap, ts + [t])
  {
    var more := ts + [t];
    assert more[|ts|] == t && forall i :: 0 <= i < |ts| ==> more[i] == ts[i];
    forall i | 0 <= i < |more|
      ensures MetAt(w, dataMap, more, i)
    {
      if i < |ts| {
        assert MetAt(w, dataMap, ts, i);
        if ts[i].halt.Met? && ts[i].visits != [] {
          var x := ts[i].visits[|ts[i].visits| - 1].x;
          if TakenUpBefore(ts, i, x) {
            TakenUpMore(ts, t, i, x);
          }
        }
      } else if t.halt.Met? && t.visits[|t.visits| - 1].x in u.code.instructions {
        var x := t.visits[|t.visits| - 1].x;
        var j :| 0 <= j < |ts| && TakesUp(ts[j].visits, x);
        assert TakenUpBefore(ts, i, x);
        TakenUpMore(ts, t, i, x);
      }
    }
  }

  lemma HoldMore(env: Environment, v: State, w: State, dataMap: set<Address>, ts: seq<Trail>, t: Trail)
    requires AllHold(env, v, dataMap, ts) && Grown(v, w) && Holds(env, w, dataMap, t)
    ensures AllHold(env, w, dataMap, ts + [t])
  {
    forall i | 0 <= i < |ts + [t]|
      ensures Holds(env, w, dataMap, (ts + [t])[i])
    {
      if i < |ts| {
        TrailStays(env, v, w, dataMap, ts[i]);
      }
    }
  }

  lemma ProcessedMore(v: Worklist, w: Worklist, ts: seq<Trail>, t: Trail)
    requires ProcessedBy(v, ts) && w.processed == v.processed + {t.block}
    ensures ProcessedBy(w, ts + [t])
  {
    var more := ts + [t];
    assert more[|ts|] == t && forall i :: 0 <= i < |ts| ==> more[i] == ts[i];
    forall b
      ensures b in w.processed <==> exists i :: 0 <= i < |more| && more[i].block == b
    {
      if i :| 0 <= i < |ts| && ts[i].block == b {
        assert more[i].block == b;
      }
    }
  }

  lemma BookedMore(v: State, w: State, ts: seq<Trail>, t: Trail)
    requires BookedBy(v.code, ts) && BooksOnly(v, w, t.visits)
    ensures BookedBy(w.code, ts + [t])
  {
    var more := ts + [t];
    assert more[|ts|] == t && forall i :: 0 <= i < |ts| ==> more[i] == ts[i];
    forall y | y in w.code.instructions
      ensures exists i :: 0 <= i < |more| && TakesUp(more[i].visits, y)
    {
      if y in v.code.instructions {
        var i :| 0 <= i < |ts| && TakesUp(ts[i].visits, y);
        assert TakesUp(more[i].visits, y);
      } else {
        assert TakesUp(more[|ts|].visits, y);
      }
    }
  }

  /** One block more: v is the state before it was chosen. */
  lemma ExploredMore(env: Environment, v: State, w: State, dataMap: set<Address>, ts: seq<Trail>, t: Trail)
    requires Explored(env, v, dataMap, ts) && v.work.queue != [] && GoneOver(env, ChooseNext(v), w, dataMap, t)
    requires t.block == v.work.queue[|v.work.queue| - 1]
    ensures Explored(env, w, dataMap, ts + [t])
  {
    GrownOn(v, ChooseNext(v), w);
    HoldMore(env, v, w, dataMap, ts, t);
    MetStays(v, w, dataMap, ts);
    MetMore(ChooseNext(v), w, dataMap, ts, t);
    ProcessedMore(v.work, w.work, ts, t);
    BookedMore(ChooseNext(v), w, ts, t);
  }

  lemma ZerosMore(env: Environment, ts: seq<Trail>, t: Trail)
    ensures AllZeros(env, ts + [t]) == AllZeros(env, ts) + Zeros(env, t.block, t.Reached())
  {
    assert (ts + [t])[..|ts|] == ts;
  }

  lemma ExploredStays(env: Environment, v: State, w: State, dataMap: set<Address>, ts: seq<Trail>)
    requires Explored(env, v, dataMap, ts) && Grown(v, w) && BooksAtMost(v, w, None)
    requires w.work.processed == v.work.processed
    ensures Explored(env, w, dataMap, ts)
  {
    MetStays(v, w, dataMap, ts);
    forall i | 0 <= i < |ts|
      ensures Holds(env, w, dataMap, ts[i])
    {
      TrailStays(env, v, w, dataMap, ts[i]);
    }
  }

  /** The traversal was given up. */
  predicate GaveUp(ts: seq<Trail>) {
    ts != [] && ts[|ts| - 1].halt.GivenUp?
  }

  /** The backend cuts the very first word, or a jump table begins there. */
  ghost predicate Refused(v: State, t: Trail, x: Instruction) {
    t.visits == [] && (t.halt.CutAt? || (t.halt.AtTable? && BytesOf([x]) * v.data.tableBytes != {}))
  }

  /** The traversal is given up exactly at the second word of zeros. */
  ghost predicate ZerosFit(env: Environment, ts: seq<Trail>) {
    && (forall i :: 0 <= i < |ts| - 1 ==> !ts[i].halt.GivenUp?)
    && if GaveUp(ts) then AllZeros(env, ts) == 2 else AllZeros(env, ts) <= 1
  }

  lemma ZerosFitMore(env: Environment, ts: seq<Trail>, t: Trail)
    requires ZerosFit(env, ts) && !GaveUp(ts)
    requires var all := AllZeros(env, ts) + Zeros(env, t.block, t.Reached());
      if t.halt.GivenUp? then all == 2 else all <= 1
    ensures ZerosFit(env, ts + [t])
    ensures AllZeros(env, ts + [t]) == AllZeros(env, ts) + Zeros(env, t.block, t.Reached())
  {
    ZerosMore(env, ts, t);
    forall i | 0 <= i < |ts|
      ensures !(ts + [t])[i].halt.GivenUp?
    {
      assert (ts + [t])[i] == ts[i];
    }
  }

  lemma FirstGivenUp(env: Environment, ts: seq<Trail>)
    requires ts != [] && ZerosFit(env, ts) && ts[0].halt.GivenUp?
    ensures ts[0].visits != []
  {
    assert |ts| == 1 && ts[..0] == [];
    assert AllZeros(env, ts) == AllZeros(env, []) + Zeros(env, ts[0].block, ts[0].Reached());
  }

  /** A start that decodes, belongs to nobody and is no data is booked, unless it is refused. */
  lemma FreeStartIsBooked(env: Environment, d: Result, v: State, dataMap: set<Address>, ts: seq<Trail>)
    requires Explored(env, v, dataMap, ts) && ts != [] && ts[0].block == v.start && ZerosFit(env, ts)
    requires env.Contract() && Sound(d, v.code) && env.decode(v.start).Some?
    requires v.start !in dataMap && v.start !in v.colliding
    ensures var x := env.decode(v.start).value;
      (x in v.code.instructions && v.start in v.code.startBytes) || Refused(v, ts[0], x)
  {
    var t := ts[0];
    assert Holds(env, v, dataMap, t);
    if t.halt.GivenUp? {
      FirstGivenUp(env, ts);
    }
    if |t.visits| > 1 || (|t.visits| == 1 && !t.halt.Met? && !t.halt.Ended?) {
      assert GoesAt(env, v, t.block, t.visits, 0);
    }
  }

  /** A block that was closed counts. */
  lemma ClosedCounts(env: Environment, v: State, dataMap: set<Address>, ts: seq<Trail>)
    requires Explored(env, v, dataMap, ts)
    ensures AnyClosed(ts) ==> v.code.blocksAnalyzed > 0
  {
    if i :| 0 <= i < |ts| && Closed(ts[i]) {
      assert Holds(env, v, dataMap, ts[i]);
    }
  }

  ghost predicate BeginsAt(trails: seq<Trail>, start: Address) {
    trails != [] && trails[0].block == start
  }

  /** What is known of an analysis after a pass over its blocks. */
  ghost predicate Passed(env: Environment, v: State, dataMap: set<Address>, trails: seq<Trail>) {
    Explored(env, v, dataMap, trails) && BeginsAt(trails, v.start) && ZerosFit(env, trails)
  }

  /** Some block was gone over to its end. */
  ghost predicate AnyClosed(ts: seq<Trail>) {
    exists i :: 0 <= i < |ts| && Closed(ts[i])
  }
}
