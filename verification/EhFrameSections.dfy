/** A whole `.eh_frame` section as it is written, and the landing pads that are read back from it. */
module EhFrameSections {
  import opened Collections
  import opened EhFrame
  import opened EhFrameForms
  import opened Leb128

  /** A record: a CIE, or a frame description of an earlier one. */
  datatype Written = Written(wide: bool, cie: Option<nat>, body: seq<Byte>)

  function StartOf(es: seq<Written>, k: nat): nat
    requires k <= |es|
  {
    if k == 0 then 0 else StartOf(es, k - 1) + |es[k - 1].body| + if es[k - 1].wide then 20 else 8
  }

  function IdPosOf(es: seq<Written>, k: nat): nat
    requires k < |es|
  {
    StartOf(es, k) + if es[k].wide then 12 else 4
  }

  function BodyOf(es: seq<Written>, k: nat): nat
    requires k < |es|
  {
    StartOf(es, k) + if es[k].wide then 20 else 8
  }

  /** A CIE has id 0; the id of a description says how far before the id its CIE begins. */
  function IdOf(es: seq<Written>, k: nat): int
    requires k < |es| && (es[k].cie.Some? ==> es[k].cie.value < k)
  {
    if es[k].cie == None then 0 else IdPosOf(es, k) - StartOf(es, es[k].cie.value)
  }

  ghost predicate Proper(es: seq<Written>) {
    forall k :: 0 <= k < |es| ==> ProperAt(es, k)
  }

  ghost predicate ProperAt(es: seq<Written>, k: nat)
    requires k < |es|
  {
    && (es[k].cie.Some? ==> es[k].cie.value < k && es[es[k].cie.value].cie == None)
    && IdOf(es, k) >= 0 && RecordFits(es[k].wide, IdOf(es, k), es[k].body)
  }

  /** The records stand in the section one behind the other, and nothing behind the last one is a record. */
  ghost predicate Holds(data: seq<Byte>, es: seq<Written>)
    requires Proper(es)
  {
    && (forall k :: 0 <= k < |es| ==> HoldsAt(data, es, k))
    && RecordAt(data, StartOf(es, |es|)) == None
  }

  ghost predicate HoldsAt(data: seq<Byte>, es: seq<Written>, k: nat)
    requires Proper(es) && k < |es|
  {
    assert ProperAt(es, k);
    StandsAt(data, StartOf(es, k), |data|, RecordBytes(es[k].wide, IdOf(es, k), es[k].body))
  }

  lemma {:induction false} StartsIncrease(es: seq<Written>, j: nat, k: nat)
    requires j <= k <= |es|
    ensures StartOf(es, j) + 8 * (k - j) <= StartOf(es, k)
  {
    if j < k {
      StartsIncrease(es, j, k - 1);
    }
  }

  /** A record as it is read back. */
  function RecordOf(es: seq<Written>, k: nat): Record
    requires Proper(es) && k < |es|
  {
    assert ProperAt(es, k);
    Recorded(StartOf(es, k), es[k].wide, IdOf(es, k), |es[k].body|)
  }

  /** Each record is read where the one before ends, and none behind the last one. */
  ghost predicate ReadsAll(es: seq<Written>, records: nat -> Option<Record>)
    requires Proper(es)
  {
    && (forall k: nat {:trigger RecordOf(es, k)} :: k < |es| ==> records(StartOf(es, k)) == Some(RecordOf(es, k)))
    && records(StartOf(es, |es|)) == None
  }

  function RecordReader(data: seq<Byte>): nat -> Option<Record> {
    (pos: nat) => RecordAt(data, pos)
  }

  lemma RecordsRead(data: seq<Byte>, es: seq<Written>)
    requires Proper(es) && Holds(data, es)
    ensures ReadsAll(es, RecordReader(data))
  {
    forall k: nat | k < |es|
      ensures RecordAt(data, StartOf(es, k)) == Some(RecordOf(es, k))
    {
      assert ProperAt(es, k) && HoldsAt(data, es, k);
      RecordIsRead(data, es, k);
    }
  }

  lemma RecordIsRead(data: seq<Byte>, es: seq<Written>, k: nat)
    requires Proper(es) && k < |es| && HoldsAt(data, es, k)
    ensures RecordAt(data, StartOf(es, k)) == Some(RecordOf(es, k))
  {
    assert ProperAt(es, k);
    RecordRoundTrip(data, StartOf(es, k), es[k].wide, IdOf(es, k), es[k].body);
  }

  // ----- the walk, by whatever reads a record and parses a CIE

  function NotedVia(parse: Record -> Cie, r: Record, cies: map<int, Cie>): map<int, Cie> {
    if r.id == 0 then cies[r.start := parse(r)] else cies
  }

  function FdesVia(records: nat -> Option<Record>, parse: Record -> Cie, pos: nat, cies: map<int, Cie>,
      left: nat): seq<Fde>
    decreases left
  {
    if left == 0 then [] else
      match records(pos)
      case None => []
      case Some(r) => Given(r, cies) + FdesVia(records, parse, r.end, NotedVia(parse, r, cies), left - 1)
  }

  function CieReader(data: seq<Byte>, parse: CieParser, pointerSize: nat): Record -> Cie {
    (r: Record) => parse(data, r.body, r.end, pointerSize)
  }

  lemma {:induction false} FdesAreVia(data: seq<Byte>, pointerSize: nat, parse: CieParser, pos: nat,
      cies: map<int, Cie>, left: nat)
    ensures FdesFrom(data, pointerSize, parse, pos, cies, left)
      == FdesVia(RecordReader(data), CieReader(data, parse, pointerSize), pos, cies, left)
    decreases left
  {
    if left > 0 && RecordAt(data, pos).Some? {
      var r := RecordAt(data, pos).value;
      FdesAreVia(data, pointerSize, parse, r.end, Noted(data, pointerSize, parse, r, cies), left - 1);
    }
  }

  /** A frame description that stands at record k, of a CIE that is supported. */
  ghost predicate Describes(es: seq<Written>, parse: Record -> Cie, k: nat, f: Fde)
    requires Proper(es)
  {
    && k < |es| && es[k].cie.Some? && es[k].cie.value < k
    && f == Fde(parse(RecordOf(es, es[k].cie.value)), BodyOf(es, k), StartOf(es, k + 1))
    && f.cie.supported
  }

  /** The CIEs before record k are known. */
  ghost predicate Known(es: seq<Written>, parse: Record -> Cie, k: nat, cies: map<int, Cie>)
    requires Proper(es)
  {
    forall c :: 0 <= c < k <= |es| && es[c].cie == None ==> KnownAt(es, parse, c, cies)
  }

  ghost predicate KnownAt(es: seq<Written>, parse: Record -> Cie, c: nat, cies: map<int, Cie>)
    requires Proper(es) && c < |es|
  {
    StartOf(es, c) in cies && cies[StartOf(es, c)] == parse(RecordOf(es, c))
  }

  lemma IdsTellApart(es: seq<Written>, k: nat)
    requires Proper(es) && k < |es|
    ensures RecordOf(es, k).id == 0 <==> es[k].cie == None
  {
    assert ProperAt(es, k);
    if es[k].cie.Some? {
      StartsIncrease(es, es[k].cie.value, k);
    }
  }

  lemma NotedIsKnown(es: seq<Written>, parse: Record -> Cie, k: nat, cies: map<int, Cie>)
    requires Proper(es) && k < |es| && Known(es, parse, k, cies)
    ensures Known(es, parse, k + 1, NotedVia(parse, RecordOf(es, k), cies))
  {
    var after := NotedVia(parse, RecordOf(es, k), cies);
    IdsTellApart(es, k);
    forall c | 0 <= c < k + 1 && es[c].cie == None
      ensures KnownAt(es, parse, c, after)
    {
      if c < k {
        assert KnownAt(es, parse, c, cies);
        StartsIncrease(es, c, k);
      }
    }
  }

  lemma GivenIsDescribed(es: seq<Written>, parse: Record -> Cie, k: nat, cies: map<int, Cie>, f: Fde)
    requires Proper(es) && k < |es| && Known(es, parse, k, cies)
    ensures f in Given(RecordOf(es, k), cies) <==> Describes(es, parse, k, f)
  {
    assert ProperAt(es, k);
    IdsTellApart(es, k);
    if es[k].cie.Some? {
      assert KnownAt(es, parse, es[k].cie.value, cies);
    }
  }

  ghost predicate DescribesFrom(es: seq<Written>, parse: Record -> Cie, k: nat, f: Fde)
    requires Proper(es)
  {
    exists j: nat :: k <= j && Describes(es, parse, j, f)
  }

  lemma DescribesNext(es: seq<Written>, parse: Record -> Cie, k: nat, f: Fde)
    requires Proper(es)
    ensures DescribesFrom(es, parse, k, f) <==> Describes(es, parse, k, f) || DescribesFrom(es, parse, k + 1, f)
  {
  }

  lemma FdesViaStep(es: seq<Written>, records: nat -> Option<Record>, parse: Record -> Cie,
      k: nat, cies: map<int, Cie>, left: nat, f: Fde)
    requires Proper(es) && ReadsAll(es, records) && k < |es| && left > 0
    ensures var next := NotedVia(parse, RecordOf(es, k), cies);
      f in FdesVia(records, parse, StartOf(es, k), cies, left)
      <==> f in Given(RecordOf(es, k), cies) || f in FdesVia(records, parse, StartOf(es, k + 1), next, left - 1)
  {
  }

  lemma {:induction false} FdesReadBackFrom(es: seq<Written>, records: nat -> Option<Record>, parse: Record -> Cie,
      k: nat, cies: map<int, Cie>, left: nat, f: Fde)
    requires Proper(es) && ReadsAll(es, records) && k <= |es| && left >= |es| - k && Known(es, parse, k, cies)
    ensures f in FdesVia(records, parse, StartOf(es, k), cies, left) <==> DescribesFrom(es, parse, k, f)
    decreases |es| - k
  {
    if k < |es| {
      NotedIsKnown(es, parse, k, cies);
      GivenIsDescribed(es, parse, k, cies, f);
      FdesReadBackFrom(es, records, parse, k + 1, NotedVia(parse, RecordOf(es, k), cies), left - 1, f);
      FdesViaStep(es, records, parse, k, cies, left, f);
      DescribesNext(es, parse, k, f);
    } else {
      assert FdesVia(records, parse, StartOf(es, k), cies, left) == [];
      assert !DescribesFrom(es, parse, k, f);
    }
  }

  /** The frame descriptions that are given out are exactly those written under a supported CIE, each with that CIE and
      its own body. */
  lemma FdesReadBack(data: seq<Byte>, es: seq<Written>, parse: CieParser, pointerSize: nat, maxRecords: nat, f: Fde)
    requires Proper(es) && Holds(data, es) && maxRecords >= |es|
    ensures f in FdesFrom(data, pointerSize, parse, 0, map[], maxRecords)
      <==> exists k: nat :: Describes(es, CieReader(data, parse, pointerSize), k, f)
  {
    var cie := CieReader(data, parse, pointerSize);
    RecordsRead(data, es);
    FdesAreVia(data, pointerSize, parse, 0, map[], maxRecords);
    FdesReadBackFrom(es, RecordReader(data), cie, 0, map[], maxRecords, f);
    if k: nat :| Describes(es, cie, k, f) {
      assert 0 <= k && DescribesFrom(es, cie, 0, f);
    }
  }

  // ----- the landing pads of a section

  lemma {:induction false} HeadsHave(data: seq<Byte>, fdes: seq<Fde>, sectionVa: int, pointerSize: nat, h: Head)
    requires forall f :: f in fdes ==> f.end <= |data|
    ensures h in HeadsOf(data, fdes, sectionVa, pointerSize)
      <==> exists f :: f in fdes && f.cie.lsdaEncoding != 0xFF && HeadOf(data, f, sectionVa, pointerSize) == Some(h)
  {
    if fdes != [] {
      var before, last := fdes[..|fdes| - 1], fdes[|fdes| - 1];
      HeadsHave(data, before, sectionVa, pointerSize, h);
      assert fdes == before + [last];
    }
  }

  /** Some head declares the pad. */
  ghost predicate DeclaredBy(read: Reader, hs: seq<Head>, pointerSize: nat, pad: int) {
    exists k :: 0 <= k < |hs| && pad in PlainPads(read, hs[k], pointerSize)
  }

  lemma DeclaredByLast(read: Reader, before: seq<Head>, last: Head, pointerSize: nat, pad: int)
    ensures DeclaredBy(read, before + [last], pointerSize, pad)
      <==> DeclaredBy(read, before, pointerSize, pad) || pad in PlainPads(read, last, pointerSize)
  {
    var hs := before + [last];
    assert forall k :: 0 <= k < |before| ==> before[k] == hs[k];
    assert hs[|before|] == last;
  }

  lemma UnionSnoc(read: Reader, before: seq<Head>, last: Head, pointerSize: nat)
    ensures PlainUnion(read, before + [last], pointerSize)
      == PlainUnion(read, before, pointerSize) + PlainPads(read, last, pointerSize)
  {
    assert (before + [last])[..|before|] == before;
  }

  lemma {:induction false} UnionHas(read: Reader, hs: seq<Head>, pointerSize: nat, pad: int)
    ensures pad in PlainUnion(read, hs, pointerSize) <==> DeclaredBy(read, hs, pointerSize, pad)
  {
    if hs != [] {
      var before, last := hs[..|hs| - 1], hs[|hs| - 1];
      UnionHas(read, before, pointerSize, pad);
      assert hs == before + [last];
      UnionSnoc(read, before, last, pointerSize);
      DeclaredByLast(read, before, last, pointerSize, pad);
    }
  }

  /** What is written for the description at a record: its head, and the table the head leads to. */
  datatype Told = Told(description: Description, table: PadTable)

  ghost predicate DescriptionStands(data: seq<Byte>, f: Fde, pointerSize: nat, w: Description) {
    && f.end <= |data| && DescriptionFits(w, f.cie, pointerSize)
    && StandsAt(data, f.pos, f.end, DescriptionBytes(w, f.cie, pointerSize))
  }

  ghost predicate TableStands(bytes: seq<Byte>, pointerSize: nat, t: PadTable) {
    Writable(t, pointerSize) && StandsAt(bytes, 0, |bytes|, TableBytes(t, pointerSize))
  }

  ghost predicate Tells(data: seq<Byte>, f: Fde, sectionVa: int, read: Reader, pointerSize: nat, told: Told) {
    && DescriptionStands(data, f, pointerSize, told.description)
    && TableStands(read(HeadAt(told.description, f, sectionVa, pointerSize).lsdaVa, MAX_LSDA_BYTES), pointerSize,
         told.table)
  }

  /** What a description and its table mean: the pads of the call sites that lie in the described range. */
  ghost predicate Means(f: Fde, sectionVa: int, pointerSize: nat, told: Told, pad: int) {
    var h := HeadAt(told.description, f, sectionVa, pointerSize);
    && pad in SitePads(told.table.sites, BaseOf(told.table.start, h.lsdaVa, h.start))
    && h.start <= pad < h.start + h.range
  }

  lemma HeadIsRead(data: seq<Byte>, f: Fde, sectionVa: int, pointerSize: nat, w: Description)
    requires DescriptionStands(data, f, pointerSize, w)
    ensures HeadOf(data, f, sectionVa, pointerSize) == Some(HeadAt(w, f, sectionVa, pointerSize))
  {
    HeadRoundTrip(data, f, sectionVa, pointerSize, w);
  }

  lemma TableIsRead(read: Reader, h: Head, pointerSize: nat, t: PadTable)
    requires TableStands(read(h.lsdaVa, MAX_LSDA_BYTES), pointerSize, t)
    ensures Declared(read, h.lsdaVa, h.start, pointerSize) == SitePads(t.sites, BaseOf(t.start, h.lsdaVa, h.start))
  {
    TableRoundTrip(read(h.lsdaVa, MAX_LSDA_BYTES), t, h.lsdaVa, h.start, pointerSize,
      BaseOf(t.start, h.lsdaVa, h.start));
  }

  lemma PadsAreRead(data: seq<Byte>, f: Fde, sectionVa: int, read: Reader, pointerSize: nat, told: Told, pad: int)
    requires Tells(data, f, sectionVa, read, pointerSize, told)
    ensures pad in PlainPads(read, HeadAt(told.description, f, sectionVa, pointerSize), pointerSize)
      <==> Means(f, sectionVa, pointerSize, told, pad)
  {
    TableIsRead(read, HeadAt(told.description, f, sectionVa, pointerSize), pointerSize, told.table);
  }

  /** A description that names a table, written under a supported CIE. */
  ghost predicate Speaks(data: seq<Byte>, es: seq<Written>, parse: CieParser, pointerSize: nat, k: nat, f: Fde)
    requires Proper(es)
  {
    Describes(es, CieReader(data, parse, pointerSize), k, f) && f.cie.lsdaEncoding != 0xFF
  }

  ghost predicate AllTell(data: seq<Byte>, es: seq<Written>, parse: CieParser, sectionVa: int, read: Reader,
      pointerSize: nat, told: seq<Told>)
    requires Proper(es)
  {
    && |told| == |es|
    && forall k: nat, f :: Speaks(data, es, parse, pointerSize, k, f) ==>
         Tells(data, f, sectionVa, read, pointerSize, told[k])
  }

  lemma ReadIsMeant(data: seq<Byte>, es: seq<Written>, parse: CieParser, sectionVa: int, read: Reader,
      pointerSize: nat, told: seq<Told>, fdes: seq<Fde>, f: Fde, h: Head, pad: int) returns (k: nat)
    requires Proper(es) && AllTell(data, es, parse, sectionVa, read, pointerSize, told)
    requires exists j: nat :: Describes(es, CieReader(data, parse, pointerSize), j, f)
    requires f.end <= |data| && f.cie.lsdaEncoding != 0xFF && HeadOf(data, f, sectionVa, pointerSize) == Some(h)
    requires pad in PlainPads(read, h, pointerSize)
    ensures Speaks(data, es, parse, pointerSize, k, f) && Means(f, sectionVa, pointerSize, told[k], pad)
  {
    k :| Describes(es, CieReader(data, parse, pointerSize), k, f);
    assert Speaks(data, es, parse, pointerSize, k, f);
    HeadIsRead(data, f, sectionVa, pointerSize, told[k].description);
    PadsAreRead(data, f, sectionVa, read, pointerSize, told[k], pad);
  }

  lemma MeantIsRead(data: seq<Byte>, es: seq<Written>, parse: CieParser, sectionVa: int, read: Reader,
      pointerSize: nat, told: seq<Told>, k: nat, f: Fde, pad: int) returns (h: Head)
    requires Proper(es) && AllTell(data, es, parse, sectionVa, read, pointerSize, told)
    requires Speaks(data, es, parse, pointerSize, k, f) && Means(f, sectionVa, pointerSize, told[k], pad)
    ensures f.end <= |data| && HeadOf(data, f, sectionVa, pointerSize) == Some(h)
    ensures pad in PlainPads(read, h, pointerSize)
  {
    HeadIsRead(data, f, sectionVa, pointerSize, told[k].description);
    PadsAreRead(data, f, sectionVa, read, pointerSize, told[k], pad);
    h := HeadAt(told[k].description, f, sectionVa, pointerSize);
  }

  /** Some head of the section declares the pad. */
  lemma UnionHasHead(data: seq<Byte>, fdes: seq<Fde>, sectionVa: int, read: Reader, pointerSize: nat, pad: int)
    returns (f: Fde, h: Head)
    requires forall f :: f in fdes ==> f.end <= |data|
    requires pad in PlainUnion(read, HeadsOf(data, fdes, sectionVa, pointerSize), pointerSize)
    ensures f in fdes && f.cie.lsdaEncoding != 0xFF && HeadOf(data, f, sectionVa, pointerSize) == Some(h)
    ensures pad in PlainPads(read, h, pointerSize)
  {
    var hs := HeadsOf(data, fdes, sectionVa, pointerSize);
    UnionHas(read, hs, pointerSize, pad);
    var i :| 0 <= i < |hs| && pad in PlainPads(read, hs[i], pointerSize);
    h := hs[i];
    assert h in hs;
    HeadsHave(data, fdes, sectionVa, pointerSize, h);
    f :| f in fdes && f.cie.lsdaEncoding != 0xFF && HeadOf(data, f, sectionVa, pointerSize) == Some(h);
  }

  lemma HeadIsInUnion(data: seq<Byte>, fdes: seq<Fde>, sectionVa: int, read: Reader, pointerSize: nat, pad: int,
      f: Fde, h: Head)
    requires forall f :: f in fdes ==> f.end <= |data|
    requires f in fdes && f.cie.lsdaEncoding != 0xFF && HeadOf(data, f, sectionVa, pointerSize) == Some(h)
    requires pad in PlainPads(read, h, pointerSize)
    ensures pad in PlainUnion(read, HeadsOf(data, fdes, sectionVa, pointerSize), pointerSize)
  {
    var hs := HeadsOf(data, fdes, sectionVa, pointerSize);
    HeadsHave(data, fdes, sectionVa, pointerSize, h);
    var i :| 0 <= i < |hs| && hs[i] == h;
    UnionHas(read, hs, pointerSize, pad);
  }

  /** The law of the decoder: from a section of any records in any order, each description with its head and its table
      written in any encoding that is supported, exactly the landing pads are read that the tables mean. */
  lemma SectionRoundTrip(data: seq<Byte>, es: seq<Written>, parse: CieParser, sectionVa: int, read: Reader,
      pointerSize: nat, told: seq<Told>, maxRecords: nat, pad: int)
    requires Proper(es) && Holds(data, es) && maxRecords >= |es|
    requires AllTell(data, es, parse, sectionVa, read, pointerSize, told)
    ensures var fdes := FdesFrom(data, pointerSize, parse, 0, map[], maxRecords);
      pad in PlainUnion(read, HeadsOf(data, fdes, sectionVa, pointerSize), pointerSize) <==>
        exists k: nat, f :: Speaks(data, es, parse, pointerSize, k, f)
                            && Means(f, sectionVa, pointerSize, told[k], pad)
  {
    var fdes := FdesFrom(data, pointerSize, parse, 0, map[], maxRecords);
    if pad in PlainUnion(read, HeadsOf(data, fdes, sectionVa, pointerSize), pointerSize) {
      var f, h := UnionHasHead(data, fdes, sectionVa, read, pointerSize, pad);
      FdesReadBack(data, es, parse, pointerSize, maxRecords, f);
      var k := ReadIsMeant(data, es, parse, sectionVa, read, pointerSize, told, fdes, f, h, pad);
    }
    if k: nat, f :| Speaks(data, es, parse, pointerSize, k, f) && Means(f, sectionVa, pointerSize, told[k], pad) {
      FdesReadBack(data, es, parse, pointerSize, maxRecords, f);
      var h := MeantIsRead(data, es, parse, sectionVa, read, pointerSize, told, k, f, pad);
      HeadIsInUnion(data, fdes, sectionVa, read, pointerSize, pad, f, h);
    }
  }
}
