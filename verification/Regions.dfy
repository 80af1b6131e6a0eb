/** Regions cut into records (lib/src/region.rs). */
module Regions {
  import opened Results
  import opened Bytes
  import opened Headers
  import opened Seqs

  datatype Record = Record(header: Header, data: seq<byte>, parent: Option<Header>)

  datatype Region = Region(records: seq<Record>)

  /** The data of the records, one after the other. */
  function Concat(records: seq<Record>): seq<byte> {
    if records == [] then [] else records[0].data + Concat(records[1..])
  }

  /** The records that the cursor of the parser reaches. */
  function Cut(bytes: seq<byte>): seq<Record>
    decreases |bytes|
  {
    if bytes == [] || !Parses(bytes) then []
    else
      var header := Parsed(bytes);
      var size := header.TotalSize();
      if size == 0 then []
      else if size >= |bytes| then [Record(header, bytes, None)]
      else [Record(header, bytes[..size], None)] + Cut(bytes[size..])
  }

  /** A parsed region, or why no record could be read. */
  function RegionOf(bytes: seq<byte>): Result<Region> {
    if Cut(bytes) != [] then Ok(Region(Cut(bytes)))
    else if bytes != [] && HeaderFromSlice(bytes).Err? then Err(HeaderFromSlice(bytes).error)
    else Err(EmptyRegion)
  }

  /** Where the parser stops without reading a record. */
  predicate Stops(bytes: seq<byte>) {
    bytes == [] || !Parses(bytes) || Parsed(bytes).TotalSize() == 0
  }

  /** The record at the start of the bytes. */
  function FirstRecord(bytes: seq<byte>): Record
    requires !Stops(bytes)
  {
    var header := Parsed(bytes);
    Record(header, if header.TotalSize() < |bytes| then bytes[..header.TotalSize()] else bytes, None)
  }

  /** The bytes after that record. */
  function Remainder(bytes: seq<byte>): seq<byte>
    requires !Stops(bytes)
    ensures |Remainder(bytes)| < |bytes|
  {
    var size := Parsed(bytes).TotalSize();
    if size < |bytes| then bytes[size..] else []
  }

  lemma CutStep(bytes: seq<byte>)
    requires !Stops(bytes)
    ensures Cut(bytes) == [FirstRecord(bytes)] + Cut(Remainder(bytes))
  {
    hide HeaderFromSlice;
    assert Cut([]) == [];
  }

  function After(bytes: seq<byte>, cursor: nat): seq<byte> {
    if cursor < |bytes| then bytes[cursor..] else []
  }

  /** The record that starts at the cursor, and what follows it. */
  lemma RecordAt(bytes: seq<byte>, cursor: nat)
    requires cursor < |bytes|
    requires !Stops(bytes[cursor..])
    ensures var header := Parsed(bytes[cursor..]);
            var limit := cursor + header.TotalSize();
            && FirstRecord(bytes[cursor..])
               == Record(header, bytes[cursor..if limit < |bytes| then limit else |bytes|], None)
            && Remainder(bytes[cursor..]) == After(bytes, limit)
  {
    hide HeaderFromSlice;
    var rest := bytes[cursor..];
    var size := Parsed(rest).TotalSize();
    if size < |rest| {
      assert rest[..size] == bytes[cursor..cursor + size];
      assert rest[size..] == bytes[cursor + size..];
    }
  }

  /** Reading the record at the cursor moves one record from what is left to what was read. */
  lemma Advance(bytes: seq<byte>, cursor: nat, records: seq<Record>)
    requires cursor < |bytes|
    requires !Stops(bytes[cursor..])
    requires Cut(bytes) == records + Cut(After(bytes, cursor))
    ensures var header := Parsed(bytes[cursor..]);
            var limit := cursor + header.TotalSize();
            var record := Record(header, bytes[cursor..if limit < |bytes| then limit else |bytes|], None);
            Cut(bytes) == records + [record] + Cut(After(bytes, limit))
  {
    hide HeaderFromSlice, Cut;
    var rest := bytes[cursor..];
    CutStep(rest);
    RecordAt(bytes, cursor);
    Associative(records, [FirstRecord(rest)], Cut(Remainder(rest)));
  }

  /** Whether the loop may end at `cursor` without an error of its own. */
  predicate EndsAt(bytes: seq<byte>, cursor: nat, records: seq<Record>) {
    && Stops(After(bytes, cursor))
    && (records == [] ==> cursor == 0 && (bytes == [] || HeaderFromSlice(bytes).Ok?))
  }

  lemma RegionAtEnd(bytes: seq<byte>, cursor: nat, records: seq<Record>)
    requires Cut(bytes) == records + Cut(After(bytes, cursor))
    requires EndsAt(bytes, cursor, records)
    ensures RegionOf(bytes) == if records == [] then Err(EmptyRegion) else Ok(Region(records))
  {
    hide HeaderFromSlice;
    assert Cut(After(bytes, cursor)) == [];
    assert records + [] == records;
  }

  lemma FailsAtStart(bytes: seq<byte>)
    requires bytes != [] && HeaderFromSlice(bytes).Err?
    ensures RegionOf(bytes) == Err(HeaderFromSlice(bytes).error)
  {
  }

  /** The parser: a cursor moves over the bytes and one record is pushed at each stop. */
  method FromSlice(bytes: seq<byte>) returns (r: Result<Region>)
    ensures r == RegionOf(bytes)
  {
    hide HeaderFromSlice, Cut;
    var records: seq<Record> := [];
    var cursor: nat := 0;
    assert After(bytes, 0) == bytes;
    while cursor < |bytes|
      invariant Cut(bytes) == records + Cut(After(bytes, cursor))
      invariant records == [] ==> cursor == 0
      invariant cursor >= |bytes| ==> EndsAt(bytes, cursor, records)
      decreases |bytes| - cursor
    {
      var slice := bytes[cursor..];
      assert cursor == 0 ==> slice == bytes;
      var header := HeaderFromSlice(slice);
      if header.Err? {
        if records == [] {
          FailsAtStart(bytes);
          return Err(header.error);
        }
        assert EndsAt(bytes, cursor, records);
        break;
      }
      if header.value.None? {
        assert EndsAt(bytes, cursor, records);
        break;
      }
      var size := header.value.value.TotalSize();
      if size == 0 {
        assert EndsAt(bytes, cursor, records);
        break;
      }
      Advance(bytes, cursor, records);
      var limit := cursor + size;
      var end := if limit < |bytes| then limit else |bytes|;
      records := records + [Record(header.value.value, bytes[cursor..end], None)];
      cursor := cursor + size;
    }
    RegionAtEnd(bytes, cursor, records);
    if records == [] {
      return Err(EmptyRegion);
    }
    return Ok(Region(records));
  }

  lemma {:induction false} ConcatAppend(a: seq<Record>, b: seq<Record>)
    ensures Concat(a + b) == Concat(a) + Concat(b)
  {
    if a == [] {
      assert a + b == b;
    } else {
      assert (a + b)[1..] == a[1..] + b;
      ConcatAppend(a[1..], b);
    }
  }

  method ToBytes(region: Region) returns (bytes: seq<byte>)
    ensures bytes == Concat(region.records)
  {
    bytes := [];
    for i := 0 to |region.records|
      invariant bytes == Concat(region.records[..i])
    {
      ConcatAppend(region.records[..i], [region.records[i]]);
      assert region.records[..i + 1] == region.records[..i] + [region.records[i]];
      bytes := bytes + region.records[i].data;
    }
    assert region.records[..|region.records|] == region.records;
  }

  /** Every record of the region now names `header` as its parent. */
  function WithParent(region: Region, header: Header): (r: Region)
    ensures |r.records| == |region.records|
    ensures forall i | 0 <= i < |r.records| ::
              r.records[i] == region.records[i].(parent := Some(header))
  {
    Region(seq(|region.records|, i requires 0 <= i < |region.records| =>
                 region.records[i].(parent := Some(header))))
  }

  method SetChildContext(region: Region, header: Header) returns (r: Region)
    ensures r == WithParent(region, header)
  {
    var records := region.records;
    for i := 0 to |records|
      invariant |records| == |region.records|
      invariant records[..i] == WithParent(region, header).records[..i]
      invariant records[i..] == region.records[i..]
    {
      records := records[i := records[i].(parent := Some(header))];
    }
    r := Region(records);
  }

  lemma {:induction false} ParentKeepsBytes(records: seq<Record>, others: seq<Record>)
    requires |records| == |others|
    requires forall i | 0 <= i < |records| :: records[i].data == others[i].data
    ensures Concat(records) == Concat(others)
  {
    if records != [] {
      ParentKeepsBytes(records[1..], others[1..]);
    }
  }

  // What parsing keeps

  /** The records tile a prefix of the input; only the last one may be cut short. */
  lemma {:induction false} CutTiles(bytes: seq<byte>)
    ensures Concat(Cut(bytes)) <= bytes
    ensures forall i | 0 <= i < |Cut(bytes)| ::
              && 0 < |Cut(bytes)[i].data| <= Cut(bytes)[i].header.TotalSize()
              && Cut(bytes)[i].parent == None
              && (i < |Cut(bytes)| - 1 ==> |Cut(bytes)[i].data| == Cut(bytes)[i].header.TotalSize())
              && (|Cut(bytes)[i].data| < Cut(bytes)[i].header.TotalSize() ==> Concat(Cut(bytes)) == bytes)
    decreases |bytes|
  {
    hide HeaderFromSlice;
    if Cut(bytes) != [] {
      var size := Parsed(bytes).TotalSize();
      if size < |bytes| {
        CutTiles(bytes[size..]);
        assert bytes == bytes[..size] + bytes[size..];
        assert Cut(bytes)[1..] == Cut(bytes[size..]);
      }
    }
  }

  /** The parser stops only where no further record can be read. */
  lemma {:induction false} CutIsMaximal(bytes: seq<byte>)
    ensures |Concat(Cut(bytes))| <= |bytes|
    ensures |Concat(Cut(bytes))| < |bytes| ==>
              var rest := bytes[|Concat(Cut(bytes))|..];
              !Parses(rest) || Parsed(rest).TotalSize() == 0
    decreases |bytes|
  {
    hide HeaderFromSlice;
    CutTiles(bytes);
    if Stops(bytes) {
      assert bytes[0..] == bytes;
    } else {
      CutStep(bytes);
      var record, rest := FirstRecord(bytes), Remainder(bytes);
      CutIsMaximal(rest);
      assert Cut(bytes)[0] == record && Cut(bytes)[1..] == Cut(rest);
      var n := |Concat(Cut(rest))|;
      if n < |rest| {
        assert rest[n..] == bytes[|record.data| + n..];
      }
    }
  }

  lemma ConcatFirst(record: Record, rest: seq<Record>)
    ensures Concat([record] + rest) == record.data + Concat(rest)
  {
    assert ([record] + rest)[1..] == rest;
  }

  /** The record that is read at the start of the bytes. */
  predicate IsReadFrom(record: Record, bytes: seq<byte>) {
    && bytes != [] && Parses(bytes) && record.header == Parsed(bytes)
    && record.data == if record.header.TotalSize() < |bytes| then bytes[..record.header.TotalSize()] else bytes
  }

  lemma FirstIsRead(bytes: seq<byte>)
    requires !Stops(bytes)
    ensures IsReadFrom(FirstRecord(bytes), bytes)
    ensures Remainder(bytes) != [] ==>
              |FirstRecord(bytes).data| <= |bytes| && Remainder(bytes) == bytes[|FirstRecord(bytes).data|..]
  {
    hide HeaderFromSlice;
  }

  /** Record `i` has the header parsed where the records before it end, and its bytes from there on. */
  lemma {:induction false} RecordsAreParsed(bytes: seq<byte>, i: nat)
    requires i < |Cut(bytes)|
    ensures |Concat(Cut(bytes)[..i])| <= |bytes|
    ensures IsReadFrom(Cut(bytes)[i], bytes[|Concat(Cut(bytes)[..i])|..])
    decreases |bytes|
  {
    NothingStops(bytes);
    CutStep(bytes);
    FirstIsRead(bytes);
    var record, rest := FirstRecord(bytes), Remainder(bytes);
    assert Concat([]) == [];
    hide Cut, Concat, Parses, IsReadFrom, Stops, FirstRecord, Remainder;
    if i == 0 {
      assert Cut(bytes)[..0] == [];
      assert bytes[0..] == bytes;
    } else {
      NothingStops(rest);
      RecordsAreParsed(rest, i - 1);
      var before := Cut(rest)[..i - 1];
      assert Cut(bytes)[..i] == [record] + before;
      ConcatFirst(record, before);
      assert rest[|Concat(before)|..] == bytes[|record.data| + |Concat(before)|..];
    }
  }

  lemma NothingStops(bytes: seq<byte>)
    ensures Cut(bytes) != [] ==> !Stops(bytes) && bytes != []
  {
    hide HeaderFromSlice;
  }

  /** A record shows its header again exactly when it was not cut inside it. */
  lemma {:induction false} RecordShowsHeader(bytes: seq<byte>, record: Record)
    requires record in Cut(bytes)
    ensures Parses(record.data) <==> record.header.HeaderSize() <= |record.data|
    ensures Parses(record.data) ==> Parsed(record.data) == record.header
    decreases |bytes|
  {
    hide HeaderFromSlice;
    CutStep(bytes);
    if record == FirstRecord(bytes) {
      var n := record.header.HeaderSize();
      assert record.data <= bytes;
      if n <= |record.data| {
        assert record.data[..n] == bytes[..n];
        HeaderIsLocal(bytes, record.data);
      } else {
        CutHeaderStops(bytes, record.data);
      }
    } else {
      RecordShowsHeader(Remainder(bytes), record);
    }
  }

  /** Why no region can be read: the error of the first header, or else there is no record at all. */
  lemma WhyNoRegion(bytes: seq<byte>)
    ensures RegionOf(bytes).Ok? <==> bytes != [] && Parses(bytes) && Parsed(bytes).TotalSize() > 0
    ensures RegionOf(bytes).Err? ==>
              RegionOf(bytes) == if bytes == [] || HeaderFromSlice(bytes).Ok? then Err(EmptyRegion)
                                 else Err(HeaderFromSlice(bytes).error)
  {
    hide HeaderFromSlice;
    if !Stops(bytes) {
      CutStep(bytes);
    }
  }

  /** All the bytes belong to records, and the last record is complete. */
  predicate Complete(bytes: seq<byte>) {
    && Concat(Cut(bytes)) == bytes
    && forall record <- Cut(bytes) :: |record.data| == record.header.TotalSize()
  }

  /** Complete records followed by any bytes parse to those records, then to what the bytes hold. */
  lemma {:induction false} CutIsHomomorphism(a: seq<byte>, b: seq<byte>)
    requires Complete(a)
    ensures Cut(a + b) == Cut(a) + Cut(b)
    decreases |a|
  {
    hide HeaderFromSlice;
    if a == [] {
      assert a + b == b;
    } else {
      CutStep(a);
      var rest := Remainder(a);
      CompleteTail(a);
      CutIsHomomorphism(rest, b);
      FirstRecordWithSuffix(a, b);
      CutStep(a + b);
    }
  }

  lemma FirstRecordWithSuffix(a: seq<byte>, b: seq<byte>)
    requires !Stops(a)
    requires Parsed(a).TotalSize() <= |a|
    ensures !Stops(a + b)
    ensures FirstRecord(a + b) == FirstRecord(a)
    ensures Remainder(a + b) == Remainder(a) + b
  {
    hide HeaderFromSlice;
    HeaderWithSuffix(a, b);
    var size := Parsed(a).TotalSize();
    assert (a + b)[..size] == a[..size];
    assert (a + b)[size..] == a[size..] + b;
    assert size == |a| ==> a[..size] == a && a[size..] == [];
    assert |b| == 0 ==> a + b == a;
  }

  lemma CompleteTail(a: seq<byte>)
    requires a != [] && Complete(a)
    ensures !Stops(a)
    ensures a == FirstRecord(a).data + Remainder(a)
    ensures |FirstRecord(a).data| == FirstRecord(a).header.TotalSize()
    ensures Complete(Remainder(a))
  {
    hide HeaderFromSlice;
    assert Concat([]) == [];
    CutStep(a);
    var record, rest := FirstRecord(a), Remainder(a);
    assert Cut(a)[0] == record && Cut(a)[1..] == Cut(rest);
    assert Concat(Cut(a)) == record.data + Concat(Cut(rest));
    assert record in Cut(a);
    forall other | other in Cut(rest) ensures |other.data| == other.header.TotalSize() {
      assert other in Cut(a);
    }
    assert a == record.data + rest;
    assert Concat(Cut(a))[|record.data|..] == rest;
  }

  /** From each record on, enough bytes remain for the header of that record. */
  predicate HeadersCovered(records: seq<Record>) {
    records != [] ==>
      && records[0].header.HeaderSize() <= |Concat(records)|
      && HeadersCovered(records[1..])
  }

  /**
   Serializing a parsed region and parsing it again gives the same region exactly
   when the bytes that were kept still cover every header.
   */
  lemma {:induction false} CutOfConcat(bytes: seq<byte>)
    ensures Cut(Concat(Cut(bytes))) == Cut(bytes) <==> HeadersCovered(Cut(bytes))
    decreases |bytes|
  {
    hide HeaderFromSlice;
    var records := Cut(bytes);
    if records == [] {
      assert Concat(records) == [];
    } else {
      CutStep(bytes);
      var record, rest := FirstRecord(bytes), Remainder(bytes);
      assert records[0] == record && records[1..] == Cut(rest);
      CutOfConcat(rest);
      var kept := Concat(records);
      if record.header.HeaderSize() <= |kept| {
        KeptStep(bytes);
      } else if Cut(kept) == records {
        HeaderFits(kept);
        assert false;
      }
    }
  }

  /** When the kept bytes cover the first header, they parse to the first record again. */
  lemma KeptStep(bytes: seq<byte>)
    requires !Stops(bytes)
    requires Parsed(bytes).HeaderSize() <= |Concat(Cut(bytes))|
    ensures Cut(Concat(Cut(bytes))) == [FirstRecord(bytes)] + Cut(Concat(Cut(Remainder(bytes))))
  {
    hide HeaderFromSlice;
    CutStep(bytes);
    CutTiles(bytes);
    CutTiles(Remainder(bytes));
    var record, rest := FirstRecord(bytes), Remainder(bytes);
    var kept := Concat(Cut(bytes));
    assert Cut(bytes)[0] == record && Cut(bytes)[1..] == Cut(rest);
    assert kept == record.data + Concat(Cut(rest));
    var n := record.header.HeaderSize();
    assert kept[..n] == bytes[..n];
    HeaderFits(bytes);
    HeaderIsLocal(bytes, kept);
    CutStep(kept);
    var size := record.header.TotalSize();
    if size < |bytes| {
      assert record.data == bytes[..size];
      assert size < |kept| ==> kept[..size] == record.data && kept[size..] == Concat(Cut(rest));
      assert FirstRecord(kept) == record;
      assert Remainder(kept) == Concat(Cut(rest));
    } else {
      assert rest == [] && Concat(Cut(rest)) == [];
      assert kept == bytes;
      assert Remainder(kept) == [] && FirstRecord(kept) == record;
    }
  }

  /** Parsing the kept bytes never invents a record: it stops at the first header that is not covered. */
  lemma {:induction false} ReparseIsPrefix(bytes: seq<byte>)
    ensures Cut(Concat(Cut(bytes))) <= Cut(bytes)
    decreases |bytes|
  {
    hide HeaderFromSlice;
    if Cut(bytes) != [] {
      CutStep(bytes);
      var kept := Concat(Cut(bytes));
      if Parsed(bytes).HeaderSize() <= |kept| {
        KeptStep(bytes);
        ReparseIsPrefix(Remainder(bytes));
      } else {
        CutTiles(bytes);
        CutHeaderStops(bytes, kept);
      }
    }
  }

  /** The condition in terms of whole regions. */
  lemma RegionRoundTrip(bytes: seq<byte>)
    requires RegionOf(bytes).Ok?
    ensures RegionOf(Concat(RegionOf(bytes).value.records)) == RegionOf(bytes)
       <==> HeadersCovered(RegionOf(bytes).value.records)
  {
    hide HeaderFromSlice;
    CutOfConcat(bytes);
  }

  /** It is enough that no record is shorter than its own header. */
  lemma {:induction false} LongRecordsCover(records: seq<Record>)
    requires forall record <- records :: record.header.HeaderSize() <= |record.data|
    ensures HeadersCovered(records)
  {
    if records != [] {
      LongRecordsCover(records[1..]);
    }
  }

  /** A Type 6 header that announces eight bytes, fewer than it takes itself. */
  function ShortRecord(): seq<byte> {
    [1, 6, 0, 1, 2, 0, 0, 0] + Zeros(20)
  }

  /** The region of such a record does not parse again. */
  lemma CutHeaderIsLost()
    ensures RegionOf(ShortRecord()).Ok?
    ensures !HeadersCovered(RegionOf(ShortRecord()).value.records)
    ensures RegionOf(Concat(RegionOf(ShortRecord()).value.records)) != RegionOf(ShortRecord())
  {
    var bytes := ShortRecord();
    ShortRecordHeader();
    hide HeaderFromSlice, Parses;
    CutStep(bytes);
    var records := Cut(bytes);
    assert bytes[8..] == Zeros(20);
    ZerosStop();
    assert records == [FirstRecord(bytes)];
    assert records[1..] == [];
    assert Concat(records) == records[0].data + Concat(records[1..]);
    RegionRoundTrip(bytes);
  }

  lemma ZerosStop()
    ensures Cut(Zeros(20)) == []
  {
    assert Le32(Zeros(20)[0..4]) == 0;
  }

  lemma ShortRecordType(bytes: seq<byte>)
    requires bytes == ShortRecord()
    ensures Type6FromSlice(bytes).Some? && SizeOfType(Type6FromSlice(bytes).value) == 28
  {
    hide Le32, Le64;
    var dieSktInfo := bytes[24..28];
    assert dieSktInfo == Zeros(4);
    assert Le16(dieSktInfo[2..4]) == 0;
    assert StatusWords(bytes, 0) == Some([]);
  }

  lemma ShortRecordHeader()
    ensures Parses(ShortRecord())
    ensures Parsed(ShortRecord()).TotalSize() == 8 && Parsed(ShortRecord()).HeaderSize() == 28
  {
    hide Le64, StatusWords, Type6FromSlice;
    var bytes := ShortRecord();
    assert bytes[0..4] == [1, 6, 0, 1] && bytes[4..6] == [2, 0] && bytes[6..8] == [0, 0];
    assert Le32([1, 6, 0, 1]) == 0x100_0601;
    assert VersionFromSlice(bytes) == Some(Version(1, 6, 0, 1, false, false));
    assert RecordSizeFromSlice(bytes) == Some(RecordSize(2, 0));
    ShortRecordType(bytes);
  }
}
