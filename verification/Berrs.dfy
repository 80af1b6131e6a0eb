/**
 Boot Error Regions (lib/src/bert/berr.rs; ACPI 6.3, tables 18-391 and 18-392) and the
 table that points at them (lib/src/bert.rs; ACPI 6.3, table 18-381).
 */
module Berrs {
  import opened Results
  import opened Bytes
  import opened Sections
  import Descriptors
  import opened Seqs

  const STATUS_BLOCK_SIZE := 20
  const BERT_SIZE := 48

  /** "BERR" */
  const BERR_MAGIC: seq<byte> := [0x42, 0x45, 0x52, 0x52]

  /** "BERT" */
  const BERT_MAGIC: seq<byte> := [0x42, 0x45, 0x52, 0x54]

  // Generic Error Status Block

  datatype StatusBlock = StatusBlock(
    blockStatus: u32,
    rawDataOffset: u32,
    rawDataLength: u32,
    dataLength: u32,
    errorSeverity: u32
  )

  function StatusBlockFromSlice(s: seq<byte>): Option<StatusBlock> {
    var blockStatus :- U32At(s, 0);
    var rawDataOffset :- U32At(s, 4);
    var rawDataLength :- U32At(s, 8);
    var dataLength :- U32At(s, 12);
    var errorSeverity :- U32At(s, 16);
    Some(StatusBlock(blockStatus, rawDataOffset, rawDataLength, dataLength, errorSeverity))
  }

  function StatusBlockToBytes(h: StatusBlock): (bytes: seq<byte>)
    ensures |bytes| == STATUS_BLOCK_SIZE
  {
    ToLe32(h.blockStatus) + ToLe32(h.rawDataOffset) + ToLe32(h.rawDataLength)
    + ToLe32(h.dataLength) + ToLe32(h.errorSeverity)
  }

  /** Where the status block keeps its fields. */
  lemma StatusBlockFields(h: StatusBlock, rest: seq<byte>)
    ensures var s := StatusBlockToBytes(h) + rest;
            && s[0..4] == ToLe32(h.blockStatus) && s[4..8] == ToLe32(h.rawDataOffset)
            && s[8..12] == ToLe32(h.rawDataLength) && s[12..16] == ToLe32(h.dataLength)
            && s[16..20] == ToLe32(h.errorSeverity)
  {
    hide ToLe32;
  }

  lemma StatusBlockRoundTrip(h: StatusBlock, rest: seq<byte>)
    ensures StatusBlockFromSlice(StatusBlockToBytes(h) + rest) == Some(h)
  {
    hide ToLe32, Le32, StatusBlockToBytes;
    StatusBlockFields(h, rest);
    Le32RoundTrip(h.blockStatus);
    Le32RoundTrip(h.rawDataOffset);
    Le32RoundTrip(h.rawDataLength);
    Le32RoundTrip(h.dataLength);
    Le32RoundTrip(h.errorSeverity);
  }

  // Generic Error Data Entry

  datatype EntryHeader = EntryHeader(
    section: Guid,
    errorSeverity: u32,
    revision: u16,
    validationBits: byte,
    flags: byte,
    errorDataLength: u32,
    fruId: Guid,
    fruText: Descriptors.Text,
    timestamp: u64
  )

  /** Only headers from revision 0x300 on have a timestamp. */
  function EntryHeaderSize(h: EntryHeader): nat {
    if h.revision >= 0x300 then 72 else 64
  }

  function EntryHeaderFromSlice(s: seq<byte>): Option<EntryHeader> {
    var revision :- U16At(s, 20);
    var section :- GuidAt(s, 0);
    var errorSeverity :- U32At(s, 16);
    var validationBits :- ByteAt(s, 22);
    var flags :- ByteAt(s, 23);
    var errorDataLength :- U32At(s, 24);
    var fruId :- GuidAt(s, 28);
    var fruText :- Get(s, 44, 64);
    var timestamp: u64 :- if revision >= 0x300 then U64At(s, 64) else Some(0);
    Some(EntryHeader(section, errorSeverity, revision, validationBits, flags, errorDataLength,
                     fruId, fruText, timestamp))
  }

  function EntryHeaderToBytes(h: EntryHeader): (bytes: seq<byte>)
    ensures |bytes| == EntryHeaderSize(h)
  {
    h.section + ToLe32(h.errorSeverity) + ToLe16(h.revision) + [h.validationBits, h.flags]
    + ToLe32(h.errorDataLength) + h.fruId + h.fruText
    + if h.revision >= 0x300 then ToLe64(h.timestamp) else []
  }

  function WithoutLostTimestamp(h: EntryHeader): EntryHeader {
    if h.revision >= 0x300 then h else h.(timestamp := 0)
  }

  /** Where the entry header keeps its fields. */
  lemma EntryHeaderFields(h: EntryHeader, rest: seq<byte>)
    ensures var s := EntryHeaderToBytes(h) + rest;
            && s[0..16] == h.section && s[16..20] == ToLe32(h.errorSeverity) && s[20..22] == ToLe16(h.revision)
            && s[22] == h.validationBits && s[23] == h.flags && s[24..28] == ToLe32(h.errorDataLength)
            && s[28..44] == h.fruId && s[44..64] == h.fruText
            && (h.revision >= 0x300 ==> s[64..72] == ToLe64(h.timestamp))
  {
    hide ToLe16, ToLe32, ToLe64;
    var fixed := h.section + ToLe32(h.errorSeverity) + ToLe16(h.revision) + [h.validationBits, h.flags]
      + ToLe32(h.errorDataLength) + h.fruId + h.fruText;
    var timestamp := if h.revision >= 0x300 then ToLe64(h.timestamp) else [];
    assert fixed[0..16] == h.section && fixed[16..20] == ToLe32(h.errorSeverity);
    assert fixed[20..22] == ToLe16(h.revision) && fixed[22] == h.validationBits && fixed[23] == h.flags;
    assert fixed[24..28] == ToLe32(h.errorDataLength) && fixed[28..44] == h.fruId && fixed[44..64] == h.fruText;
    assert EntryHeaderToBytes(h) == fixed + timestamp;
    Associative(fixed, timestamp, rest);
    FixedPart(fixed, timestamp + rest);
    assert h.revision >= 0x300 ==> (fixed + (timestamp + rest))[64..72] == timestamp;
  }

  lemma FixedPart(fixed: seq<byte>, rest: seq<byte>)
    ensures forall i, j | 0 <= i <= j <= |fixed| :: (fixed + rest)[i..j] == fixed[i..j]
    ensures forall i | 0 <= i < |fixed| :: (fixed + rest)[i] == fixed[i]
  {
  }

  /** Everything comes back, except a timestamp that the revision has no room for. */
  lemma EntryHeaderReadsBack(h: EntryHeader, rest: seq<byte>)
    ensures EntryHeaderFromSlice(EntryHeaderToBytes(h) + rest) == Some(WithoutLostTimestamp(h))
  {
    hide ToLe16, Le16, ToLe32, Le32, ToLe64, Le64, EntryHeaderToBytes;
    EntryHeaderFields(h, rest);
    Le16RoundTrip(h.revision);
    Le32RoundTrip(h.errorSeverity);
    Le32RoundTrip(h.errorDataLength);
    Le64RoundTrip(h.timestamp);
  }

  datatype Entry = Entry(header: EntryHeader, body: Body)

  function EntrySize(e: Entry): nat {
    EntryHeaderSize(e.header) + e.header.errorDataLength as int
  }

  function EntryFromSlice(s: seq<byte>): Option<Entry> {
    var header :- EntryHeaderFromSlice(s);
    var size := EntryHeaderSize(header);
    var content :- Get(s, size, size + header.errorDataLength as int);
    var body :- BodyFromSlice(header.section, content);
    Some(Entry(header, body))
  }

  /** The entry with its data length filled in. */
  function Filled(e: Entry): Entry {
    e.(header := e.header.(errorDataLength := AsU32(|BodyToBytes(e.body)|)))
  }

  function EntryToBytes(e: Entry): seq<byte> {
    EntryHeaderToBytes(Filled(e).header) + BodyToBytes(e.body)
  }

  /** A parsed entry is inside the bytes it was parsed from, and takes at least 64 of them. */
  lemma EntryAdvances(s: seq<byte>)
    requires EntryFromSlice(s).Some?
    ensures 64 <= EntrySize(EntryFromSlice(s).value) <= |s|
  {
  }

  // Boot Error Region

  datatype Berr = Berr(header: StatusBlock, entries: seq<Entry>)

  /** The entries of the data area, up to the first that does not parse or that reaches its end. */
  function Entries(area: seq<byte>): seq<Entry>
    decreases |area|
  {
    var entry := EntryFromSlice(area);
    if entry.None? then []
    else if EntrySize(entry.value) >= |area| then [entry.value]
    else
      EntryAdvances(area);
      [entry.value] + Entries(area[EntrySize(entry.value)..])
  }

  function FromSlice(s: seq<byte>): Option<Berr> {
    var header :- StatusBlockFromSlice(s);
    var area :- Get(s, STATUS_BLOCK_SIZE, STATUS_BLOCK_SIZE + header.dataLength as int);
    Some(Berr(header, Entries(area)))
  }

  lemma EntriesStep(area: seq<byte>, entry: Entry)
    requires EntryFromSlice(area) == Some(entry)
    ensures EntrySize(entry) <= |area|
    ensures Entries(area) == [entry] + if EntrySize(entry) < |area| then Entries(area[EntrySize(entry)..]) else []
  {
    hide EntryFromSlice;
    EntryAdvances(area);
  }

  /** The parser: `ptr` moves over whole entries, at least 64 bytes at a time, and stays below `end`. */
  method Parse(s: seq<byte>) returns (r: Option<Berr>)
    ensures r == FromSlice(s)
  {
    hide EntryFromSlice, Entries;
    var header := StatusBlockFromSlice(s);
    if header.None? {
      return None;
    }
    var ptr: nat := STATUS_BLOCK_SIZE;
    var end: nat := ptr + header.value.dataLength;
    if end > |s| {
      return None;
    }
    var entries: seq<Entry> := [];
    ghost var area := s[STATUS_BLOCK_SIZE..end];
    assert s[ptr..end] == area;
    var entry := EntryFromSlice(s[ptr..end]);
    while entry.Some?
      invariant STATUS_BLOCK_SIZE + 64 * |entries| <= ptr <= end
      invariant entry == EntryFromSlice(s[ptr..end])
      invariant Entries(area) == entries + Entries(s[ptr..end])
      decreases end - ptr, entry.Some?
    {
      var size := EntrySize(entry.value);
      EntryAdvances(s[ptr..end]);
      EntriesStep(s[ptr..end], entry.value);
      assert s[ptr..end][size..] == s[ptr + size..end];
      Associative(entries, [entry.value], if ptr + size < end then Entries(s[ptr + size..end]) else []);
      entries := entries + [entry.value];
      ptr := ptr + size;
      if ptr >= end {
        assert entries + [] == entries;
        return Some(Berr(header.value, entries));
      }
      entry := EntryFromSlice(s[ptr..end]);
    }
    NoEntries(s[ptr..end]);
    assert entries + [] == entries;
    return Some(Berr(header.value, entries));
  }

  lemma NoEntries(area: seq<byte>)
    requires EntryFromSlice(area).None?
    ensures Entries(area) == []
  {
  }

  /** No input makes the loop read more than one entry for 64 bytes of data. */
  lemma {:induction false} EntriesAreBounded(area: seq<byte>)
    ensures 64 * |Entries(area)| <= |area|
    decreases |area|
  {
    hide EntryFromSlice;
    if EntryFromSlice(area).Some? {
      var entry := EntryFromSlice(area).value;
      EntryAdvances(area);
      if EntrySize(entry) < |area| {
        EntriesAreBounded(area[EntrySize(entry)..]);
      }
    }
  }

  function Payload(entries: seq<Entry>): seq<byte> {
    if entries == [] then [] else EntryToBytes(entries[0]) + Payload(entries[1..])
  }

  function ToBytes(b: Berr): seq<byte> {
    StatusBlockToBytes(b.header.(dataLength := AsU32(|Payload(b.entries)|))) + Payload(b.entries)
  }

  lemma {:induction false} PayloadAppend(a: seq<Entry>, b: seq<Entry>)
    ensures Payload(a + b) == Payload(a) + Payload(b)
  {
    hide EntryToBytes;
    if a == [] {
      assert a + b == b;
    } else {
      assert (a + b)[1..] == a[1..] + b;
      PayloadAppend(a[1..], b);
      Associative(EntryToBytes(a[0]), Payload(a[1..]), Payload(b));
    }
  }

  lemma PayloadSnoc(entries: seq<Entry>, i: nat)
    requires i < |entries|
    ensures Payload(entries[..i + 1]) == Payload(entries[..i]) + EntryToBytes(entries[i])
  {
    hide EntryToBytes;
    assert entries[..i + 1] == entries[..i] + [entries[i]];
    PayloadAppend(entries[..i], [entries[i]]);
    assert [entries[i]][1..] == [];
  }

  lemma PayloadNone(entries: seq<Entry>)
    ensures Payload(entries[..0]) == [] && AsU32(0) == 0
  {
  }

  lemma SumsInU32(a: nat, b: nat)
    ensures AsU32(AsU32(a) as int + AsU32(b) as int) == AsU32(a + b)
  {
    var qa, qb, r := a / 0x1_0000_0000, b / 0x1_0000_0000, AsU32(a) as int + AsU32(b) as int;
    assert a + b == 0x1_0000_0000 * (qa + qb) + r;
    if r < 0x1_0000_0000 {
      assert (a + b) / 0x1_0000_0000 == qa + qb;
    } else {
      assert (a + b) / 0x1_0000_0000 == qa + qb + 1;
    }
  }

  /** The serializer: lengths are summed in 32 bits while the entries are appended. */
  method Serialize(b: Berr) returns (bytes: seq<byte>)
    ensures bytes == ToBytes(b)
  {
    hide EntryToBytes, StatusBlockToBytes, AsU32, Payload;
    PayloadNone(b.entries);
    var dataLength: u32 := 0;
    var payload: seq<byte> := [];
    for i := 0 to |b.entries|
      invariant payload == Payload(b.entries[..i])
      invariant dataLength == AsU32(|payload|)
    {
      PayloadSnoc(b.entries, i);
      var entry := EntryToBytes(b.entries[i]);
      SumsInU32(|payload|, |entry|);
      dataLength := AsU32(dataLength as int + AsU32(|entry|) as int);
      payload := payload + entry;
    }
    assert b.entries[..|b.entries|] == b.entries;
    bytes := StatusBlockToBytes(b.header.(dataLength := dataLength)) + payload;
  }

  // Round trip

  /** Bodies that parse back from all of their bytes. */
  predicate BodyExact(body: Body) {
    match body
    case FirmwareErrorRecord(header, _) => header.revision >= 2
    case Unknown(guid, _) => guid != FW_ERROR_RECORD
  }

  lemma BodyReadsBack(guid: Guid, body: Body)
    ensures BodyFromSlice(guid, BodyToBytes(body)) == Some(body) <==> guid == BodyGuid(body) && BodyExact(body)
  {
    if body.FirmwareErrorRecord? {
      var bytes := FerHeaderToBytes(body.header) + body.payload;
      FerHeaderReadsBack(body.header, body.payload);
      hide FerHeaderToBytes, FerHeaderFromSlice;
      assert bytes[32..] == body.payload;
      assert |bytes[16..]| == 16 + |body.payload|;
    }
  }

  /** The entry's type is that of its body, the body survives, and no timestamp gets lost. */
  predicate EntryKept(e: Entry) {
    && e.header.section == BodyGuid(e.body)
    && BodyExact(e.body)
    && (e.header.revision < 0x300 ==> e.header.timestamp == 0)
  }

  lemma EntryReadsBack(e: Entry, rest: seq<byte>)
    requires |BodyToBytes(e.body)| < 0x1_0000_0000
    ensures EntryFromSlice(EntryToBytes(e) + rest) == Some(Filled(e)) <==> EntryKept(e)
    ensures EntrySize(Filled(e)) == |EntryToBytes(e)|
  {
    hide EntryHeaderFromSlice, EntryHeaderToBytes, BodyFromSlice, BodyToBytes, BodyGuid, BodyExact;
    var h, content := Filled(e).header, BodyToBytes(e.body);
    var s := EntryToBytes(e) + rest;
    Associative(EntryHeaderToBytes(h), content, rest);
    EntryHeaderReadsBack(h, content + rest);
    assert s[EntryHeaderSize(h)..EntryHeaderSize(h) + |content|] == content;
    BodyReadsBack(h.section, e.body);
  }

  function FillAll(entries: seq<Entry>): (filled: seq<Entry>)
    ensures |filled| == |entries|
    ensures forall i | 0 <= i < |entries| :: filled[i] == Filled(entries[i])
  {
    seq(|entries|, i requires 0 <= i < |entries| => Filled(entries[i]))
  }

  /** The first entry either comes back, followed by what the rest parses to, or never shows. */
  lemma FirstReadsBack(e: Entry, rest: seq<byte>)
    requires |EntryToBytes(e) + rest| < 0x1_0000_0000
    ensures var entries := Entries(EntryToBytes(e) + rest);
            if EntryKept(e) then entries == [Filled(e)] + Entries(rest)
            else entries == [] || entries[0] != Filled(e)
  {
    hide EntryFromSlice, EntryToBytes, EntryKept, Filled, EntrySize, Entries;
    var area := EntryToBytes(e) + rest;
    EntrySizes(e, rest);
    EntryReadsBack(e, rest);
    if EntryFromSlice(area).Some? {
      EntriesStep(area, EntryFromSlice(area).value);
      if EntryKept(e) {
        assert area[|EntryToBytes(e)|..] == rest;
        NothingParses();
        assert [Filled(e)] + [] == [Filled(e)];
      }
    } else {
      NoEntries(area);
    }
  }

  lemma FillStep(entries: seq<Entry>)
    requires entries != []
    ensures FillAll(entries) == [Filled(entries[0])] + FillAll(entries[1..])
  {
    hide Filled;
  }

  lemma KeptStep(entries: seq<Entry>)
    requires entries != []
    ensures (forall e <- entries :: EntryKept(e))
       <==> EntryKept(entries[0]) && forall e <- entries[1..] :: EntryKept(e)
  {
    hide EntryKept;
    assert entries == [entries[0]] + entries[1..];
  }

  lemma SameHead<T>(x: T, s: seq<T>, t: seq<T>)
    ensures [x] + s == [x] + t <==> s == t
  {
    assert ([x] + s)[1..] == s && ([x] + t)[1..] == t;
  }

  lemma {:induction false} EntriesReadBack(entries: seq<Entry>)
    requires |Payload(entries)| < 0x1_0000_0000
    ensures Entries(Payload(entries)) == FillAll(entries) <==> forall e <- entries :: EntryKept(e)
    decreases |entries|
  {
    hide EntryFromSlice, EntryToBytes, EntryKept, Filled, FillAll, Entries;
    if entries == [] {
      NothingParses();
    } else {
      var rest := entries[1..];
      EntriesReadBack(rest);
      FirstReadsBack(entries[0], Payload(rest));
      FillStep(entries);
      KeptStep(entries);
      SameHead(Filled(entries[0]), Entries(Payload(rest)), FillAll(rest));
    }
  }

  lemma EntrySizes(e: Entry, rest: seq<byte>)
    requires |EntryToBytes(e) + rest| < 0x1_0000_0000
    ensures |BodyToBytes(e.body)| < 0x1_0000_0000
  {
    hide BodyToBytes;
  }

  lemma NothingParses()
    ensures Entries([]) == [] == FillAll([])
  {
  }

  /**
   A region reads back from its bytes, whatever follows them, with the data lengths
   filled in, exactly when every entry is one that survives.
   */
  lemma BerrRoundTrip(b: Berr, tail: seq<byte>)
    requires |Payload(b.entries)| < 0x1_0000_0000
    ensures FromSlice(ToBytes(b) + tail)
         == Some(Berr(b.header.(dataLength := |Payload(b.entries)|), FillAll(b.entries)))
       <==> forall e <- b.entries :: EntryKept(e)
  {
    hide StatusBlockFromSlice, StatusBlockToBytes, Payload, Entries, FillAll, EntryKept;
    BerrReadsBack(b, tail);
    EntriesReadBack(b.entries);
  }

  lemma BerrReadsBack(b: Berr, tail: seq<byte>)
    requires |Payload(b.entries)| < 0x1_0000_0000
    ensures FromSlice(ToBytes(b) + tail)
         == Some(Berr(b.header.(dataLength := |Payload(b.entries)|), Entries(Payload(b.entries))))
  {
    hide StatusBlockFromSlice, StatusBlockToBytes, Payload, Entries;
    var payload := Payload(b.entries);
    var header := b.header.(dataLength := |payload|);
    Associative(StatusBlockToBytes(header), payload, tail);
    StatusBlockRoundTrip(header, payload + tail);
    assert (ToBytes(b) + tail)[STATUS_BLOCK_SIZE..STATUS_BLOCK_SIZE + |payload|] == payload;
  }

  // Boot Error Record Table

  datatype SdtHeader = SdtHeader(
    length: u32,
    revision: byte,
    checksum: byte,
    oemId: seq<byte>,
    oemTableId: seq<byte>,
    oemRevision: u32,
    creatorId: u32,
    creatorRevision: u32
  )

  datatype Bert = Bert(header: SdtHeader, regionLength: u32, region: u64)

  function DummyBert(): Bert {
    Bert(SdtHeader(0, 0, 0, Zeros(6), Zeros(8), 0, 0, 0), 0, 0)
  }

  function BertToBytes(b: Bert): seq<byte> {
    BERT_MAGIC + ToLe32(b.header.length) + [b.header.revision, b.header.checksum]
    + b.header.oemId + b.header.oemTableId + ToLe32(b.header.oemRevision) + ToLe32(b.header.creatorId)
    + ToLe32(b.header.creatorRevision) + ToLe32(b.regionLength) + ToLe64(b.region)
  }

  /** The table built field by field. */
  method SerializeTable(b: Bert) returns (bytes: seq<byte>)
    ensures bytes == BertToBytes(b)
  {
    hide ToLe32, ToLe64;
    bytes := BERT_MAGIC;
    bytes := bytes + ToLe32(b.header.length);
    bytes := bytes + [b.header.revision];
    bytes := bytes + [b.header.checksum];
    bytes := bytes + b.header.oemId;
    bytes := bytes + b.header.oemTableId;
    bytes := bytes + ToLe32(b.header.oemRevision);
    bytes := bytes + ToLe32(b.header.creatorId);
    bytes := bytes + ToLe32(b.header.creatorRevision);
    bytes := bytes + ToLe32(b.regionLength);
    bytes := bytes + ToLe64(b.region);
  }

  function FromBertFile(s: seq<byte>): Option<Berr> {
    if StartsWith(s, BERR_MAGIC) then
      var rest :- GetFrom(s, 4);
      FromSlice(rest)
    else if StartsWith(s, BERT_MAGIC) then
      var rest :- GetFrom(s, BERT_SIZE);
      FromSlice(rest)
    else
      None
  }

  /** A Boot Error Region on its own is found behind its signature. */
  lemma BerrPrefix(rest: seq<byte>)
    ensures FromBertFile([0x42, 0x45, 0x52, 0x52] + rest) == FromSlice(rest)
  {
    hide FromSlice;
    var s := [0x42, 0x45, 0x52, 0x52] + rest;
    assert s[..4] == BERR_MAGIC && s[4..] == rest;
  }

  /** Files with neither signature, or without a region behind it, are no BERT files. */
  lemma BertFileIsRead(s: seq<byte>)
    ensures FromBertFile(s)
         == if StartsWith(s, [0x42, 0x45, 0x52, 0x52]) then FromSlice(s[4..])
            else if StartsWith(s, [0x42, 0x45, 0x52, 0x54]) && |s| >= 48 then FromSlice(s[48..])
            else None
  {
    hide FromSlice;
  }

  /** A region is read when its status block and all the data it announces are there. */
  lemma BerrIsRead(s: seq<byte>)
    ensures FromSlice(s).Some? <==> |s| >= 20 && 20 + Le32(s[12..16]) as int <= |s|
    ensures FromSlice(s).Some? ==>
              && FromSlice(s).value.header.dataLength == Le32(s[12..16])
              && FromSlice(s).value.entries == Entries(s[20..20 + Le32(s[12..16]) as int])
  {
    hide Le32, Entries;
  }

  /** An entry is read when its header, of 64 or 72 bytes, and the body it announces are there. */
  lemma EntryIsRead(s: seq<byte>)
    ensures EntryHeaderFromSlice(s).Some? <==> |s| >= 64 && (Le16(s[20..22]) >= 0x300 ==> |s| >= 72)
    ensures EntryHeaderFromSlice(s).Some? ==>
              var size := if Le16(s[20..22]) >= 0x300 then 72 else 64;
              var end := size + Le32(s[24..28]) as int;
              if end > |s| then EntryFromSlice(s).None?
              else
                var body := BodyFromSlice(s[0..16], s[size..end]);
                && (EntryFromSlice(s).Some? <==> body.Some?)
                && (body.Some? ==> EntryFromSlice(s).value.body == body.value && EntrySize(EntryFromSlice(s).value) == end)
  {
    hide Le16, Le32, Le64, BodyFromSlice;
  }

  /** Where the table keeps its fields; the last twelve bytes announce the region. */
  lemma BertFields(b: Bert)
    requires |b.header.oemId| == 6 && |b.header.oemTableId| == 8
    ensures var s := BertToBytes(b);
            && |s| == BERT_SIZE
            && s[0..4] == BERT_MAGIC && s[4..8] == ToLe32(b.header.length)
            && s[8] == b.header.revision && s[9] == b.header.checksum
            && s[10..16] == b.header.oemId && s[16..24] == b.header.oemTableId
            && s[24..28] == ToLe32(b.header.oemRevision) && s[28..32] == ToLe32(b.header.creatorId)
            && s[32..36] == ToLe32(b.header.creatorRevision)
            && s[36..40] == ToLe32(b.regionLength) && s[40..48] == ToLe64(b.region)
  {
    hide ToLe32, ToLe64;
  }

  /** The region that follows a table is found again. */
  lemma BertPrefix(b: Bert, rest: seq<byte>)
    requires |b.header.oemId| == 6 && |b.header.oemTableId| == 8
    ensures FromBertFile(BertToBytes(b) + rest) == FromSlice(rest)
  {
    hide ToLe32, ToLe64, FromSlice;
    var s := BertToBytes(b) + rest;
    assert |BertToBytes(b)| == BERT_SIZE;
    assert s[..4] == BERT_MAGIC;
    assert s[BERT_SIZE..] == rest;
  }
}
