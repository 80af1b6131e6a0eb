/** The bytes of exported files (lib/src/crashlog.rs, lib/src/cper.rs, lib/src/bert/berr.rs). */
module Exports {
  import opened Results
  import opened Bytes
  import opened Regions
  import opened Boxes
  import opened Sections
  import opened Descriptors
  import opened CrashLogs
  import Berrs
  import Cpers

  // BERT files

  /** The table announces the region behind it, and the region's status block the entries behind that. */
  lemma BertFileBytes(log: CrashLog)
    requires FitsBert(log)
    ensures var s, payload := ToBert(log), Berrs.Payload(BerrOf(log).entries);
            && |s| == 68 + |payload|
            && s[0..4] == [0x42, 0x45, 0x52, 0x54] && s[4..36] == Zeros(32)
            && s[36..40] == ToLe32(AsU32(20 + |payload|)) && s[40..48] == Zeros(8)
            && s[48..60] == Zeros(12) && s[60..64] == ToLe32(|payload|) && s[64..68] == Zeros(4)
            && s[68..] == payload
  {
    hide ToLe32, Berrs.Payload, EntryOfRegion;
    var payload := Berrs.Payload(BerrOf(log).entries);
    var berr := Berrs.ToBytes(BerrOf(log));
    var table := Berrs.DummyBert().(regionLength := AsU32(|berr|));
    ZeroWords();
    TableBytes(table);
    Berrs.StatusBlockFields(BerrOf(log).header.(dataLength := |payload|), payload);
    hide Berrs.BertToBytes, Berrs.StatusBlockToBytes;
    var block := Berrs.StatusBlockToBytes(BerrOf(log).header.(dataLength := |payload|));
    assert berr == block + payload;
    BlockBytes(|payload|);
    Behind(Berrs.BertToBytes(table), berr);
    assert berr[20..] == payload;
  }

  lemma ZeroWords()
    ensures ToLe32(0) == Zeros(4) && ToLe64(0) == Zeros(8)
  {
  }

  lemma TableBytes(b: Berrs.Bert)
    requires b == Berrs.DummyBert().(regionLength := b.regionLength)
    ensures var s := Berrs.BertToBytes(b);
            && |s| == 48 && s[0..4] == [0x42, 0x45, 0x52, 0x54] && s[4..36] == Zeros(32)
            && s[36..40] == ToLe32(b.regionLength) && s[40..48] == Zeros(8)
  {
    ZeroWords();
    hide ToLe32, ToLe64;
    var s := Berrs.BertToBytes(b);
    assert s[4..36] == Zeros(4) + [0, 0] + Zeros(6) + Zeros(8) + Zeros(4) + Zeros(4) + Zeros(4);
  }

  lemma BlockBytes(n: u32)
    ensures var s := Berrs.StatusBlockToBytes(Berrs.StatusBlock(0, 0, 0, n, 0));
            && s[0..12] == Zeros(12) && s[12..16] == ToLe32(n) && s[16..20] == Zeros(4)
  {
    ZeroWords();
    hide ToLe32;
    var s := Berrs.StatusBlockToBytes(Berrs.StatusBlock(0, 0, 0, n, 0));
    assert s[0..12] == Zeros(4) + Zeros(4) + Zeros(4);
  }

  /** Ranges of the second part of a concatenation, shifted. */
  lemma Behind(head: seq<byte>, tail: seq<byte>)
    ensures forall i, j | 0 <= i <= j <= |head| :: (head + tail)[i..j] == head[i..j]
    ensures forall i, j | 0 <= i <= j <= |tail| :: (head + tail)[|head| + i..|head| + j] == tail[i..j]
    ensures forall i | 0 <= i <= |tail| :: (head + tail)[|head| + i..] == tail[i..]
  {
  }

  /** The entry of a region: a revision 0x300 header of the Firmware Error Record type, then the region wrapped. */
  lemma EntryBytes(region: Region)
    requires |Concat(region.records)| + 32 < 0x1_0000_0000
    ensures var e, payload := Berrs.EntryToBytes(EntryOfRegion(region)), Concat(region.records);
            && |e| == 104 + |payload|
            && e[0..16] == [0x96, 0x2a, 0x21, 0x81, 0xed, 0x09, 0x96, 0x49, 0x94, 0x71, 0x8d, 0x72, 0x9c, 0x8e, 0x69, 0xed]
            && e[16..20] == Zeros(4) && e[20..24] == [0, 3, 0, 0] && e[24..28] == ToLe32(32 + |payload|)
            && e[28..72] == Zeros(44)
            && e[72..] == WrappedBytes(payload)
  {
    hide ToLe32, ToLe64, Concat;
    var payload := Concat(region.records);
    WrappedIs(payload);
    hide FerHeaderToBytes;
    var h := Berrs.Filled(EntryOfRegion(region)).header;
    EntryHeaderBytes(h);
    hide Berrs.EntryHeaderToBytes;
    Behind(Berrs.EntryHeaderToBytes(h), BodyToBytes(BodyOfRegion(region)));
    assert BodyToBytes(BodyOfRegion(region))[0..] == BodyToBytes(BodyOfRegion(region));
  }

  lemma EntryHeaderBytes(h: Berrs.EntryHeader)
    requires h == Berrs.EntryHeader(FW_ERROR_RECORD, 0, 0x300, 0, 0, h.errorDataLength, Zeros(16), Zeros(20), 0)
    ensures var e := Berrs.EntryHeaderToBytes(h);
            && |e| == 72 && e[0..16] == FW_ERROR_RECORD && e[16..20] == Zeros(4) && e[20..24] == [0, 3, 0, 0]
            && e[24..28] == ToLe32(h.errorDataLength) && e[28..72] == Zeros(44)
  {
    ZeroWords();
    assert ToLe16(0x300) == [0, 3];
    hide ToLe16, ToLe32, ToLe64;
    var e := Berrs.EntryHeaderToBytes(h);
    assert e[20..24] == [0, 3] + [0, 0];
    assert e[28..72] == Zeros(16) + Zeros(20) + Zeros(8);
  }

  /** Region bytes behind a revision 2 header of error type 2 and the crash log GUID. */
  function WrappedBytes(payload: seq<byte>): seq<byte> {
    [2, 2] + Zeros(14)
    + [0x11, 0xf3, 0x87, 0x8f, 0x98, 0xc9, 0x9e, 0x4d, 0xa0, 0xc4, 0x60, 0x65, 0x51, 0x8c, 0x4f, 0x6d] + payload
  }

  lemma WrappedIs(payload: seq<byte>)
    ensures FerHeaderToBytes(FerHeader(2, 2, 0, RECORD_ID_CRASHLOG)) + payload == WrappedBytes(payload)
  {
    ZeroWords();
    hide ToLe64;
    assert Zeros(6) + Zeros(8) == Zeros(14);
  }

  /** The entries of the regions follow one another, in order. */
  lemma EntriesInOrder(log: CrashLog, i: nat)
    requires i < |log.regions|
    ensures var payload, entry := Berrs.Payload(BerrOf(log).entries), Berrs.EntryToBytes(EntryOfRegion(log.regions[i]));
            var at := 104 * i + TotalBytes(log.regions[..i]);
            at + |entry| <= |payload| && payload[at..at + |entry|] == entry
  {
    hide EntryOfRegion, Berrs.EntryToBytes, TotalBytes;
    var entries := BerrOf(log).entries;
    BertSize(log.regions[..i], entries[..i]);
    hide Berrs.Payload;
    assert entries == entries[..i + 1] + entries[i + 1..];
    Berrs.PayloadAppend(entries[..i + 1], entries[i + 1..]);
    Berrs.PayloadSnoc(entries, i);
  }

  /** The body of a region is its bytes, wrapped. */
  lemma RegionBodyBytes(region: Region)
    ensures BodyToBytes(BodyOfRegion(region)) == WrappedBytes(Concat(region.records))
    ensures BodyGuid(BodyOfRegion(region))
         == [0x96, 0x2a, 0x21, 0x81, 0xed, 0x09, 0x96, 0x49, 0x94, 0x71, 0x8d, 0x72, 0x9c, 0x8e, 0x69, 0xed]
    ensures BodyLen(BodyOfRegion(region)) == 32 + |Concat(region.records)|
  {
    hide Concat, FerHeaderToBytes;
    WrappedIs(Concat(region.records));
  }

  // CPER files

  function TimeBytes(time: Option<Timestamp>): seq<byte> {
    if time.Some? then TimestampToBytes(time.value) else Zeros(8)
  }

  /** The record header counts the sections, is a fatal boot record, and carries the time of the log if it has one. */
  lemma CperFileBytes(log: CrashLog)
    requires FitsCper(log) && SectionsOf(log) != []
    ensures var s := ToCper(log);
            && |s| >= 128 && s[0..4] == [0x43, 0x50, 0x45, 0x52] && s[4..6] == [1, 1]
            && s[6..10] == [0xFF, 0xFF, 0xFF, 0xFF] && s[10..12] == ToLe16(AsU16(|SectionsOf(log)|))
            && s[12..16] == [1, 0, 0, 0] && s[16..20] == [if log.metadata.time.Some? then 2 else 0, 0, 0, 0]
            && s[20..24] == ToLe32(AsU32(|s|)) && s[24..32] == TimeBytes(log.metadata.time) && s[32..64] == Zeros(32)
            && s[64..80] == [0x44, 0x73, 0xa6, 0xeb, 0x76, 0xb8, 0x37, 0x42, 0xb8, 0x0d, 0x27, 0xe1, 0x29, 0x7f, 0xa2, 0xff]
            && s[96..128] == Zeros(32)
            && s[80..96] == [0x66, 0xa4, 0x61, 0x3d, 0x40, 0xab, 0x9a, 0x40, 0xa6, 0x98, 0xf3, 0x62, 0xd4, 0x64, 0xb3, 0x8f]
  {
    hide Cpers.PlaceAll, Cpers.DescriptorBytes, Cpers.BodiesBytes, Cpers.RecordEnd, SectionsOf;
    hide ToLe16, ToLe32, CperHeaderToBytes, TimestampToBytes;
    var sections := SectionsOf(log);
    var c := Cpers.CperValue(ExportHeader(log), sections);
    Built(log);
    Cpers.SectionsTile(c);
    var h := Cpers.NormalHeader(ExportHeader(log), sections);
    HeaderBytes(h, log.metadata.time);
    HeaderZeros(h, log.metadata.time);
    Behind(CperHeaderToBytes(h), Cpers.DescriptorBytes(Cpers.Normal(c).sections) + Cpers.BodiesBytes(Cpers.Normal(c).sections));
    assert ToCper(log) == CperHeaderToBytes(h)
           + (Cpers.DescriptorBytes(Cpers.Normal(c).sections) + Cpers.BodiesBytes(Cpers.Normal(c).sections));
  }

  lemma Built(log: CrashLog)
    requires SectionsOf(log) != []
    ensures CperOf(log) == Cpers.Normal(Cpers.CperValue(ExportHeader(log), SectionsOf(log)))
  {
    hide Cpers.Normal, Cpers.AppendAll, SectionsOf;
    Cpers.AppendsNormalizeOnce(Cpers.CperValue(ExportHeader(log), []), SectionsOf(log));
    assert [] + SectionsOf(log) == SectionsOf(log);
  }

  predicate IsExportHeader(h: CperHeader, time: Option<Timestamp>) {
    && h.revision == Revision(1, 1) && h.errorSeverity == Fatal && h.timestamp == time
    && h.validationBits == (if time.Some? then 2 else 0) && h.notificationType == BOOT
    && h.platformId == h.partitionId == None && h.creatorId == LCF_GUID
    && h.recordId == 0 && h.flags == 0 && h.persistenceInformation == 0
  }

  lemma HeaderBytes(h: CperHeader, time: Option<Timestamp>)
    requires IsExportHeader(h, time)
    ensures var s := CperHeaderToBytes(h);
            && s[0..4] == [0x43, 0x50, 0x45, 0x52] && s[4..6] == [1, 1]
            && s[6..10] == [0xFF, 0xFF, 0xFF, 0xFF] && s[10..12] == ToLe16(h.sectionCount)
            && s[12..16] == [1, 0, 0, 0] && s[16..20] == [if time.Some? then 2 else 0, 0, 0, 0]
            && s[20..24] == ToLe32(h.recordLength) && s[24..32] == TimeBytes(time)
            && s[64..80] == LCF_GUID && s[80..96] == BOOT
  {
    assert ToLe32(1) == [1, 0, 0, 0] && ToLe32(2) == [2, 0, 0, 0] && ToLe32(0) == [0, 0, 0, 0];
    assert TimestampToBytes(Timestamp(0, 0, 0, false, 0, 0, 0, 0)) == Zeros(8);
    hide ToLe32, ToLe16, TimestampToBytes, CperHeaderToBytes;
    CperHeaderFields(h);
    assert CperHeaderToBytes(h)[..4] == CperHeaderToBytes(h)[0..4];
  }

  lemma HeaderZeros(h: CperHeader, time: Option<Timestamp>)
    requires IsExportHeader(h, time)
    ensures CperHeaderToBytes(h)[32..64] == Zeros(32) && CperHeaderToBytes(h)[96..128] == Zeros(32)
  {
    ZeroWords();
    CperHeaderFields(h);
    HeaderTail(h);
    hide ToLe32, ToLe64, CperHeaderToBytes;
    var s := CperHeaderToBytes(h);
    assert s[32..64] == s[32..48] + s[48..64];
    assert s[96..128] == s[96..104] + s[104..108] + s[108..116] + s[116..128];
    assert Zeros(16) + Zeros(16) == Zeros(32);
    assert Zeros(8) + Zeros(4) + Zeros(8) + Zeros(12) == Zeros(32);
  }

  lemma HeaderTail(h: CperHeader)
    ensures CperHeaderToBytes(h)[116..128] == Zeros(12)
  {
    hide ToLe16, ToLe32, ToLe64, RevisionToBytes, GuidOrZero, SeverityCode, TimestampToBytes, TimestampOrZero;
  }

  /** What an exported descriptor says: its body's type and length, a severity, and nothing else. */
  predicate IsExportDescriptor(d: Descriptor, body: Body, severity: Severity) {
    && d.sectionType == BodyGuid(body) && d.sectionLength == AsU32(BodyLen(body)) && d.severity == severity
    && d.revision == Revision(1, 0) && d.flags == 0 && d.validationBits == 0
    && d.fruId == None && d.fruText == None
  }

  lemma ExportDescriptorBytes(d: Descriptor, rest: seq<byte>, body: Body, severity: Severity)
    requires IsExportDescriptor(d, body, severity)
    ensures var s := DescriptorToBytes(d) + rest;
            && |s| >= 72
            && s[4..8] == ToLe32(AsU32(BodyLen(body))) && s[8..10] == [0, 1] && s[10] == 0
            && s[12..16] == Zeros(4) && s[16..32] == BodyGuid(body) && s[32..48] == Zeros(16)
            && s[48..52] == ToLe32(SeverityCode(severity)) && s[52..72] == Zeros(20)
  {
    ZeroWords();
    hide ToLe32, DescriptorToBytes, BodyLen, BodyGuid, SeverityCode;
    DescriptorFields(d, rest);
  }

  lemma ExportDescriptorAt(log: CrashLog, i: nat) returns (d: Descriptor, rest: seq<byte>)
    requires FitsCper(log) && i < |log.regions| + |log.metadata.extraSections|
    ensures GetFrom(ToCper(log), 128 + 72 * i) == Some(DescriptorToBytes(d) + rest)
    ensures IsExportDescriptor(d, BodyAt(log, i), if i < |log.regions| then Fatal else Informational)
  {
    hide Cpers.PlaceAll, SectionsOf, BodyLen, BodyGuid, Cpers.ToBytes, DescriptorToBytes, BodyAt, GetFrom;
    SectionIs(log, i);
    Built(log);
    var c := Cpers.Normal(Cpers.CperValue(ExportHeader(log), SectionsOf(log)));
    Cpers.PlaceIndex(SectionsOf(log), Cpers.BodiesStart(|SectionsOf(log)|), i);
    Cpers.DescriptorPlace(c, i);
    d := c.sections[i].descriptor;
    rest :| GetFrom(Cpers.ToBytes(c), 128 + i * 72) == Some(DescriptorToBytes(d) + rest);
  }

  /** Sections of regions are fatal, and extra sections informational; each descriptor names the type of its body. */
  lemma CperSectionBytes(log: CrashLog, i: nat)
    requires FitsCper(log) && i < |log.regions| + |log.metadata.extraSections|
    ensures var s, at, body := ToCper(log), 128 + 72 * i, BodyAt(log, i);
            && at + 72 <= |s| && s[at + 16..at + 32] == BodyGuid(body)
            && s[at + 4..at + 8] == ToLe32(AsU32(BodyLen(body)))
            && s[at + 48..at + 52] == [if i < |log.regions| then 1 else 3, 0, 0, 0]
            && s[at + 8..at + 10] == [0, 1] && s[at + 10] == 0 && s[at + 12..at + 16] == Zeros(4)
            && s[at + 32..at + 48] == Zeros(16) && s[at + 52..at + 72] == Zeros(20)
  {
    hide *;
    var d, rest := ExportDescriptorAt(log, i);
    ExportDescriptorBytes(d, rest, BodyAt(log, i), if i < |log.regions| then Fatal else Informational);
    Severities();
    var s, at, tail := ToCper(log), 128 + 72 * i, DescriptorToBytes(d) + rest;
    Shifted(s, at, tail, 4, 8);
    Shifted(s, at, tail, 8, 10);
    Shifted(s, at, tail, 12, 16);
    Shifted(s, at, tail, 16, 32);
    Shifted(s, at, tail, 32, 48);
    Shifted(s, at, tail, 48, 52);
    Shifted(s, at, tail, 52, 72);
    Shifted(s, at, tail, 10, 11);
    assert s[at + 10] == s[at + 10..at + 11][0] == tail[10..11][0];
  }

  lemma Severities()
    ensures ToLe32(SeverityCode(Fatal)) == [1, 0, 0, 0] && ToLe32(SeverityCode(Informational)) == [3, 0, 0, 0]
  {
  }

  lemma Shifted(s: seq<byte>, at: nat, tail: seq<byte>, i: nat, j: nat)
    requires GetFrom(s, at) == Some(tail) && i <= j <= |tail|
    ensures at + |tail| == |s| && s[at + i..at + j] == tail[i..j]
  {
    assert s[at..][i..j] == s[at + i..at + j];
  }

  /** The regions wrapped, then the extra sections. */
  function BodyAt(log: CrashLog, i: nat): Body
    requires i < |log.regions| + |log.metadata.extraSections|
  {
    if i < |log.regions| then BodyOfRegion(log.regions[i]) else log.metadata.extraSections[i - |log.regions|]
  }

  lemma SectionIs(log: CrashLog, i: nat)
    requires i < |log.regions| + |log.metadata.extraSections|
    ensures |SectionsOf(log)| == |log.regions| + |log.metadata.extraSections|
    ensures var section, body := SectionsOf(log)[i], BodyAt(log, i);
            && section.body == body && section.descriptor.sectionType == BodyGuid(body)
            && section.descriptor.sectionLength == AsU32(BodyLen(body))
            && section.descriptor.severity == (if i < |log.regions| then Fatal else Informational)
            && section.descriptor.revision == Revision(1, 0) && section.descriptor.flags == 0
            && section.descriptor.fruId == None && section.descriptor.fruText == None
  {
    hide BodyLen, BodyGuid, BodyOfRegion;
    SectionsInOrder(log);
  }
}
