/**
 CPER record headers (lib/src/cper/header.rs; UEFI 2.10, section N.2.1) and section
 descriptors (lib/src/cper/descr.rs; UEFI 2.10, section N.2.2).
 */
module Descriptors {
  import opened Results
  import opened Bytes
  import opened Bits

  const RECORD_HEADER_SIZE := 128
  const SECTION_DESCRIPTOR_SIZE := 72

  type Text = t: seq<byte> | |t| == 20 witness Zeros(20)

  datatype Severity = Recoverable | Fatal | Corrected | Informational

  function SeverityOf(value: u32): Severity {
    match value
    case 0 => Recoverable
    case 1 => Fatal
    case 2 => Corrected
    case _ => Informational
  }

  function SeverityCode(severity: Severity): u32 {
    match severity
    case Recoverable => 0
    case Fatal => 1
    case Corrected => 2
    case Informational => 3
  }

  datatype Revision = Revision(major: byte, minor: byte)

  function RevisionFromSlice(s: seq<byte>): Option<Revision> {
    var minor :- ByteAt(s, 0);
    var major :- ByteAt(s, 1);
    Some(Revision(major, minor))
  }

  function RevisionToBytes(r: Revision): (bytes: seq<byte>)
    ensures |bytes| == 2
  {
    [r.minor, r.major]
  }

  datatype Timestamp = Timestamp(
    seconds: byte,
    minutes: byte,
    hours: byte,
    precise: bool,
    day: byte,
    month: byte,
    year: byte,
    century: byte
  )

  function TimestampFromSlice(s: seq<byte>): Option<Timestamp> {
    var seconds :- ByteAt(s, 0);
    var minutes :- ByteAt(s, 1);
    var hours :- ByteAt(s, 2);
    var precise :- ByteAt(s, 3);
    var day :- ByteAt(s, 4);
    var month :- ByteAt(s, 5);
    var year :- ByteAt(s, 6);
    var century :- ByteAt(s, 7);
    Some(Timestamp(seconds, minutes, hours, Bit(precise, 0), day, month, year, century))
  }

  function TimestampToBytes(t: Timestamp): (bytes: seq<byte>)
    ensures |bytes| == 8
  {
    [t.seconds, t.minutes, t.hours, if t.precise then 1 else 0, t.day, t.month, t.year, t.century]
  }

  function GuidOrZero(guid: Option<Guid>): Guid {
    if guid.Some? then guid.value else Zeros(16)
  }

  function OptionalGuid(present: bool, s: seq<byte>, at: nat): Option<Option<Guid>> {
    if present then
      var guid :- GuidAt(s, at);
      Some(Some(guid))
    else
      Some(None)
  }

  // Section descriptor

  const FRU_ID_BIT := 0
  const FRU_STRING_BIT := 1

  datatype Descriptor = Descriptor(
    sectionOffset: u32,
    sectionLength: u32,
    revision: Revision,
    validationBits: byte,
    flags: u32,
    sectionType: Guid,
    fruId: Option<Guid>,
    severity: Severity,
    fruText: Option<Text>
  )

  function DefaultDescriptor(): Descriptor {
    Descriptor(0, 0, Revision(1, 0), 0, 0, Zeros(16), None, Informational, None)
  }

  function DescriptorFromSlice(s: seq<byte>): Option<Descriptor> {
    var revisionBytes :- Get(s, 8, 10);
    var revision :- RevisionFromSlice(revisionBytes);
    var validationBits :- ByteAt(s, 10);
    var sectionOffset :- U32At(s, 0);
    var sectionLength :- U32At(s, 4);
    var flags :- U32At(s, 12);
    var sectionType :- GuidAt(s, 16);
    var fruId :- OptionalGuid(Bit(validationBits, FRU_ID_BIT), s, 32);
    var severity :- U32At(s, 48);
    var fruText: Option<Text> :-
      if Bit(validationBits, FRU_STRING_BIT) then
        var text :- Get(s, 52, 72);
        Some(Some(text))
      else
        Some(None);
    Some(Descriptor(sectionOffset, sectionLength, revision, validationBits, flags, sectionType,
                    fruId, SeverityOf(severity), fruText))
  }

  function DescriptorToBytes(d: Descriptor): (bytes: seq<byte>)
    ensures |bytes| == SECTION_DESCRIPTOR_SIZE
  {
    ToLe32(d.sectionOffset) + ToLe32(d.sectionLength) + RevisionToBytes(d.revision)
    + [d.validationBits, 0] + ToLe32(d.flags) + d.sectionType + GuidOrZero(d.fruId)
    + ToLe32(SeverityCode(d.severity)) + (if d.fruText.Some? then d.fruText.value else Zeros(20))
  }

  /** The validation bits the optional fields call for. */
  function DescriptorBits(d: Descriptor): byte {
    (if d.fruId.Some? then 1 else 0) + (if d.fruText.Some? then 2 else 0)
  }

  function NormalDescriptor(d: Descriptor): Descriptor {
    d.(validationBits := DescriptorBits(d))
  }

  /** The validation bits announce exactly the optional fields that are there. */
  predicate DescriptorAgrees(d: Descriptor) {
    && (Bit(d.validationBits, FRU_ID_BIT) <==> d.fruId.Some?)
    && (Bit(d.validationBits, FRU_STRING_BIT) <==> d.fruText.Some?)
  }

  lemma NormalDescriptorAgrees(d: Descriptor)
    ensures DescriptorAgrees(NormalDescriptor(d))
  {
    var v := DescriptorBits(d);
    assert ShiftRight(v, 1) == ShiftRight(v / 2, 0);
  }

  lemma SeverityRoundTrip(severity: Severity)
    ensures SeverityOf(SeverityCode(severity)) == severity
  {
  }

  lemma DescriptorFields(d: Descriptor, rest: seq<byte>)
    ensures var s := DescriptorToBytes(d) + rest;
            && s[0..4] == ToLe32(d.sectionOffset) && s[4..8] == ToLe32(d.sectionLength)
            && s[8..10] == RevisionToBytes(d.revision) && s[10] == d.validationBits
            && s[12..16] == ToLe32(d.flags) && s[16..32] == d.sectionType
            && s[32..48] == GuidOrZero(d.fruId) && s[48..52] == ToLe32(SeverityCode(d.severity))
            && s[52..72] == if d.fruText.Some? then d.fruText.value else Zeros(20)
  {
    hide ToLe32, RevisionToBytes, GuidOrZero, SeverityCode;
  }

  /** A descriptor reads back from its bytes exactly when its validation bits tell the truth. */
  lemma DescriptorRoundTrip(d: Descriptor, rest: seq<byte>)
    ensures DescriptorFromSlice(DescriptorToBytes(d) + rest) == Some(d) <==> DescriptorAgrees(d)
  {
    hide ToLe32, Le32, DescriptorToBytes, Bit;
    DescriptorFields(d, rest);
    Le32RoundTrip(d.sectionOffset);
    Le32RoundTrip(d.sectionLength);
    Le32RoundTrip(d.flags);
    Le32RoundTrip(SeverityCode(d.severity));
    SeverityRoundTrip(d.severity);
  }

  // Record header

  const PLATFORM_ID_BIT := 0
  const TIMESTAMP_BIT := 1
  const PARTITION_ID_BIT := 2

  /** eba67344-b876-4237-b80d-27e1297fa2ff */
  const LCF_GUID: Guid :=
    [0x44, 0x73, 0xa6, 0xeb, 0x76, 0xb8, 0x37, 0x42, 0xb8, 0x0d, 0x27, 0xe1, 0x29, 0x7f, 0xa2, 0xff]

  /** 3d61a466-ab40-409a-a698-f362d464b38f */
  const BOOT: Guid :=
    [0x66, 0xa4, 0x61, 0x3d, 0x40, 0xab, 0x9a, 0x40, 0xa6, 0x98, 0xf3, 0x62, 0xd4, 0x64, 0xb3, 0x8f]

  /** "CPER" */
  const CPER_SIGNATURE: seq<byte> := [0x43, 0x50, 0x45, 0x52]

  datatype CperHeader = CperHeader(
    revision: Revision,
    sectionCount: u16,
    errorSeverity: Severity,
    validationBits: u32,
    recordLength: u32,
    timestamp: Option<Timestamp>,
    platformId: Option<Guid>,
    partitionId: Option<Guid>,
    creatorId: Guid,
    notificationType: Guid,
    recordId: u64,
    flags: u32,
    persistenceInformation: u64
  )

  function DefaultCperHeader(): CperHeader {
    CperHeader(Revision(1, 1), 0, Informational, 0, RECORD_HEADER_SIZE, None, None, None,
               LCF_GUID, Zeros(16), 0, 0, 0)
  }

  function CperHeaderFromSlice(s: seq<byte>): Option<CperHeader> {
    var signatureEnd :- U32At(s, 6);
    if !StartsWith(s, CPER_SIGNATURE) || signatureEnd != 0xFFFF_FFFF then None
    else
      var revisionBytes :- Get(s, 4, 6);
      var revision :- RevisionFromSlice(revisionBytes);
      var validationBits :- U32At(s, 16);
      var sectionCount :- U16At(s, 10);
      var errorSeverity :- U32At(s, 12);
      var recordLength :- U32At(s, 20);
      var timestamp: Option<Timestamp> :-
        if Bit(validationBits, TIMESTAMP_BIT) then
          var field :- Get(s, 24, 32);
          var time :- TimestampFromSlice(field);
          Some(Some(time))
        else
          Some(None);
      var platformId :- OptionalGuid(Bit(validationBits, PLATFORM_ID_BIT), s, 32);
      var partitionId :- OptionalGuid(Bit(validationBits, PARTITION_ID_BIT), s, 48);
      var creatorId :- GuidAt(s, 64);
      var notificationType :- GuidAt(s, 80);
      var recordId :- U64At(s, 96);
      var flags :- U32At(s, 104);
      var persistenceInformation :- U64At(s, 108);
      Some(CperHeader(revision, sectionCount, SeverityOf(errorSeverity), validationBits, recordLength,
                      timestamp, platformId, partitionId, creatorId, notificationType,
                      recordId, flags, persistenceInformation))
  }

  function TimestampOrZero(t: Option<Timestamp>): Timestamp {
    if t.Some? then t.value else Timestamp(0, 0, 0, false, 0, 0, 0, 0)
  }

  function CperHeaderToBytes(h: CperHeader): (bytes: seq<byte>)
    ensures |bytes| == RECORD_HEADER_SIZE
  {
    CPER_SIGNATURE + RevisionToBytes(h.revision) + [0xFF, 0xFF, 0xFF, 0xFF] + ToLe16(h.sectionCount)
    + ToLe32(SeverityCode(h.errorSeverity)) + ToLe32(h.validationBits) + ToLe32(h.recordLength)
    + TimestampToBytes(TimestampOrZero(h.timestamp)) + GuidOrZero(h.platformId)
    + GuidOrZero(h.partitionId) + h.creatorId + h.notificationType + ToLe64(h.recordId)
    + ToLe32(h.flags) + ToLe64(h.persistenceInformation) + Zeros(12)
  }

  function CperHeaderBits(h: CperHeader): u32 {
    (if h.platformId.Some? then 1 else 0) + (if h.timestamp.Some? then 2 else 0)
    + (if h.partitionId.Some? then 4 else 0)
  }

  predicate CperHeaderAgrees(h: CperHeader) {
    && (Bit(h.validationBits, PLATFORM_ID_BIT) <==> h.platformId.Some?)
    && (Bit(h.validationBits, TIMESTAMP_BIT) <==> h.timestamp.Some?)
    && (Bit(h.validationBits, PARTITION_ID_BIT) <==> h.partitionId.Some?)
  }

  lemma NormalCperHeaderAgrees(h: CperHeader)
    ensures CperHeaderAgrees(h.(validationBits := CperHeaderBits(h)))
  {
    var v := CperHeaderBits(h);
    assert ShiftRight(v, 1) == ShiftRight(v / 2, 0);
    assert ShiftRight(v, 2) == ShiftRight(v / 2, 1) == ShiftRight(v / 2 / 2, 0);
  }

  lemma TimestampRoundTrip(t: Timestamp)
    ensures TimestampFromSlice(TimestampToBytes(t)) == Some(t)
  {
  }

  lemma CperHeaderFields(h: CperHeader)
    ensures var s := CperHeaderToBytes(h);
            && s[..4] == CPER_SIGNATURE && s[4..6] == RevisionToBytes(h.revision)
            && s[6..10] == [0xFF, 0xFF, 0xFF, 0xFF] && s[10..12] == ToLe16(h.sectionCount)
            && s[12..16] == ToLe32(SeverityCode(h.errorSeverity)) && s[16..20] == ToLe32(h.validationBits)
            && s[20..24] == ToLe32(h.recordLength)
            && s[24..32] == TimestampToBytes(TimestampOrZero(h.timestamp))
            && s[32..48] == GuidOrZero(h.platformId) && s[48..64] == GuidOrZero(h.partitionId)
            && s[64..80] == h.creatorId && s[80..96] == h.notificationType
            && s[96..104] == ToLe64(h.recordId) && s[104..108] == ToLe32(h.flags)
            && s[108..116] == ToLe64(h.persistenceInformation)
  {
    hide ToLe16, ToLe32, ToLe64, RevisionToBytes, GuidOrZero, SeverityCode, TimestampToBytes, TimestampOrZero;
  }

  /** A record header reads back from its bytes exactly when its validation bits tell the truth. */
  lemma CperHeaderRoundTrip(h: CperHeader)
    ensures CperHeaderFromSlice(CperHeaderToBytes(h)) == Some(h) <==> CperHeaderAgrees(h)
  {
    hide ToLe16, Le16, ToLe32, Le32, ToLe64, Le64, CperHeaderToBytes, Bit, TimestampFromSlice, TimestampToBytes;
    CperHeaderFields(h);
    AllOnes();
    Le16RoundTrip(h.sectionCount);
    Le32RoundTrip(SeverityCode(h.errorSeverity));
    SeverityRoundTrip(h.errorSeverity);
    Le32RoundTrip(h.validationBits);
    Le32RoundTrip(h.recordLength);
    TimestampRoundTrip(TimestampOrZero(h.timestamp));
    Le64RoundTrip(h.recordId);
    Le32RoundTrip(h.flags);
    Le64RoundTrip(h.persistenceInformation);
  }

  lemma AllOnes()
    ensures Le32([0xFF, 0xFF, 0xFF, 0xFF]) == 0xFFFF_FFFF
  {
  }

  // What is read from any bytes

  lemma TimestampIsRead(s: seq<byte>)
    ensures TimestampFromSlice(s).Some? <==> |s| >= 8
    ensures |s| >= 8 ==>
              TimestampFromSlice(s) == Some(Timestamp(s[0], s[1], s[2], s[3] % 2 == 1, s[4], s[5], s[6], s[7]))
  {
    assert |s| >= 8 ==> ShiftRight(s[3], 0) == s[3];
  }

  lemma LowBits(s: seq<byte>)
    requires |s| == 4
    ensures Bit(Le32(s), 0) <==> s[0] % 2 == 1
    ensures Bit(Le32(s), 1) <==> s[0] / 2 % 2 == 1
    ensures Bit(Le32(s), 2) <==> s[0] / 4 % 2 == 1
  {
    LeValue32(s);
    FirstByte(s);
    hide Le32, LeValue, Low;
    BitOfLow(LeValue(s), 8, 0);
    BitOfLow(LeValue(s), 8, 1);
    BitOfLow(LeValue(s), 8, 2);
    BitsOfByte(s[0]);
  }

  lemma BitsOfByte(b: byte)
    ensures Bit(b, 0) <==> b % 2 == 1
    ensures Bit(b, 1) <==> b / 2 % 2 == 1
    ensures Bit(b, 2) <==> b / 4 % 2 == 1
  {
    assert ShiftRight(b, 1) == ShiftRight(b / 2, 0);
    assert ShiftRight(b, 2) == ShiftRight(b / 2, 1) == ShiftRight(b / 2 / 2, 0);
    assert b / 2 / 2 == b / 4;
  }

  predicate HasSignature(s: seq<byte>) {
    |s| >= 10 && s[..4] == [0x43, 0x50, 0x45, 0x52] && s[6..10] == [0xFF, 0xFF, 0xFF, 0xFF]
  }

  /** A record header is read from bytes that carry both signatures and reach to its last field, and from no others. */
  lemma CperHeaderIsRead(s: seq<byte>)
    ensures CperHeaderFromSlice(s).Some? <==> |s| >= 116 && HasSignature(s)
  {
    if |s| >= 10 {
      SignatureIsRead(s);
    }
    if |s| >= 116 {
      TimestampIsRead(s[24..32]);
    }
    hide Le16, Le32, Le64, Bit, TimestampFromSlice;
  }

  lemma SignatureIsRead(s: seq<byte>)
    requires |s| >= 10
    ensures StartsWith(s, CPER_SIGNATURE) && Le32(s[6..10]) == 0xFFFF_FFFF <==> HasSignature(s)
  {
    AllOnes();
    hide Le32;
    if Le32(s[6..10]) == 0xFFFF_FFFF {
      Le32IsInjective(s[6..10], [0xFF, 0xFF, 0xFF, 0xFF]);
    }
  }

  function CappedCode(code: u32): u32 {
    if code < 3 then code else 3
  }

  /** Its fields are at their offsets, the optional ones when their validation bit is set. */
  lemma CperHeaderOfBytes(s: seq<byte>)
    requires CperHeaderFromSlice(s).Some?
    ensures |s| >= 116
    ensures var h := CperHeaderFromSlice(s).value;
            && h.revision == Revision(s[5], s[4]) && h.sectionCount == Le16(s[10..12])
            && SeverityCode(h.errorSeverity) == CappedCode(Le32(s[12..16]))
            && h.validationBits == Le32(s[16..20]) && h.recordLength == Le32(s[20..24])
            && h.creatorId == s[64..80] && h.notificationType == s[80..96]
            && h.recordId == Le64(s[96..104]) && h.flags == Le32(s[104..108])
            && h.persistenceInformation == Le64(s[108..116])
    ensures var h := CperHeaderFromSlice(s).value;
            && h.platformId == (if s[16] % 2 == 1 then Some(s[32..48]) else None)
            && h.timestamp == (if s[16] / 2 % 2 == 1 then TimestampFromSlice(s[24..32]) else None)
            && h.partitionId == (if s[16] / 4 % 2 == 1 then Some(s[48..64]) else None)
  {
    CperHeaderIsRead(s);
    LowBits(s[16..20]);
    hide Le16, Le32, Le64, Bit, TimestampFromSlice;
  }

  lemma DescriptorIsRead(s: seq<byte>)
    ensures DescriptorFromSlice(s).Some? <==> |s| >= 52 && (s[10] / 2 % 2 == 1 ==> |s| >= 72)
    ensures DescriptorFromSlice(s).Some? ==>
              var d := DescriptorFromSlice(s).value;
              && d.sectionOffset == Le32(s[0..4]) && d.sectionLength == Le32(s[4..8])
              && d.revision == Revision(s[9], s[8]) && d.validationBits == s[10]
              && d.flags == Le32(s[12..16]) && d.sectionType == s[16..32]
              && d.fruId == (if s[10] % 2 == 1 then Some(s[32..48]) else None)
              && SeverityCode(d.severity) == CappedCode(Le32(s[48..52]))
              && d.fruText == (if s[10] / 2 % 2 == 1 then Some(s[52..72]) else None)
  {
    if |s| > 10 {
      BitsOfByte(s[10]);
    }
    hide Le32, Bit;
  }
}
