/**
 CPER section bodies (lib/src/cper/section.rs) and the Firmware Error Record
 (lib/src/cper/section/fer.rs; UEFI 2.10, section N.2.10).
 */
module Sections {
  import opened Results
  import opened Bytes

  const ZERO_GUID: Guid := Zeros(16)

  /** 81212a96-09ed-4996-9471-8d729c8e69ed */
  const FW_ERROR_RECORD: Guid :=
    [0x96, 0x2a, 0x21, 0x81, 0xed, 0x09, 0x96, 0x49, 0x94, 0x71, 0x8d, 0x72, 0x9c, 0x8e, 0x69, 0xed]

  /** 8f87f311-c998-4d9e-a0c4-6065518c4f6d */
  const RECORD_ID_CRASHLOG: Guid :=
    [0x11, 0xf3, 0x87, 0x8f, 0x98, 0xc9, 0x9e, 0x4d, 0xa0, 0xc4, 0x60, 0x65, 0x51, 0x8c, 0x4f, 0x6d]

  const HEADER_REV1_SIZE := 16
  const HEADER_REV2_SIZE := 32

  datatype FerHeader = FerHeader(errorType: byte, revision: byte, recordIdentifier: u64, guid: Guid)

  function FerHeaderFromSlice(s: seq<byte>): Option<FerHeader> {
    var revision :- ByteAt(s, 1);
    var errorType :- ByteAt(s, 0);
    var recordIdentifier :- U64At(s, 8);
    var guid :- if revision >= 2 then GuidAt(s, 16) else Some(ZERO_GUID);
    Some(FerHeader(errorType, revision, recordIdentifier, guid))
  }

  /** Always the 32 bytes of revision 2. */
  function FerHeaderToBytes(h: FerHeader): (bytes: seq<byte>)
    ensures |bytes| == HEADER_REV2_SIZE
  {
    [h.errorType, h.revision] + Zeros(6) + ToLe64(h.recordIdentifier) + h.guid
  }

  function FerHeaderLen(h: FerHeader): nat {
    if h.revision >= 2 then HEADER_REV2_SIZE else HEADER_REV1_SIZE
  }

  datatype Body =
    | FirmwareErrorRecord(header: FerHeader, payload: seq<byte>)
    | Unknown(guid: Guid, data: seq<byte>)

  function FerFromSlice(s: seq<byte>): Option<Body> {
    var header :- FerHeaderFromSlice(s);
    var payload :- GetFrom(s, FerHeaderLen(header));
    Some(FirmwareErrorRecord(header, payload))
  }

  function BodyFromSlice(guid: Guid, s: seq<byte>): Option<Body> {
    if guid == FW_ERROR_RECORD then FerFromSlice(s) else Some(Unknown(guid, s))
  }

  function BodyGuid(body: Body): Guid {
    if body.FirmwareErrorRecord? then FW_ERROR_RECORD else body.guid
  }

  /** The size a body is announced with. */
  function BodyLen(body: Body): nat {
    match body
    case FirmwareErrorRecord(header, payload) => FerHeaderLen(header) + |payload|
    case Unknown(_, data) => |data|
  }

  function BodyToBytes(body: Body): seq<byte> {
    match body
    case FirmwareErrorRecord(header, payload) => FerHeaderToBytes(header) + payload
    case Unknown(_, data) => data
  }

  /** Cuts or pads with zeros. */
  function Resize(s: seq<byte>, n: nat): (r: seq<byte>)
    ensures |r| == n
  {
    if n <= |s| then s[..n] else s + Zeros(n - |s|)
  }

  lemma ResizeIs(s: seq<byte>, n: nat)
    ensures n <= |s| ==> Resize(s, n) == s[..n]
    ensures n > |s| ==> Resize(s, n)[..|s|] == s && forall i | |s| <= i < n :: Resize(s, n)[i] == 0
  {
  }

  // What a body keeps through its own bytes

  predicate AllZero(s: seq<byte>) {
    forall i | 0 <= i < |s| :: s[i] == 0
  }

  /** Firmware Error Record headers of revision 1 are written with the guid they do not have. */
  predicate BodyKept(body: Body) {
    match body
    case FirmwareErrorRecord(header, payload) =>
      header.revision >= 2 || (header.guid == ZERO_GUID && AllZero(payload))
    case Unknown(guid, _) => guid != FW_ERROR_RECORD
  }

  /** Where the header keeps its fields; bytes 2 to 7 are reserved. */
  lemma FerHeaderFields(h: FerHeader)
    ensures var s := FerHeaderToBytes(h);
            && s[0] == h.errorType && s[1] == h.revision && s[2..8] == Zeros(6)
            && s[8..16] == ToLe64(h.recordIdentifier) && s[16..32] == h.guid
  {
    hide ToLe64;
  }

  /** What the header reads back from its bytes, whatever follows them. */
  lemma FerHeaderReadsBack(h: FerHeader, rest: seq<byte>)
    ensures FerHeaderFromSlice(FerHeaderToBytes(h) + rest)
         == Some(if h.revision >= 2 then h else h.(guid := ZERO_GUID))
  {
    hide Le64, ToLe64;
    var bytes := FerHeaderToBytes(h) + rest;
    assert bytes[8..16] == ToLe64(h.recordIdentifier);
    assert bytes[16..32] == h.guid;
    Le64RoundTrip(h.recordIdentifier);
  }

  /** The same for a revision 1 header that only keeps its first 16 bytes. */
  lemma ShortFerHeaderReadsBack(h: FerHeader, rest: seq<byte>)
    requires h.revision < 2
    ensures FerHeaderFromSlice(FerHeaderToBytes(h)[..16] + rest) == Some(h.(guid := ZERO_GUID))
  {
    hide Le64, ToLe64;
    var bytes := FerHeaderToBytes(h)[..16] + rest;
    assert bytes[8..16] == ToLe64(h.recordIdentifier);
    Le64RoundTrip(h.recordIdentifier);
  }

  predicate EqualsItsShift(p: seq<byte>, i: nat)
    requires i < |p|
  {
    p[i] == if i < 16 then 0 else p[i - 16]
  }

  lemma {:induction false} ShiftedIsZero(p: seq<byte>, k: nat)
    requires forall i | 0 <= i < |p| :: EqualsItsShift(p, i)
    requires k < |p|
    ensures p[k] == 0
  {
    assert EqualsItsShift(p, k);
    if k >= 16 {
      ShiftedIsZero(p, k - 16);
    }
  }

  /** A payload pushed right by sixteen zeros and cut to its length is itself only when all zero. */
  lemma ShiftedPayload(p: seq<byte>)
    ensures (ZERO_GUID + p)[..|p|] == p <==> AllZero(p)
  {
    var shifted := (ZERO_GUID + p)[..|p|];
    if shifted == p {
      forall i | 0 <= i < |p| ensures EqualsItsShift(p, i) {
        assert shifted[i] == (ZERO_GUID + p)[i];
      }
      forall i | 0 <= i < |p| ensures p[i] == 0 {
        ShiftedIsZero(p, i);
      }
    }
  }

  lemma RevisionOneBytes(h: FerHeader, payload: seq<byte>)
    requires h.revision < 2
    ensures Resize(FerHeaderToBytes(h) + payload, 16 + |payload|)
         == FerHeaderToBytes(h)[..16] + (h.guid + payload)[..|payload|]
  {
    hide ToLe64;
    assert FerHeaderToBytes(h) == FerHeaderToBytes(h)[..16] + h.guid;
  }

  /** A body cut to its announced length parses to itself exactly when it is kept. */
  lemma BodyRoundTrip(body: Body)
    ensures BodyFromSlice(BodyGuid(body), Resize(BodyToBytes(body), BodyLen(body))) == Some(body)
       <==> BodyKept(body)
  {
    match body
    case Unknown(guid, data) =>
      assert data[..|data|] == data;
    case FirmwareErrorRecord(h, payload) =>
      var bytes := FerHeaderToBytes(h) + payload;
      if h.revision >= 2 {
        FerHeaderReadsBack(h, payload);
        assert bytes[..|bytes|] == bytes && bytes[32..] == payload;
      } else {
        hide FerHeaderToBytes, FerHeaderFromSlice;
        RevisionOneBytes(h, payload);
        var tail := (h.guid + payload)[..|payload|];
        ShortFerHeaderReadsBack(h, tail);
        assert (FerHeaderToBytes(h)[..16] + tail)[16..] == tail;
        ShiftedPayload(payload);
      }
  }

  /** An unknown body is not of the type that the library knows. */
  predicate OwnType(body: Body) {
    body.Unknown? ==> body.guid != FW_ERROR_RECORD
  }

  /** A parsed body announces the length and the type it was parsed with. */
  lemma ParsedBodyIsDescribed(guid: Guid, s: seq<byte>)
    requires BodyFromSlice(guid, s).Some?
    ensures var body := BodyFromSlice(guid, s).value;
            && BodyGuid(body) == guid
            && BodyLen(body) == |s|
            && OwnType(body)
            && (body.FirmwareErrorRecord? && body.header.revision < 2 ==> body.header.guid == ZERO_GUID)
  {
  }

  /** A revision 1 record whose payload is one byte that is not zero: parsed, but not kept. */
  lemma RevisionOneIsLost()
    ensures var bytes := [2, 1] + Zeros(14) + [1];
            && BodyFromSlice(FW_ERROR_RECORD, bytes).Some?
            && !BodyKept(BodyFromSlice(FW_ERROR_RECORD, bytes).value)
  {
    hide Le64;
    var bytes := [2, 1] + Zeros(14) + [1];
    assert bytes[16..] == [1];
    var body := FerFromSlice(bytes).value;
    assert body.payload[0] == 1;
  }

  /** What a Firmware Error Record header is read from, and as what. */
  lemma FerHeaderIsRead(s: seq<byte>)
    ensures FerHeaderFromSlice(s).Some? <==> |s| >= 16 && (s[1] >= 2 ==> |s| >= 32)
    ensures FerHeaderFromSlice(s).Some? ==>
              FerHeaderFromSlice(s) == Some(FerHeader(s[0], s[1], Le64(s[8..16]), if s[1] >= 2 then s[16..32] else Zeros(16)))
  {
    hide Le64;
  }

  /** Bodies under the Firmware Error Record GUID are what follows their header; all others are taken as they are. */
  lemma BodyIsRead(guid: Guid, s: seq<byte>)
    ensures guid == [0x96, 0x2a, 0x21, 0x81, 0xed, 0x09, 0x96, 0x49, 0x94, 0x71, 0x8d, 0x72, 0x9c, 0x8e, 0x69, 0xed] ==>
              BodyFromSlice(guid, s) == if FerHeaderFromSlice(s).None? then None
                                        else Some(FirmwareErrorRecord(FerHeaderFromSlice(s).value,
                                                                      if s[1] >= 2 then s[32..] else s[16..]))
    ensures guid != [0x96, 0x2a, 0x21, 0x81, 0xed, 0x09, 0x96, 0x49, 0x94, 0x71, 0x8d, 0x72, 0x9c, 0x8e, 0x69, 0xed] ==>
              BodyFromSlice(guid, s) == Some(Unknown(guid, s))
  {
    FerHeaderIsRead(s);
    hide Le64;
  }
}
