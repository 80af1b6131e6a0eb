/**
 Record headers (lib/src/header.rs) and the product erratas that decide their
 layout (lib/src/errata.rs).
 */
module Headers {
  import opened Results
  import opened Bytes
  import opened Bits
  import Fields

  // Record types

  const PMC := 0x1
  const PMC_FW_TRACE := 0x2
  const PUNIT := 0x3
  const PCORE := 0x4
  const ECORE := 0x6
  const UNCORE := 0x8
  const PMC_TRACE := 0x11
  const TCSS := 0x16
  const PMC_RST := 0x17
  const PCODE := 0x19
  const CRASHLOG_AGENT := 0x1C
  const BOX := 0x3D
  const MCA := 0x3E

  // Version

  datatype Version = Version(
    revision: u32,
    headerType: u16,
    productId: u32,
    recordType: byte,
    consumed: bool,
    cldic: bool
  )

  /** The version carried by a version word, field by field. */
  function VersionOfWord(word: u32): Version {
    Version(
      word % 0x100,
      word / 0x100 % 0x10,
      word / 0x1000 % 0x1000,
      word / 0x100_0000 % 0x40,
      word / 0x8000_0000 % 2 == 1,
      word / 0x4000_0000 % 2 == 1
    )
  }

  predicate IsTerminationMarker(word: u32) {
    word == 0 || word == 0xdead_beef
  }

  /** Nothing at a termination marker or when the word does not fit. */
  function VersionFromSlice(slice: seq<byte>): Option<Version> {
    var word :- U32At(slice, 0);
    if IsTerminationMarker(word) then None else Some(VersionOfWord(word))
  }

  function Flag(b: bool): nat {
    if b then 1 else 0
  }

  /** The version word rebuilt with shifts and inclusive or; a shift drops what leaves 32 bits. */
  function VersionAsU32(v: Version): nat {
    BitOr(BitOr(BitOr(BitOr(BitOr(
                              ShiftLeft(Flag(v.consumed), 31),
                              ShiftLeft(Flag(v.cldic), 30)),
                            AsU32(ShiftLeft(v.recordType, 24))),
                      AsU32(ShiftLeft(v.productId, 12))),
                AsU32(ShiftLeft(v.headerType, 8))),
          ShiftLeft(v.revision, 0))
  }

  /** Every field holds no more than its bits of the version word. */
  predicate VersionInRange(v: Version) {
    v.revision < 0x100 && v.headerType < 0x10 && v.productId < 0x1000 && v.recordType < 0x40
  }

  /** The fields laid side by side, the most significant first. */
  function Packed(v: Version): nat {
    ((((Flag(v.consumed) * 2 + Flag(v.cldic)) * 0x40 + v.recordType as int) * 0x1000
      + v.productId as int) * 0x10 + v.headerType as int) * 0x100 + v.revision as int
  }

  lemma ShiftLeftConstants(x: nat)
    ensures ShiftLeft(x, 0) == x && ShiftLeft(x, 1) == 2 * x && ShiftLeft(x, 4) == 0x10 * x
    ensures ShiftLeft(x, 6) == 0x40 * x && ShiftLeft(x, 8) == 0x100 * x && ShiftLeft(x, 12) == 0x1000 * x
    ensures ShiftLeft(x, 24) == 0x100_0000 * x
  {
    ShiftLeftBy4(x);
    ShiftLeftBy8(x);
    ShiftLeftTwice(x, 4, 2);
    assert ShiftLeft(0x10 * x, 1) == 2 * ShiftLeft(0x10 * x, 0);
    assert ShiftLeft(0x10 * x, 2) == 2 * ShiftLeft(0x10 * x, 1);
    ShiftLeftTwice(x, 8, 4);
    ShiftLeftBy4(0x100 * x);
    ShiftLeftTwice(x, 8, 8);
    ShiftLeftBy8(0x100 * x);
    ShiftLeftTwice(x, 16, 8);
    ShiftLeftBy8(0x1_0000 * x);
  }

  lemma PackStep(high: nat, field: nat, n: nat, k: nat, p: nat)
    requires (k, p) in {(1, 2), (4, 0x10), (6, 0x40), (8, 0x100), (12, 0x1000)}
    requires field < p
    ensures BitOr(ShiftLeft(high, k + n), ShiftLeft(field, n)) == ShiftLeft(high * p + field, n)
  {
    hide BitOr, ShiftLeft;
    ShiftLeftConstants(1);
    ShiftLeftConstants(high);
    OrPack(high, field, n, k);
  }

  lemma OrOfShifts(c: nat, l: nat, t: nat, p: nat, h: nat, r: nat)
    requires c < 2 && l < 2 && t < 0x40 && p < 0x1000 && h < 0x10 && r < 0x100
    ensures BitOr(BitOr(BitOr(BitOr(BitOr(ShiftLeft(c, 31), ShiftLeft(l, 30)), ShiftLeft(t, 24)),
                              ShiftLeft(p, 12)), ShiftLeft(h, 8)), ShiftLeft(r, 0))
         == ((((c * 2 + l) * 0x40 + t) * 0x1000 + p) * 0x10 + h) * 0x100 + r
  {
    hide BitOr, ShiftLeft;
    var g1 := c * 2 + l;
    var g2 := g1 * 0x40 + t;
    var g3 := g2 * 0x1000 + p;
    var g4 := g3 * 0x10 + h;
    PackStep(c, l, 30, 1, 2);
    PackStep(g1, t, 24, 6, 0x40);
    PackStep(g2, p, 12, 12, 0x1000);
    PackStep(g3, h, 8, 4, 0x10);
    PackStep(g4, r, 0, 8, 0x100);
    NoShiftLeft(g4 * 0x100 + r);
  }

  lemma NoShiftLeft(x: nat)
    ensures ShiftLeft(x, 0) == x
  {
  }

  lemma AsU32IsPacked(v: Version)
    requires VersionInRange(v)
    ensures VersionAsU32(v) == Packed(v)
  {
    hide BitOr, ShiftLeft;
    ShiftLeftConstants(v.recordType);
    ShiftLeftConstants(v.productId);
    ShiftLeftConstants(v.headerType);
    OrOfShifts(Flag(v.consumed), Flag(v.cldic), v.recordType, v.productId, v.headerType, v.revision);
  }

  lemma PackedOfWord(word: u32)
    ensures VersionInRange(VersionOfWord(word))
    ensures Packed(VersionOfWord(word)) == word
  {
    var v := VersionOfWord(word);
    assert word / 0x4000_0000 == Flag(v.consumed) * 2 + Flag(v.cldic);
    assert word / 0x100_0000 == (word / 0x4000_0000) * 0x40 + v.recordType as int;
    assert word / 0x1000 == (word / 0x100_0000) * 0x1000 + v.productId as int;
    assert word / 0x100 == (word / 0x1000) * 0x10 + v.headerType as int;
  }

  lemma WordOfPacked(v: Version)
    requires VersionInRange(v)
    ensures Packed(v) < 0x1_0000_0000
    ensures VersionOfWord(Packed(v)) == v
  {
    var word := Packed(v);
    var top := Flag(v.consumed) * 2 + Flag(v.cldic);
    var record := top * 0x40 + v.recordType as int;
    var product := record * 0x1000 + v.productId as int;
    var header := product * 0x10 + v.headerType as int;
    assert word == header * 0x100 + v.revision as int;
    assert word / 0x100 == header;
    assert word / 0x1000 == header / 0x10 == product;
    assert word / 0x100_0000 == product / 0x1000 == record;
    assert word / 0x4000_0000 == record / 0x40 == top;
    assert word / 0x8000_0000 == Flag(v.consumed);
  }

  /** Rebuilding the word of a parsed version gives back the word that was parsed. */
  lemma VersionWordRoundTrip(slice: seq<byte>)
    requires VersionFromSlice(slice).Some?
    ensures VersionAsU32(VersionFromSlice(slice).value) == Le32(slice[0..4])
  {
    PackedOfWord(Le32(slice[0..4]));
    AsU32IsPacked(VersionFromSlice(slice).value);
  }

  /** Parsing a rebuilt word gives back any version whose fields fit, unless it is a marker. */
  lemma VersionValueRoundTrip(v: Version, rest: seq<byte>)
    requires VersionInRange(v)
    ensures VersionAsU32(v) < 0x1_0000_0000
    ensures VersionFromSlice(ToLe32(VersionAsU32(v)) + rest)
         == if IsTerminationMarker(VersionAsU32(v)) then None else Some(v)
  {
    AsU32IsPacked(v);
    WordOfPacked(v);
    var word: u32 := Packed(v);
    Le32RoundTrip(word);
    GetBefore(ToLe32(word), rest, 0, 4);
    assert ToLe32(word)[0..4] == ToLe32(word);
  }

  /** The bit fields a layout reads at the start of a record are the parsed version. */
  lemma VersionIsBitFields(data: seq<byte>)
    requires VersionFromSlice(data).Some?
    ensures var v := VersionFromSlice(data).value;
            && Fields.Field(data, 0, 8) == Some(v.revision)
            && Fields.Field(data, 8, 4) == Some(v.headerType)
            && Fields.Field(data, 12, 12) == Some(v.productId)
            && Fields.Field(data, 24, 6) == Some(v.recordType)
            && Fields.Field(data, 30, 1) == Some(Flag(v.cldic))
            && Fields.Field(data, 31, 1) == Some(Flag(v.consumed))
  {
    var word := Le32(data[0..4]);
    assert data[..4] == data[0..4];
    LeValue32(data[..4]);
    FieldOfWord(data, word, 0, 8);
    FieldOfWord(data, word, 8, 4);
    FieldOfWord(data, word, 12, 12);
    FieldOfWord(data, word, 24, 6);
    FieldOfWord(data, word, 30, 1);
    FieldOfWord(data, word, 31, 1);
    FieldsOfWord(word);
  }

  lemma FieldOfWord(data: seq<byte>, word: nat, o: nat, n: nat)
    requires |data| >= 4 && o + n <= 32
    requires LeValue(data[..4]) == word
    ensures Fields.Field(data, o, n).Some?
    ensures Fields.Field(data, o, n).value == Low(ShiftRight(word, o), n)
  {
    Fields.FieldOfPrefix(data, 4, o, n);
  }

  lemma {:induction false} LowIsMod(x: nat, high: nat, n: nat)
    requires x >= ShiftLeft(high, n) && x - ShiftLeft(high, n) < Pow2(n)
    ensures ShiftRight(x, n) == high
    ensures Low(x, n) == x - ShiftLeft(high, n)
  {
    ShiftBack(x - ShiftLeft(high, n), high, n);
    FieldBelow(x - ShiftLeft(high, n), high, n, 0, n);
    LowOfSmall(x - ShiftLeft(high, n), n);
  }

  lemma NoShift(x: nat)
    ensures ShiftRight(x, 0) == x
  {
  }

  /** The fields of a word, cut with shifts and masks, are its quotients and remainders. */
  lemma FieldsOfWord(word: u32)
    ensures Low(ShiftRight(word, 0), 8) == word % 0x100
    ensures Low(ShiftRight(word, 8), 4) == word / 0x100 % 0x10
    ensures Low(ShiftRight(word, 12), 12) == word / 0x1000 % 0x1000
    ensures Low(ShiftRight(word, 24), 6) == word / 0x100_0000 % 0x40
    ensures Low(ShiftRight(word, 30), 1) == word / 0x4000_0000 % 2
    ensures Low(ShiftRight(word, 31), 1) == word / 0x8000_0000 % 2
  {
    hide Low, ShiftRight, ShiftLeft;
    var w8, w12, w24 := word / 0x100, word / 0x1000, word / 0x100_0000;
    NoShift(word);
    CutWord(word, w8, 8, 0x100);
    CutWord(w8, w12, 4, 0x10);
    CutWord(w12, w24, 12, 0x1000);
    CutWord(w24, word / 0x4000_0000, 6, 0x40);
    CutWord(word / 0x4000_0000, word / 0x8000_0000, 1, 2);
    CutWord(word / 0x8000_0000, 0, 1, 2);
    ShiftRightTwice(word, 8, 4);
    ShiftRightTwice(word, 12, 12);
    ShiftRightTwice(word, 24, 6);
    ShiftRightTwice(word, 30, 1);
  }

  /** Cutting a number where its quotient is known. */
  lemma CutWord(x: nat, high: nat, n: nat, p: nat)
    requires (n, p) in {(1, 2), (4, 0x10), (6, 0x40), (8, 0x100), (12, 0x1000)}
    requires high == x / p
    ensures ShiftRight(x, n) == high
    ensures Low(x, n) == x % p
  {
    hide Low, ShiftRight, ShiftLeft;
    ShiftLeftConstants(high);
    ShiftLeftConstants(1);
    LowIsMod(x, high, n);
  }

  // Erratas

  datatype Errata = Errata(
    type0LegacyServer: bool,
    type0LegacyServerBox: bool,
    coreRecordSizeBytes: bool
  )

  const GNR_SP_PRODUCT_ID := 0x2f
  const SRF_SP_PRODUCT_ID := 0x82
  const CGC_PRODUCT_ID := 0x85
  const CWF_SP_PRODUCT_ID := 0x8e

  function ErrataOf(v: Version): Errata {
    var type0LegacyServer :=
      v.headerType == 0 && v.productId in {GNR_SP_PRODUCT_ID, SRF_SP_PRODUCT_ID, CWF_SP_PRODUCT_ID};
    var ecoreInBytes := v.recordType == ECORE && v.productId < 0x96;
    var pcoreInBytes :=
      v.recordType == PCORE && (v.productId < 0x71 || v.productId == CGC_PRODUCT_ID);
    Errata(
      type0LegacyServer,
      type0LegacyServer && v.recordType == PCORE,
      !type0LegacyServer && (ecoreInBytes || pcoreInBytes)
    )
  }

  // Header types

  datatype HeaderType =
    | Type0
    | Type1
    | Type2(timestamp: u64, agentVersion: u32, reason: u32)
    | Type3(timestamp: u64, agentVersion: u32, reason: u32,
            completionStatus: u32, collectionComplete: bool)
    | Type4(timestamp: u64, agentVersion: u32, reason: u32, whoami: u32, misc: u32)
    | Type5(timestamp: u64, agentVersion: u32, reason: u32,
            completionStatus: u32, collectionComplete: bool, errorStatus: u32)
    | Type6(timestamp: u64, agentVersion: u32, reason: u32, dieId: byte, socketId: byte,
            completionStatusSize: u16, completionStatusWords: seq<u32>, collectionComplete: bool)
    | Type0LegacyServer(timestamp: u64, agentVersion: u32, reason: u32, dieId: byte, socketId: byte,
                        completionStatus: u32, collectionComplete: bool)

  function Type2FromSlice(slice: seq<byte>): Option<HeaderType> {
    var timestamp :- U64At(slice, 8);
    var agentVersion :- U32At(slice, 16);
    var reason :- U32At(slice, 20);
    Some(Type2(timestamp, agentVersion, reason))
  }

  function Type3FromSlice(slice: seq<byte>): Option<HeaderType> {
    var timestamp :- U64At(slice, 8);
    var agentVersion :- U32At(slice, 16);
    var reason :- U32At(slice, 20);
    var csData :- U32At(slice, 24);
    Some(Type3(timestamp, agentVersion, reason, csData % 0x8000_0000, csData / 0x8000_0000 != 0))
  }

  function Type4FromSlice(slice: seq<byte>): Option<HeaderType> {
    var timestamp :- U64At(slice, 8);
    var agentVersion :- U32At(slice, 16);
    var reason :- U32At(slice, 20);
    var whoami :- U32At(slice, 24);
    var misc :- U32At(slice, 28);
    Some(Type4(timestamp, agentVersion, reason, whoami, misc))
  }

  function Type5FromSlice(slice: seq<byte>): Option<HeaderType> {
    var timestamp :- U64At(slice, 8);
    var agentVersion :- U32At(slice, 16);
    var reason :- U32At(slice, 20);
    var csData :- U32At(slice, 24);
    var errorStatus :- U32At(slice, 28);
    Some(Type5(timestamp, agentVersion, reason,
               csData % 0x8000_0000, csData / 0x8000_0000 != 0, errorStatus))
  }

  /** The first `count` completion status words, or nothing when one leaves the slice. */
  function StatusWords(slice: seq<byte>, count: nat): (r: Option<seq<u32>>)
    ensures r.Some? ==> |r.value| == count && (count > 0 ==> 28 + 4 * count <= |slice|)
  {
    if count == 0 then Some([])
    else
      var words :- StatusWords(slice, count - 1);
      var word :- U32At(slice, 28 + 4 * (count - 1));
      Some(words + [word])
  }

  function Type6FromSlice(slice: seq<byte>): Option<HeaderType> {
    var timestamp :- U64At(slice, 8);
    var agentVersion :- U32At(slice, 16);
    var reason :- U32At(slice, 20);
    var dieSktInfo :- Get(slice, 24, 28);
    var completionStatusSize := Le16(dieSktInfo[2..4]) % 0x80;
    var words :- StatusWords(slice, completionStatusSize);
    Some(Type6(timestamp, agentVersion, reason, dieSktInfo[0], dieSktInfo[1],
               completionStatusSize, words, dieSktInfo[3] >= 0x80))
  }

  function Type0LegacyServerFromSlice(slice: seq<byte>): Option<HeaderType> {
    var reason :- U32At(slice, 4);
    var timestamp :- U64At(slice, 8);
    var agentVersion :- U32At(slice, 20);
    var socketId :- ByteAt(slice, 24);
    var csData :- U32At(slice, 28);
    var revision :- ByteAt(slice, 0);
    var dieIdx := revision % 4;
    var dieId := if revision / 0x80 % 2 == 1 then dieIdx + 9 else dieIdx * 4;
    Some(Type0LegacyServer(timestamp, agentVersion, reason, dieId, socketId,
                           csData % 0x8000_0000, csData / 0x8000_0000 != 0))
  }

  function SizeOfType(headerType: HeaderType): nat {
    match headerType
    case Type0 | Type1 => 8
    case Type2(_, _, _) => 24
    case Type3(_, _, _, _, _) => 28
    case Type4(_, _, _, _, _) => 32
    case Type5(_, _, _, _, _, _) => 32
    case Type6(_, _, _, _, _, count, _, _) => 28 + count as int * 4
    case Type0LegacyServer(_, _, _, _, _, _, _) => 32
  }

  function OrInvalid(h: Option<HeaderType>): Result<HeaderType> {
    if h.Some? then Ok(h.value) else Err(InvalidHeader)
  }

  function HeaderTypeFromSlice(headerType: u16, slice: seq<byte>): Result<HeaderType> {
    match headerType
    case 0 => Ok(Type0)
    case 1 => Ok(Type1)
    case 2 => OrInvalid(Type2FromSlice(slice))
    case 3 => OrInvalid(Type3FromSlice(slice))
    case 4 => OrInvalid(Type4FromSlice(slice))
    case 5 => OrInvalid(Type5FromSlice(slice))
    case 6 => OrInvalid(Type6FromSlice(slice))
    case _ => Err(InvalidHeaderType(headerType))
  }

  // Header

  datatype RecordSize = RecordSize(recordSize: u16, extendedRecordSize: u16)

  function RecordSizeFromSlice(slice: seq<byte>): Option<RecordSize> {
    var recordSize :- U16At(slice, 4);
    var extendedRecordSize :- U16At(slice, 6);
    Some(RecordSize(recordSize, extendedRecordSize))
  }

  function RecordSizeFromSliceType0LegacyServer(slice: seq<byte>): Option<RecordSize> {
    var recordSize :- U16At(slice, 16);
    Some(RecordSize(recordSize, 0))
  }

  datatype Header = Header(version: Version, size: RecordSize, headerType: HeaderType) {

    /** Granularity of the size fields in bytes. */
    function Granularity(): nat {
      if ErrataOf(version).coreRecordSizeBytes then 1 else 4
    }

    /** Size of the record in bytes, as its header announces it. */
    function TotalSize(): nat {
      (size.recordSize as int + size.extendedRecordSize as int) * Granularity()
    }

    /** Size of the header in bytes. */
    function HeaderSize(): nat {
      SizeOfType(headerType)
    }

    /** Whether the record wraps a region of its own. */
    predicate IsBox() {
      version.recordType == BOX || ErrataOf(version).type0LegacyServerBox
    }
  }

  /** A header, nothing at a termination marker, or the error that stops the parse. */
  function HeaderFromSlice(slice: seq<byte>): Result<Option<Header>> {
    var version := VersionFromSlice(slice);
    if version.None? then Ok(None)
    else
      var legacy := ErrataOf(version.value).type0LegacyServer;
      var size := if legacy then RecordSizeFromSliceType0LegacyServer(slice) else RecordSizeFromSlice(slice);
      if size.None? then Err(InvalidHeader)
      else
        var headerType :-
          if legacy then OrInvalid(Type0LegacyServerFromSlice(slice))
          else HeaderTypeFromSlice(version.value.headerType, slice);
        Ok(Some(Header(version.value, size.value, headerType)))
  }

  predicate Parses(slice: seq<byte>) {
    HeaderFromSlice(slice).Ok? && HeaderFromSlice(slice).value.Some?
  }

  function Parsed(slice: seq<byte>): Header
    requires Parses(slice)
  {
    HeaderFromSlice(slice).value.value
  }

  predicate AgreeUpTo(s: seq<byte>, t: seq<byte>, n: nat) {
    n <= |s| && n <= |t| && s[..n] == t[..n]
  }

  lemma AgreeOnRanges(s: seq<byte>, t: seq<byte>, n: nat)
    requires AgreeUpTo(s, t, n)
    ensures forall from: nat, to: nat | from <= to <= n :: Get(s, from, to) == Get(t, from, to)
  {
    forall from: nat, to: nat | from <= to <= n ensures Get(s, from, to) == Get(t, from, to) {
      assert s[from..to] == s[..n][from..to];
      assert t[from..to] == t[..n][from..to];
    }
  }

  lemma AgreeOnBytes(s: seq<byte>, t: seq<byte>, n: nat)
    requires AgreeUpTo(s, t, n)
    ensures forall at: nat | at < n :: ByteAt(s, at) == ByteAt(t, at)
  {
    forall at: nat | at < n ensures ByteAt(s, at) == ByteAt(t, at) {
      assert s[at] == s[..n][at];
      assert t[at] == t[..n][at];
    }
  }

  lemma HeaderTypeIsLocal(headerType: u16, s: seq<byte>, t: seq<byte>, n: nat)
    requires HeaderTypeFromSlice(headerType, s).Ok?
    requires n == SizeOfType(HeaderTypeFromSlice(headerType, s).value)
    requires AgreeUpTo(s, t, n)
    ensures HeaderTypeFromSlice(headerType, t) == HeaderTypeFromSlice(headerType, s)
  {
    AgreeOnRanges(s, t, n);
    if headerType == 6 {
      StatusWordsAgree(s, t, n, Type6FromSlice(s).value.completionStatusSize);
    }
  }

  lemma {:induction false} StatusWordsAgree(s: seq<byte>, t: seq<byte>, n: nat, count: nat)
    requires AgreeUpTo(s, t, n)
    requires 28 + 4 * count <= n
    ensures StatusWords(s, count) == StatusWords(t, count)
  {
    if count > 0 {
      StatusWordsAgree(s, t, n, count - 1);
      AgreeOnRanges(s, t, n);
    }
  }

  /** A header that parses lies within the slice. */
  lemma HeaderFits(slice: seq<byte>)
    requires Parses(slice)
    ensures 8 <= Parsed(slice).HeaderSize() <= |slice|
  {
  }

  /** Header parsing depends on the first `header_size` bytes only. */
  lemma HeaderIsLocal(s: seq<byte>, t: seq<byte>)
    requires Parses(s)
    requires AgreeUpTo(s, t, Parsed(s).HeaderSize())
    ensures HeaderFromSlice(t) == HeaderFromSlice(s)
  {
    HeaderFits(s);
    AgreeOnRanges(s, t, Parsed(s).HeaderSize());
    AgreeOnBytes(s, t, Parsed(s).HeaderSize());
    assert VersionFromSlice(t) == VersionFromSlice(s);
    if ErrataOf(Parsed(s).version).type0LegacyServer {
      assert Type0LegacyServerFromSlice(t) == Type0LegacyServerFromSlice(s);
    } else {
      assert RecordSizeFromSlice(t) == RecordSizeFromSlice(s);
      HeaderTypeIsLocal(Parsed(s).version.headerType, s, t, Parsed(s).HeaderSize());
    }
  }

  /** The same header parses wherever its bytes are followed by anything else. */
  lemma HeaderWithSuffix(s: seq<byte>, t: seq<byte>)
    requires Parses(s)
    ensures HeaderFromSlice(s + t) == HeaderFromSlice(s)
  {
    HeaderFits(s);
    assert (s + t)[..Parsed(s).HeaderSize()] == s[..Parsed(s).HeaderSize()];
    HeaderIsLocal(s, s + t);
  }

  /** A slice cut inside its header does not parse at all. */
  lemma CutHeaderStops(s: seq<byte>, t: seq<byte>)
    requires Parses(s)
    requires t <= s && |t| < Parsed(s).HeaderSize()
    ensures !Parses(t)
  {
    hide HeaderFromSlice;
    if Parses(t) {
      assert s == t + s[|t|..];
      HeaderWithSuffix(t, s[|t|..]);
      HeaderFits(t);
      assert false;
    }
  }
}
