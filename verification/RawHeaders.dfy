/** Record headers read off the raw bits of the data (lib/src/header.rs, lib/src/errata.rs). */
module RawHeaders {
  import opened Results
  import opened Bytes
  import opened Headers
  import opened Nodes
  import opened HeaderTrees
  import opened HeaderFields
  import Fields

  /** The bits `offset .. offset + size` of the data, zero where it has none. */
  function Raw(data: seq<byte>, offset: nat, size: nat): nat {
    var field := Fields.Field(data, offset, size);
    if field.Some? then field.value else 0
  }

  /** Header type 0 of one of the three server products. */
  predicate IsLegacyData(data: seq<byte>) {
    Raw(data, 8, 4) == 0 && Raw(data, 12, 12) in {0x2f, 0x82, 0x8e}
  }

  /** How many bytes a header takes, by the number of its type. */
  function RawHeaderSize(data: seq<byte>): Option<nat> {
    if IsLegacyData(data) then Some(32)
    else
      match Raw(data, 8, 4)
      case 0 | 1 => Some(8)
      case 2 => Some(24)
      case 3 => Some(28)
      case 4 | 5 => Some(32)
      case 6 => Some(28 + 4 * Raw(data, 208, 7))
      case _ => None
  }

  /** Where a region ends before its bytes do. */
  predicate StartsWithMarker(data: seq<byte>) {
    StartsWith(data, [0, 0, 0, 0]) || StartsWith(data, [0xef, 0xbe, 0xad, 0xde])
  }

  lemma VersionIsRaw(data: seq<byte>)
    ensures VersionFromSlice(data).Some? <==> |data| >= 4 && !StartsWithMarker(data)
    ensures VersionFromSlice(data).Some? ==>
              var v := VersionFromSlice(data).value;
              && v.headerType == Raw(data, 8, 4) && v.productId == Raw(data, 12, 12)
              && v.recordType == Raw(data, 24, 6) && (v.cldic <==> Raw(data, 30, 1) == 1)
              && (v.consumed <==> Raw(data, 31, 1) == 1) && v.revision == Raw(data, 0, 8)
              && (ErrataOf(v).type0LegacyServer <==> IsLegacyData(data))
  {
    hide Fields.Field;
    if |data| >= 4 {
      assert data[0..4] == data[..4];
      MarkerBytes(data[..4]);
    }
    if VersionFromSlice(data).Some? {
      VersionIsBitFields(data);
    }
  }

  lemma MarkerBytes(s: seq<byte>)
    requires |s| == 4
    ensures IsTerminationMarker(Le32(s)) <==> s == [0, 0, 0, 0] || s == [0xef, 0xbe, 0xad, 0xde]
  {
    var zero: seq<byte>, dead: seq<byte> := [0, 0, 0, 0], [0xef, 0xbe, 0xad, 0xde];
    assert Le32(zero) == 0 && Le32(dead) == 0xdead_beef;
    hide Le32;
    if Le32(s) == 0 {
      Le32IsInjective(s, zero);
    }
    if Le32(s) == 0xdead_beef {
      Le32IsInjective(s, dead);
    }
  }

  /** Whether a slice holds a header, and why not, by the number of its type. */
  lemma HeaderByNumber(data: seq<byte>)
    ensures if |data| < 4 || StartsWithMarker(data) then HeaderFromSlice(data) == Ok(None)
            else if |data| < 8 || (IsLegacyData(data) && |data| < 32) then HeaderFromSlice(data) == Err(InvalidHeader)
            else if RawHeaderSize(data).None? then HeaderFromSlice(data) == Err(InvalidHeaderType(Raw(data, 8, 4)))
            else if |data| < RawHeaderSize(data).value then HeaderFromSlice(data) == Err(InvalidHeader)
            else Parses(data) && Parsed(data).HeaderSize() == RawHeaderSize(data).value
  {
    VersionIsRaw(data);
    if VersionFromSlice(data).Some? {
      var v := VersionFromSlice(data).value;
      if IsLegacyData(data) {
        LegacyParses(data);
      } else {
        NumberParses(data, v.headerType);
      }
      hide Fields.Field, HeaderTypeFromSlice, Type0LegacyServerFromSlice, VersionFromSlice, ErrataOf, Le16;
    }
  }

  lemma LegacyParses(data: seq<byte>)
    ensures Type0LegacyServerFromSlice(data).Some? <==> |data| >= 32
    ensures |data| >= 32 ==> SizeOfType(Type0LegacyServerFromSlice(data).value) == 32
    ensures RecordSizeFromSliceType0LegacyServer(data).Some? <==> |data| >= 18
  {
    hide Le16, Le32, Le64;
  }

  lemma NumberParses(data: seq<byte>, t: u16)
    requires t == Raw(data, 8, 4) && !IsLegacyData(data) && |data| >= 4
    ensures RecordSizeFromSlice(data).Some? <==> |data| >= 8
    ensures |data| >= 8 ==>
              if RawHeaderSize(data).None? then HeaderTypeFromSlice(t, data) == Err(InvalidHeaderType(t))
              else if |data| < RawHeaderSize(data).value then HeaderTypeFromSlice(t, data) == Err(InvalidHeader)
              else HeaderTypeFromSlice(t, data).Ok?
                   && SizeOfType(HeaderTypeFromSlice(t, data).value) == RawHeaderSize(data).value
    ensures t > 6 <==> RawHeaderSize(data).None?
  {
    hide Fields.Field, Le16, Le32, Le64, StatusWords;
    if t == 6 {
      Type6Parses(data);
    }
  }

  lemma Type6Parses(data: seq<byte>)
    ensures Type6FromSlice(data).Some? <==> |data| >= 28 && |data| >= 28 + 4 * Raw(data, 208, 7)
    ensures Type6FromSlice(data).Some? ==> SizeOfType(Type6FromSlice(data).value) == 28 + 4 * Raw(data, 208, 7)
  {
    hide Le32, Le64, StatusWords, Fields.Field;
    if |data| >= 28 {
      var dieSktInfo := data[24..28];
      assert dieSktInfo[2..4] == data[26..28];
      SevenBits(data, 26);
      assert Le16(data[26..28]) % 0x80 == data[26] % 0x80;
      StatusWordsFit(data, data[26] % 0x80);
    }
  }

  lemma {:induction false} StatusWordsFit(slice: seq<byte>, count: nat)
    requires |slice| >= 28
    ensures StatusWords(slice, count).Some? <==> 28 + 4 * count <= |slice|
  {
    hide Le32;
    if count > 0 {
      StatusWordsFit(slice, count - 1);
    }
  }

  /** The layout that is read is the one of the number in bits 8 to 11. */
  predicate IsOfNumber(t: HeaderType, data: seq<byte>) {
    if IsLegacyData(data) then t.Type0LegacyServer?
    else
      match Raw(data, 8, 4)
      case 0 => t.Type0?
      case 1 => t.Type1?
      case 2 => t.Type2?
      case 3 => t.Type3?
      case 4 => t.Type4?
      case 5 => t.Type5?
      case 6 => t.Type6? && t.completionStatusSize == Raw(data, 208, 7)
      case _ => false
  }

  lemma TypeByNumber(data: seq<byte>)
    requires Parses(data)
    ensures IsOfNumber(Parsed(data).headerType, data)
  {
    VersionIsRaw(data);
    if Raw(data, 8, 4) == 6 && !IsLegacyData(data) {
      CountIsRaw(data);
    }
    hide Fields.Field, Le16, Le32, Le64, StatusWords;
  }

  lemma CountIsRaw(data: seq<byte>)
    ensures Type6FromSlice(data).Some? ==>
              Type6FromSlice(data).value.completionStatusSize == Raw(data, 208, 7)
  {
    hide Le32, Le64, StatusWords, Fields.Field;
    if Type6FromSlice(data).Some? {
      var dieSktInfo := data[24..28];
      assert dieSktInfo[2..4] == data[26..28];
      SevenBits(data, 26);
    }
  }

  /** The fields that the number of a header type calls for, at their places in the data. */
  predicate NumberIsShown(node: Node, data: seq<byte>) {
    if IsLegacyData(data) then LegacyIsShown(node, data)
    else
      match Raw(data, 8, 4)
      case 3 => CompletionIsShown(node, data)
      case 4 => Shows(node, data, ["whoami"], 192, 32) && Shows(node, data, ["misc"], 224, 32)
      case 5 => CompletionIsShown(node, data) && Shows(node, data, ["error_status"], 224, 32)
      case 6 =>
        && DieIsShown(node, data)
        && forall i: nat | i < Raw(data, 208, 7) :: Shows(node, data, [StatusName(i)], 224 + 32 * i, 32)
      case _ => true
  }

  /** The header node of parsed data shows, by the number of its type, the bits of that data. */
  lemma HeaderNodeByNumber(data: seq<byte>)
    requires Parses(data)
    ensures NumberIsShown(HeaderNode(Parsed(data)), data)
    ensures 2 <= Raw(data, 8, 4) <= 6 ==>
              var node := HeaderNode(Parsed(data));
              && Shows(node, data, ["timestamp"], 64, 64) && Shows(node, data, ["agent_version"], 128, 32)
              && Shows(node, data, ["reason"], 160, 32)
  {
    hide Fields.Field, HeaderNode, HeaderFromSlice, Shows, LegacyIsShown, CompletionIsShown, DieIsShown, StatusName;
    TypeByNumber(data);
    HeaderTypeIsBitFields(data);
    HeaderNodeIsBitFields(data);
    LegacyIsRaw(data);
  }

  /** All of it at once: what the header node of parsed data shows of that data. */
  predicate ShowsHeader(node: Node, data: seq<byte>)
    requires Parses(data)
  {
    HeaderIsShown(node, Parsed(data), data) && NumberIsShown(node, data)
  }

  lemma LegacyIsRaw(data: seq<byte>)
    requires Parses(data)
    ensures IsLegacy(Parsed(data)) <==> IsLegacyData(data)
  {
    hide Fields.Field;
    VersionIsRaw(data);
  }

  // Boxes and sizes

  /** A Box record, or a core record of a legacy server. */
  predicate IsBoxData(data: seq<byte>) {
    Raw(data, 24, 6) == 0x3D || (IsLegacyData(data) && Raw(data, 24, 6) == 4)
  }

  lemma BoxByBits(data: seq<byte>)
    requires Parses(data)
    ensures Parsed(data).IsBox() <==> IsBoxData(data)
  {
    hide Fields.Field;
    VersionIsRaw(data);
  }

  /** Core records of some products announce their size in bytes and not in dwords. */
  predicate CountsBytes(data: seq<byte>) {
    && !IsLegacyData(data)
    && (|| (Raw(data, 24, 6) == 6 && Raw(data, 12, 12) < 0x96)
        || (Raw(data, 24, 6) == 4 && (Raw(data, 12, 12) < 0x71 || Raw(data, 12, 12) == 0x85)))
  }

  lemma SizeByBits(data: seq<byte>)
    requires Parses(data)
    ensures Parsed(data).TotalSize()
         == (if IsLegacyData(data) then Raw(data, 128, 16) else Raw(data, 32, 16) + Raw(data, 48, 16))
            * if CountsBytes(data) then 1 else 4
  {
    LegacyIsRaw(data);
    VersionIsRaw(data);
    if IsLegacyData(data) {
      LegacySizeIsBitField(data);
    } else {
      SizesAreBitFields(data);
    }
    hide Fields.Field, HeaderFromSlice, VersionFromSlice;
    GranularityIsRaw(data);
  }

  lemma GranularityIsRaw(data: seq<byte>)
    requires Parses(data)
    ensures Parsed(data).Granularity() == if CountsBytes(data) then 1 else 4
  {
    hide Fields.Field;
    VersionIsRaw(data);
  }
}
