/** Header trees against the bit fields of the raw record (lib/src/header.rs). */
module HeaderFields {
  import opened Results
  import opened Bytes
  import opened Bits
  import opened Headers
  import opened Names
  import opened Nodes
  import opened HeaderTrees
  import Fields

  // The header node shows the fields of the raw record

  /** The node at the path holds the bit field a layout would read. */
  predicate Shows(node: Node, data: seq<byte>, path: seq<string>, offset: nat, size: nat) {
    && At(node, path).Some?
    && Fields.Field(data, offset, size).Some?
    && At(node, path).value.kind == Field(Fields.Field(data, offset, size).value)
  }

  lemma AddKeeps(node: Node, child: Node, name: string)
    requires name in node.children && child.name != name
    ensures name in Add(node, child).children && Add(node, child).children[name] == node.children[name]
  {
  }

  lemma CommonKeeps(node: Node, timestamp: u64, agentVersion: u32, reason: u32, name: string)
    requires name in node.children && |name| in {7, 11}
    ensures name in WithCommon(node, timestamp, agentVersion, reason).children
    ensures WithCommon(node, timestamp, agentVersion, reason).children[name] == node.children[name]
  {
    hide Lower;
  }

  lemma {:induction false} StatusWordsKeep(node: Node, words: seq<u32>, name: string)
    requires name in node.children && |name| <= 17
    ensures name in WithStatusWords(node, words).children
    ensures WithStatusWords(node, words).children[name] == node.children[name]
    decreases |words|
  {
    hide Lower, Decimal;
    if words != [] {
      StatusWordsKeep(node, words[..|words| - 1], name);
    }
  }

  /** Nothing added after them overwrites the version and the size. */
  lemma TypeKeeps(node: Node, headerType: HeaderType, name: string)
    requires name in node.children && |name| in {7, 11}
    ensures name in WithType(node, headerType).children
    ensures WithType(node, headerType).children[name] == node.children[name]
  {
    hide Lower, WithCommon, WithStatusWords, Decimal;
    if !headerType.Type0? && !headerType.Type1? {
      CommonKeeps(node, headerType.timestamp, headerType.agentVersion, headerType.reason, name);
      if headerType.Type6? {
        var common := WithCommon(node, headerType.timestamp, headerType.agentVersion, headerType.reason);
        var die := DieNode(headerType.dieId, headerType.socketId, headerType.completionStatusSize,
                           headerType.collectionComplete);
        AddKeeps(common, die, name);
        StatusWordsKeep(Add(common, die), headerType.completionStatusWords, name);
      }
    }
  }

  predicate HasField(node: Node, name: string, value: u64) {
    name in node.children && node.children[name].kind == Field(value)
  }

  lemma CommonIsShown(node: Node, timestamp: u64, agentVersion: u32, reason: u32)
    ensures var after := WithCommon(node, timestamp, agentVersion, reason);
            HasField(after, "timestamp", timestamp) && HasField(after, "agent_version", agentVersion)
            && HasField(after, "reason", reason)
  {
    hide Lower;
    UnchangedIsLower("timestamp");
    UnchangedIsLower("agent_version");
    UnchangedIsLower("reason");
  }

  predicate HasCommon(t: HeaderType) {
    !t.Type0? && !t.Type1? && !t.Type0LegacyServer?
  }

  predicate CommonIsHeld(node: Node, t: HeaderType)
    requires HasCommon(t)
  {
    && HasField(node, "timestamp", t.timestamp)
    && HasField(node, "agent_version", t.agentVersion)
    && HasField(node, "reason", t.reason)
  }

  /** Nothing added after them overwrites the timestamp, the agent version and the reason. */
  lemma TypeShowsCommon(node: Node, headerType: HeaderType)
    requires HasCommon(headerType)
    ensures CommonIsHeld(WithType(node, headerType), headerType)
  {
    hide Lower, WithCommon, WithStatusWords, Decimal;
    var common := WithCommon(node, headerType.timestamp, headerType.agentVersion, headerType.reason);
    CommonIsShown(node, headerType.timestamp, headerType.agentVersion, headerType.reason);
    UnchangedIsLower("whoami");
    assert "reason"[0] != "whoami"[0];
    if headerType.Type6? {
      var die := DieNode(headerType.dieId, headerType.socketId, headerType.completionStatusSize,
                         headerType.collectionComplete);
      var words := headerType.completionStatusWords;
      StatusWordsKeep(Add(common, die), words, "timestamp");
      StatusWordsKeep(Add(common, die), words, "agent_version");
      StatusWordsKeep(Add(common, die), words, "reason");
    }
  }

  lemma VersionIsShown(v: Version)
    ensures var node := VersionNode(v);
            && node.name == "version" && node.kind == Field(VersionAsU32(v))
            && HasField(node, "revision", v.revision) && HasField(node, "header_type", v.headerType)
            && HasField(node, "product_id", v.productId) && HasField(node, "record_type", v.recordType)
  {
    hide Lower, VersionAsU32;
    UnchangedIsLower("version");
    UnchangedIsLower("revision");
    UnchangedIsLower("header_type");
    UnchangedIsLower("product_id");
    UnchangedIsLower("record_type");
    assert "header_type"[0] != "record_type"[0];
  }

  lemma SizeIsShown(size: RecordSize)
    ensures var node := SizeNode(size);
            && node.name == "record_size" && node.kind == Section
            && HasField(node, "record_size", size.recordSize)
            && HasField(node, "extended_record_size", size.extendedRecordSize)
  {
    hide Lower;
    UnchangedIsLower("record_size");
    UnchangedIsLower("extended_record_size");
  }

  /** The version and the size are where the header node says. */
  lemma HeaderShowsParts(header: Header)
    ensures var node := HeaderNode(header);
            && "version" in node.children && node.children["version"] == VersionNode(header.version)
            && "record_size" in node.children && node.children["record_size"] == SizeNode(header.size)
  {
    hide Lower, VersionNode, SizeNode, WithType;
    VersionIsShown(header.version);
    SizeIsShown(header.size);
    var parts := Add(Add(SectionNode("hdr"), VersionNode(header.version)), SizeNode(header.size));
    TypeKeeps(parts, header.headerType, "version");
    TypeKeeps(parts, header.headerType, "record_size");
  }

  lemma FieldOfBytes(data: seq<byte>, from: nat, to: nat)
    requires from <= to <= |data| && to - from <= 8
    ensures Fields.Field(data, 8 * from, 8 * (to - from)) == Some(LeValue(data[from..to]))
  {
    hide LeValue, Low, ShiftRight, ShiftLeft;
    var field, rest := data[from..to], data[to..];
    assert data == data[..from] + data[from..] && data[from..] == field + rest;
    LeValueConcat(data[..from], data[from..]);
    LeValueBound(data[..from]);
    ShiftBack(LeValue(data[..from]), LeValue(data[from..]), 8 * from);
    LeValueConcat(field, rest);
    LeValueBound(field);
    FieldBelow(LeValue(field), LeValue(rest), 8 * |field|, 0, 8 * |field|);
    NoShift(LeValue(field));
    NoShift(LeValue(data[from..]));
    LowOfSmall(LeValue(field), 8 * |field|);
  }

  lemma LeValue16(s: seq<byte>)
    requires |s| == 2
    ensures LeValue(s) == Le16(s)
  {
    assert LeValue(s[1..]) == s[1] as int;
  }

  lemma LeValue64(s: seq<byte>)
    requires |s| == 8
    ensures LeValue(s) == Le64(s)
  {
    hide LeValue, ShiftLeft;
    assert s == s[..4] + s[4..];
    LeValueConcat(s[..4], s[4..]);
    LeValue32(s[..4]);
    LeValue32(s[4..]);
    ShiftLeftConstants(LeValue(s[4..]));
    ShiftLeftTwice(LeValue(s[4..]), 24, 8);
    ShiftLeftConstants(ShiftLeft(LeValue(s[4..]), 24));
  }

  lemma ShowsChild(node: Node, data: seq<byte>, name: string, offset: nat, size: nat, value: u64)
    requires HasField(node, name, value) && Fields.Field(data, offset, size) == Some(value)
    ensures Shows(node, data, [name], offset, size)
  {
    assert [name][1..] == [];
    assert At(node, [name]) == At(node.children[name], []);
    hide Fields.Field;
  }

  lemma ShowsGrandchild(node: Node, data: seq<byte>, parent: string, name: string, offset: nat, size: nat)
    requires parent in node.children && Shows(node.children[parent], data, [name], offset, size)
    ensures Shows(node, data, [parent, name], offset, size)
  {
    hide Fields.Field;
    assert [parent, name][1..] == [name];
  }

  lemma GrandchildIsAt(node: Node, parent: string, name: string, value: u64)
    requires parent in node.children && HasField(node.children[parent], name, value)
    ensures At(node, [parent, name]).Some? && At(node, [parent, name]).value.kind == Field(value)
  {
    FieldIsAt(node.children[parent], name, value);
    assert [parent, name][1..] == [name];
  }

  /** Each field of the version node is the bit field of the version word. */
  lemma VersionNodeIsBitFields(data: seq<byte>, v: Version)
    requires VersionFromSlice(data) == Some(v)
    ensures Fields.Field(data, 0, 32) == Some(VersionAsU32(v))
    ensures Shows(VersionNode(v), data, ["revision"], 0, 8) && Shows(VersionNode(v), data, ["header_type"], 8, 4)
    ensures Shows(VersionNode(v), data, ["product_id"], 12, 12) && Shows(VersionNode(v), data, ["record_type"], 24, 6)
  {
    hide *;
    WordIsThere(data);
    VersionIsShown(v);
    VersionIsBitFields(data);
    VersionWordRoundTrip(data);
    WordField(data, 0);
    ShowsChild(VersionNode(v), data, "revision", 0, 8, v.revision);
    ShowsChild(VersionNode(v), data, "header_type", 8, 4, v.headerType);
    ShowsChild(VersionNode(v), data, "product_id", 12, 12, v.productId);
    ShowsChild(VersionNode(v), data, "record_type", 24, 6, v.recordType);
  }

  lemma WordIsThere(data: seq<byte>)
    requires VersionFromSlice(data).Some?
    ensures |data| >= 4
  {
  }

  lemma VersionPrefix(data: seq<byte>)
    requires Parses(data)
    ensures |data| >= 4 && VersionFromSlice(data) == Some(Parsed(data).version)
  {
  }

  predicate IsLegacy(header: Header) {
    ErrataOf(header.version).type0LegacyServer
  }

  lemma SizesAreBitFields(data: seq<byte>)
    requires Parses(data) && !IsLegacy(Parsed(data))
    ensures |data| >= 8
    ensures Fields.Field(data, 32, 16) == Some(Parsed(data).size.recordSize)
    ensures Fields.Field(data, 48, 16) == Some(Parsed(data).size.extendedRecordSize)
  {
    HeaderFits(data);
    var size := Parsed(data).size;
    assert RecordSizeFromSlice(data) == Some(size);
    hide Fields.Field, HeaderFromSlice, LeValue;
    FieldOfBytes(data, 4, 6);
    LeValue16(data[4..6]);
    FieldOfBytes(data, 6, 8);
    LeValue16(data[6..8]);
  }

  /** A legacy server header has its size elsewhere, and no extended section. */
  lemma LegacySizeIsBitField(data: seq<byte>)
    requires Parses(data) && IsLegacy(Parsed(data))
    ensures |data| >= 32
    ensures Fields.Field(data, 128, 16) == Some(Parsed(data).size.recordSize)
    ensures Parsed(data).size.extendedRecordSize == 0
  {
    HeaderFits(data);
    assert RecordSizeFromSliceType0LegacyServer(data) == Some(Parsed(data).size);
    hide Fields.Field, HeaderFromSlice, LeValue;
    FieldOfBytes(data, 16, 18);
    LeValue16(data[16..18]);
  }

  lemma CommonIsBitFields(data: seq<byte>)
    requires Parses(data) && !IsLegacy(Parsed(data))
    requires !Parsed(data).headerType.Type0? && !Parsed(data).headerType.Type1?
    ensures |data| >= 24 && !Parsed(data).headerType.Type0LegacyServer?
    ensures Fields.Field(data, 64, 64) == Some(Parsed(data).headerType.timestamp)
    ensures Fields.Field(data, 128, 32) == Some(Parsed(data).headerType.agentVersion)
    ensures Fields.Field(data, 160, 32) == Some(Parsed(data).headerType.reason)
  {
    var t := Parsed(data).headerType;
    CommonPrefix(data);
    hide Fields.Field, HeaderFromSlice, LeValue, Le32, Le64;
    FieldOfBytes(data, 8, 16);
    LeValue64(data[8..16]);
    FieldOfBytes(data, 16, 20);
    LeValue32(data[16..20]);
    FieldOfBytes(data, 20, 24);
    LeValue32(data[20..24]);
  }

  lemma CommonPrefix(data: seq<byte>)
    requires Parses(data) && !IsLegacy(Parsed(data))
    requires !Parsed(data).headerType.Type0? && !Parsed(data).headerType.Type1?
    ensures |data| >= 24 && !Parsed(data).headerType.Type0LegacyServer?
    ensures Parsed(data).headerType.timestamp == Le64(data[8..16])
    ensures Parsed(data).headerType.agentVersion == Le32(data[16..20])
    ensures Parsed(data).headerType.reason == Le32(data[20..24])
  {
    hide Le64, Le32, StatusWords;
  }

  /** What the header node has in common with the raw data. */
  predicate HeaderIsShown(node: Node, header: Header, data: seq<byte>) {
    && node.name == "hdr" && node.kind == Section && IsSection(node, "record_size")
    && Shows(node, data, ["version"], 0, 32)
    && Shows(node, data, ["version", "revision"], 0, 8)
    && Shows(node, data, ["version", "header_type"], 8, 4)
    && Shows(node, data, ["version", "product_id"], 12, 12)
    && Shows(node, data, ["version", "record_type"], 24, 6)
    && (IsLegacy(header) ==>
          && Shows(node, data, ["record_size", "record_size"], 128, 16)
          && At(node, ["record_size", "extended_record_size"]).Some?
          && At(node, ["record_size", "extended_record_size"]).value.kind == Field(0))
    && (!IsLegacy(header) ==>
          && Shows(node, data, ["record_size", "record_size"], 32, 16)
          && Shows(node, data, ["record_size", "extended_record_size"], 48, 16)
          && (!header.headerType.Type0? && !header.headerType.Type1? ==>
                && Shows(node, data, ["timestamp"], 64, 64)
                && Shows(node, data, ["agent_version"], 128, 32)
                && Shows(node, data, ["reason"], 160, 32)))
  }

  /** The header tree of parsed data shows the very bit fields a layout reads at those places. */
  lemma HeaderNodeIsBitFields(data: seq<byte>)
    requires Parses(data)
    ensures HeaderIsShown(HeaderNode(Parsed(data)), Parsed(data), data)
  {
    hide Fields.Field, VersionNode, SizeNode, WithType, HeaderNode, HeaderFromSlice, Shows, VersionAsU32;
    var header := Parsed(data);
    var node := HeaderNode(header);
    VersionPrefix(data);
    VersionNodeIsBitFields(data, header.version);
    VersionIsShown(header.version);
    HeaderShowsParts(header);
    ShowsChild(node, data, "version", 0, 32, VersionValue(header.version));
    ShowsGrandchild(node, data, "version", "revision", 0, 8);
    ShowsGrandchild(node, data, "version", "header_type", 8, 4);
    ShowsGrandchild(node, data, "version", "product_id", 12, 12);
    ShowsGrandchild(node, data, "version", "record_type", 24, 6);
    HeaderNodeIsSection(header);
    SizeIsShown(header.size);
    var size := SizeNode(header.size);
    if IsLegacy(header) {
      LegacySizeIsBitField(data);
      ShowsChild(size, data, "record_size", 128, 16, header.size.recordSize);
      ShowsGrandchild(node, data, "record_size", "record_size", 128, 16);
      GrandchildIsAt(node, "record_size", "extended_record_size", 0);
    } else {
      SizesAreBitFields(data);
      ShowsChild(size, data, "record_size", 32, 16, header.size.recordSize);
      ShowsChild(size, data, "extended_record_size", 48, 16, header.size.extendedRecordSize);
      ShowsGrandchild(node, data, "record_size", "record_size", 32, 16);
      ShowsGrandchild(node, data, "record_size", "extended_record_size", 48, 16);
      if !header.headerType.Type0? && !header.headerType.Type1? {
        CommonIsBitFields(data);
        HeaderShowsCommon(header);
        ShowsChild(node, data, "timestamp", 64, 64, header.headerType.timestamp);
        ShowsChild(node, data, "agent_version", 128, 32, header.headerType.agentVersion);
        ShowsChild(node, data, "reason", 160, 32, header.headerType.reason);
      }
    }
  }

  lemma HeaderNodeIsSection(header: Header)
    ensures HeaderNode(header).name == "hdr" && HeaderNode(header).kind == Section
  {
    hide Lower, VersionNode, SizeNode, WithCommon, CompletionNode, DieNode;
    UnchangedIsLower("hdr");
    var base := Add(Add(SectionNode("hdr"), VersionNode(header.version)), SizeNode(header.size));
    TypeKeepsLabels(base, header.headerType);
  }

  lemma {:induction false} StatusWordsKeepLabels(node: Node, words: seq<u32>)
    ensures Same(WithStatusWords(node, words), node)
    decreases |words|
  {
    hide Lower, Decimal;
    if words != [] {
      StatusWordsKeepLabels(node, words[..|words| - 1]);
    }
  }

  lemma TypeKeepsLabels(node: Node, t: HeaderType)
    ensures Same(WithType(node, t), node)
  {
    hide Lower, CompletionNode, DieNode, FieldNode, WithStatusWords;
    if t.Type6? {
      StatusWordsKeepLabels(Add(WithCommon(node, t.timestamp, t.agentVersion, t.reason),
                                DieNode(t.dieId, t.socketId, t.completionStatusSize, t.collectionComplete)),
                            t.completionStatusWords);
    }
  }

  function VersionValue(v: Version): u64 {
    VersionFitsU32(v);
    VersionAsU32(v)
  }

  lemma HeaderShowsCommon(header: Header)
    requires HasCommon(header.headerType)
    ensures CommonIsHeld(HeaderNode(header), header.headerType)
  {
    hide WithType, VersionNode, SizeNode;
    TypeShowsCommon(Add(Add(SectionNode("hdr"), VersionNode(header.version)), SizeNode(header.size)),
                    header.headerType);
  }

  // The fields of each header type

  predicate CompletionIsShown(node: Node, data: seq<byte>) {
    && Shows(node, data, ["completion_status", "completion_status"], 192, 31)
    && Shows(node, data, ["completion_status", "record_collection_completed"], 223, 1)
    && IsSection(node, "completion_status")
  }

  predicate IsSection(node: Node, name: string) {
    name in node.children && node.children[name].kind == Section
  }

  predicate DieIsShown(node: Node, data: seq<byte>) {
    && Shows(node, data, ["die_skt_info", "die_id"], 192, 8)
    && Shows(node, data, ["die_skt_info", "socket_id"], 200, 8)
    && Shows(node, data, ["die_skt_info", "completion_status_size"], 208, 7)
    && Shows(node, data, ["die_skt_info", "record_collection_completed"], 223, 1)
    && IsSection(node, "die_skt_info")
  }

  predicate LegacyIsShown(node: Node, data: seq<byte>) {
    && Shows(node, data, ["reason"], 32, 32)
    && Shows(node, data, ["timestamp"], 64, 64)
    && Shows(node, data, ["agent_version"], 160, 32)
    && Shows(node, data, ["socket_id"], 192, 8)
    && Shows(node, data, ["completion_status"], 224, 31)
    && Shows(node, data, ["record_collection_completed"], 255, 1)
    && DieNumberIsShown(node, data)
  }

  /** The die is numbered by bits of the revision: from 9 up for I/O dies, in steps of 4 for the others. */
  predicate DieNumberIsShown(node: Node, data: seq<byte>) {
    var index, isIo := Fields.Field(data, 0, 2), Fields.Field(data, 7, 1);
    && index.Some? && isIo.Some? && At(node, ["die_id"]).Some?
    && At(node, ["die_id"]).value.kind.Field?
    && At(node, ["die_id"]).value.kind.value as int
       == if isIo.value == 1 then index.value as int + 9 else 4 * index.value as int
  }

  function StatusName(i: nat): string {
    "completion_status" + Decimal(i)
  }

  /** Where each header type keeps the fields that it does not share with the others. */
  predicate TypeIsShown(node: Node, headerType: HeaderType, data: seq<byte>) {
    match headerType
    case Type0 | Type1 => true
    case Type2(_, _, _) => true
    case Type3(_, _, _, _, _) => CompletionIsShown(node, data)
    case Type4(_, _, _, _, _) => Shows(node, data, ["whoami"], 192, 32) && Shows(node, data, ["misc"], 224, 32)
    case Type5(_, _, _, _, _, _) => CompletionIsShown(node, data) && Shows(node, data, ["error_status"], 224, 32)
    case Type6(_, _, _, _, _, count, words, _) =>
      DieIsShown(node, data) && |words| == count as int
      && forall i: nat | i < |words| :: Shows(node, data, [StatusName(i)], 224 + 32 * i, 32)
    case Type0LegacyServer(_, _, _, _, _, _, _) => LegacyIsShown(node, data)
  }

  // Bit fields inside a word

  lemma FieldInWord(data: seq<byte>, from: nat, o: nat, n: nat)
    requires from + 4 <= |data| && o + n <= 32
    ensures Fields.Field(data, 8 * from + o, n) == Some(Low(ShiftRight(Le32(data[from..from + 4]), o), n))
  {
    hide LeValue, Low, ShiftRight, ShiftLeft, Le32;
    FieldOfBytes(data, from, from + 4);
    LeValue32(data[from..from + 4]);
    ShiftRightTwice(LeValue(data), 8 * from, o);
    FieldInField(ShiftRight(LeValue(data), 8 * from), 32, o, n);
  }

  lemma TopBit(word: u32)
    ensures Low(ShiftRight(word, 0), 31) == word % 0x8000_0000
    ensures Low(ShiftRight(word, 31), 1) == word / 0x8000_0000
  {
    hide Low, ShiftRight, ShiftLeft;
    NoShift(word);
    FieldsOfWord(word);
    SplitLow(word, 31, 1);
    Pow2Is32();
    LowOfSmall(word, 32);
    TopShift(word / 0x8000_0000);
  }

  lemma TopShift(b: nat)
    ensures ShiftLeft(b, 31) == 0x8000_0000 * b
  {
    hide ShiftLeft;
    ShiftLeftConstants(b);
    ShiftLeftTwice(b, 24, 6);
    ShiftLeftConstants(ShiftLeft(b, 24));
    ShiftLeftTwice(b, 30, 1);
    ShiftLeftConstants(ShiftLeft(b, 30));
  }

  lemma FlagFields(data: seq<byte>, from: nat, flagged: nat)
    requires from + 4 <= |data| && flagged == Le32(data[from..from + 4])
    ensures Fields.Field(data, 8 * from, 31) == Some(flagged % 0x8000_0000)
    ensures Fields.Field(data, 8 * from + 31, 1) == Some(Flag(flagged / 0x8000_0000 != 0))
  {
    hide Low, ShiftRight, Le32;
    FieldInWord(data, from, 0, 31);
    FieldInWord(data, from, 31, 1);
    TopBit(flagged);
  }

  lemma WordField(data: seq<byte>, from: nat)
    requires from + 4 <= |data|
    ensures Fields.Field(data, 8 * from, 32) == Some(Le32(data[from..from + 4]))
  {
    hide Le32;
    FieldOfBytes(data, from, from + 4);
    LeValue32(data[from..from + 4]);
  }

  lemma ByteField(data: seq<byte>, from: nat)
    requires from < |data|
    ensures Fields.Field(data, 8 * from, 8) == Some(data[from])
  {
    FieldOfBytes(data, from, from + 1);
    assert data[from..from + 1] == [data[from]];
    assert LeValue([data[from]][1..]) == 0;
  }

  lemma SevenBits(data: seq<byte>, from: nat)
    requires from < |data|
    ensures Fields.Field(data, 8 * from, 7) == Some(data[from] % 0x80)
    ensures Fields.Field(data, 8 * from + 7, 1) == Some(data[from] / 0x80)
  {
    hide Low, ShiftRight, ShiftLeft, LeValue;
    ByteField(data, from);
    Fields.AdjacentFields(data, 8 * from, 7, 1);
    LowBound(ShiftRight(LeValue(data), 8 * from), 7);
    LowBound(ShiftRight(LeValue(data), 8 * from + 7), 1);
    ShiftLeftConstants(1);
    ShiftLeftTwice(1, 6, 1);
    ShiftLeftConstants(ShiftLeft(1, 6));
    var top := Fields.Field(data, 8 * from + 7, 1).value;
    ShiftLeftConstants(top);
    ShiftLeftTwice(top, 6, 1);
    ShiftLeftConstants(ShiftLeft(top, 6));
  }

  // Header types

  lemma CompletionNodeIsShown(node: Node, data: seq<byte>, status: u32, complete: bool, word: u32)
    requires |data| >= 28 && word == Le32(data[24..28])
    requires status == word % 0x8000_0000 && complete == (word / 0x8000_0000 != 0)
    requires "completion_status" in node.children
    requires node.children["completion_status"] == CompletionNode(status, complete)
    ensures CompletionIsShown(node, data)
  {
    hide Fields.Field, Le32, CompletionNode, Shows;
    FlagFields(data, 24, word);
    CompletionNodeHas(status, complete);
    var child := CompletionNode(status, complete);
    ShowsChild(child, data, "completion_status", 192, 31, status);
    ShowsChild(child, data, "record_collection_completed", 223, 1, Flag(complete));
    ShowsGrandchild(node, data, "completion_status", "completion_status", 192, 31);
    ShowsGrandchild(node, data, "completion_status", "record_collection_completed", 223, 1);
  }

  lemma CompletionNodeHas(status: u32, complete: bool)
    ensures var node := CompletionNode(status, complete);
            && node.name == "completion_status" && node.kind == Section
            && HasField(node, "completion_status", status)
            && HasField(node, "record_collection_completed", Flag(complete))
  {
    hide Lower;
    UnchangedIsLower("completion_status");
    UnchangedIsLower("record_collection_completed");
  }

  lemma DieNodeHas(dieId: byte, socketId: byte, count: u16, complete: bool)
    ensures var node := DieNode(dieId, socketId, count, complete);
            && node.name == "die_skt_info" && node.kind == Section
            && HasField(node, "die_id", dieId) && HasField(node, "socket_id", socketId)
            && HasField(node, "completion_status_size", count)
            && HasField(node, "record_collection_completed", Flag(complete))
  {
    hide Lower, FieldNode;
    DieNamesAreLower();
    FieldNodeHas("die_id", dieId);
    FieldNodeHas("socket_id", socketId);
    FieldNodeHas("completion_status_size", count);
    FieldNodeHas("record_collection_completed", Flag(complete));
  }

  lemma DieNamesAreLower()
    ensures IsLower("die_skt_info") && IsLower("die_id") && IsLower("socket_id")
    ensures IsLower("completion_status_size") && IsLower("record_collection_completed")
  {
    hide Lower;
    UnchangedIsLower("die_skt_info");
    UnchangedIsLower("die_id");
    UnchangedIsLower("socket_id");
    UnchangedIsLower("completion_status_size");
    UnchangedIsLower("record_collection_completed");
  }

  lemma FieldNodeHas(name: string, value: u64)
    requires IsLower(name)
    ensures FieldNode(name, value).name == name && FieldNode(name, value).kind == Field(value)
  {
  }

  /** The last dword of a Type 6 header, byte by byte. */
  lemma DieNodeIsShown(node: Node, data: seq<byte>, count: u16)
    requires |data| >= 28 && count == Le16(data[26..28]) % 0x80
    requires HasChild(node, "die_skt_info", DieNode(data[24], data[25], count, data[27] >= 0x80))
    ensures DieIsShown(node, data)
  {
    hide Fields.Field, DieNode, Shows;
    var child := DieNode(data[24], data[25], count, data[27] >= 0x80);
    DieNodeHas(data[24], data[25], count, data[27] >= 0x80);
    ByteField(data, 24);
    ByteField(data, 25);
    SevenBits(data, 26);
    SevenBits(data, 27);
    ShowsChild(child, data, "die_id", 192, 8, data[24]);
    ShowsChild(child, data, "socket_id", 200, 8, data[25]);
    ShowsChild(child, data, "completion_status_size", 208, 7, count);
    ShowsChild(child, data, "record_collection_completed", 223, 1, Flag(data[27] >= 0x80));
    ShowsGrandchild(node, data, "die_skt_info", "die_id", 192, 8);
    ShowsGrandchild(node, data, "die_skt_info", "socket_id", 200, 8);
    ShowsGrandchild(node, data, "die_skt_info", "completion_status_size", 208, 7);
    ShowsGrandchild(node, data, "die_skt_info", "record_collection_completed", 223, 1);
  }

  lemma {:induction false} StatusWordsHave(node: Node, words: seq<u32>, i: nat)
    requires i < |words|
    ensures HasField(WithStatusWords(node, words), StatusName(i), words[i])
    decreases |words|
  {
    hide Lower, Decimal;
    var last := |words| - 1;
    StatusNameIsLower(last);
    if i < last {
      StatusWordsHave(node, words[..last], i);
      if StatusName(i) == StatusName(last) {
        InstanceIsInjective("completion_status", i, last);
      }
    }
  }

  lemma StatusNameIsLower(i: nat)
    ensures IsLower(StatusName(i))
  {
    hide Decimal, Lower;
    DecimalReadsBack(i);
    UnchangedIsLower(StatusName(i));
  }

  lemma {:induction false} StatusWordAt(data: seq<byte>, count: nat, i: nat)
    requires i < count && StatusWords(data, count).Some?
    ensures 32 + 4 * i <= |data|
    ensures StatusWords(data, count).value[i] == Le32(data[28 + 4 * i..32 + 4 * i])
    decreases count
  {
    hide Le32;
    if i < count - 1 {
      StatusWordAt(data, count - 1, i);
    }
  }

  lemma StatusWordsAreShown(base: Node, data: seq<byte>, words: seq<u32>)
    requires StatusWords(data, |words|) == Some(words)
    ensures forall i: nat | i < |words| ::
              Shows(WithStatusWords(base, words), data, [StatusName(i)], 224 + 32 * i, 32)
  {
    hide Fields.Field, Le32, Shows, StatusWords, WithStatusWords, StatusName;
    var node := WithStatusWords(base, words);
    forall i: nat | i < |words| ensures Shows(node, data, [StatusName(i)], 224 + 32 * i, 32) {
      StatusWordAt(data, |words|, i);
      WordField(data, 28 + 4 * i);
      assert 8 * (28 + 4 * i) == 224 + 32 * i;
      StatusWordsHave(base, words, i);
      ShowsChild(node, data, StatusName(i), 224 + 32 * i, 32, words[i]);
    }
  }

  lemma LastAdded(node: Node, child: Node)
    ensures child.name in Add(node, child).children && Add(node, child).children[child.name] == child
  {
  }

  /** The completion status is the last thing a Type 3 or Type 5 header adds. */
  lemma CompletionAdded(base: Node, t: HeaderType)
    requires t.Type3? || t.Type5?
    ensures var node := WithType(base, t);
            && "completion_status" in node.children
            && node.children["completion_status"] == CompletionNode(t.completionStatus, t.collectionComplete)
  {
    hide Lower, WithCommon, CompletionNode, FieldNode, WithStatusWords;
    CompletionNodeHas(t.completionStatus, t.collectionComplete);
  }

  lemma Type3IsShown(base: Node, data: seq<byte>)
    requires Type3FromSlice(data).Some?
    ensures CompletionIsShown(WithType(base, Type3FromSlice(data).value), data)
  {
    hide *;
    Type3Words(data);
    var t := Type3FromSlice(data).value;
    CompletionAdded(base, t);
    CompletionNodeIsShown(WithType(base, t), data, t.completionStatus, t.collectionComplete, Le32(data[24..28]));
  }

  lemma Type3Words(data: seq<byte>)
    requires Type3FromSlice(data).Some?
    ensures |data| >= 28 && Type3FromSlice(data).value.Type3?
    ensures Type3FromSlice(data).value.completionStatus == Le32(data[24..28]) % 0x8000_0000
    ensures Type3FromSlice(data).value.collectionComplete == (Le32(data[24..28]) / 0x8000_0000 != 0)
  {
    hide Le32, Le64;
  }

  lemma Type4IsShown(base: Node, data: seq<byte>)
    requires Type4FromSlice(data).Some?
    ensures Shows(WithType(base, Type4FromSlice(data).value), data, ["whoami"], 192, 32)
    ensures Shows(WithType(base, Type4FromSlice(data).value), data, ["misc"], 224, 32)
  {
    hide *;
    Type4Words(data);
    var t := Type4FromSlice(data).value;
    Type4Added(base, t);
    WordField(data, 24);
    WordField(data, 28);
    ShowsChild(WithType(base, t), data, "whoami", 192, 32, t.whoami);
    ShowsChild(WithType(base, t), data, "misc", 224, 32, t.misc);
  }

  lemma Type4Added(base: Node, t: HeaderType)
    requires t.Type4?
    ensures HasField(WithType(base, t), "whoami", t.whoami) && HasField(WithType(base, t), "misc", t.misc)
  {
    hide Lower, WithCommon, FieldNode, WithStatusWords;
    UnchangedIsLower("whoami");
    UnchangedIsLower("misc");
    FieldNodeHas("whoami", t.whoami);
    FieldNodeHas("misc", t.misc);
  }

  lemma Type4Words(data: seq<byte>)
    requires Type4FromSlice(data).Some?
    ensures |data| >= 32 && Type4FromSlice(data).value.Type4?
    ensures Type4FromSlice(data).value.whoami == Le32(data[24..28])
    ensures Type4FromSlice(data).value.misc == Le32(data[28..32])
  {
    hide Le32, Le64;
  }

  lemma Type5IsShown(base: Node, data: seq<byte>)
    requires Type5FromSlice(data).Some?
    ensures CompletionIsShown(WithType(base, Type5FromSlice(data).value), data)
    ensures Shows(WithType(base, Type5FromSlice(data).value), data, ["error_status"], 224, 32)
  {
    hide *;
    Type5Words(data);
    var t := Type5FromSlice(data).value;
    CompletionAdded(base, t);
    ErrorStatusAdded(base, t);
    WordField(data, 28);
    CompletionNodeIsShown(WithType(base, t), data, t.completionStatus, t.collectionComplete, Le32(data[24..28]));
    ShowsChild(WithType(base, t), data, "error_status", 224, 32, t.errorStatus);
  }

  lemma ErrorStatusAdded(base: Node, t: HeaderType)
    requires t.Type5?
    ensures HasField(WithType(base, t), "error_status", t.errorStatus)
  {
    hide Lower, WithCommon, FieldNode, CompletionNode, WithStatusWords;
    CompletionNodeHas(t.completionStatus, t.collectionComplete);
    UnchangedIsLower("error_status");
    FieldNodeHas("error_status", t.errorStatus);
  }

  lemma Type5Words(data: seq<byte>)
    requires Type5FromSlice(data).Some?
    ensures |data| >= 32 && Type5FromSlice(data).value.Type5?
    ensures Type5FromSlice(data).value.completionStatus == Le32(data[24..28]) % 0x8000_0000
    ensures Type5FromSlice(data).value.collectionComplete == (Le32(data[24..28]) / 0x8000_0000 != 0)
    ensures Type5FromSlice(data).value.errorStatus == Le32(data[28..32])
  {
    hide Le32, Le64;
  }

  /** A Type 6 header up to its die node; the status words come last. */
  function Type6Base(base: Node, t: HeaderType): Node
    requires t.Type6?
  {
    Add(WithCommon(base, t.timestamp, t.agentVersion, t.reason),
        DieNode(t.dieId, t.socketId, t.completionStatusSize, t.collectionComplete))
  }

  predicate HasChild(node: Node, name: string, child: Node) {
    name in node.children && node.children[name] == child
  }

  lemma Type6Ends(base: Node, t: HeaderType)
    requires t.Type6?
    ensures WithType(base, t) == WithStatusWords(Type6Base(base, t), t.completionStatusWords)
  {
    hide Lower, WithCommon, DieNode, Add;
  }

  lemma Type6Added(base: Node, t: HeaderType)
    requires t.Type6?
    ensures HasChild(WithType(base, t), "die_skt_info",
                     DieNode(t.dieId, t.socketId, t.completionStatusSize, t.collectionComplete))
  {
    hide Lower, WithCommon, DieNode, WithStatusWords, WithType;
    DieNodeHas(t.dieId, t.socketId, t.completionStatusSize, t.collectionComplete);
    Type6Ends(base, t);
    LastAdded(WithCommon(base, t.timestamp, t.agentVersion, t.reason),
              DieNode(t.dieId, t.socketId, t.completionStatusSize, t.collectionComplete));
    StatusWordsKeep(Type6Base(base, t), t.completionStatusWords, "die_skt_info");
  }

  lemma Type6IsShown(base: Node, data: seq<byte>)
    requires Type6FromSlice(data).Some?
    ensures var t := Type6FromSlice(data).value;
            && |t.completionStatusWords| == t.completionStatusSize as int
            && DieIsShown(WithType(base, t), data)
            && forall i: nat | i < |t.completionStatusWords| ::
                 Shows(WithType(base, t), data, [StatusName(i)], 224 + 32 * i, 32)
  {
    hide *;
    Type6Words(data);
    var t := Type6FromSlice(data).value;
    Type6Added(base, t);
    Type6Ends(base, t);
    DieNodeIsShown(WithType(base, t), data, t.completionStatusSize);
    StatusWordsAreShown(Type6Base(base, t), data, t.completionStatusWords);
  }

  lemma Type6Words(data: seq<byte>)
    requires Type6FromSlice(data).Some?
    ensures |data| >= 28 && Type6FromSlice(data).value.Type6?
    ensures var t := Type6FromSlice(data).value;
            && t.dieId == data[24] && t.socketId == data[25] && t.collectionComplete == (data[27] >= 0x80)
            && t.completionStatusSize == Le16(data[26..28]) % 0x80
            && |t.completionStatusWords| == t.completionStatusSize as int
            && StatusWords(data, |t.completionStatusWords|) == Some(t.completionStatusWords)
  {
    hide Le32, Le64, Le16, StatusWords;
    var dieSktInfo := data[24..28];
    assert dieSktInfo[2..4] == data[26..28];
    assert dieSktInfo[3] == data[27];
  }

  predicate LegacyIsHeld(node: Node, t: HeaderType)
    requires t.Type0LegacyServer?
  {
    && HasField(node, "timestamp", t.timestamp) && HasField(node, "agent_version", t.agentVersion)
    && HasField(node, "reason", t.reason) && HasField(node, "socket_id", t.socketId)
    && HasField(node, "die_id", t.dieId) && HasField(node, "completion_status", t.completionStatus)
    && HasField(node, "record_collection_completed", Flag(t.collectionComplete))
  }

  lemma LegacyIsShownBy(base: Node, data: seq<byte>)
    requires Type0LegacyServerFromSlice(data).Some?
    ensures LegacyIsShown(WithType(base, Type0LegacyServerFromSlice(data).value), data)
  {
    hide *;
    LegacyWords(data);
    var t := Type0LegacyServerFromSlice(data).value;
    LegacyHas(base, t);
    WordField(data, 4);
    FieldOfBytes(data, 8, 16);
    LeValue64(data[8..16]);
    WordField(data, 20);
    ByteField(data, 24);
    FlagFields(data, 28, Le32(data[28..32]));
    TwoBits(data, 0);
    SevenBits(data, 0);
    LegacyMatches(WithType(base, t), t, data);
  }

  lemma TwoBits(data: seq<byte>, from: nat)
    requires from < |data|
    ensures Fields.Field(data, 8 * from, 2) == Some(data[from] % 4)
  {
    hide LeValue, ShiftRight;
    ByteField(data, from);
    var x := ShiftRight(LeValue(data), 8 * from);
    NoShift(x);
    NoShift(Low(x, 8));
    FieldInField(x, 8, 0, 2);
    LowTwo(data[from]);
  }

  lemma LowTwo(b: byte)
    ensures Low(b, 2) == b % 4
  {
    assert Low(b, 2) == b % 2 + 2 * Low(b / 2, 1);
    assert Low(b / 2, 1) == b / 2 % 2 + 2 * Low(b / 2 / 2, 0);
  }

  lemma LegacyMatches(node: Node, t: HeaderType, data: seq<byte>)
    requires t.Type0LegacyServer? && LegacyIsHeld(node, t)
    requires Fields.Field(data, 32, 32) == Some(t.reason) && Fields.Field(data, 64, 64) == Some(t.timestamp)
    requires Fields.Field(data, 160, 32) == Some(t.agentVersion) && Fields.Field(data, 192, 8) == Some(t.socketId)
    requires Fields.Field(data, 224, 31) == Some(t.completionStatus)
    requires Fields.Field(data, 255, 1) == Some(Flag(t.collectionComplete))
    requires Fields.Field(data, 0, 2).Some? && Fields.Field(data, 7, 1).Some?
    requires t.dieId as int == if Fields.Field(data, 7, 1).value == 1 then Fields.Field(data, 0, 2).value as int + 9
                               else 4 * Fields.Field(data, 0, 2).value as int
    ensures LegacyIsShown(node, data)
  {
    hide Fields.Field, Shows, At;
    ShowsChild(node, data, "reason", 32, 32, t.reason);
    ShowsChild(node, data, "timestamp", 64, 64, t.timestamp);
    ShowsChild(node, data, "agent_version", 160, 32, t.agentVersion);
    ShowsChild(node, data, "socket_id", 192, 8, t.socketId);
    ShowsChild(node, data, "completion_status", 224, 31, t.completionStatus);
    ShowsChild(node, data, "record_collection_completed", 255, 1, Flag(t.collectionComplete));
    FieldIsAt(node, "die_id", t.dieId);
  }

  lemma FieldIsAt(node: Node, name: string, value: u64)
    requires HasField(node, name, value)
    ensures At(node, [name]).Some? && At(node, [name]).value.kind == Field(value)
  {
    assert [name][1..] == [];
    assert At(node, [name]) == At(node.children[name], []);
  }

  lemma LegacyHas(base: Node, t: HeaderType)
    requires t.Type0LegacyServer?
    ensures LegacyIsHeld(WithType(base, t), t)
  {
    hide Lower, FieldNode, WithCommon;
    CommonIsShown(base, t.timestamp, t.agentVersion, t.reason);
    DieNamesAreLower();
    UnchangedIsLower("completion_status");
    FieldNodeHas("die_id", t.dieId);
    FieldNodeHas("socket_id", t.socketId);
    FieldNodeHas("completion_status", t.completionStatus);
    FieldNodeHas("record_collection_completed", Flag(t.collectionComplete));
    assert "socket_id"[0] != "timestamp"[0];
    assert "reason"[0] != "die_id"[0];
  }

  lemma LegacyWords(data: seq<byte>)
    requires Type0LegacyServerFromSlice(data).Some?
    ensures |data| >= 32 && Type0LegacyServerFromSlice(data).value.Type0LegacyServer?
    ensures var t := Type0LegacyServerFromSlice(data).value;
            && t.reason == Le32(data[4..8]) && t.timestamp == Le64(data[8..16])
            && t.agentVersion == Le32(data[20..24]) && t.socketId == data[24]
            && t.dieId as int == (if data[0] / 0x80 == 1 then data[0] % 4 + 9 else 4 * (data[0] % 4))
            && t.completionStatus == Le32(data[28..32]) % 0x8000_0000
            && t.collectionComplete == (Le32(data[28..32]) / 0x8000_0000 != 0)
  {
    hide Le32, Le64;
  }

  /** The fields of each header type are the bit fields a layout reads at their places. */
  lemma HeaderTypeIsBitFields(data: seq<byte>)
    requires Parses(data)
    ensures TypeIsShown(HeaderNode(Parsed(data)), Parsed(data).headerType, data)
  {
    hide *;
    TypeIsParsed(data);
    var header := Parsed(data);
    var base := Add(Add(SectionNode("hdr"), VersionNode(header.version)), SizeNode(header.size));
    HeaderNodeEnds(header);
    TypeNodeIsShown(base, header.headerType, data);
  }

  lemma HeaderNodeEnds(header: Header)
    ensures HeaderNode(header)
         == WithType(Add(Add(SectionNode("hdr"), VersionNode(header.version)), SizeNode(header.size)),
                     header.headerType)
  {
    hide WithType, VersionNode, SizeNode, SectionNode;
  }

  lemma TypeNodeIsShown(base: Node, headerType: HeaderType, data: seq<byte>)
    requires IsTypeOf(headerType, data)
    ensures TypeIsShown(WithType(base, headerType), headerType, data)
  {
    hide WithType, CompletionIsShown, DieIsShown, Shows, Le32, Le64, Le16, StatusWords, StatusName;
    hide Type3FromSlice, Type4FromSlice, Type5FromSlice, Type6FromSlice, Type0LegacyServerFromSlice;
    match headerType
    case Type0 | Type1 =>
    case Type2(_, _, _) =>
    case Type3(_, _, _, _, _) => Type3IsShown(base, data);
    case Type4(_, _, _, _, _) => Type4IsShown(base, data);
    case Type5(_, _, _, _, _, _) => Type5IsShown(base, data);
    case Type6(_, _, _, _, _, _, _, _) => Type6IsShown(base, data);
    case Type0LegacyServer(_, _, _, _, _, _, _) => LegacyIsShownBy(base, data);
  }

  predicate IsTypeOf(t: HeaderType, data: seq<byte>) {
    match t
    case Type0 | Type1 => true
    case Type2(_, _, _) => true
    case Type3(_, _, _, _, _) => Type3FromSlice(data) == Some(t)
    case Type4(_, _, _, _, _) => Type4FromSlice(data) == Some(t)
    case Type5(_, _, _, _, _, _) => Type5FromSlice(data) == Some(t)
    case Type6(_, _, _, _, _, _, _, _) => Type6FromSlice(data) == Some(t)
    case Type0LegacyServer(_, _, _, _, _, _, _) => Type0LegacyServerFromSlice(data) == Some(t)
  }

  lemma TypeIsParsed(data: seq<byte>)
    requires Parses(data)
    ensures IsTypeOf(Parsed(data).headerType, data)
  {
  }
}
