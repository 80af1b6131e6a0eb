/** Register trees built from record headers alone (lib/src/header.rs, lib/src/record/decode.rs). */
module HeaderTrees {
  import opened Results
  import opened Bytes
  import opened Bits
  import opened Headers
  import opened Names
  import opened Nodes
  import opened Regions
  import Layouts

  // Header nodes

  function VersionNode(v: Version): Node {
    hide Lower;
    VersionFitsU32(v);
    var n0 := FieldNode("version", VersionAsU32(v));
    var n1 := Add(n0, FieldNode("revision", v.revision));
    var n2 := Add(n1, FieldNode("header_type", v.headerType));
    var n3 := Add(n2, FieldNode("product_id", v.productId));
    Add(n3, FieldNode("record_type", v.recordType))
  }

  function SizeNode(size: RecordSize): Node {
    hide Lower;
    var n0 := SectionNode("record_size");
    var n1 := Add(n0, FieldNode("record_size", size.recordSize));
    Add(n1, FieldNode("extended_record_size", size.extendedRecordSize))
  }

  function WithCommon(node: Node, timestamp: u64, agentVersion: u32, reason: u32): Node {
    var n1 := Add(node, FieldNode("timestamp", timestamp));
    var n2 := Add(n1, FieldNode("agent_version", agentVersion));
    Add(n2, FieldNode("reason", reason))
  }

  function CompletionNode(status: u32, complete: bool): Node {
    hide Lower;
    var n0 := SectionNode("completion_status");
    var n1 := Add(n0, FieldNode("completion_status", status));
    Add(n1, FieldNode("record_collection_completed", Flag(complete)))
  }

  function DieNode(dieId: byte, socketId: byte, count: u16, complete: bool): Node {
    hide Lower;
    var n0 := SectionNode("die_skt_info");
    var n1 := Add(n0, FieldNode("die_id", dieId));
    var n2 := Add(n1, FieldNode("socket_id", socketId));
    var n3 := Add(n2, FieldNode("completion_status_size", count));
    Add(n3, FieldNode("record_collection_completed", Flag(complete)))
  }

  function WithStatusWords(node: Node, words: seq<u32>): Node
    decreases |words|
  {
    if words == [] then node
    else
      var last := |words| - 1;
      Add(WithStatusWords(node, words[..last]), FieldNode("completion_status" + Decimal(last), words[last]))
  }

  function WithType(node: Node, headerType: HeaderType): Node {
    hide Lower;
    match headerType
    case Type0 | Type1 => node
    case Type2(timestamp, agentVersion, reason) => WithCommon(node, timestamp, agentVersion, reason)
    case Type3(timestamp, agentVersion, reason, status, complete) =>
      Add(WithCommon(node, timestamp, agentVersion, reason), CompletionNode(status, complete))
    case Type4(timestamp, agentVersion, reason, whoami, misc) =>
      Add(Add(WithCommon(node, timestamp, agentVersion, reason), FieldNode("whoami", whoami)), FieldNode("misc", misc))
    case Type5(timestamp, agentVersion, reason, status, complete, errorStatus) =>
      Add(Add(WithCommon(node, timestamp, agentVersion, reason), FieldNode("error_status", errorStatus)),
          CompletionNode(status, complete))
    case Type6(timestamp, agentVersion, reason, dieId, socketId, count, words, complete) =>
      WithStatusWords(Add(WithCommon(node, timestamp, agentVersion, reason), DieNode(dieId, socketId, count, complete)),
                      words)
    case Type0LegacyServer(timestamp, agentVersion, reason, dieId, socketId, status, complete) =>
      var n1 := Add(WithCommon(node, timestamp, agentVersion, reason), FieldNode("die_id", dieId));
      var n2 := Add(n1, FieldNode("socket_id", socketId));
      var n3 := Add(n2, FieldNode("completion_status", status));
      Add(n3, FieldNode("record_collection_completed", Flag(complete)))
  }

  function HeaderNode(header: Header): Node {
    WithType(Add(Add(SectionNode("hdr"), VersionNode(header.version)), SizeNode(header.size)), header.headerType)
  }

  lemma {:induction false} OrBound(a: nat, b: nat, n: nat)
    requires a < Pow2(n) && b < Pow2(n)
    ensures BitOr(a, b) < Pow2(n)
    decreases n
  {
    if n > 0 && !(a == 0 && b == 0) {
      OrBound(a / 2, b / 2, n - 1);
    }
  }

  /** The rebuilt version word always fits its 32 bits, whatever the fields hold. */
  lemma VersionFitsU32(v: Version)
    ensures VersionAsU32(v) < 0x1_0000_0000
  {
    hide BitOr, ShiftLeft, Pow2;
    ShiftLeftConstants(v.revision);
    FlagsFit(v.consumed, v.cldic);
    Pow2Is32();
    var a, b := ShiftLeft(Flag(v.consumed), 31), ShiftLeft(Flag(v.cldic), 30);
    OrBound(a, b, 32);
    var c := BitOr(a, b);
    OrBound(c, AsU32(ShiftLeft(v.recordType, 24)), 32);
    var d := BitOr(c, AsU32(ShiftLeft(v.recordType, 24)));
    OrBound(d, AsU32(ShiftLeft(v.productId, 12)), 32);
    var e := BitOr(d, AsU32(ShiftLeft(v.productId, 12)));
    OrBound(e, AsU32(ShiftLeft(v.headerType, 8)), 32);
    OrBound(BitOr(e, AsU32(ShiftLeft(v.headerType, 8))), v.revision, 32);
    assert ShiftLeft(v.revision, 0) == v.revision;
  }

  lemma Pow2Is32()
    ensures Pow2(32) == 0x1_0000_0000
  {
    hide ShiftLeft;
    ShiftLeftConstants(1);
    ShiftLeftTwice(1, 24, 8);
    ShiftLeftConstants(ShiftLeft(1, 24));
  }

  lemma FlagsFit(a: bool, b: bool)
    ensures ShiftLeft(Flag(a), 31) < 0x1_0000_0000 && ShiftLeft(Flag(b), 30) < 0x1_0000_0000
  {
    hide ShiftLeft;
    ShiftLeftConstants(Flag(a));
    ShiftLeftConstants(Flag(b));
    ShiftLeftTwice(Flag(a), 24, 6);
    ShiftLeftTwice(Flag(a), 30, 1);
    ShiftLeftTwice(Flag(b), 24, 6);
    ShiftLeftConstants(ShiftLeft(Flag(a), 24));
    ShiftLeftConstants(ShiftLeft(Flag(a), 30));
    ShiftLeftConstants(ShiftLeft(Flag(b), 24));
  }

  // Record names and root paths

  function RecordTypeName(v: Version): Option<string> {
    if v.recordType == PMC then Some("PMC")
    else if v.recordType == PMC_FW_TRACE then Some("PMC_FW_Trace")
    else if v.recordType == PUNIT then Some("Punit")
    else if v.recordType == PCORE then Some("PCORE")
    else if v.recordType == ECORE then Some("ECORE")
    else if v.recordType == UNCORE then Some("UNCORE")
    else if v.recordType == PMC_TRACE then Some("PMC_TRACE")
    else if v.recordType == TCSS then Some("TCSS")
    else if v.recordType == PMC_RST then Some("PMC_RST")
    else if v.recordType == PCODE then Some("PCODE")
    else if v.recordType == CRASHLOG_AGENT then Some("CRASHLOG_AGENT")
    else if v.recordType == BOX then Some("BOX")
    else if v.recordType == MCA then Some("MCA")
    else None
  }

  function RecordName(record: Record): string {
    var name := RecordTypeName(record.header.version);
    if name.Some? then name.value else "record"
  }

  /** The dotted path under which the records of a die are stored. */
  function HeaderRootPath(header: Header): Option<string> {
    match header.headerType
    case Type6(_, _, _, dieId, socketId, _, _, _) =>
      Some("processors.cpu" + Decimal(socketId) + ".die" + Decimal(dieId))
    case Type0LegacyServer(_, _, _, dieId, socketId, _, _) =>
      Some("processors.cpu" + Decimal(socketId) + ".die" + Decimal(dieId))
    case _ => None
  }

  /** The record's own root path comes first, then its parent's. */
  function RootPath(record: Record): Option<string> {
    if HeaderRootPath(record.header).Some? then HeaderRootPath(record.header)
    else if record.parent.Some? then HeaderRootPath(record.parent.value)
    else None
  }

  // Decoding without collateral

  /** The record node of a record: its header is all it holds. */
  function RecordNodeOf(record: Record): Node {
    Add(RecordNode(RecordName(record)), HeaderNode(record.header))
  }

  function DecodeHeader(record: Record): Node {
    Add(RootNode(), RecordNodeOf(record))
  }

  function MergeAt(root: Node, path: seq<string>, other: Node): Node
    requires At(root, path).Some?
  {
    ReplaceAt(root, path, Merge(At(root, path).value, other))
  }

  /** The tree of one record; nothing if creating its root path panicked. */
  function DecodeRecord(record: Record): Option<Node> {
    var path := RootPath(record);
    if path.None? then Some(Merge(RootNode(), DecodeHeader(record)))
    else
      var grown :- CreateHierarchy(RootNode(), Split(path.value));
      Layouts.HierarchyHasPath(RootNode(), Split(path.value));
      Some(MergeAt(grown, Split(path.value), DecodeHeader(record)))
  }

  /** The tree of the records, merged one after the other. */
  function DecodeRecords(records: seq<Record>): Option<Node>
    decreases |records|
  {
    if records == [] then Some(RootNode())
    else
      var before :- DecodeRecords(records[..|records| - 1]);
      var last :- DecodeRecord(records[|records| - 1]);
      Some(Merge(before, last))
  }

  // No header holds a record

  ghost predicate RecordFree(node: Node) {
    !node.kind.Record? && forall k <- node.children :: RecordFree(node.children[k])
  }

  ghost predicate RecordFreeBelow(node: Node) {
    forall k <- node.children :: RecordFree(node.children[k])
  }

  lemma AddKeepsFree(node: Node, child: Node)
    requires RecordFree(node) && RecordFree(child)
    ensures RecordFree(Add(node, child))
  {
  }

  lemma CommonIsFree(node: Node, timestamp: u64, agentVersion: u32, reason: u32)
    requires RecordFree(node)
    ensures RecordFree(WithCommon(node, timestamp, agentVersion, reason))
  {
    hide Lower, Add;
    var n1 := Add(node, FieldNode("timestamp", timestamp));
    AddKeepsFree(node, FieldNode("timestamp", timestamp));
    var n2 := Add(n1, FieldNode("agent_version", agentVersion));
    AddKeepsFree(n1, FieldNode("agent_version", agentVersion));
    AddKeepsFree(n2, FieldNode("reason", reason));
  }

  lemma PartsAreFree(v: Version, size: RecordSize)
    ensures RecordFree(VersionNode(v)) && RecordFree(SizeNode(size))
  {
    hide Lower, VersionAsU32;
  }

  lemma CompletionIsFree(status: u32, complete: bool)
    ensures RecordFree(CompletionNode(status, complete))
  {
    hide Lower;
  }

  lemma DieIsFree(dieId: byte, socketId: byte, count: u16, complete: bool)
    ensures RecordFree(DieNode(dieId, socketId, count, complete))
  {
    hide Lower;
  }

  lemma {:induction false} StatusWordsAreFree(node: Node, words: seq<u32>)
    requires RecordFree(node)
    ensures RecordFree(WithStatusWords(node, words))
    decreases |words|
  {
    hide Lower, Decimal;
    if words != [] {
      var last := |words| - 1;
      StatusWordsAreFree(node, words[..last]);
      AddFieldKeepsFree(WithStatusWords(node, words[..last]), "completion_status" + Decimal(last), words[last]);
    }
  }

  lemma FieldIsFree(name: string, value: u64)
    ensures RecordFree(FieldNode(name, value))
  {
    hide Lower;
  }

  lemma AddFieldKeepsFree(node: Node, name: string, value: u64)
    requires RecordFree(node)
    ensures RecordFree(Add(node, FieldNode(name, value)))
  {
    FieldIsFree(name, value);
    AddKeepsFree(node, FieldNode(name, value));
  }

  lemma TypeIsFree(node: Node, headerType: HeaderType)
    requires RecordFree(node)
    ensures RecordFree(WithType(node, headerType))
  {
    hide Lower, Add, FieldNode, WithCommon, CompletionNode, DieNode, RecordFree;
    match headerType
    case Type0 | Type1 =>
    case Type2(timestamp, agentVersion, reason) =>
      CommonIsFree(node, timestamp, agentVersion, reason);
    case Type3(timestamp, agentVersion, reason, status, complete) =>
      CommonIsFree(node, timestamp, agentVersion, reason);
      CompletionIsFree(status, complete);
      AddKeepsFree(WithCommon(node, timestamp, agentVersion, reason), CompletionNode(status, complete));
    case Type4(timestamp, agentVersion, reason, whoami, misc) =>
      CommonIsFree(node, timestamp, agentVersion, reason);
      var common := WithCommon(node, timestamp, agentVersion, reason);
      AddFieldKeepsFree(common, "whoami", whoami);
      AddFieldKeepsFree(Add(common, FieldNode("whoami", whoami)), "misc", misc);
    case Type5(timestamp, agentVersion, reason, status, complete, errorStatus) =>
      CommonIsFree(node, timestamp, agentVersion, reason);
      var common := WithCommon(node, timestamp, agentVersion, reason);
      AddFieldKeepsFree(common, "error_status", errorStatus);
      CompletionIsFree(status, complete);
      AddKeepsFree(Add(common, FieldNode("error_status", errorStatus)), CompletionNode(status, complete));
    case Type6(timestamp, agentVersion, reason, dieId, socketId, count, words, complete) =>
      CommonIsFree(node, timestamp, agentVersion, reason);
      var common := WithCommon(node, timestamp, agentVersion, reason);
      DieIsFree(dieId, socketId, count, complete);
      AddKeepsFree(common, DieNode(dieId, socketId, count, complete));
      StatusWordsAreFree(Add(common, DieNode(dieId, socketId, count, complete)), words);
    case Type0LegacyServer(timestamp, agentVersion, reason, dieId, socketId, status, complete) =>
      CommonIsFree(node, timestamp, agentVersion, reason);
      var common := WithCommon(node, timestamp, agentVersion, reason);
      AddFieldKeepsFree(common, "die_id", dieId);
      var n1 := Add(common, FieldNode("die_id", dieId));
      AddFieldKeepsFree(n1, "socket_id", socketId);
      var n2 := Add(n1, FieldNode("socket_id", socketId));
      AddFieldKeepsFree(n2, "completion_status", status);
      var n3 := Add(n2, FieldNode("completion_status", status));
      AddFieldKeepsFree(n3, "record_collection_completed", Flag(complete));
  }

  lemma HeaderIsFree(header: Header)
    ensures RecordFree(HeaderNode(header))
  {
    hide Lower, Add, VersionNode, SizeNode, WithType, RecordFree;
    PartsAreFree(header.version, header.size);
    SectionIsFree("hdr");
    var hdr := SectionNode("hdr");
    AddKeepsFree(hdr, VersionNode(header.version));
    AddKeepsFree(Add(hdr, VersionNode(header.version)), SizeNode(header.size));
    TypeIsFree(Add(Add(hdr, VersionNode(header.version)), SizeNode(header.size)), header.headerType);
  }

  lemma SectionIsFree(name: string)
    ensures RecordFree(SectionNode(name))
  {
    hide Lower;
  }

  lemma RecordNodeIsFreeBelow(record: Record)
    ensures RecordFreeBelow(RecordNodeOf(record))
  {
    hide Lower, HeaderNode;
    HeaderIsFree(record.header);
  }
}
