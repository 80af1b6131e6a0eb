/**
 Register trees of record headers as the library builds them, node by node
 (lib/src/header.rs, lib/src/record/decode.rs, lib/src/crashlog.rs).
 */
module LogDecoders {
  import opened Results
  import opened Bytes
  import opened Headers
  import opened Names
  import opened Regions
  import opened Trees
  import HeaderTrees
  import LogTrees
  import Nodes

  // Header nodes

  method AddField(node: TreeNode, name: string, value: u64)
    requires node.Valid()
    modifies node
    ensures node.Valid() && fresh(node.Repr - old(node.Repr))
    ensures node.View() == Nodes.Add(old(node.View()), Nodes.FieldNode(name, value))
  {
    hide TreeNode.View, TreeNode.Valid, Nodes.Add, Lower;
    var field := new TreeNode.Field(name, value);
    node.Add(field);
  }

  method NewVersion(v: Version) returns (node: TreeNode)
    ensures fresh(node.Repr) && node.Valid() && node.View() == HeaderTrees.VersionNode(v)
  {
    hide TreeNode.View, TreeNode.Valid, Nodes.Add, Lower, VersionAsU32;
    HeaderTrees.VersionFitsU32(v);
    node := new TreeNode.Field("version", VersionAsU32(v));
    AddField(node, "revision", v.revision);
    AddField(node, "header_type", v.headerType);
    AddField(node, "product_id", v.productId);
    AddField(node, "record_type", v.recordType);
  }

  method NewSize(size: RecordSize) returns (node: TreeNode)
    ensures fresh(node.Repr) && node.Valid() && node.View() == HeaderTrees.SizeNode(size)
  {
    hide TreeNode.View, TreeNode.Valid, Nodes.Add, Lower;
    node := new TreeNode.Section("record_size");
    AddField(node, "record_size", size.recordSize);
    AddField(node, "extended_record_size", size.extendedRecordSize);
  }

  method AddCompletion(node: TreeNode, status: u32, complete: bool)
    requires node.Valid()
    modifies node
    ensures node.Valid() && fresh(node.Repr - old(node.Repr))
    ensures node.View() == Nodes.Add(old(node.View()), HeaderTrees.CompletionNode(status, complete))
  {
    hide TreeNode.View, TreeNode.Valid, Nodes.Add, Lower;
    var completion := new TreeNode.Section("completion_status");
    AddField(completion, "completion_status", status);
    AddField(completion, "record_collection_completed", Flag(complete));
    node.Add(completion);
  }

  method AddDie(node: TreeNode, dieId: byte, socketId: byte, count: u16, complete: bool)
    requires node.Valid()
    modifies node
    ensures node.Valid() && fresh(node.Repr - old(node.Repr))
    ensures node.View() == Nodes.Add(old(node.View()), HeaderTrees.DieNode(dieId, socketId, count, complete))
  {
    hide TreeNode.View, TreeNode.Valid, Nodes.Add, Lower;
    var die := new TreeNode.Section("die_skt_info");
    AddField(die, "die_id", dieId);
    AddField(die, "socket_id", socketId);
    AddField(die, "completion_status_size", count);
    AddField(die, "record_collection_completed", Flag(complete));
    node.Add(die);
  }

  method AddCommon(node: TreeNode, timestamp: u64, agentVersion: u32, reason: u32)
    requires node.Valid()
    modifies node
    ensures node.Valid() && fresh(node.Repr - old(node.Repr))
    ensures node.View() == HeaderTrees.WithCommon(old(node.View()), timestamp, agentVersion, reason)
  {
    hide TreeNode.View, TreeNode.Valid, Nodes.Add, Lower;
    AddField(node, "timestamp", timestamp);
    AddField(node, "agent_version", agentVersion);
    AddField(node, "reason", reason);
  }

  method AddStatusWords(node: TreeNode, words: seq<u32>)
    requires node.Valid()
    modifies node
    ensures node.Valid() && fresh(node.Repr - old(node.Repr))
    ensures node.View() == HeaderTrees.WithStatusWords(old(node.View()), words)
  {
    hide TreeNode.View, TreeNode.Valid, Nodes.Add, Lower, Decimal;
    for i := 0 to |words|
      invariant node.Valid() && fresh(node.Repr - old(node.Repr))
      invariant node.View() == HeaderTrees.WithStatusWords(old(node.View()), words[..i])
    {
      assert words[..i + 1][..i] == words[..i];
      AddField(node, "completion_status" + Decimal(i), words[i]);
    }
    assert words[..|words|] == words;
  }

  method AddType(node: TreeNode, headerType: HeaderType)
    requires node.Valid()
    modifies node
    ensures node.Valid() && fresh(node.Repr - old(node.Repr))
    ensures node.View() == HeaderTrees.WithType(old(node.View()), headerType)
  {
    hide TreeNode.View, TreeNode.Valid, Nodes.Add, Lower;
    hide Decimal, HeaderTrees.WithCommon, HeaderTrees.CompletionNode, HeaderTrees.DieNode;
    match headerType
    case Type0 | Type1 =>
    case Type2(timestamp, agentVersion, reason) =>
      AddCommon(node, timestamp, agentVersion, reason);
    case Type3(timestamp, agentVersion, reason, status, complete) =>
      AddCommon(node, timestamp, agentVersion, reason);
      AddCompletion(node, status, complete);
    case Type4(timestamp, agentVersion, reason, whoami, misc) =>
      AddCommon(node, timestamp, agentVersion, reason);
      AddField(node, "whoami", whoami);
      AddField(node, "misc", misc);
    case Type5(timestamp, agentVersion, reason, status, complete, errorStatus) =>
      AddCommon(node, timestamp, agentVersion, reason);
      AddField(node, "error_status", errorStatus);
      AddCompletion(node, status, complete);
    case Type6(timestamp, agentVersion, reason, dieId, socketId, count, words, complete) =>
      AddCommon(node, timestamp, agentVersion, reason);
      AddDie(node, dieId, socketId, count, complete);
      AddStatusWords(node, words);
    case Type0LegacyServer(timestamp, agentVersion, reason, dieId, socketId, status, complete) =>
      AddCommon(node, timestamp, agentVersion, reason);
      AddField(node, "die_id", dieId);
      AddField(node, "socket_id", socketId);
      AddField(node, "completion_status", status);
      AddField(node, "record_collection_completed", Flag(complete));
  }

  method NewHeader(header: Header) returns (node: TreeNode)
    ensures fresh(node.Repr) && node.Valid() && node.View() == HeaderTrees.HeaderNode(header)
  {
    hide TreeNode.View, TreeNode.Valid, Nodes.Add, Lower;
    hide HeaderTrees.WithType, HeaderTrees.VersionNode, HeaderTrees.SizeNode;
    node := new TreeNode.Section("hdr");
    var version := NewVersion(header.version);
    node.Add(version);
    var size := NewSize(header.size);
    node.Add(size);
    AddType(node, header.headerType);
  }

  // Records

  method NewDecodedHeader(record: Record) returns (root: TreeNode)
    ensures fresh(root.Repr) && root.Valid() && root.View() == HeaderTrees.DecodeHeader(record)
  {
    hide TreeNode.View, TreeNode.Valid, Nodes.Add, Lower, HeaderTrees.HeaderNode, HeaderTrees.RecordName;
    var node := new TreeNode.Record(HeaderTrees.RecordName(record));
    var header := NewHeader(record.header);
    node.Add(header);
    root := new TreeNode.Root();
    root.Add(node);
  }

  /** Merges a tree into the node at a path. */
  method MergeAt(root: TreeNode, path: seq<string>, other: TreeNode)
    requires root.Valid() && other.Valid() && root.Repr !! other.Repr && root.NodeAt(path) != null
    modifies root.Repr, other.Repr
    ensures root.Valid() && root.Repr <= old(root.Repr) + old(other.Repr)
    ensures Nodes.At(old(root.View()), path).Some?
    ensures root.View() == HeaderTrees.MergeAt(old(root.View()), path, old(other.View()))
    decreases |path|
  {
    hide TreeNode.View, TreeNode.Valid, Nodes.Merge;
    root.Self();
    if path == [] {
      root.Merge(other);
    } else {
      root.ChildInside(path[0]);
      var child := root.children[path[0]];
      MergeAt(child, path[1..], other);
      child.Self();
      root.Repr := root.Repr + child.Repr;
      root.Rejoined(path[0]);
    }
  }

  lemma RecordDecodes(record: Record)
    ensures HeaderTrees.DecodeRecord(record).Some?
  {
    LogTrees.RecordIsPlaced(record);
  }

  /** The tree of one record: its header, below its own root path or its parent's. */
  method DecodeRecord(record: Record) returns (root: TreeNode)
    ensures fresh(root.Repr) && root.Valid()
    ensures HeaderTrees.DecodeRecord(record) == Some(root.View())
  {
    hide TreeNode.View, TreeNode.Valid, TreeNode.NodeAt, Nodes.Merge, Nodes.CreateHierarchy, Nodes.ReplaceAt, Nodes.At;
    hide HeaderTrees.DecodeHeader, HeaderTrees.RootPath, HeaderTrees.MergeAt, Split;
    RecordDecodes(record);
    var header := NewDecodedHeader(record);
    root := new TreeNode.Root();
    var path := HeaderTrees.RootPath(record);
    if path.Some? {
      var segments := Split(path.value);
      var recordRoot := root.CreateHierarchy(segments);
      MergeAt(root, segments, header);
    } else {
      root.Merge(header);
    }
  }

  // Crash logs

  function AllRecords(regions: seq<Region>): seq<Record> {
    if regions == [] then [] else AllRecords(regions[..|regions| - 1]) + regions[|regions| - 1].records
  }

  lemma OneMore(records: seq<Record>, record: Record, before: Nodes.Node, tree: Nodes.Node)
    requires HeaderTrees.DecodeRecords(records) == Some(before)
    requires HeaderTrees.DecodeRecord(record) == Some(tree)
    ensures HeaderTrees.DecodeRecords(records + [record]) == Some(Nodes.Merge(before, tree))
  {
    hide HeaderTrees.DecodeRecord, Nodes.Merge;
    assert (records + [record])[..|records|] == records;
  }

  /** The tree of all the headers of a log, record after record. */
  method DecodeLog(regions: seq<Region>) returns (root: TreeNode)
    ensures fresh(root.Repr) && root.Valid()
    ensures HeaderTrees.DecodeRecords(AllRecords(regions)) == Some(root.View())
  {
    hide TreeNode.View, TreeNode.Valid, Nodes.Merge, HeaderTrees.DecodeRecords, HeaderTrees.DecodeRecord;
    root := new TreeNode.Root();
    LogTrees.NothingIsRepresented();
    ghost var done: seq<Record> := [];
    for i := 0 to |regions|
      invariant fresh(root.Repr) && root.Valid()
      invariant done == AllRecords(regions[..i])
      invariant HeaderTrees.DecodeRecords(done) == Some(root.View())
    {
      var records := regions[i].records;
      ghost var before := done;
      for k := 0 to |records|
        invariant fresh(root.Repr) && root.Valid()
        invariant done == before + records[..k]
        invariant HeaderTrees.DecodeRecords(done) == Some(root.View())
      {
        var tree := DecodeRecord(records[k]);
        OneMore(done, records[k], root.View(), tree.View());
        root.Merge(tree);
        done := done + [records[k]];
      }
      assert regions[..i + 1][..i] == regions[..i];
    }
    assert regions[..|regions|] == regions;
  }
}
