/** Where the records of a crash log end up in its register tree (lib/src/crashlog.rs). */
module LogTrees {
  import opened Results
  import opened Bytes
  import opened Headers
  import opened Names
  import opened Nodes
  import opened Regions
  import opened HeaderTrees
  import Boxes
  import HeaderFields
  import RawHeaders

  // Trees with a single leaf

  /** The node hung below a path of sections. */
  function Placed(base: Node, path: seq<string>, node: Node): Node
    decreases |path|
  {
    Add(base, if path == [] then node else Placed(SectionNode(path[0]), path[1..], node))
  }

  lemma MergeSingle(self: Node, other: Node, child: Node)
    requires other.children == map[child.name := child]
    ensures Merge(self, other) == MergeOne(self, child)
  {
    hide MergeOne;
    var keys := other.children.Keys;
    assert keys == {child.name};
    var sorted := Sorted(keys);
    assert |sorted| == 1 && sorted[0] in sorted;
    assert sorted == [child.name];
    assert MergeSome(MergeOne(self, child), other, []) == MergeOne(self, child);
    assert sorted[1..] == [];
  }

  /**
   What merging a tree with one child does: the child goes in under its name when that is
   free; it is merged into a root or section of that name; beside a record or a field it
   goes in under the first free instance of its name. Nothing else changes.
   */
  lemma MergeOfOne(self: Node, other: Node, child: Node)
    requires other.children == map[child.name := child]
    ensures child.name !in self.children ==>
              Merge(self, other) == self.(children := self.children[child.name := child])
    ensures child.name in self.children
            && (self.children[child.name].kind == Root || self.children[child.name].kind == Section) ==>
              Merge(self, other) == self.(children :=
                self.children[child.name := Merge(self.children[child.name], child)])
    ensures child.name in self.children
            && self.children[child.name].kind != Root && self.children[child.name].kind != Section ==>
              exists i: nat :: IsFirstFree(self, child.name, i)
                && Merge(self, other) == self.(children :=
                     self.children[child.name + Decimal(i) := child.(name := child.name + Decimal(i))])
  {
    hide *;
    MergeSingle(self, other, child);
    if child.name in self.children {
      var mine := self.children[child.name];
      if mine.kind == Root || mine.kind == Section {
        MergeIntoOpen(self, child);
      } else {
        var i := MergeBesideClosed(self, child);
      }
    } else {
      MergeIntoFree(self, child);
    }
  }

  lemma MergeIntoFree(self: Node, child: Node)
    requires child.name !in self.children
    ensures MergeOne(self, child) == self.(children := self.children[child.name := child])
  {
    hide Merge;
  }

  lemma MergeIntoOpen(self: Node, child: Node)
    requires child.name in self.children
    requires self.children[child.name].kind == Root || self.children[child.name].kind == Section
    ensures MergeOne(self, child)
         == self.(children := self.children[child.name := Merge(self.children[child.name], child)])
  {
  }

  lemma MergeBesideClosed(self: Node, child: Node) returns (i: nat)
    requires child.name in self.children
    requires self.children[child.name].kind != Root && self.children[child.name].kind != Section
    ensures IsFirstFree(self, child.name, i)
    ensures MergeOne(self, child)
         == self.(children :=
              self.children[child.name + Decimal(i) := child.(name := child.name + Decimal(i))])
  {
    hide Merge, Decimal;
    i := LeastFree(self.children.Keys, child.name, 0);
    assert Instance(child.name, i) == child.name + Decimal(i);
    forall j: nat | j < i ensures child.name + Decimal(j) in self.children {
      assert Instance(child.name, j) == child.name + Decimal(j);
    }
  }

  predicate IsFirstFree(self: Node, name: string, i: nat) {
    name + Decimal(i) !in self.children && forall j: nat | j < i :: name + Decimal(j) in self.children
  }

  /** Merging a tree without children changes nothing. */
  lemma MergeOfNone(self: Node, other: Node)
    requires other.children == map[]
    ensures Merge(self, other) == self
  {
  }

  /** What stays below a path once the section above it exists. */
  function Below(self: Node, name: string): Node {
    if name in self.children then self.children[name] else SectionNode(name)
  }

  lemma {:induction false} PlacedIsMerged(name: string, path: seq<string>, node: Node)
    ensures Merge(SectionNode(name), Placed(SectionNode(name), path, node)) == Placed(SectionNode(name), path, node)
  {
    var other := Placed(SectionNode(name), path, node);
    MergeSingle(SectionNode(name), other, if path == [] then node else Placed(SectionNode(path[0]), path[1..], node));
  }

  /** Merging a single leaf goes down its path, then adds it under the first free name. */
  lemma MergeGoesDown(self: Node, base: Node, path: seq<string>, node: Node)
    requires base.children == map[] && path != [] && IsLower(path[0])
    requires path[0] in self.children ==> !Closed(self.children[path[0]].kind)
    ensures var below := Placed(SectionNode(path[0]), path[1..], node);
            Merge(self, Placed(base, path, node))
            == self.(children := self.children[path[0] := Merge(Below(self, path[0]), below)])
  {
    hide Merge;
    var below := Placed(SectionNode(path[0]), path[1..], node);
    MergeSingle(self, Placed(base, path, node), below);
    PlacedIsMerged(path[0], path[1..], node);
  }

  lemma MergeEndsHere(self: Node, base: Node, node: Node)
    requires base.children == map[]
    requires node.name in self.children ==> Closed(self.children[node.name].kind)
    ensures Merge(self, Placed(base, [], node)) == Add(self, node.(name := FreshName(self.children.Keys, node.name)))
  {
    hide Merge;
    MergeSingle(self, Placed(base, [], node), node);
    assert node.(name := node.name) == node;
  }

  function KeysAt(self: Node, path: seq<string>): set<string> {
    if At(self, path).Some? then At(self, path).value.children.Keys else {}
  }

  /** Nothing on the way down the path is a record or a field. */
  ghost predicate Open(self: Node, path: seq<string>) {
    forall p: seq<string> | p <= path && p != [] && At(self, p).Some? :: !Closed(At(self, p).value.kind)
  }

  /** A leaf of that name is a record or a field. */
  predicate Clashes(self: Node, path: seq<string>, name: string) {
    At(self, path + [name]).Some? ==> Closed(At(self, path + [name]).value.kind)
  }

  function NewName(self: Node, path: seq<string>, name: string): string {
    FreshName(KeysAt(self, path), name)
  }

  lemma {:induction false} AtConcat(node: Node, p: seq<string>, q: seq<string>)
    ensures At(node, p + q) == if At(node, p).Some? then At(At(node, p).value, q) else None
    decreases |p|
  {
    if p == [] {
      assert p + q == q;
    } else {
      assert (p + q)[1..] == p[1..] + q;
      if p[0] in node.children {
        AtConcat(node.children[p[0]], p[1..], q);
      }
    }
  }

  /** The tree after a single leaf was merged in, seen from one path. */
  predicate MergedAt(self: Node, after: Node, path: seq<string>, node: Node, name: string, q: seq<string>) {
    if path + [name] <= q then At(after, q) == At(node.(name := name), q[|path| + 1..])
    else if q <= path then
      && At(after, q).Some?
      && (At(self, q).Some? ==> Same(At(self, q).value, At(after, q).value))
      && (At(self, q).None? ==> At(after, q).value.kind == Section)
    else At(after, q) == At(self, q)
  }

  lemma OpenBelow(self: Node, path: seq<string>)
    requires Open(self, path) && path != []
    ensures Open(Below(self, path[0]), path[1..])
    ensures path[0] in self.children ==> !Closed(self.children[path[0]].kind)
  {
    ChildAt(self, path[0]);
    assert [path[0]] <= path;
    forall p: seq<string> | p <= path[1..] && p != [] && At(Below(self, path[0]), p).Some?
      ensures !Closed(At(Below(self, path[0]), p).value.kind)
    {
      if path[0] in self.children {
        AtConcat(self, [path[0]], p);
        assert [path[0]] + p <= path;
      }
    }
  }

  lemma ClashesBelow(self: Node, path: seq<string>, name: string)
    requires Clashes(self, path, name) && path != []
    ensures Clashes(Below(self, path[0]), path[1..], name)
    ensures KeysAt(Below(self, path[0]), path[1..]) == KeysAt(self, path)
  {
    ChildAt(self, path[0]);
    var rest := path[1..];
    assert path + [name] == [path[0]] + (rest + [name]);
    AtConcat(self, [path[0]], rest + [name]);
    if path[0] !in self.children {
      assert At(Below(self, path[0]), rest + [name]).None?;
      assert rest != [] ==> At(Below(self, path[0]), rest).None?;
    }
  }

  lemma MergedHere(self: Node, node: Node, name: string, q: seq<string>)
    ensures MergedAt(self, Add(self, node.(name := name)), [], node, name, q)
  {
    assert [] + [name] == [name];
    if q != [] && q[0] == name {
      assert q == [name] + q[1..];
    }
  }

  lemma PrefixTail<T>(p: seq<T>, q: seq<T>)
    requires p != [] && q != [] && p[0] == q[0]
    ensures p <= q <==> p[1..] <= q[1..]
  {
    assert p == [p[0]] + p[1..] && q == [q[0]] + q[1..];
  }

  lemma MergedBelow(self: Node, after: Node, path: seq<string>, node: Node, name: string, q: seq<string>)
    requires path != []
    requires q != [] ==> MergedAt(Below(self, path[0]), after, path[1..], node, name, q[1..])
    requires q != [] ==> Same(Below(self, path[0]), after)
    ensures MergedAt(self, self.(children := self.children[path[0] := after]), path, node, name, q)
  {
    if q != [] && q[0] == path[0] {
      var rest := path[1..];
      assert path + [name] == [path[0]] + (rest + [name]);
      assert q == [q[0]] + q[1..];
      PrefixTail(path + [name], q);
      PrefixTail(q, path);
      assert (path + [name])[1..] == rest + [name];
      if path + [name] <= q {
        assert q[1..][|rest| + 1..] == q[|path| + 1..];
      }
      if path[0] !in self.children {
        assert At(SectionNode(path[0]), q[1..]).Some? <==> q[1..] == [];
      }
    } else if q != [] {
      assert (path + [name])[0] == path[0];
    }
  }

  lemma {:induction false} MergePlaced(self: Node, base: Node, path: seq<string>, node: Node, q: seq<string>)
    requires base.children == map[] && AllLower(path)
    requires Open(self, path) && Clashes(self, path, node.name)
    ensures MergedAt(self, Merge(self, Placed(base, path, node)), path, node, NewName(self, path, node.name), q)
    decreases |path|
  {
    hide Merge, MergedAt, Open, Clashes;
    if path == [] {
      HereClashes(self, node.name);
      MergeEndsHere(self, base, node);
      MergedHere(self, node, NewName(self, path, node.name), q);
    } else {
      OpenBelow(self, path);
      ClashesBelow(self, path, node.name);
      MergeGoesDown(self, base, path, node);
      var below := Placed(SectionNode(path[0]), path[1..], node);
      if q != [] {
        MergePlaced(Below(self, path[0]), SectionNode(path[0]), path[1..], node, q[1..]);
        MergeExtends(Below(self, path[0]), below);
      }
      MergedBelow(self, Merge(Below(self, path[0]), below), path, node, NewName(self, path, node.name), q);
    }
  }

  lemma HereClashes(self: Node, name: string)
    requires Clashes(self, [], name)
    ensures name in self.children ==> Closed(self.children[name].kind)
  {
    assert [] + [name] == [name];
    ChildAt(self, name);
  }

  // The tree of one record

  function Segments(record: Record): seq<string> {
    if RootPath(record).Some? then Split(RootPath(record).value) else []
  }

  lemma {:induction false} PlacedAlong(base: Node, path: seq<string>, node: Node)
    requires base.children == map[] && AllLower(path)
    ensures CreateHierarchy(base, path).Some?
    ensures var grown := CreateHierarchy(base, path).value;
            && At(grown, path).Some?
            && MergeAt(grown, path, Add(RootNode(), node)) == Placed(base, path, node)
    decreases |path|
  {
    hide Merge;
    if path == [] {
      MergeSingle(base, Add(RootNode(), node), node);
      assert node.(name := node.name) == node;
    } else {
      assert IsLower(path[0]);
      var section := SectionNode(path[0]);
      PlacedAlong(section, path[1..], node);
      var grown := CreateHierarchy(section, path[1..]).value;
      var whole := CreateHierarchy(base, path).value;
      assert Add(base, section).children[path[0]] == section;
      assert whole == Add(base, section).(children := Add(base, section).children[path[0] := grown]);
      assert whole.children[path[0]] == grown;
    }
  }

  lemma RecordIsPlaced(record: Record)
    ensures DecodeRecord(record) == Some(Placed(RootNode(), Segments(record), RecordNodeOf(record)))
  {
    hide Merge, CreateHierarchy, Split, RecordNodeOf, RootPath;
    SegmentsAreKnown(record);
    PlacedAlong(RootNode(), Segments(record), RecordNodeOf(record));
    if RootPath(record).None? {
      HierarchyOfNothing();
    }
  }

  lemma HierarchyOfNothing()
    ensures CreateHierarchy(RootNode(), []) == Some(RootNode())
  {
  }

  // Names

  /** The name without its trailing digits. */
  function Strip(s: string): string {
    if s != "" && IsDigit(s[|s| - 1]) then Strip(s[..|s| - 1]) else s
  }

  lemma {:induction false} StripDecimal(s: string, n: nat)
    ensures Strip(s + Decimal(n)) == Strip(s)
    decreases n
  {
    var whole := s + Decimal(n);
    if n < 10 {
      assert whole[..|whole| - 1] == s;
    } else {
      assert whole[..|whole| - 1] == s + Decimal(n / 10);
      StripDecimal(s, n / 10);
    }
  }

  /** A name of a record type: it never looks like an instance, nor like the path of a die. */
  predicate Proper(name: string) {
    Strip(name) == name && name != "processors"
  }

  /** The name of the instance that comes after `count` others. */
  function InstanceName(name: string, count: nat): string {
    if count == 0 then name else Instance(name, count - 1)
  }

  lemma InstanceStrips(name: string, count: nat)
    requires Proper(name)
    ensures Strip(InstanceName(name, count)) == name
    ensures InstanceName(name, count) != "processors"
  {
    hide Strip, Decimal;
    if count > 0 {
      StripDecimal(name, count - 1);
    }
    ProcessorsStrips();
  }

  lemma ProcessorsStrips()
    ensures Strip("processors") == "processors"
  {
  }

  lemma InstancesDiffer(s: string, a: nat, t: string, b: nat)
    requires Proper(s) && Proper(t) && InstanceName(s, a) == InstanceName(t, b)
    ensures s == t && a == b
  {
    hide Strip, Decimal;
    InstanceStrips(s, a);
    InstanceStrips(t, b);
    if a > 0 && b > 0 {
      InstanceIsInjective(s, a - 1, b - 1);
    }
  }

  lemma NumberedIsLower(prefix: string, n: nat)
    requires forall c <- prefix :: LowerChar(c) == c && c != '.'
    ensures IsLower(prefix + Decimal(n)) && '.' !in prefix + Decimal(n)
  {
    hide Decimal;
    DecimalReadsBack(n);
    UnchangedIsLower(prefix + Decimal(n));
  }

  function DieSegments(socketId: nat, dieId: nat): seq<string> {
    ["processors", "cpu" + Decimal(socketId), "die" + Decimal(dieId)]
  }

  lemma DieSegmentsSplit(socketId: nat, dieId: nat)
    ensures Split("processors.cpu" + Decimal(socketId) + ".die" + Decimal(dieId)) == DieSegments(socketId, dieId)
    ensures AllLower(DieSegments(socketId, dieId))
  {
    hide Split, Decimal, IsLower;
    var cpu, die := "cpu" + Decimal(socketId), "die" + Decimal(dieId);
    NumberedIsLower("cpu", socketId);
    NumberedIsLower("die", dieId);
    UnchangedIsLower("processors");
    SplitPlain(die);
    SplitAtDot(cpu, die);
    SplitAtDot("processors", cpu + "." + die);
    assert "processors.cpu" + Decimal(socketId) + ".die" + Decimal(dieId) == "processors" + "." + (cpu + "." + die);
  }

  /** A record hangs from the root, or from its die. */
  predicate IsRootPath(path: seq<string>) {
    path == [] || (|path| == 3 && path[0] == "processors")
  }

  lemma SegmentsAreKnown(record: Record)
    ensures IsRootPath(Segments(record)) && AllLower(Segments(record))
  {
    hide Split, Decimal, IsLower;
    if RootPath(record).Some? {
      var header := if HeaderRootPath(record.header).Some? then record.header else record.parent.value;
      match header.headerType
      case Type6(_, _, _, dieId, socketId, _, _, _) => DieSegmentsSplit(socketId, dieId);
      case Type0LegacyServer(_, _, _, dieId, socketId, _, _) => DieSegmentsSplit(socketId, dieId);
      case _ =>
    }
  }

  /** The path of the die a header belongs to, if it names one. */
  function DiePath(header: Header): Option<seq<string>> {
    match header.headerType
    case Type6(_, _, _, dieId, socketId, _, _, _) => Some(DieSegments(socketId, dieId))
    case Type0LegacyServer(_, _, _, dieId, socketId, _, _) => Some(DieSegments(socketId, dieId))
    case _ => None
  }

  lemma HeaderPathSplits(header: Header)
    ensures DiePath(header).Some? <==> HeaderRootPath(header).Some?
    ensures DiePath(header).Some? ==> Split(HeaderRootPath(header).value) == DiePath(header).value
  {
    hide Split, Decimal;
    match header.headerType
    case Type6(_, _, _, dieId, socketId, _, _, _) => DieSegmentsSplit(socketId, dieId);
    case Type0LegacyServer(_, _, _, dieId, socketId, _, _) => DieSegmentsSplit(socketId, dieId);
    case _ =>
  }

  /** A record found in a Box sits below its own die, or else below the die of the Box. */
  lemma BoxedRecordSitsByItsBox(box: Record, record: Record)
    requires Boxes.Child(box).Some? && record in Boxes.Child(box).value.records
    ensures Segments(record)
         == if DiePath(record.header).Some? then DiePath(record.header).value
            else if DiePath(box.header).Some? then DiePath(box.header).value
            else []
  {
    ChildCarriesHeader(box, record);
    hide Split, HeaderRootPath, DiePath, Boxes.Child;
    HeaderPathSplits(record.header);
    HeaderPathSplits(box.header);
  }

  lemma ChildCarriesHeader(box: Record, record: Record)
    requires Boxes.Child(box).Some? && record in Boxes.Child(box).value.records
    ensures record.parent == Some(box.header)
  {
    hide RegionOf;
  }

  lemma NameIsProper(record: Record)
    ensures Proper(RecordNodeOf(record).name)
  {
    hide Lower, Strip;
    var name := RecordName(record);
    TypeNameEnds(record);
    LowerIsCharwise(name);
    var last := Lower(name)[|name| - 1];
    StripsToItself(Lower(name));
  }

  lemma TypeNameEnds(record: Record)
    ensures var name := RecordName(record);
            name != "" && |name| != 10 && !IsDigit(LowerChar(name[|name| - 1]))
  {
  }

  lemma StripsToItself(name: string)
    requires name == "" || !IsDigit(name[|name| - 1])
    ensures Strip(name) == name
  {
  }

  // Where the records go

  datatype Leaf = Leaf(path: seq<string>, node: Node)

  ghost predicate Tidy(leaf: Leaf) {
    && IsRootPath(leaf.path) && AllLower(leaf.path) && Proper(leaf.node.name)
    && leaf.node.kind.Record? && RecordFreeBelow(leaf.node)
  }

  predicate Alike(a: Leaf, b: Leaf) {
    a.path == b.path && a.node.name == b.node.name
  }

  /** How many of the leaves have the same root path and the same type name. */
  function Count(leaves: seq<Leaf>, leaf: Leaf): nat
    decreases |leaves|
  {
    if leaves == [] then 0
    else Count(leaves[..|leaves| - 1], leaf) + if Alike(leaves[|leaves| - 1], leaf) then 1 else 0
  }

  /** The name the k-th leaf gets: its type name, then type0, type1 and so on. */
  function NameOf(leaves: seq<Leaf>, k: nat): string
    requires k < |leaves|
  {
    InstanceName(leaves[k].node.name, Count(leaves[..k], leaves[k]))
  }

  function Location(leaves: seq<Leaf>, k: nat): seq<string>
    requires k < |leaves|
  {
    leaves[k].path + [NameOf(leaves, k)]
  }

  predicate IsStored(tree: Node, leaves: seq<Leaf>, k: nat)
    requires k < |leaves|
  {
    At(tree, Location(leaves, k)) == Some(leaves[k].node.(name := NameOf(leaves, k)))
  }

  /** Why a path exists: it leads to a leaf, or it leads into one. */
  predicate Explained(tree: Node, leaves: seq<Leaf>, q: seq<string>) {
    || q == []
    || (At(tree, q).Some? && At(tree, q).value.kind == Section && exists k: nat | k < |leaves| :: q <= leaves[k].path)
    || (exists k: nat | k < |leaves| :: Location(leaves, k) <= q)
  }

  ghost predicate Represents(tree: Node, leaves: seq<Leaf>) {
    && tree.kind == Root
    && (forall k: nat | k < |leaves| :: Tidy(leaves[k]) && IsStored(tree, leaves, k))
    && (forall q | At(tree, q).Some? :: Explained(tree, leaves, q))
  }

  lemma {:induction false} CountGrows(leaves: seq<Leaf>, i: nat, j: nat, leaf: Leaf)
    requires i <= j <= |leaves|
    ensures Count(leaves[..i], leaf) <= Count(leaves[..j], leaf)
    ensures i < j && Alike(leaves[i], leaf) ==> Count(leaves[..i], leaf) < Count(leaves[..j], leaf)
    decreases j
  {
    if i < j {
      assert leaves[..j][..j - 1] == leaves[..j - 1];
      CountGrows(leaves, i, j - 1, leaf);
    }
  }

  lemma {:induction false} CountOfAlike(leaves: seq<Leaf>, a: Leaf, b: Leaf)
    requires Alike(a, b)
    ensures Count(leaves, a) == Count(leaves, b)
    decreases |leaves|
  {
    if leaves != [] {
      CountOfAlike(leaves[..|leaves| - 1], a, b);
    }
  }

  /** Every smaller count was some leaf's own. */
  lemma {:induction false} CountIsReached(leaves: seq<Leaf>, n: nat, leaf: Leaf, c: nat) returns (k: nat)
    requires n <= |leaves| && c < Count(leaves[..n], leaf)
    ensures k < n && Alike(leaves[k], leaf) && Count(leaves[..k], leaf) == c
    decreases n
  {
    assert leaves[..n][..n - 1] == leaves[..n - 1];
    if c < Count(leaves[..n - 1], leaf) {
      k := CountIsReached(leaves, n - 1, leaf, c);
    } else {
      k := n - 1;
    }
  }

  /** No two leaves share a location. */
  lemma LocationsDiffer(leaves: seq<Leaf>, j: nat, k: nat)
    requires j < k < |leaves| && Tidy(leaves[j]) && Tidy(leaves[k])
    ensures Location(leaves, j) != Location(leaves, k)
  {
    hide Count, InstanceName, Proper, AllLower;
    if Location(leaves, j) == Location(leaves, k) {
      LastOfEqual(leaves[j].path, NameOf(leaves, j), leaves[k].path, NameOf(leaves, k));
      InstancesDiffer(leaves[j].node.name, Count(leaves[..j], leaves[j]),
                      leaves[k].node.name, Count(leaves[..k], leaves[k]));
      CountOfAlike(leaves[..j], leaves[j], leaves[k]);
      CountGrows(leaves, j, k, leaves[k]);
    }
  }

  lemma LastOfEqual(p: seq<string>, x: string, q: seq<string>, y: string)
    requires p + [x] == q + [y]
    ensures p == q && x == y
  {
    assert (p + [x])[..|p|] == p && (q + [y])[..|q|] == q;
    assert |p + [x]| == |p| + 1 && |q + [y]| == |q| + 1;
    assert (p + [x])[|p|] == x && (q + [y])[|q|] == y;
  }

  /** A location leads into another leaf's root path or location only when it is that location. */
  lemma LocationsStandApart(leaf: Leaf, count: nat, path: seq<string>, name: string)
    requires Tidy(leaf) && IsRootPath(path)
    ensures var at := leaf.path + [InstanceName(leaf.node.name, count)];
            !(at <= path) && (at <= path + [name] ==> leaf.path == path)
  {
    hide InstanceName, AllLower, RecordFreeBelow, Proper;
    InstanceStrips(leaf.node.name, count);
    var last := InstanceName(leaf.node.name, count);
    var at := leaf.path + [last];
    if leaf.path == [] {
      assert at[0] == last;
      assert path != [] ==> (path + [name])[0] == path[0] == "processors";
    } else {
      assert |at| == 4;
      if at <= path + [name] {
        assert path + [name] == at + (path + [name])[|at|..];
        assert |path + [name]| == 4;
        LastOfEqual(leaf.path, last, path, name);
      }
    }
  }

  lemma KeyIsPath(tree: Node, path: seq<string>, name: string)
    ensures name in KeysAt(tree, path) <==> At(tree, path + [name]).Some?
  {
    AtConcat(tree, path, [name]);
    if At(tree, path).Some? {
      ChildAt(At(tree, path).value, name);
    }
  }

  lemma RootPathIsOpen(tree: Node, leaves: seq<Leaf>, path: seq<string>)
    requires Represents(tree, leaves) && IsRootPath(path)
    ensures Open(tree, path)
  {
    hide IsStored, IsRootPath, Tidy, NameOf;
    forall p: seq<string> | p <= path && p != [] && At(tree, p).Some? ensures !Closed(At(tree, p).value.kind) {
      assert Explained(tree, leaves, p);
      if k: nat :| k < |leaves| && Location(leaves, k) <= p {
        NotOnTheWay(leaves, k, path);
        assert false;
      }
    }
  }

  lemma NotOnTheWay(leaves: seq<Leaf>, k: nat, path: seq<string>)
    requires k < |leaves| && Tidy(leaves[k]) && IsRootPath(path)
    ensures !(Location(leaves, k) <= path)
  {
    hide InstanceName;
    LocationsStandApart(leaves[k], Count(leaves[..k], leaves[k]), path, "");
  }

  lemma NotInside(leaves: seq<Leaf>, k: nat, path: seq<string>, name: string)
    requires k < |leaves| && Tidy(leaves[k]) && IsRootPath(path)
    requires Location(leaves, k) <= path + [name]
    ensures Location(leaves, k) == path + [name]
  {
    hide InstanceName;
    LocationsStandApart(leaves[k], Count(leaves[..k], leaves[k]), path, name);
  }

  lemma NamePathIsNoRootPath(path: seq<string>, name: string, rootPath: seq<string>)
    requires IsRootPath(path) && IsRootPath(rootPath) && name != "processors"
    ensures !(path + [name] <= rootPath)
  {
    assert (path + [name])[0] == if path == [] then name else path[0];
  }

  /** A name that is no die path and exists below a root path is a leaf's. */
  lemma NameMeansLeaf(tree: Node, leaves: seq<Leaf>, path: seq<string>, name: string) returns (k: nat)
    requires Represents(tree, leaves) && IsRootPath(path) && name != "processors"
    requires At(tree, path + [name]).Some?
    ensures k < |leaves| && Location(leaves, k) == path + [name]
  {
    hide IsStored, IsRootPath, NameOf, At, Location;
    var q := path + [name];
    assert Explained(tree, leaves, q);
    if j: nat :| j < |leaves| && q <= leaves[j].path {
      NamePathIsNoRootPath(path, name, leaves[j].path);
    }
    k :| k < |leaves| && Location(leaves, k) <= q;
    NotInside(leaves, k, path, name);
  }

  /** The instances of a type that exist are those already counted. */
  lemma InstanceTaken(tree: Node, leaves: seq<Leaf>, leaf: Leaf, c: nat)
    requires Represents(tree, leaves) && Tidy(leaf)
    ensures InstanceName(leaf.node.name, c) in KeysAt(tree, leaf.path) <==> c < Count(leaves, leaf)
  {
    hide IsRootPath, At, KeysAt, Count, InstanceName, Proper, Explained, AllLower, RecordFreeBelow;
    var name := InstanceName(leaf.node.name, c);
    InstanceStrips(leaf.node.name, c);
    KeyIsPath(tree, leaf.path, name);
    assert leaves[..|leaves|] == leaves;
    if At(tree, leaf.path + [name]).Some? {
      var k := NameMeansLeaf(tree, leaves, leaf.path, name);
      LastOfEqual(leaves[k].path, NameOf(leaves, k), leaf.path, name);
      InstancesDiffer(leaves[k].node.name, Count(leaves[..k], leaves[k]), leaf.node.name, c);
      CountOfAlike(leaves[..k], leaves[k], leaf);
      CountGrows(leaves, k, |leaves|, leaf);
    }
    if c < Count(leaves, leaf) {
      var k := CountIsReached(leaves, |leaves|, leaf, c);
      CountOfAlike(leaves[..k], leaves[k], leaf);
      assert Location(leaves, k) == leaf.path + [name];
      assert IsStored(tree, leaves, k);
    }
  }

  /** The first free name is the next instance. */
  lemma NewNameIsNext(tree: Node, leaves: seq<Leaf>, leaf: Leaf)
    requires Represents(tree, leaves) && Tidy(leaf)
    ensures NewName(tree, leaf.path, leaf.node.name) == InstanceName(leaf.node.name, Count(leaves, leaf))
    ensures At(tree, leaf.path + [InstanceName(leaf.node.name, Count(leaves, leaf))]).None?
  {
    hide KeysAt, Count, Represents, Tidy, At, Instance;
    var keys, name, count := KeysAt(tree, leaf.path), leaf.node.name, Count(leaves, leaf);
    InstanceTaken(tree, leaves, leaf, 0);
    InstanceTaken(tree, leaves, leaf, count);
    KeyIsPath(tree, leaf.path, InstanceName(name, count));
    if name in keys {
      var r := LeastFree(keys, name, 0);
      InstanceTaken(tree, leaves, leaf, r + 1);
      if r > 0 {
        InstanceTaken(tree, leaves, leaf, r);
      }
    }
  }

  lemma OnlyRecordsClash(tree: Node, leaves: seq<Leaf>, leaf: Leaf)
    requires Represents(tree, leaves) && Tidy(leaf)
    ensures Clashes(tree, leaf.path, leaf.node.name)
  {
    hide IsRootPath, At, Count, NameOf, Explained, AllLower, RecordFreeBelow;
    if At(tree, leaf.path + [leaf.node.name]).Some? {
      var k := NameMeansLeaf(tree, leaves, leaf.path, leaf.node.name);
      assert IsStored(tree, leaves, k);
    }
  }

  lemma LocationOfPrefix(leaves: seq<Leaf>, leaf: Leaf, k: nat)
    requires k < |leaves|
    ensures Location(leaves + [leaf], k) == Location(leaves, k)
    ensures NameOf(leaves + [leaf], k) == NameOf(leaves, k)
  {
    assert (leaves + [leaf])[..k] == leaves[..k];
  }

  lemma LocationOfLast(leaves: seq<Leaf>, leaf: Leaf)
    ensures Location(leaves + [leaf], |leaves|) == leaf.path + [InstanceName(leaf.node.name, Count(leaves, leaf))]
    ensures NameOf(leaves + [leaf], |leaves|) == InstanceName(leaf.node.name, Count(leaves, leaf))
  {
    assert (leaves + [leaf])[..|leaves|] == leaves;
  }

  function MergeLeaf(tree: Node, leaf: Leaf): Node {
    Merge(tree, Placed(RootNode(), leaf.path, leaf.node))
  }

  lemma LeafMerged(tree: Node, leaves: seq<Leaf>, leaf: Leaf, q: seq<string>)
    requires Represents(tree, leaves) && Tidy(leaf)
    ensures MergedAt(tree, MergeLeaf(tree, leaf), leaf.path, leaf.node,
                     InstanceName(leaf.node.name, Count(leaves, leaf)), q)
  {
    hide Represents, MergedAt, Merge, Count, InstanceName, NewName, IsRootPath, RecordFreeBelow;
    RootPathIsOpen(tree, leaves, leaf.path);
    OnlyRecordsClash(tree, leaves, leaf);
    NewNameIsNext(tree, leaves, leaf);
    MergePlaced(tree, RootNode(), leaf.path, leaf.node, q);
  }

  /** A leaf merged earlier stays where it is. */
  lemma StaysStored(tree: Node, leaves: seq<Leaf>, leaf: Leaf, k: nat)
    requires Represents(tree, leaves) && Tidy(leaf) && k < |leaves|
    ensures IsStored(MergeLeaf(tree, leaf), leaves + [leaf], k)
  {
    hide MergeLeaf, Count, InstanceName, Explained, IsRootPath, RecordFreeBelow, Proper, NameOf, At;
    var q, at := Location(leaves, k), leaf.path + [InstanceName(leaf.node.name, Count(leaves, leaf))];
    assert IsStored(tree, leaves, k);
    LeafMerged(tree, leaves, leaf, q);
    LocationOfPrefix(leaves, leaf, k);
    NotOnTheWay(leaves, k, leaf.path);
    NewNameIsNext(tree, leaves, leaf);
    if at <= q {
      LocationOfLast(leaves, leaf);
      var all := leaves + [leaf];
      NotInside(all, |leaves|, leaves[k].path, NameOf(leaves, k));
      assert false;
    }
  }

  lemma BecomesStored(tree: Node, leaves: seq<Leaf>, leaf: Leaf)
    requires Represents(tree, leaves) && Tidy(leaf)
    ensures IsStored(MergeLeaf(tree, leaf), leaves + [leaf], |leaves|)
  {
    hide MergeLeaf, Count, InstanceName, Represents, Tidy, NameOf;
    var at := leaf.path + [InstanceName(leaf.node.name, Count(leaves, leaf))];
    LeafMerged(tree, leaves, leaf, at);
    LocationOfLast(leaves, leaf);
    assert at[|leaf.path| + 1..] == [];
  }

  lemma StaysExplained(tree: Node, leaves: seq<Leaf>, leaf: Leaf, q: seq<string>)
    requires Represents(tree, leaves) && Tidy(leaf) && At(MergeLeaf(tree, leaf), q).Some?
    ensures Explained(MergeLeaf(tree, leaf), leaves + [leaf], q)
  {
    hide MergeLeaf, Count, InstanceName, NameOf, At, Location, IsStored, Tidy;
    var all := leaves + [leaf];
    LeafMerged(tree, leaves, leaf, q);
    LocationOfLast(leaves, leaf);
    assert all[|leaves|] == leaf;
    if q != [] && At(tree, q).Some? {
      assert Explained(tree, leaves, q);
      if k: nat :| k < |leaves| && q <= leaves[k].path {
        assert q <= all[k].path;
      }
      if k: nat :| k < |leaves| && Location(leaves, k) <= q {
        LocationOfPrefix(leaves, leaf, k);
      }
    }
  }

  lemma LeafIsRepresented(tree: Node, leaves: seq<Leaf>, leaf: Leaf)
    requires Represents(tree, leaves) && Tidy(leaf)
    ensures Represents(MergeLeaf(tree, leaf), leaves + [leaf])
  {
    hide Tidy, IsStored, Explained;
    var after, all := MergeLeaf(tree, leaf), leaves + [leaf];
    MergeExtends(tree, Placed(RootNode(), leaf.path, leaf.node));
    forall k: nat | k < |all| ensures Tidy(all[k]) && IsStored(after, all, k) {
      if k < |leaves| {
        StaysStored(tree, leaves, leaf, k);
      } else {
        BecomesStored(tree, leaves, leaf);
      }
    }
    forall q | At(after, q).Some? ensures Explained(after, all, q) {
      StaysExplained(tree, leaves, leaf, q);
    }
  }

  // The tree of a crash log

  function LeafOf(record: Record): Leaf {
    Leaf(Segments(record), RecordNodeOf(record))
  }

  function LeavesOf(records: seq<Record>): (leaves: seq<Leaf>)
    ensures |leaves| == |records|
  {
    hide LeafOf;
    seq(|records|, k requires 0 <= k < |records| => LeafOf(records[k]))
  }

  lemma LeafIsTidy(record: Record)
    ensures Tidy(LeafOf(record))
  {
    hide IsRootPath, AllLower, Proper, Segments, HeaderNode, RecordFreeBelow, RecordTypeName;
    SegmentsAreKnown(record);
    NameIsProper(record);
    RecordNodeIsFreeBelow(record);
  }

  lemma {:induction false} LeavesAreRepresented(records: seq<Record>)
    ensures DecodeRecords(records).Some?
    ensures Represents(DecodeRecords(records).value, LeavesOf(records))
    decreases |records|
  {
    hide DecodeRecords, MergeLeaf, Tidy, Represents, LeafOf;
    if records == [] {
      NothingIsRepresented();
      assert LeavesOf(records) == [];
    } else {
      var before, last := records[..|records| - 1], records[|records| - 1];
      LeavesAreRepresented(before);
      LeafIsTidy(last);
      LeafIsRepresented(DecodeRecords(before).value, LeavesOf(before), LeafOf(last));
      assert LeavesOf(records) == LeavesOf(before) + [LeafOf(last)];
      DecodesLast(records);
    }
  }

  /** Decoding one more record merges one more leaf. */
  lemma DecodesLast(records: seq<Record>)
    requires records != [] && DecodeRecords(records[..|records| - 1]).Some?
    ensures DecodeRecords(records)
         == Some(MergeLeaf(DecodeRecords(records[..|records| - 1]).value, LeafOf(records[|records| - 1])))
  {
    hide DecodeRecord, Merge, Placed, Segments, RecordNodeOf;
    RecordIsPlaced(records[|records| - 1]);
  }

  lemma NothingIsRepresented()
    ensures DecodeRecords([]) == Some(RootNode())
    ensures Represents(RootNode(), [])
  {
    hide Location, IsStored, Tidy;
  }

  /** Where the tree of a log keeps the k-th record. */
  function RecordLocation(records: seq<Record>, k: nat): seq<string>
    requires k < |records|
  {
    Location(LeavesOf(records), k)
  }

  lemma LocationIsDotted(records: seq<Record>, k: nat)
    requires k < |records|
    ensures var path := Segments(records[k]) + [NameOf(LeavesOf(records), k)];
            Split(Join(path)) == path
  {
    hide Join, Split, Count, InstanceName, RecordNodeOf, RootPath;
    var leaves := LeavesOf(records);
    NameHasNoDot(records[k], Count(leaves[..k], leaves[k]));
    SplitJoin(Segments(records[k]) + [NameOf(leaves, k)]);
  }

  lemma NameHasNoDot(record: Record, count: nat)
    ensures '.' !in InstanceName(RecordNodeOf(record).name, count)
  {
    hide RecordNodeOf, Decimal, TypeName;
    NameByNumber(record);
    TypeNameHasNoDot(record.header.version.recordType);
    if count > 0 {
      DecimalReadsBack(count - 1);
    }
  }

  lemma TypeNameHasNoDot(recordType: int)
    ensures '.' !in TypeName(recordType)
  {
  }

  /**
   Every record of a log keeps a node of its own: the k-th of its root path and type is
   called type, type0, type1 and so on, and below that name is the tree its header gave.
   */
  lemma EveryRecordIsFound(records: seq<Record>, k: nat)
    requires k < |records|
    ensures DecodeRecords(records).Some?
    ensures var name := NameOf(LeavesOf(records), k);
            At(DecodeRecords(records).value, Segments(records[k]) + [name])
            == Some(RecordNodeOf(records[k]).(name := name))
    ensures var path := Segments(records[k]) + [NameOf(LeavesOf(records), k)];
            GetByPath(DecodeRecords(records).value, Join(path)) == At(DecodeRecords(records).value, path)
  {
    hide NameOf, Tidy, Segments, RecordNodeOf, At, Join, Split;
    LeavesAreRepresented(records);
    LocationIsDotted(records, k);
    assert IsStored(DecodeRecords(records).value, LeavesOf(records), k);
  }

  /** The record nodes of the tree are those, and no others; no two records share one. */
  lemma RecordNodesAreRecords(records: seq<Record>, q: seq<string>)
    ensures DecodeRecords(records).Some?
    ensures At(DecodeRecords(records).value, q).Some? && At(DecodeRecords(records).value, q).value.kind.Record?
       <==> exists k: nat | k < |records| :: RecordLocation(records, k) == q
    ensures forall j: nat, k: nat | j < k < |records| :: RecordLocation(records, j) != RecordLocation(records, k)
  {
    hide Location, NameOf, Tidy, DecodeRecords, At, LeafOf;
    LeavesAreRepresented(records);
    var tree, leaves := DecodeRecords(records).value, LeavesOf(records);
    if k: nat :| k < |records| && RecordLocation(records, k) == q {
      StoredIsRecord(tree, leaves, k);
    }
    if At(tree, q).Some? && At(tree, q).value.kind.Record? {
      assert Explained(tree, leaves, q);
      NotTheRoot(tree, q);
      var k: nat :| k < |leaves| && Location(leaves, k) <= q;
      RecordIsTopOfLeaf(tree, leaves, k, q);
      assert RecordLocation(records, k) == q;
    }
    forall j: nat, k: nat | j < k < |records| ensures RecordLocation(records, j) != RecordLocation(records, k) {
      LocationsDiffer(leaves, j, k);
    }
  }

  lemma StoredIsRecord(tree: Node, leaves: seq<Leaf>, k: nat)
    requires k < |leaves| && Tidy(leaves[k]) && IsStored(tree, leaves, k)
    ensures At(tree, Location(leaves, k)).Some? && At(tree, Location(leaves, k)).value.kind.Record?
  {
    hide NameOf, At, IsRootPath, AllLower, Proper, RecordFreeBelow;
  }

  lemma NotTheRoot(tree: Node, q: seq<string>)
    requires tree.kind == Root && At(tree, q).Some? && At(tree, q).value.kind.Record?
    ensures q != []
  {
  }

  /** No header holds a record, so a record node inside a leaf is the leaf itself. */
  lemma RecordIsTopOfLeaf(tree: Node, leaves: seq<Leaf>, k: nat, q: seq<string>)
    requires k < |leaves| && Tidy(leaves[k]) && IsStored(tree, leaves, k) && Location(leaves, k) <= q
    requires At(tree, q).Some? && At(tree, q).value.kind.Record?
    ensures q == Location(leaves, k)
  {
    hide NameOf, Location, Proper, IsRootPath, AllLower, RecordFree;
    var at := Location(leaves, k);
    var rest := q[|at|..];
    assert q == at + rest;
    AtConcat(tree, at, rest);
    if rest != [] {
      FreeBelow(leaves[k].node.(name := NameOf(leaves, k)), rest);
    }
  }

  lemma FreeBelow(node: Node, q: seq<string>)
    requires RecordFreeBelow(node) && q != [] && At(node, q).Some?
    ensures !At(node, q).value.kind.Record?
  {
    FreeInside(node.children[q[0]], q[1..]);
  }

  lemma {:induction false} FreeInside(node: Node, q: seq<string>)
    requires RecordFree(node) && At(node, q).Some?
    ensures !At(node, q).value.kind.Record?
    decreases |q|
  {
    if q != [] {
      FreeInside(node.children[q[0]], q[1..]);
    }
  }

  // What the tree shows of the data

  /** Below the node of a record there is its header, showing the bits of the record's own data. */
  lemma EveryHeaderIsShown(records: seq<Record>, k: nat)
    requires k < |records| && Parses(records[k].data) && Parsed(records[k].data) == records[k].header
    ensures DecodeRecords(records).Some?
    ensures var found := At(DecodeRecords(records).value, Segments(records[k]) + [NameOf(LeavesOf(records), k), "hdr"]);
            found.Some? && RawHeaders.ShowsHeader(found.value, records[k].data)
  {
    hide *;
    var record := records[k];
    var name := NameOf(LeavesOf(records), k);
    EveryRecordIsFound(records, k);
    var tree := DecodeRecords(records).value;
    HeaderBelow(record, name);
    AtConcat(tree, Segments(record) + [name], ["hdr"]);
    assert Segments(record) + [name, "hdr"] == Segments(record) + [name] + ["hdr"];
    HeaderFields.HeaderNodeIsBitFields(record.data);
    RawHeaders.HeaderNodeByNumber(record.data);
    ShownTogether(HeaderNode(record.header), record.data);
  }

  lemma ShownTogether(node: Node, data: seq<byte>)
    requires Parses(data) && HeaderFields.HeaderIsShown(node, Parsed(data), data) && RawHeaders.NumberIsShown(node, data)
    ensures RawHeaders.ShowsHeader(node, data)
  {
  }

  lemma HeaderBelow(record: Record, name: string)
    ensures At(RecordNodeOf(record).(name := name), ["hdr"]) == Some(HeaderNode(record.header))
    ensures RecordNodeOf(record).children.Keys == {"hdr"}
  {
    hide Lower, HeaderNode;
    HeaderFields.HeaderNodeIsSection(record.header);
    ChildAt(RecordNodeOf(record).(name := name), "hdr");
  }

  // What the names say

  function AlikeBefore(leaves: seq<Leaf>, n: nat, leaf: Leaf): set<int>
    requires n <= |leaves|
  {
    set j | 0 <= j < n && Alike(leaves[j], leaf)
  }

  lemma {:induction false} CountIsCardinality(leaves: seq<Leaf>, n: nat, leaf: Leaf)
    requires n <= |leaves|
    ensures Count(leaves[..n], leaf) == |AlikeBefore(leaves, n, leaf)|
    decreases n
  {
    if n == 0 {
      assert AlikeBefore(leaves, 0, leaf) == {};
    } else {
      CountIsCardinality(leaves, n - 1, leaf);
      assert leaves[..n][..n - 1] == leaves[..n - 1];
      var before := AlikeBefore(leaves, n - 1, leaf);
      assert AlikeBefore(leaves, n, leaf) == if Alike(leaves[n - 1], leaf) then before + {n - 1} else before;
    }
  }

  /** The earlier records with the same root path and type name. */
  function Earlier(records: seq<Record>, k: nat): set<int>
    requires k < |records|
  {
    set j | 0 <= j < k && Segments(records[j]) == Segments(records[k])
                 && RecordNodeOf(records[j]).name == RecordNodeOf(records[k]).name
  }

  /**
   The name of the first record of its root path and type is the type name; that of every
   other is the type name followed by the decimal number of those between it and the first.
   */
  lemma NameTellsCount(records: seq<Record>, k: nat)
    requires k < |records|
    ensures var name, kind, n := NameOf(LeavesOf(records), k), RecordNodeOf(records[k]).name, |Earlier(records, k)|;
            if n == 0 then name == kind
            else |name| > |kind| && name[..|kind|] == kind && Reads(name[|kind|..]) == n - 1
                 && (n > 1 ==> name[|kind|] != '0')
  {
    hide Segments, RecordNodeOf, Decimal, Reads;
    var leaves := LeavesOf(records);
    CountIsCardinality(leaves, k, leaves[k]);
    assert AlikeBefore(leaves, k, leaves[k]) == Earlier(records, k);
    var n, kind := |Earlier(records, k)|, RecordNodeOf(records[k]).name;
    if n > 0 {
      DecimalReadsBack(n - 1);
      assert (kind + Decimal(n - 1))[|kind|..] == Decimal(n - 1);
    }
  }

  /** The die segments tell the numbers of the socket and of the die. */
  lemma DieSegmentsTell(socketId: nat, dieId: nat)
    ensures var path := DieSegments(socketId, dieId);
            && |path| == 3 && path[0] == "processors" && |path[1]| > 3 && |path[2]| > 3
            && path[1][..3] == "cpu" && Reads(path[1][3..]) == socketId
            && path[2][..3] == "die" && Reads(path[2][3..]) == dieId
  {
    hide Decimal, Reads;
    DecimalReadsBack(socketId);
    DecimalReadsBack(dieId);
    assert ("cpu" + Decimal(socketId))[3..] == Decimal(socketId);
    assert ("die" + Decimal(dieId))[3..] == Decimal(dieId);
  }

  /** The name of a record node, by the number of the record type. */
  function TypeName(recordType: int): string {
    match recordType
    case 0x1 => "pmc"
    case 0x2 => "pmc_fw_trace"
    case 0x3 => "punit"
    case 0x4 => "pcore"
    case 0x6 => "ecore"
    case 0x8 => "uncore"
    case 0x11 => "pmc_trace"
    case 0x16 => "tcss"
    case 0x17 => "pmc_rst"
    case 0x19 => "pcode"
    case 0x1C => "crashlog_agent"
    case 0x3D => "box"
    case 0x3E => "mca"
    case _ => "record"
  }

  lemma NameByNumber(record: Record)
    ensures RecordNodeOf(record).name == TypeName(record.header.version.recordType)
    ensures RecordNodeOf(record).kind == Kind.Record
  {
    hide Lower;
    var name := RecordName(record);
    LowerIsCharwise(name);
    NamesMatch(record);
    assert Lower(name) == TypeName(record.header.version.recordType);
  }

  predicate IsLowerOf(name: string, low: string) {
    |name| == |low| && forall i | 0 <= i < |name| :: LowerChar(name[i]) == low[i]
  }

  lemma ShortNames()
    ensures IsLowerOf("PMC", "pmc") && IsLowerOf("Punit", "punit") && IsLowerOf("PCORE", "pcore")
    ensures IsLowerOf("ECORE", "ecore") && IsLowerOf("UNCORE", "uncore") && IsLowerOf("TCSS", "tcss")
    ensures IsLowerOf("PCODE", "pcode") && IsLowerOf("BOX", "box") && IsLowerOf("MCA", "mca")
  {
  }

  lemma LongNames()
    ensures IsLowerOf("PMC_FW_Trace", "pmc_fw_trace") && IsLowerOf("PMC_TRACE", "pmc_trace")
    ensures IsLowerOf("PMC_RST", "pmc_rst") && IsLowerOf("CRASHLOG_AGENT", "crashlog_agent")
    ensures IsLowerOf("record", "record")
  {
  }

  lemma NamesMatch(record: Record)
    ensures IsLowerOf(RecordName(record), TypeName(record.header.version.recordType))
  {
    hide IsLowerOf;
    ShortNames();
    LongNames();
  }
}
