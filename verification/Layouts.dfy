/** Layout interpretation (lib/src/record/decode.rs, `decode_with_csv`). */
module Layouts {
  import opened Results
  import opened Bytes
  import opened Names
  import opened Nodes
  import Fields

  /** A line of the layout, its cells already split and its numbers already read. */
  datatype Entry = Entry(name: string, offset: nat, size: nat, description: string)

  // The path machine

  /** One step back for an empty segment, one step down for a name. */
  function Step(path: seq<string>, segment: string): seq<string> {
    if segment != "" then path + [segment]
    else if path == [] then []
    else path[..|path| - 1]
  }

  function Walk(path: seq<string>, segments: seq<string>): seq<string>
    decreases |segments|
  {
    if segments == [] then path else Walk(Step(path, segments[0]), segments[1..])
  }

  predicate IsAbsolute(name: string) {
    Split(name)[0] != ""
  }

  /** The path a name stands for, given the path of the entry before it. */
  function Resolve(current: seq<string>, name: string): seq<string> {
    var segments := Split(name);
    Walk(if segments[0] != "" then [segments[0]] else current, segments[1..])
  }

  predicate Clean(path: seq<string>) {
    forall name <- path :: name != "" && '.' !in name
  }

  lemma CleanRest(names: seq<string>)
    requires names != [] && Clean(names)
    ensures Clean(names[1..])
  {
    forall name | name in names[1..] ensures name != "" && '.' !in name {
      assert name in names;
    }
  }

  lemma {:induction false} WalkDown(path: seq<string>, names: seq<string>)
    requires Clean(names)
    ensures Walk(path, names) == path + names
    decreases |names|
  {
    if names != [] {
      assert names[0] in names;
      CleanRest(names);
      WalkDown(path + [names[0]], names[1..]);
    }
  }

  // What names stand for

  function Dots(n: nat): string {
    seq(n, _ => '.')
  }

  /** The path without its last `k` names, or the empty path when there are fewer. */
  function Up(path: seq<string>, k: nat): seq<string> {
    if k <= |path| then path[..|path| - k] else []
  }

  function Blanks(n: nat): seq<string> {
    seq(n, _ => "")
  }

  lemma {:induction false} WalkUp(path: seq<string>, k: nat, segments: seq<string>)
    ensures Walk(path, Blanks(k) + segments) == Walk(Up(path, k), segments)
    decreases k
  {
    if k == 0 {
      assert Blanks(0) + segments == segments;
      assert path[..|path|] == path;
    } else {
      assert (Blanks(k) + segments)[0] == "";
      assert (Blanks(k) + segments)[1..] == Blanks(k - 1) + segments;
      WalkUp(Step(path, ""), k - 1, segments);
      assert Up(Step(path, ""), k - 1) == Up(path, k);
    }
  }

  lemma {:induction false} WalkOn(path: seq<string>, a: seq<string>, b: seq<string>)
    ensures Walk(path, a + b) == Walk(Walk(path, a), b)
    decreases |a|
  {
    if a == [] {
      assert a + b == b;
    } else {
      assert (a + b)[1..] == a[1..] + b;
      WalkOn(Step(path, a[0]), a[1..], b);
    }
  }

  lemma {:induction false} SplitDots(k: nat, rest: string)
    ensures Split(Dots(k) + rest) == Blanks(k) + Split(rest)
  {
    hide Split;
    if k == 0 {
      assert Dots(0) + rest == rest;
    } else {
      SplitDots(k - 1, rest);
      SplitAtDot("", Dots(k - 1) + rest);
      assert Dots(k) + rest == "" + "." + (Dots(k - 1) + rest);
      assert Blanks(k) + Split(rest) == [""] + (Blanks(k - 1) + Split(rest));
    }
  }

  lemma CleanSplits(names: seq<string>)
    requires names != [] && Clean(names)
    ensures Split(Join(names)) == names
  {
    SplitJoin(names);
  }

  /** A name that starts with k + 1 dots leaves k names of the path before it, then goes down its own. */
  lemma RelativeName(path: seq<string>, k: nat, names: seq<string>)
    requires names != [] && Clean(names)
    ensures Resolve(path, Dots(k + 1) + Join(names)) == Up(path, k) + names
    ensures !IsAbsolute(Dots(k + 1) + Join(names))
  {
    hide Split, Join;
    CleanSplits(names);
    SplitDots(k + 1, Join(names));
    assert (Blanks(k + 1) + names)[1..] == Blanks(k) + names;
    WalkUp(path, k, names);
    WalkDown(Up(path, k), names);
  }

  /** A name that starts with none forgets the path before it. */
  lemma AbsoluteName(path: seq<string>, names: seq<string>)
    requires names != [] && Clean(names)
    ensures Resolve(path, Join(names)) == names
    ensures IsAbsolute(Join(names)) && Split(Join(names))[0] == names[0]
  {
    hide Split, Join;
    assert names[0] in names;
    CleanSplits(names);
    CleanRest(names);
    WalkDown([names[0]], names[1..]);
    assert names == [names[0]] + names[1..];
  }

  /** More than one dot inside a name goes up as many times, less one. */
  lemma DotsInside(path: seq<string>, names: seq<string>, k: nat, more: seq<string>)
    requires names != [] && Clean(names) && more != [] && Clean(more)
    ensures Resolve(path, Join(names) + "." + Dots(k) + Join(more)) == Up(names, k) + more
  {
    hide Split, Join;
    assert names[0] in names;
    CleanRest(names);
    SplitJoined(names, Dots(k) + Join(more));
    assert Join(names) + "." + Dots(k) + Join(more) == Join(names) + "." + (Dots(k) + Join(more));
    CleanSplits(more);
    SplitDots(k, Join(more));
    assert (names + (Blanks(k) + more))[1..] == names[1..] + (Blanks(k) + more);
    WalkOn([names[0]], names[1..], Blanks(k) + more);
    WalkDown([names[0]], names[1..]);
    assert names == [names[0]] + names[1..];
    WalkUp(names, k, more);
    WalkDown(Up(names, k), more);
  }

  lemma {:induction false} SplitJoined(names: seq<string>, rest: string)
    requires names != [] && Clean(names)
    ensures Split(Join(names) + "." + rest) == names + Split(rest)
  {
    hide Split;
    assert names[0] in names;
    if |names| == 1 {
      SplitAtDot(names[0], rest);
    } else {
      CleanRest(names);
      SplitJoined(names[1..], rest);
      SplitAtDot(names[0], Join(names[1..]) + "." + rest);
      assert Join(names) + "." + rest == names[0] + "." + (Join(names[1..]) + "." + rest);
    }
  }

  /** What an entry asks of the tree: a top-level record, a path, a description, some bits and their value. */
  datatype Item = Item(
    top: Option<string>,
    path: seq<string>,
    description: string,
    offset: nat,
    size: nat,
    value: Option<u64>
  )

  function ItemOf(entry: Entry, current: seq<string>, data: seq<byte>, base: nat): Item {
    Item(
      if IsAbsolute(entry.name) then Some(Split(entry.name)[0]) else None,
      Resolve(current, entry.name),
      entry.description,
      base * 8 + entry.offset,
      entry.size,
      Fields.Field(data, base * 8 + entry.offset, entry.size)
    )
  }

  /** The items of the entries that have a name, each path resolved after the one before. */
  function Items(entries: seq<Entry>, current: seq<string>, data: seq<byte>, base: nat): seq<Item>
    decreases |entries|
  {
    if entries == [] then []
    else if entries[0].name == "" then Items(entries[1..], current, data, base)
    else
      var item := ItemOf(entries[0], current, data, base);
      [item] + Items(entries[1..], item.path, data, base)
  }

  /** The entries that have a name. */
  function Named(entries: seq<Entry>): seq<Entry> {
    if entries == [] then []
    else (if entries[0].name == "" then [] else [entries[0]]) + Named(entries[1..])
  }

  /**
   Every entry with a name becomes an item, in order, and its name is resolved from the
   path of the item before it.
   */
  lemma {:induction false} PathsFollowOn(entries: seq<Entry>, current: seq<string>, data: seq<byte>, base: nat, i: nat)
    requires i < |Named(entries)|
    ensures |Items(entries, current, data, base)| == |Named(entries)|
    ensures var items, entry := Items(entries, current, data, base), Named(entries)[i];
            && items[i].path == Resolve(if i == 0 then current else items[i - 1].path, entry.name)
            && items[i].description == entry.description
            && items[i].value == Fields.Field(data, 8 * base + entry.offset, entry.size)
            && (items[i].top.Some? <==> !("." <= entry.name))
    decreases |entries|
  {
    hide Resolve, Split, Fields.Field;
    ItemsAreNamed(entries, current, data, base);
    if entries[0].name == "" {
      PathsFollowOn(entries[1..], current, data, base, i);
    } else {
      FirstDot(entries[0].name);
      var item := ItemOf(entries[0], current, data, base);
      if i > 0 {
        PathsFollowOn(entries[1..], item.path, data, base, i - 1);
      }
    }
  }

  lemma FirstDot(name: string)
    requires name != ""
    ensures IsAbsolute(name) <==> !("." <= name)
  {
  }

  lemma {:induction false} ItemsAreNamed(entries: seq<Entry>, current: seq<string>, data: seq<byte>, base: nat)
    ensures |Items(entries, current, data, base)| == |Named(entries)|
    decreases |entries|
  {
    hide Resolve, Split, Fields.Field;
    if entries != [] {
      var path := if entries[0].name == "" then current else Resolve(current, entries[0].name);
      ItemsAreNamed(entries[1..], path, data, base);
    }
  }

  // The tree

  lemma {:induction false} HierarchyHasPath(self: Node, path: seq<string>)
    requires CreateHierarchy(self, path).Some?
    ensures At(CreateHierarchy(self, path).value, path).Some?
    decreases |path|
  {
    if path != [] {
      var grown := if path[0] in self.children then self else Add(self, SectionNode(path[0]));
      HierarchyHasPath(grown.children[path[0]], path[1..]);
    }
  }

  function WithTop(root: Node, top: Option<string>): Node {
    if top.Some? && top.value !in root.children then Add(root, RecordNode(top.value)) else root
  }

  function Filled(node: Node, item: Item): Node {
    node.(description := item.description, kind := if item.value.Some? then Field(item.value.value) else node.kind)
  }

  /** One entry put into the tree; nothing where the source panics. */
  function Apply(root: Node, item: Item): Option<Node> {
    var grown :- CreateHierarchy(WithTop(root, item.top), item.path);
    HierarchyHasPath(WithTop(root, item.top), item.path);
    Some(ReplaceAt(grown, item.path, Filled(At(grown, item.path).value, item)))
  }

  function Build(items: seq<Item>): Option<Node>
    decreases |items|
  {
    if items == [] then Some(RootNode())
    else
      var before :- Build(items[..|items| - 1]);
      Apply(before, items[|items| - 1])
  }

  function Decode(entries: seq<Entry>, data: seq<byte>, base: nat): Option<Node> {
    Build(Items(entries, [], data, base))
  }

  // What each path of the tree holds

  /** The entry mentions the path: on the way to its own, or as its top-level name. */
  predicate Touches(item: Item, q: seq<string>) {
    q <= item.path || (item.top.Some? && q == [item.top.value])
  }

  predicate Known(items: seq<Item>, q: seq<string>) {
    q == [] || exists item <- items :: Touches(item, q)
  }

  /** The value of the last readable entry at the path, else what the first mention made of it. */
  function KindAt(items: seq<Item>, q: seq<string>): Kind
    decreases |items|
  {
    if items == [] then Root
    else
      var before, last := items[..|items| - 1], items[|items| - 1];
      if last.path == q && last.value.Some? then Field(last.value.value)
      else if Known(before, q) then KindAt(before, q)
      else if last.top.Some? && q == [last.top.value] then Record
      else Section
  }

  /** The description of the last entry at the path. */
  function DescriptionAt(items: seq<Item>, q: seq<string>): string
    decreases |items|
  {
    if items == [] then ""
    else if items[|items| - 1].path == q then items[|items| - 1].description
    else DescriptionAt(items[..|items| - 1], q)
  }

  function NameAt(q: seq<string>): string {
    if q == [] then "" else q[|q| - 1]
  }

  predicate Lowercase(items: seq<Item>) {
    forall item <- items :: AllLower(item.path) && (item.top.Some? ==> IsLower(item.top.value))
  }

  predicate Labelled(node: Option<Node>, name: string, description: string, kind: Kind) {
    node.Some? && node.value.name == name && node.value.description == description && node.value.kind == kind
  }

  predicate SameAt(a: Node, b: Node, q: seq<string>) {
    && (At(a, q).Some? <==> At(b, q).Some?)
    && (At(a, q).Some? ==> Same(At(a, q).value, At(b, q).value))
  }

  lemma {:induction false} HierarchyAt(self: Node, path: seq<string>, q: seq<string>)
    requires AllLower(path)
    ensures CreateHierarchy(self, path).Some?
    ensures var after := CreateHierarchy(self, path).value;
            && (At(after, q).Some? <==> At(self, q).Some? || q <= path)
            && (At(self, q).Some? ==> SameAt(self, after, q))
            && (At(self, q).None? && q <= path ==> Labelled(At(after, q), NameAt(q), "", Section))
    decreases |path|
  {
    if path != [] {
      var grown := if path[0] in self.children then self else Add(self, SectionNode(path[0]));
      assert IsLower(path[0]);
      var child := grown.children[path[0]];
      HierarchyAt(child, path[1..], if q == [] then [] else q[1..]);
      if q != [] && q[0] == path[0] {
        assert q <= path <==> q[1..] <= path[1..];
        if |q| > 1 {
          assert NameAt(q) == NameAt(q[1..]);
        }
      }
    }
  }

  /** A record added at the top replaces what was stored under its lowercase name. */
  lemma TopAt(root: Node, top: string, q: seq<string>)
    ensures var after := Add(root, RecordNode(top));
            && (q == [Lower(top)] ==> Labelled(At(after, q), Lower(top), "", Record))
            && (q != [] && q[0] == Lower(top) && q != [Lower(top)] ==> At(after, q).None?)
            && (q == [] || q[0] != Lower(top) ==> SameAt(root, after, q))
  {
    if q != [] && q[0] == Lower(top) {
      assert q == [Lower(top)] + q[1..];
      assert At(RecordNode(top), q[1..]).Some? <==> q[1..] == [];
    }
  }

  lemma {:induction false} ReplacedAt(root: Node, path: seq<string>, node: Node, q: seq<string>)
    requires At(root, path).Some? && node.children == At(root, path).value.children
    ensures var after := ReplaceAt(root, path, node);
            && (q != path ==> SameAt(root, after, q))
            && At(after, path) == Some(node)
    decreases |path|
  {
    if path == [] {
      if q != [] && q[0] in root.children {
        assert At(root, q) == At(node, q);
      }
    } else {
      var below := if q == [] then path[1..] else q[1..];
      ReplacedAt(root.children[path[0]], path[1..], node, below);
      if q != [] && q[0] == path[0] && q != path {
        assert q == [q[0]] + q[1..] && path == [path[0]] + path[1..];
      }
    }
  }

  /** The tree holds at the path what the entries say. */
  predicate Holds(root: Node, items: seq<Item>, q: seq<string>) {
    && (At(root, q).Some? <==> Known(items, q))
    && (Known(items, q) ==> Labelled(At(root, q), NameAt(q), DescriptionAt(items, q), KindAt(items, q)))
  }

  lemma KnownSnoc(before: seq<Item>, last: Item, q: seq<string>)
    ensures Known(before + [last], q) <==> Known(before, q) || Touches(last, q)
    ensures (before + [last])[..|before + [last]| - 1] == before
  {
    var items := before + [last];
    assert items[..|items| - 1] == before;
    assert items[|items| - 1] == last;
    if item :| item in before && Touches(item, q) {
      assert item in items;
    }
    if Touches(last, q) {
      assert last in items;
    }
  }

  /** An entry never seen at a path has no description there. */
  lemma {:induction false} UnknownIsBlank(items: seq<Item>, q: seq<string>)
    requires !Known(items, q)
    ensures DescriptionAt(items, q) == ""
    decreases |items|
  {
    if items != [] {
      var before, last := items[..|items| - 1], items[|items| - 1];
      assert items == before + [last];
      KnownSnoc(before, last, q);
      UnknownIsBlank(before, q);
    }
  }

  /** The tree once the top-level name of an entry is there, before its path is created. */
  predicate Topped(topped: Node, before: seq<Item>, top: Option<string>, q: seq<string>) {
    && (At(topped, q).Some? <==> Known(before, q) || (top.Some? && q == [top.value]))
    && (At(topped, q).Some? ==>
          Labelled(At(topped, q), NameAt(q), DescriptionAt(before, q),
                   if Known(before, q) then KindAt(before, q) else Record))
  }

  lemma FinishHolds(topped: Node, before: seq<Item>, item: Item, q: seq<string>)
    requires AllLower(item.path) && Topped(topped, before, item.top, q)
    ensures CreateHierarchy(topped, item.path).Some?
    ensures At(CreateHierarchy(topped, item.path).value, item.path).Some?
    ensures var grown := CreateHierarchy(topped, item.path).value;
            Holds(ReplaceAt(grown, item.path, Filled(At(grown, item.path).value, item)), before + [item], q)
  {
    var items := before + [item];
    KnownSnoc(before, item, q);
    if !Known(before, q) {
      UnknownIsBlank(before, q);
    }
    assert items[|items| - 1] == item;
    HierarchyAt(topped, item.path, q);
    var grown := CreateHierarchy(topped, item.path).value;
    HierarchyHasPath(topped, item.path);
    ReplacedAt(grown, item.path, Filled(At(grown, item.path).value, item), q);
  }

  // Names with upper-case letters that the path leaves again

  /** A top-level name that is not in lower case: its record is always added anew. */
  predicate Resets(item: Item, q: seq<string>) {
    item.top.Some? && !IsLower(item.top.value) && q != [] && q[0] == Lower(item.top.value)
  }

  function Lowered(item: Item): Item {
    if item.top.Some? then item.(top := Some(Lower(item.top.value))) else item
  }

  /** The entries that still matter at the path: those from the last reset on. */
  function Since(items: seq<Item>, q: seq<string>): seq<Item>
    decreases |items|
  {
    if items == [] then []
    else
      var before, last := items[..|items| - 1], items[|items| - 1];
      (if Resets(last, q) then [] else Since(before, q)) + [Lowered(last)]
  }

  ghost predicate LowerKeys(node: Node) {
    forall k <- node.children :: IsLower(k) && LowerKeys(node.children[k])
  }

  lemma ToppedSince(root: Node, before: seq<Item>, item: Item, q: seq<string>)
    requires LowerKeys(root) && Holds(root, before, q)
    ensures Topped(WithTop(root, item.top), if Resets(item, q) then [] else before, Lowered(item).top, q)
  {
    hide KindAt, DescriptionAt, Lower;
    NothingKnown(q);
    if !Known(before, q) {
      UnknownIsBlank(before, q);
    }
    if item.top.Some? {
      var top := item.top.value;
      TopAt(root, top, q);
      if top in root.children {
        ChildAt(root, top);
      }
    }
  }

  lemma NothingKnown(q: seq<string>)
    ensures Known([], q) <==> q == []
    ensures DescriptionAt([], q) == ""
  {
  }

  lemma SnocDecomposes(items: seq<Item>)
    requires items != []
    ensures items == items[..|items| - 1] + [items[|items| - 1]]
  {
  }

  predicate LowerPaths(items: seq<Item>) {
    forall item <- items :: AllLower(item.path)
  }

  /**
   The whole tree of any layout that decodes at all, path by path. A top-level name in
   other than lower case forgets what was stored under its lowercase form; from there on
   the tree holds at each path what the entries say.
   */
  lemma {:induction false} ResettingTree(items: seq<Item>)
    requires LowerPaths(items)
    ensures Build(items).Some?
    ensures forall q :: Holds(Build(items).value, Since(items, q), q)
    decreases |items|
  {
    if items == [] {
      forall q: seq<string> ensures Holds(RootNode(), Since(items, q), q) {
        if q != [] {
          assert At(RootNode(), q).None?;
        }
      }
    } else {
      var before, last := items[..|items| - 1], items[|items| - 1];
      SnocDecomposes(items);
      assert last in items;
      ResettingTree(before);
      DecodePanics(before);
      var root := Build(before).value;
      HierarchyIsThere(root, last);
      forall q ensures Holds(Apply(root, last).value, Since(items, q), q) {
        AppliedSince(root, before, last, q);
      }
    }
  }

  lemma HierarchyIsThere(root: Node, item: Item)
    requires AllLower(item.path)
    ensures Apply(root, item).Some?
  {
    HierarchyAt(WithTop(root, item.top), item.path, []);
    HierarchyHasPath(WithTop(root, item.top), item.path);
  }

  lemma AppliedSince(root: Node, before: seq<Item>, item: Item, q: seq<string>)
    requires LowerKeys(root) && AllLower(item.path) && Apply(root, item).Some?
    requires Holds(root, Since(before, q), q)
    ensures Holds(Apply(root, item).value, Since(before + [item], q), q)
  {
    hide Holds, Topped, KindAt, DescriptionAt, Lowered, Resets;
    var kept := if Resets(item, q) then [] else Since(before, q);
    assert (before + [item])[..|before|] == before;
    assert Since(before + [item], q) == kept + [Lowered(item)];
    ToppedSince(root, Since(before, q), item, q);
    LoweredIsFilled(item);
    FinishHolds(WithTop(root, item.top), kept, Lowered(item), q);
  }

  lemma LoweredIsFilled(item: Item)
    ensures Lowered(item).path == item.path
    ensures forall node :: Filled(node, Lowered(item)) == Filled(node, item)
  {
  }

  function LoweredAll(items: seq<Item>): (r: seq<Item>)
    ensures |r| == |items|
    ensures forall i | 0 <= i < |items| :: r[i] == Lowered(items[i])
  {
    seq(|items|, i requires 0 <= i < |items| => Lowered(items[i]))
  }

  /** What still matters is what comes last. */
  lemma {:induction false} SinceIsSuffix(items: seq<Item>, q: seq<string>) returns (start: nat)
    ensures start <= |items| && Since(items, q) == LoweredAll(items[start..])
    decreases |items|
  {
    hide Lowered, Resets;
    if items == [] {
      start := 0;
    } else {
      var before, last := items[..|items| - 1], items[|items| - 1];
      if Resets(last, q) {
        start := |items| - 1;
        assert LoweredAll(items[start..]) == [] + [Lowered(last)];
      } else {
        start := SinceIsSuffix(before, q);
        assert items[start..] == before[start..] + [last];
        assert LoweredAll(before[start..] + [last]) == LoweredAll(before[start..]) + [Lowered(last)];
      }
    }
  }

  /** Nothing is forgotten when every name is in lower case. */
  lemma {:induction false} SinceTheStart(items: seq<Item>, q: seq<string>)
    requires Lowercase(items)
    ensures Since(items, q) == items
    decreases |items|
  {
    if items != [] {
      var before, last := items[..|items| - 1], items[|items| - 1];
      SnocDecomposes(items);
      assert last in items;
      SinceTheStart(before, q);
    }
  }

  /**
   All the entries matter at every path exactly when top-level names are in lower case
   too: then the tree exists exactly where an entry or a top-level name leads, and every
   node has its name, the last description and the last value.
   */
  lemma DecodedTree(items: seq<Item>)
    requires LowerPaths(items)
    ensures Build(items).Some?
    ensures (forall q :: Holds(Build(items).value, items, q)) <==> Lowercase(items)
  {
    hide Holds, Build, Since, IsLower;
    ResettingTree(items);
    if Lowercase(items) {
      forall q ensures Holds(Build(items).value, items, q) {
        SinceTheStart(items, q);
      }
    }
    DecodePanics(items);
    forall item | item in items && item.top.Some? && !IsLower(item.top.value)
      ensures !Holds(Build(items).value, items, [item.top.value])
    {
      UpperCaseIsNowhere(Build(items).value, items, item);
    }
  }

  /** A tree of lowercase names has no node where such a name would lead. */
  lemma UpperCaseIsNowhere(root: Node, items: seq<Item>, item: Item)
    requires LowerKeys(root) && item in items && item.top.Some? && !IsLower(item.top.value)
    ensures !Holds(root, items, [item.top.value])
  {
    hide IsLower, KindAt, DescriptionAt;
    assert Touches(item, [item.top.value]);
    ChildAt(root, item.top.value);
  }

  // The kind of a node, in one sentence each

  /** Entry `i` is the last readable one at the path. */
  predicate LastReadable(items: seq<Item>, q: seq<string>, i: nat) {
    && i < |items| && items[i].path == q && items[i].value.Some?
    && forall j | i < j < |items| :: items[j].path == q ==> items[j].value.None?
  }

  /** Entry `i` is the first to mention the path. */
  predicate FirstTouch(items: seq<Item>, q: seq<string>, i: nat) {
    && i < |items| && Touches(items[i], q)
    && forall j | 0 <= j < i :: !Touches(items[j], q)
  }

  predicate Unreadable(items: seq<Item>, q: seq<string>) {
    forall item <- items :: item.path == q ==> item.value.None?
  }

  /** What the last entry leaves at a path. */
  function KindAfter(before: seq<Item>, last: Item, q: seq<string>): Kind {
    if last.path == q && last.value.Some? then Field(last.value.value)
    else if Known(before, q) then KindAt(before, q)
    else if last.top.Some? && q == [last.top.value] then Record
    else Section
  }

  lemma KindStep(items: seq<Item>, q: seq<string>)
    requires items != []
    ensures KindAt(items, q) == KindAfter(items[..|items| - 1], items[|items| - 1], q)
  {
  }

  lemma {:induction false} LastValueWins(items: seq<Item>, q: seq<string>, i: nat)
    requires LastReadable(items, q, i)
    ensures KindAt(items, q) == Field(items[i].value.value)
    decreases |items|
  {
    hide KindAt;
    var before, last := items[..|items| - 1], items[|items| - 1];
    KindStep(items, q);
    if i < |items| - 1 {
      assert before[i] == items[i];
      assert Touches(before[i], q);
      LastValueWins(before, q, i);
    }
  }

  /** A node has the description of the last entry at its path. */
  lemma {:induction false} LastDescriptionWins(items: seq<Item>, q: seq<string>, i: nat)
    requires i < |items| && items[i].path == q
    requires forall j | i < j < |items| :: items[j].path != q
    ensures DescriptionAt(items, q) == items[i].description
    decreases |items|
  {
    if i < |items| - 1 {
      LastDescriptionWins(items[..|items| - 1], q, i);
    }
  }

  lemma {:induction false} NoEntryNoDescription(items: seq<Item>, q: seq<string>)
    requires forall item <- items :: item.path != q
    ensures DescriptionAt(items, q) == ""
    decreases |items|
  {
    if items != [] {
      SnocDecomposes(items);
      assert items[|items| - 1] in items;
      NoEntryNoDescription(items[..|items| - 1], q);
    }
  }

  /** Without a value, a node is a record when an absolute entry named it first, at the top. */
  lemma {:induction false} FirstMentionDecides(items: seq<Item>, q: seq<string>, i: nat)
    requires Unreadable(items, q)
    requires q != [] && FirstTouch(items, q, i)
    ensures KindAt(items, q) == if items[i].top.Some? && q == [items[i].top.value] then Record else Section
    decreases |items|
  {
    hide KindAt, Touches;
    var before, last := items[..|items| - 1], items[|items| - 1];
    KindStep(items, q);
    assert last in items;
    if i < |items| - 1 {
      assert before[i] == items[i] && Touches(before[i], q);
      assert Known(before, q);
      EarlierToo(items, q, i);
      FirstMentionDecides(before, q, i);
    } else {
      NotBefore(items, q);
    }
  }

  lemma EarlierToo(items: seq<Item>, q: seq<string>, i: nat)
    requires i < |items| - 1 && Unreadable(items, q) && FirstTouch(items, q, i)
    ensures Unreadable(items[..|items| - 1], q) && FirstTouch(items[..|items| - 1], q, i)
  {
    hide Touches;
    SnocDecomposes(items);
  }

  lemma NotBefore(items: seq<Item>, q: seq<string>)
    requires q != [] && items != [] && FirstTouch(items, q, |items| - 1)
    ensures !Known(items[..|items| - 1], q)
  {
    hide Touches;
    var before := items[..|items| - 1];
    forall item | item in before ensures !Touches(item, q) {
      var j :| 0 <= j < |before| && before[j] == item;
      assert items[j] == item;
    }
  }

  lemma {:induction false} RootKeepsKind(items: seq<Item>)
    requires Unreadable(items, [])
    ensures KindAt(items, []) == Root
    decreases |items|
  {
    if items != [] {
      assert items[|items| - 1] in items;
      SnocDecomposes(items);
      RootKeepsKind(items[..|items| - 1]);
    }
  }

  /** There is a first mention, and a last readable entry when there is any. */
  lemma {:induction false} FirstTouchExists(items: seq<Item>, q: seq<string>) returns (i: nat)
    requires q != [] && Known(items, q)
    ensures FirstTouch(items, q, i)
    decreases |items|
  {
    var before, last := items[..|items| - 1], items[|items| - 1];
    SnocDecomposes(items);
    KnownSnoc(before, last, q);
    if Known(before, q) {
      i := FirstTouchExists(before, q);
    } else {
      i := |items| - 1;
      forall j | 0 <= j < i ensures !Touches(items[j], q) {
        assert items[j] in before;
      }
    }
  }

  lemma {:induction false} LastReadableExists(items: seq<Item>, q: seq<string>) returns (i: nat)
    requires !Unreadable(items, q)
    ensures LastReadable(items, q, i)
    decreases |items|
  {
    var before, last := items[..|items| - 1], items[|items| - 1];
    SnocDecomposes(items);
    if last.path == q && last.value.Some? {
      i := |items| - 1;
    } else {
      i := LastReadableExists(before, q);
    }
  }

  /** The first named entry is absolute, and no entry leaves its top-level name. */
  predicate WellRooted(items: seq<Item>) {
    forall i | 0 <= i < |items| ::
      && items[i].path != []
      && (items[i].top.Some? ==> items[i].path[0] == items[i].top.value)
      && (items[i].top.None? ==> exists j | 0 <= j < i :: items[j].top == Some(items[i].path[0]))
  }

  lemma {:induction false} AbsoluteComesFirst(items: seq<Item>, q: seq<string>, i: nat)
    requires WellRooted(items) && |q| == 1 && FirstTouch(items, q, i)
    ensures items[i].top == Some(q[0])
  {
    assert q[0] == items[i].path[0];
    forall j | 0 <= j < i ensures items[j].top != Some(q[0]) {
      assert !Touches(items[j], q);
    }
  }

  lemma WellRootedIsLowercase(items: seq<Item>)
    requires WellRooted(items) && LowerPaths(items)
    ensures Lowercase(items)
  {
    hide IsLower;
    forall item | item in items && item.top.Some? ensures IsLower(item.top.value) {
      var i :| 0 <= i < |items| && items[i] == item;
      assert item.path[0] in item.path;
    }
  }

  /**
   For a well-rooted layout the paths of the tree are the prefixes of the entries'
   paths; a node has the value of the last readable entry at its path, and without one
   it is the record at the top and a section below.
   */
  lemma WellRootedTree(items: seq<Item>, q: seq<string>)
    requires LowerPaths(items) && WellRooted(items) && q != []
    ensures Build(items).Some?
    ensures At(Build(items).value, q).Some? <==> exists item <- items :: q <= item.path
    ensures forall i: nat | LastReadable(items, q, i) ::
              At(Build(items).value, q).Some? && At(Build(items).value, q).value.kind == Field(items[i].value.value)
    ensures Unreadable(items, q) && At(Build(items).value, q).Some? ==>
              At(Build(items).value, q).value.kind == if |q| == 1 then Record else Section
  {
    hide Build, KindAt, DescriptionAt, At;
    WellRootedIsLowercase(items);
    DecodedTree(items);
    assert Holds(Build(items).value, items, q);
    KnownIsPrefix(items, q);
    forall i: nat | LastReadable(items, q, i)
      ensures Known(items, q) && KindAt(items, q) == Field(items[i].value.value)
    {
      LastReadableIsKnown(items, q, i);
      LastValueWins(items, q, i);
    }
    if Unreadable(items, q) && Known(items, q) {
      UnreadableKind(items, q);
    }
  }

  lemma LastReadableIsKnown(items: seq<Item>, q: seq<string>, i: nat)
    requires LastReadable(items, q, i)
    ensures i < |items| && items[i].value.Some? && Known(items, q)
  {
    assert Touches(items[i], q);
  }

  lemma KnownIsPrefix(items: seq<Item>, q: seq<string>)
    requires WellRooted(items) && q != []
    ensures Known(items, q) <==> exists item <- items :: q <= item.path
  {
    forall item | item in items && Touches(item, q) ensures q <= item.path {
      var i :| 0 <= i < |items| && items[i] == item;
    }
    forall item | item in items && q <= item.path ensures Touches(item, q) {
    }
  }

  lemma UnreadableKind(items: seq<Item>, q: seq<string>)
    requires WellRooted(items) && q != [] && Unreadable(items, q) && Known(items, q)
    ensures KindAt(items, q) == if |q| == 1 then Record else Section
  {
    hide KindAt;
    var i := FirstTouchExists(items, q);
    FirstMentionDecides(items, q, i);
    if |q| == 1 {
      AbsoluteComesFirst(items, q, i);
      assert q == [q[0]];
    } else if items[i].top.Some? {
      assert q != [items[i].top.value];
    }
  }

  // When the source panics

  lemma {:induction false} HierarchyPanics(self: Node, path: seq<string>)
    requires LowerKeys(self)
    ensures CreateHierarchy(self, path).Some? <==> AllLower(path)
    ensures CreateHierarchy(self, path).Some? ==> LowerKeys(CreateHierarchy(self, path).value)
    decreases |path|
  {
    if path != [] {
      LowerTwice(path[0]);
      var grown := if path[0] in self.children then self else Add(self, SectionNode(path[0]));
      assert AllLower(path) <==> IsLower(path[0]) && AllLower(path[1..]) by {
        assert path == [path[0]] + path[1..];
      }
      if path[0] in grown.children {
        HierarchyPanics(grown.children[path[0]], path[1..]);
      }
    }
  }

  lemma {:induction false} ReplaceKeepsKeys(self: Node, path: seq<string>, node: Node)
    requires LowerKeys(self) && At(self, path).Some?
    requires node.children == At(self, path).value.children
    ensures LowerKeys(ReplaceAt(self, path, node))
    decreases |path|
  {
    if path != [] {
      ReplaceKeepsKeys(self.children[path[0]], path[1..], node);
    }
  }

  /** Decoding panics exactly when some entry resolves to a path with an upper-case letter. */
  lemma {:induction false} DecodePanics(items: seq<Item>)
    ensures Build(items).Some? <==> LowerPaths(items)
    ensures Build(items).Some? ==> LowerKeys(Build(items).value)
    decreases |items|
  {
    if items != [] {
      var before, last := items[..|items| - 1], items[|items| - 1];
      SnocDecomposes(items);
      DecodePanics(before);
      if Build(before).Some? {
        var topped := WithTop(Build(before).value, last.top);
        if last.top.Some? {
          LowerTwice(last.top.value);
        }
        HierarchyPanics(topped, last.path);
        if AllLower(last.path) {
          HierarchyHasPath(topped, last.path);
          var grown := CreateHierarchy(topped, last.path).value;
          ReplaceKeepsKeys(grown, last.path, Filled(At(grown, last.path).value, last));
        }
      }
    }
  }

  /** A layout with one upper-case letter: decoding it panics. */
  lemma UpperCasePanics(data: seq<byte>)
    ensures Decode([Entry("Foo", 0, 65, "")], data, 0) == None
  {
    hide Build, Split, Fields.Field, Lower;
    var entry := Entry("Foo", 0, 65, "");
    SplitPlain("Foo");
    assert Resolve([], "Foo") == ["Foo"];
    assert [entry][1..] == [];
    var items := Items([entry], [], data, 0);
    assert items[0] in items && items[0].path == ["Foo"];
    LowerIsCharwise("Foo");
    assert Lower("Foo")[0] == LowerChar("Foo"[0]) == 'f';
    assert "Foo" in items[0].path;
    DecodePanics(items);
  }

  /** A name in another case, left again: it empties the record that an earlier entry filled. */
  function Emptying(): seq<Entry> {
    [Entry("foo.a", 0, 65, ""), Entry("Foo..bar", 0, 65, "")]
  }

  lemma EmptyingResolves(current: seq<string>)
    ensures Split("foo.a") == ["foo", "a"] && Resolve(current, "foo.a") == ["foo", "a"]
    ensures Split("Foo..bar") == ["Foo", "", "bar"] && Resolve(current, "Foo..bar") == ["bar"]
  {
    hide Split;
    SplitPlain("a");
    SplitAtDot("foo", "a");
    assert "foo" + "." + "a" == "foo.a";
    assert ["foo", "a"][1..] == ["a"];
    WalkDown(["foo"], ["a"]);
    SplitPlain("bar");
    SplitAtDot("", "bar");
    assert "" + "." + "bar" == ".bar";
    SplitAtDot("Foo", ".bar");
    assert "Foo" + "." + ".bar" == "Foo..bar";
    assert ["Foo", "", "bar"][1..] == ["", "bar"] && ["", "bar"][1..] == ["bar"];
    assert Step(["Foo"], "") == [];
    WalkDown([], ["bar"]);
  }

  lemma EmptyingItems(data: seq<byte>)
    ensures Items(Emptying(), [], data, 0)
         == [Item(Some("foo"), ["foo", "a"], "", 0, 65, None), Item(Some("Foo"), ["bar"], "", 0, 65, None)]
  {
    hide Split, Resolve;
    EmptyingResolves([]);
    EmptyingResolves(["foo", "a"]);
    var first, second := Entry("foo.a", 0, 65, ""), Entry("Foo..bar", 0, 65, "");
    assert [first, second][1..] == [second];
    assert [second][1..] == [];
    assert Items([second], ["foo", "a"], data, 0) == [ItemOf(second, ["foo", "a"], data, 0)];
  }

  /** Decoding it does not panic, and the field that the first entry made is gone. */
  lemma UpperCaseEmpties(data: seq<byte>)
    ensures Decode(Emptying(), data, 0).Some?
    ensures At(Decode(Emptying(), data, 0).value, ["foo"]).Some?
    ensures At(Decode(Emptying(), data, 0).value, ["foo", "a"]).None?
  {
    hide Items, Build, At, KindAt, DescriptionAt, Lower;
    EmptyingItems(data);
    var items := Items(Emptying(), [], data, 0);
    UnchangedIsLower("foo");
    UnchangedIsLower("a");
    UnchangedIsLower("bar");
    LowerIsCharwise("Foo");
    assert Lower("Foo") == "foo";
    assert "Foo"[0] != "foo"[0];
    assert LowerPaths(items);
    ResettingTree(items);
    var second := items[1];
    assert items[..1] == [items[0]];
    assert Since(items, ["foo", "a"]) == [Lowered(second)] == Since(items, ["foo"]);
    var root := Build(items).value;
    assert Holds(root, Since(items, ["foo", "a"]), ["foo", "a"]);
    assert Holds(root, Since(items, ["foo"]), ["foo"]);
    assert Lowered(second) in [Lowered(second)] && Touches(Lowered(second), ["foo"]);
    assert !Touches(Lowered(second), ["foo", "a"]);
  }

  // The layout of the library's test of relative paths

  function RelativeLayout(): seq<Entry> {
    [Entry("foo", 0, 128, ""), Entry(".aaa", 8, 8, ""), Entry(".bbb", 16, 8, ""), Entry("..ccc", 24, 8, ""),
     Entry("foo.ddd.eee", 32, 8, ""), Entry("...ddd", 40, 8, ""), Entry("..fff", 48, 8, "")]
  }

  lemma RelativeLayoutNames()
    ensures "foo" == Join(["foo"]) && "foo.ddd.eee" == Join(["foo", "ddd", "eee"])
    ensures ".aaa" == Dots(1) + Join(["aaa"]) && ".bbb" == Dots(1) + Join(["bbb"])
    ensures "..ccc" == Dots(2) + Join(["ccc"]) && "...ddd" == Dots(3) + Join(["ddd"])
    ensures "..fff" == Dots(2) + Join(["fff"])
  {
    assert ["foo", "ddd", "eee"][1..] == ["ddd", "eee"] && ["ddd", "eee"][1..] == ["eee"];
    assert Dots(1) == "." && Dots(2) == ".." && Dots(3) == "...";
    assert Join(["ddd", "eee"]) == "ddd" + "." + "eee";
    assert Join(["foo", "ddd", "eee"]) == "foo" + "." + Join(["ddd", "eee"]);
  }

  lemma RelativeLayoutSteps()
    ensures Resolve([], "foo") == ["foo"] && Resolve(["foo"], ".aaa") == ["foo", "aaa"]
    ensures Resolve(["foo", "aaa"], ".bbb") == ["foo", "aaa", "bbb"]
    ensures Resolve(["foo", "aaa", "bbb"], "..ccc") == ["foo", "aaa", "ccc"]
    ensures Resolve(["foo", "aaa", "ccc"], "foo.ddd.eee") == ["foo", "ddd", "eee"]
    ensures Resolve(["foo", "ddd", "eee"], "...ddd") == ["foo", "ddd"]
    ensures Resolve(["foo", "ddd"], "..fff") == ["foo", "fff"]
  {
    hide Resolve, Split, Join, IsAbsolute, Dots;
    RelativeLayoutNames();
    AbsoluteName([], ["foo"]);
    RelativeName(["foo"], 0, ["aaa"]);
    RelativeName(["foo", "aaa"], 0, ["bbb"]);
    RelativeName(["foo", "aaa", "bbb"], 1, ["ccc"]);
    AbsoluteName(["foo", "aaa", "ccc"], ["foo", "ddd", "eee"]);
    RelativeName(["foo", "ddd", "eee"], 2, ["ddd"]);
    RelativeName(["foo", "ddd"], 1, ["fff"]);
  }

  lemma RelativeLayoutStep(items: seq<Item>, data: seq<byte>, base: nat, i: nat, before: seq<string>, path: seq<string>)
    requires items == Items(RelativeLayout(), [], data, base) && i < 7
    requires i > 0 ==> |items| == 7 && items[i - 1].path == before
    requires i == 0 ==> before == []
    requires Resolve(before, RelativeLayout()[i].name) == path
    ensures |items| == 7 && items[i].path == path
  {
    RelativeLayoutNamed();
    hide *;
    PathsFollowOn(RelativeLayout(), [], data, base, i);
  }

  /** Each of its names is resolved from where the one before it led. */
  lemma RelativeLayoutPaths(data: seq<byte>, base: nat)
    ensures var items := Items(RelativeLayout(), [], data, base);
            && |items| == 7
            && items[0].path == ["foo"] && items[1].path == ["foo", "aaa"] && items[2].path == ["foo", "aaa", "bbb"]
            && items[3].path == ["foo", "aaa", "ccc"] && items[4].path == ["foo", "ddd", "eee"]
            && items[5].path == ["foo", "ddd"] && items[6].path == ["foo", "fff"]
  {
    hide Items, Resolve, Split;
    RelativeLayoutSteps();
    var items := Items(RelativeLayout(), [], data, base);
    RelativeLayoutStep(items, data, base, 0, [], ["foo"]);
    RelativeLayoutStep(items, data, base, 1, ["foo"], ["foo", "aaa"]);
    RelativeLayoutStep(items, data, base, 2, ["foo", "aaa"], ["foo", "aaa", "bbb"]);
    RelativeLayoutStep(items, data, base, 3, ["foo", "aaa", "bbb"], ["foo", "aaa", "ccc"]);
    RelativeLayoutStep(items, data, base, 4, ["foo", "aaa", "ccc"], ["foo", "ddd", "eee"]);
    RelativeLayoutStep(items, data, base, 5, ["foo", "ddd", "eee"], ["foo", "ddd"]);
    RelativeLayoutStep(items, data, base, 6, ["foo", "ddd"], ["foo", "fff"]);
  }

  lemma RelativeLayoutNamed()
    ensures Named(RelativeLayout()) == RelativeLayout() && |RelativeLayout()| == 7
  {
    NamedAll(RelativeLayout());
  }

  lemma {:induction false} NamedAll(entries: seq<Entry>)
    requires forall entry <- entries :: entry.name != ""
    ensures Named(entries) == entries
  {
    if entries != [] {
      NamedAll(entries[1..]);
      assert entries == [entries[0]] + entries[1..];
    }
  }
}
