/** The layout decoder as the library runs it, on a tree it fills in place (lib/src/record/decode.rs). */
module Decoders {
  import opened Results
  import opened Bytes
  import opened Names
  import opened Trees
  import Fields
  import Layouts
  import Nodes

  /** The node a path leads to looks as its value does. */
  lemma {:induction false} LooksAsStored(root: TreeNode, path: seq<string>)
    requires root.Valid() && root.NodeAt(path) != null
    ensures root.NodeAt(path) in root.Repr && Nodes.At(root.View(), path).Some?
    ensures Nodes.At(root.View(), path).value.kind == root.NodeAt(path).kind
    decreases |path|
  {
    if path != [] {
      LooksAsStored(root.children[path[0]], path[1..]);
    }
  }

  /** Describes the node at the path, and gives it the value if there is one. */
  method Fill(root: TreeNode, node: TreeNode, item: Layouts.Item)
    requires root.Valid() && root.NodeAt(item.path) == node
    modifies root.Repr
    ensures root.Valid() && root.Repr == old(root.Repr)
    ensures Nodes.At(old(root.View()), item.path).Some?
    ensures root.View() == Nodes.ReplaceAt(old(root.View()), item.path,
                             Layouts.Filled(Nodes.At(old(root.View()), item.path).value, item))
  {
    hide TreeNode.View, TreeNode.Valid, TreeNode.NodeAt, Nodes.ReplaceAt, Nodes.At;
    LooksAsStored(root, item.path);
    node.description := item.description;
    if item.value.Some? {
      node.kind := Nodes.Field(item.value.value);
    }
    root.FilledAt(item.path);
  }

  /** A top-level name is taken for the name of a record. */
  method EnsureTop(root: TreeNode, top: Option<string>)
    requires root.Valid()
    modifies root.Repr
    ensures root.Valid() && fresh(root.Repr - old(root.Repr))
    ensures root.View() == Layouts.WithTop(old(root.View()), top)
  {
    hide TreeNode.View, TreeNode.Valid, Nodes.Add;
    root.Self();
    root.ViewOfChildren();
    if top.Some? && top.value !in root.children {
      var record := new TreeNode.Record(top.value);
      root.Add(record);
    }
  }

  /** Follows the segments after the first, one step back for each empty one. */
  method Follow(start: seq<string>, segments: seq<string>) returns (path: seq<string>)
    ensures path == Layouts.Walk(start, segments)
  {
    path := start;
    for i := 0 to |segments|
      invariant Layouts.Walk(path, segments[i..]) == Layouts.Walk(start, segments)
    {
      assert segments[i..][1..] == segments[i + 1..];
      if segments[i] == "" {
        if path != [] {
          path := path[..|path| - 1];
        }
      } else {
        path := path + [segments[i]];
      }
    }
  }

  /** One entry put into the tree; false where the source panics. */
  method ApplyItem(root: TreeNode, item: Layouts.Item) returns (done: bool)
    requires root.Valid()
    modifies root.Repr
    ensures done <==> Layouts.Apply(old(root.View()), item).Some?
    ensures done ==> root.Valid() && fresh(root.Repr - old(root.Repr))
                     && root.View() == Layouts.Apply(old(root.View()), item).value
  {
    hide TreeNode.View, TreeNode.Valid, TreeNode.NodeAt, Nodes.ReplaceAt, Nodes.At, Nodes.CreateHierarchy;
    EnsureTop(root, item.top);
    var node := root.CreateHierarchy(item.path);
    if node == null {
      return false;
    }
    Fill(root, node, item);
    done := true;
  }

  /** Once an entry has panicked, the decoding has. */
  lemma {:induction false} PanicIsFinal(items: seq<Layouts.Item>, rest: seq<Layouts.Item>)
    requires Layouts.Build(items).None?
    ensures Layouts.Build(items + rest).None?
    decreases |rest|
  {
    if rest == [] {
      assert items + rest == items;
    } else {
      var all := items + rest;
      assert all[..|all| - 1] == items + rest[..|rest| - 1];
      PanicIsFinal(items, rest[..|rest| - 1]);
    }
  }

  lemma BuildSnoc(items: seq<Layouts.Item>, item: Layouts.Item, before: Nodes.Node)
    requires Layouts.Build(items) == Some(before)
    ensures Layouts.Build(items + [item]) == Layouts.Apply(before, item)
  {
    assert (items + [item])[..|items|] == items;
  }

  /** The items of the entries not yet decoded, given those that are. */
  predicate Remaining(entries: seq<Layouts.Entry>, i: nat, path: seq<string>, data: seq<byte>, base: nat,
                      done: seq<Layouts.Item>)
  {
    && i <= |entries|
    && Layouts.Items(entries, [], data, base) == done + Layouts.Items(entries[i..], path, data, base)
  }

  lemma NextEntry(entries: seq<Layouts.Entry>, i: nat, path: seq<string>, data: seq<byte>, base: nat,
                  done: seq<Layouts.Item>)
    requires i < |entries| && Remaining(entries, i, path, data, base, done)
    ensures var item := Layouts.ItemOf(entries[i], path, data, base);
            if entries[i].name == "" then Remaining(entries, i + 1, path, data, base, done)
            else Remaining(entries, i + 1, item.path, data, base, done + [item])
  {
    assert entries[i..][1..] == entries[i + 1..];
    if entries[i].name != "" {
      var item := Layouts.ItemOf(entries[i], path, data, base);
      var rest := Layouts.Items(entries[i + 1..], item.path, data, base);
      assert done + ([item] + rest) == done + [item] + rest;
    }
  }

  lemma NoneLeft(entries: seq<Layouts.Entry>, path: seq<string>, data: seq<byte>, base: nat, done: seq<Layouts.Item>)
    requires Remaining(entries, |entries|, path, data, base, done)
    ensures Layouts.Items(entries, [], data, base) == done
  {
  }

  lemma AllLeft(entries: seq<Layouts.Entry>, data: seq<byte>, base: nat)
    ensures Remaining(entries, 0, [], data, base, [])
    ensures Layouts.Build([]) == Some(Nodes.RootNode())
  {
    assert entries[0..] == entries;
  }

  /**
   Decodes the data with the layout, entry by entry, keeping the path of the entry
   before. The tree is the one the entries define; there is none where the source
   panics.
   */
  method DecodeWithCsv(entries: seq<Layouts.Entry>, data: seq<byte>, base: nat) returns (decoded: TreeNode?)
    ensures decoded == null <==> Layouts.Decode(entries, data, base).None?
    ensures decoded != null ==>
              decoded.Valid() && fresh(decoded.Repr)
              && Some(decoded.View()) == Layouts.Decode(entries, data, base)
  {
    hide TreeNode.View, TreeNode.Valid, Remaining, Layouts.Apply, Layouts.Build, Fields.Field;
    var root := new TreeNode.Root();
    var currentPath: seq<string> := [];
    ghost var done: seq<Layouts.Item> := [];
    AllLeft(entries, data, base);
    for i := 0 to |entries|
      invariant root.Valid() && fresh(root.Repr)
      invariant Layouts.Build(done) == Some(root.View())
      invariant Remaining(entries, i, currentPath, data, base, done)
    {
      var entry := entries[i];
      NextEntry(entries, i, currentPath, data, base, done);
      if entry.name != "" {
        ghost var item := Layouts.ItemOf(entry, currentPath, data, base);
        var segments := Split(entry.name);
        var top := if segments[0] != "" then Some(segments[0]) else None;
        currentPath := Follow(if top.Some? then [top.value] else currentPath, segments[1..]);
        var value := Fields.ReadField(data, base * 8 + entry.offset, entry.size);
        BuildSnoc(done, item, root.View());
        var applied := ApplyItem(root, Layouts.Item(top, currentPath, entry.description, base * 8 + entry.offset,
                                                    entry.size, value));
        if !applied {
          Unfinished(entries, i + 1, currentPath, data, base, done + [item]);
          return null;
        }
        done := done + [item];
      }
    }
    NoneLeft(entries, currentPath, data, base, done);
    decoded := root;
  }

  lemma Unfinished(entries: seq<Layouts.Entry>, i: nat, path: seq<string>, data: seq<byte>, base: nat,
                   done: seq<Layouts.Item>)
    requires Remaining(entries, i, path, data, base, done)
    requires Layouts.Build(done).None?
    ensures Layouts.Decode(entries, data, base).None?
  {
    hide Layouts.Build;
    PanicIsFinal(done, Layouts.Items(entries[i..], path, data, base));
  }
}
