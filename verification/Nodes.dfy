/** Values of the register tree and its operations (lib/src/node.rs). */
module Nodes {
  import opened Results
  import opened Bytes
  import opened Names

  datatype Kind = Root | Section | Record | Field(value: u64)

  datatype Node = Node(name: string, description: string, kind: Kind, children: map<string, Node>)

  function RootNode(): Node {
    Node("", "", Root, map[])
  }

  function SectionNode(name: string): Node {
    Node(Lower(name), "", Section, map[])
  }

  function RecordNode(name: string): Node {
    Node(Lower(name), "", Record, map[])
  }

  function FieldNode(name: string, value: u64): Node {
    Node(Lower(name), "", Field(value), map[])
  }

  function Add(self: Node, node: Node): Node {
    self.(children := self.children[node.name := node])
  }

  /** The node at a path below this one. */
  function At(self: Node, path: seq<string>): Option<Node> {
    if path == [] then Some(self)
    else if path[0] in self.children then At(self.children[path[0]], path[1..])
    else None
  }

  lemma ChildAt(node: Node, name: string)
    ensures At(node, [name]) == if name in node.children then Some(node.children[name]) else None
  {
    assert [name][1..] == [];
  }

  /** Lookup by dotted path. */
  function GetByPath(self: Node, path: string): Option<Node> {
    At(self, Split(path))
  }

  /** Every child is stored under its own name. */
  ghost predicate Keyed(self: Node) {
    forall k <- self.children :: self.children[k].name == k && Keyed(self.children[k])
  }

  // Merge

  function MergeInstance(self: Node, other: Node): Node {
    Add(self, other.(name := FreshName(self.children.Keys, other.name)))
  }

  predicate Closed(kind: Kind) {
    kind.Record? || kind.Field?
  }

  /** One child of the other tree: renamed when it meets a record or a field, else merged or added. */
  function MergeOne(self: Node, child: Node): Node
    decreases child, 3, 0
  {
    if child.name in self.children then
      var mine := self.children[child.name];
      if Closed(mine.kind) then MergeInstance(self, child)
      else self.(children := self.children[child.name := Merge(mine, child)])
    else
      Add(self, child)
  }

  function MergeSome(self: Node, other: Node, keys: seq<string>): Node
    requires forall k <- keys :: k in other.children
    decreases other, 1, |keys|
  {
    if keys == [] then self
    else MergeSome(MergeOne(self, other.children[keys[0]]), other, keys[1..])
  }

  /** Children of the other tree go in, in alphabetical order. */
  function Merge(self: Node, other: Node): Node
    decreases other, 2, 0
  {
    MergeSome(self, other, Sorted(other.children.Keys))
  }

  // Creating hierarchies

  /**
   The tree with sections created along the path, or nothing where the source stops
   with a panic: a missing section is added under its lowercase name, then looked up
   under the name as given.
   */
  function CreateHierarchy(self: Node, path: seq<string>): Option<Node>
    decreases |path|
  {
    if path == [] then Some(self)
    else
      var grown := if path[0] in self.children then self else Add(self, SectionNode(path[0]));
      if path[0] !in grown.children then None
      else
        var child :- CreateHierarchy(grown.children[path[0]], path[1..]);
        Some(grown.(children := grown.children[path[0] := child]))
  }

  /** The tree with the node at the path replaced. */
  function ReplaceAt(self: Node, path: seq<string>, node: Node): Node
    requires At(self, path).Some?
  {
    if path == [] then node
    else self.(children := self.children[path[0] := ReplaceAt(self.children[path[0]], path[1..], node)])
  }

  // Keys stay names

  lemma {:induction false} MergeKeepsKeys(self: Node, other: Node)
    requires Keyed(self) && Keyed(other)
    ensures Keyed(Merge(self, other))
    ensures Merge(self, other).name == self.name
    ensures Merge(self, other).kind == self.kind
    ensures Merge(self, other).description == self.description
    decreases other, 2, 0
  {
    MergeSomeKeepsKeys(self, other, Sorted(other.children.Keys));
  }

  lemma {:induction false} MergeSomeKeepsKeys(self: Node, other: Node, keys: seq<string>)
    requires forall k <- keys :: k in other.children
    requires Keyed(self) && Keyed(other)
    ensures Keyed(MergeSome(self, other, keys))
    ensures MergeSome(self, other, keys).name == self.name
    ensures MergeSome(self, other, keys).kind == self.kind
    ensures MergeSome(self, other, keys).description == self.description
    decreases other, 1, |keys|
  {
    if keys != [] {
      MergeOneKeepsKeys(self, other.children[keys[0]]);
      MergeSomeKeepsKeys(MergeOne(self, other.children[keys[0]]), other, keys[1..]);
    }
  }

  lemma {:induction false} MergeOneKeepsKeys(self: Node, child: Node)
    requires Keyed(self) && Keyed(child)
    ensures Keyed(MergeOne(self, child))
    ensures MergeOne(self, child).name == self.name
    ensures MergeOne(self, child).kind == self.kind
    ensures MergeOne(self, child).description == self.description
    decreases child, 3, 0
  {
    if child.name in self.children && !Closed(self.children[child.name].kind) {
      MergeKeepsKeys(self.children[child.name], child);
    }
  }

  // Merge only extends

  /** The two nodes look the same from outside. */
  predicate Same(a: Node, b: Node) {
    a.name == b.name && a.description == b.description && a.kind == b.kind
  }

  /**
   Whatever resolved before the merge resolves after it, to a node of the same name,
   kind and description; below records and fields nothing changes at all.
   */
  ghost predicate Extends(before: Node, after: Node) {
    && Same(before, after)
    && forall k <- before.children ::
         && k in after.children
         && Extends(before.children[k], after.children[k])
         && (Closed(before.children[k].kind) ==> after.children[k] == before.children[k])
  }

  lemma {:induction false} ExtendsItself(node: Node)
    ensures Extends(node, node)
  {
    forall k | k in node.children ensures Extends(node.children[k], node.children[k]) {
      ExtendsItself(node.children[k]);
    }
  }

  lemma {:induction false} ExtendsTwice(a: Node, b: Node, c: Node)
    requires Extends(a, b) && Extends(b, c)
    ensures Extends(a, c)
  {
    forall k | k in a.children
      ensures k in c.children && Extends(a.children[k], c.children[k])
      ensures Closed(a.children[k].kind) ==> c.children[k] == a.children[k]
    {
      ExtendsTwice(a.children[k], b.children[k], c.children[k]);
    }
  }

  lemma ExtendsByChild(self: Node, name: string, child: Node)
    requires name in self.children ==>
               Extends(self.children[name], child) && !Closed(self.children[name].kind)
    ensures Extends(self, self.(children := self.children[name := child]))
  {
    forall k | k in self.children && k != name ensures Extends(self.children[k], self.children[k]) {
      ExtendsItself(self.children[k]);
    }
  }

  lemma {:induction false} MergeExtends(self: Node, other: Node)
    ensures Extends(self, Merge(self, other))
    decreases other, 2, 0
  {
    MergeSomeExtends(self, other, Sorted(other.children.Keys));
  }

  lemma {:induction false} MergeSomeExtends(self: Node, other: Node, keys: seq<string>)
    requires forall k <- keys :: k in other.children
    ensures Extends(self, MergeSome(self, other, keys))
    decreases other, 1, |keys|
  {
    if keys == [] {
      ExtendsItself(self);
    } else {
      var next := MergeOne(self, other.children[keys[0]]);
      MergeOneExtends(self, other.children[keys[0]]);
      MergeSomeExtends(next, other, keys[1..]);
      ExtendsTwice(self, next, MergeSome(self, other, keys));
    }
  }

  lemma {:induction false} MergeOneExtends(self: Node, child: Node)
    ensures Extends(self, MergeOne(self, child))
    decreases child, 3, 0
  {
    if child.name in self.children && !Closed(self.children[child.name].kind) {
      MergeExtends(self.children[child.name], child);
      ExtendsByChild(self, child.name, Merge(self.children[child.name], child));
    } else {
      var renamed := child.(name := FreshName(self.children.Keys, child.name));
      ExtendsByChild(self, renamed.name, renamed);
    }
  }

  lemma {:induction false} HierarchyExtends(self: Node, path: seq<string>)
    requires CreateHierarchy(self, path).Some?
    ensures var after := CreateHierarchy(self, path).value;
            && Same(self, after)
            && forall q: seq<string> :: At(self, q).Some? ==>
                 At(after, q).Some? && Same(At(self, q).value, At(after, q).value)
    decreases |path|
  {
    var after := CreateHierarchy(self, path).value;
    if path != [] {
      var grown := if path[0] in self.children then self else Add(self, SectionNode(path[0]));
      HierarchyExtends(grown.children[path[0]], path[1..]);
      forall q: seq<string> | At(self, q).Some?
        ensures At(after, q).Some? && Same(At(self, q).value, At(after, q).value)
      {
        if q != [] && q[0] == path[0] {
          assert At(self, q) == At(grown.children[path[0]], q[1..]);
        }
      }
    }
  }

  /** A node that is not on the path is untouched, with all below it. */
  lemma {:induction false} HierarchyFrame(self: Node, path: seq<string>, q: seq<string>)
    requires CreateHierarchy(self, path).Some? && !(q <= path)
    ensures At(CreateHierarchy(self, path).value, q) == At(self, q)
    decreases |path|
  {
    if path != [] {
      var grown := if path[0] in self.children then self else Add(self, SectionNode(path[0]));
      if q[0] == path[0] {
        assert q == [q[0]] + q[1..] && path == [path[0]] + path[1..];
        HierarchyFrame(grown.children[path[0]], path[1..], q[1..]);
      }
    }
  }

  lemma {:induction false} HierarchyKeepsKeys(self: Node, path: seq<string>)
    requires Keyed(self) && CreateHierarchy(self, path).Some?
    ensures Keyed(CreateHierarchy(self, path).value)
    ensures CreateHierarchy(self, path).value.name == self.name
    decreases |path|
  {
    if path != [] {
      var grown := if path[0] in self.children then self else Add(self, SectionNode(path[0]));
      HierarchyKeepsKeys(grown.children[path[0]], path[1..]);
    }
  }

  /** The extension, path by path. */
  lemma {:induction false} ExtendsAt(before: Node, after: Node, path: seq<string>)
    requires Extends(before, after)
    requires At(before, path).Some?
    ensures At(after, path).Some? && Same(At(before, path).value, At(after, path).value)
    ensures path != [] && Closed(At(before, path).value.kind) ==> At(after, path) == At(before, path)
    decreases |path|
  {
    if path != [] {
      var k := path[0];
      ExtendsAt(before.children[k], after.children[k], path[1..]);
    }
  }

  /** The same for the lookup by dotted path. */
  lemma ExtendsByPath(before: Node, after: Node, path: string)
    requires Extends(before, after) && GetByPath(before, path).Some?
    ensures GetByPath(after, path).Some? && Same(GetByPath(before, path).value, GetByPath(after, path).value)
    ensures Closed(GetByPath(before, path).value.kind) ==> GetByPath(after, path) == GetByPath(before, path)
  {
    ExtendsAt(before, after, Split(path));
  }

  // Merge conserves field values

  function OwnValue(node: Node): multiset<u64> {
    if node.kind.Field? then multiset{node.kind.value} else multiset{}
  }

  /** The field values of the tree. */
  function Values(node: Node): multiset<u64>
    decreases node, 1, 0
  {
    OwnValue(node) + ValuesUnder(node, node.children.Keys)
  }

  /** The field values below the chosen children. */
  function ValuesUnder(node: Node, keys: set<string>): multiset<u64>
    requires keys <= node.children.Keys
    decreases node, 0, |keys|
  {
    if keys == {} then multiset{}
    else
      var k := LeastOf(keys);
      Values(node.children[k]) + ValuesUnder(node, keys - {k})
  }

  function ValuesBelow(node: Node): multiset<u64> {
    ValuesUnder(node, node.children.Keys)
  }

  lemma {:induction false} TakeOut(node: Node, keys: set<string>, k: string)
    requires keys <= node.children.Keys && k in keys
    ensures ValuesUnder(node, keys) == Values(node.children[k]) + ValuesUnder(node, keys - {k})
    decreases |keys|
  {
    var least := LeastOf(keys);
    if k != least {
      TakeOut(node, keys - {least}, k);
      TakeOut(node, keys - {k}, least);
      assert keys - {least} - {k} == keys - {k} - {least};
    }
  }

  lemma {:induction false} SameUnder(a: Node, b: Node, keys: set<string>)
    requires keys <= a.children.Keys && keys <= b.children.Keys
    requires forall k <- keys :: a.children[k] == b.children[k]
    ensures ValuesUnder(a, keys) == ValuesUnder(b, keys)
    decreases |keys|
  {
    if keys != {} {
      SameUnder(a, b, keys - {LeastOf(keys)});
    }
  }

  function StoredValues(self: Node, name: string): multiset<u64> {
    if name in self.children then Values(self.children[name]) else multiset{}
  }

  function Store(self: Node, name: string, child: Node): Node {
    self.(children := self.children[name := child])
  }

  /** Storing a child under a name replaces the values that were stored there. */
  lemma StoreChild(self: Node, name: string, child: Node)
    ensures Values(Store(self, name, child)) + StoredValues(self, name) == Values(self) + Values(child)
  {
    hide Values, ValuesUnder;
    var after := Store(self, name, child);
    var rest := self.children.Keys - {name};
    TakeOut(after, after.children.Keys, name);
    assert after.children.Keys - {name} == rest;
    SameUnder(self, after, rest);
    if name in self.children {
      TakeOut(self, self.children.Keys, name);
    } else {
      assert self.children.Keys == rest;
    }
    OwnAndBelow(after);
    OwnAndBelow(self);
  }

  lemma OwnAndBelow(node: Node)
    ensures Values(node) == OwnValue(node) + ValuesUnder(node, node.children.Keys)
  {
  }

  /**
   The values a merge drops: those of field nodes that land on an existing node of the
   same name that is neither a record nor a field.
   */
  function Lost(self: Node, other: Node): multiset<u64>
    decreases other, 2, 0
  {
    LostSome(self, other, Sorted(other.children.Keys))
  }

  function LostSome(self: Node, other: Node, keys: seq<string>): multiset<u64>
    requires forall k <- keys :: k in other.children
    decreases other, 1, |keys|
  {
    if keys == [] then multiset{}
    else
      LostOne(self, other.children[keys[0]])
      + LostSome(MergeOne(self, other.children[keys[0]]), other, keys[1..])
  }

  function LostOne(self: Node, child: Node): multiset<u64>
    decreases child, 3, 0
  {
    if child.name in self.children && !Closed(self.children[child.name].kind)
    then OwnValue(child) + Lost(self.children[child.name], child)
    else multiset{}
  }

  function ValuesOf(other: Node, keys: seq<string>): multiset<u64>
    requires forall k <- keys :: k in other.children
  {
    if keys == [] then multiset{} else Values(other.children[keys[0]]) + ValuesOf(other, keys[1..])
  }

  lemma {:induction false} ValuesInOrder(other: Node, keys: set<string>)
    requires keys <= other.children.Keys
    ensures ValuesOf(other, Sorted(keys)) == ValuesUnder(other, keys)
    decreases |keys|
  {
    if keys != {} {
      var least := LeastOf(keys);
      ValuesInOrder(other, keys - {least});
      assert Sorted(keys)[1..] == Sorted(keys - {least});
    }
  }

  /** A merge loses exactly those values, and invents none. */
  lemma {:induction false} MergeConserves(self: Node, other: Node)
    ensures Values(Merge(self, other)) + Lost(self, other) == Values(self) + ValuesBelow(other)
    decreases other, 2, 0
  {
    var keys := Sorted(other.children.Keys);
    MergeSomeConserves(self, other, keys);
    ValuesInOrder(other, other.children.Keys);
  }

  lemma {:induction false} MergeSomeConserves(self: Node, other: Node, keys: seq<string>)
    requires forall k <- keys :: k in other.children
    ensures Values(MergeSome(self, other, keys)) + LostSome(self, other, keys)
         == Values(self) + ValuesOf(other, keys)
    decreases other, 1, |keys|
  {
    if keys != [] {
      var child := other.children[keys[0]];
      MergeOneConserves(self, child);
      var next := MergeOne(self, child);
      MergeSomeConserves(next, other, keys[1..]);
      Chain(Values(MergeSome(next, other, keys[1..])), LostSome(next, other, keys[1..]), ValuesOf(other, keys[1..]),
            Values(next), LostOne(self, child), Values(self), Values(child));
    }
  }

  /** What a merge drops comes from the other tree. */
  lemma {:induction false} LostIsOthers(self: Node, other: Node)
    ensures Lost(self, other) <= ValuesBelow(other)
    decreases other, 2, 0
  {
    var keys := Sorted(other.children.Keys);
    LostSomeIsOthers(self, other, keys);
    ValuesInOrder(other, other.children.Keys);
  }

  lemma {:induction false} LostSomeIsOthers(self: Node, other: Node, keys: seq<string>)
    requires forall k <- keys :: k in other.children
    ensures LostSome(self, other, keys) <= ValuesOf(other, keys)
    decreases other, 1, |keys|
  {
    hide Values, LostOne;
    if keys != [] {
      var child := other.children[keys[0]];
      LostOneIsOthers(self, child);
      LostSomeIsOthers(MergeOne(self, child), other, keys[1..]);
    }
  }

  lemma {:induction false} LostOneIsOthers(self: Node, child: Node)
    ensures LostOne(self, child) <= Values(child)
    decreases child, 3, 0
  {
    OwnAndBelow(child);
    if child.name in self.children && !Closed(self.children[child.name].kind) {
      LostIsOthers(self.children[child.name], child);
    }
  }

  /** No value of the tree merged into is ever lost, and none is invented. */
  lemma MergeKeepsValues(self: Node, other: Node)
    ensures Values(self) <= Values(Merge(self, other)) <= Values(self) + ValuesBelow(other)
  {
    hide Values, Merge, Lost, ValuesBelow;
    MergeConserves(self, other);
    LostIsOthers(self, other);
    Sandwich(Values(Merge(self, other)), Lost(self, other), Values(self), ValuesBelow(other));
  }

  lemma Sandwich(after: multiset<u64>, lost: multiset<u64>, before: multiset<u64>, below: multiset<u64>)
    requires after + lost == before + below && lost <= below
    ensures before <= after <= before + below
  {
    assert after == (before + below) - lost;
    assert (before + below) - lost == before + (below - lost);
  }

  lemma Cancel(after: multiset<u64>, mine: multiset<u64>, before: multiset<u64>, merged: multiset<u64>,
               lost: multiset<u64>, below: multiset<u64>, own: multiset<u64>)
    requires after + mine == before + merged
    requires merged + lost == mine + below
    ensures after + (own + lost) == before + (own + below)
  {
    assert (after + (own + lost)) + mine == (before + merged) + lost + own;
    assert (before + merged) + lost + own == before + (merged + lost) + own;
    assert before + (mine + below) + own == (before + (own + below)) + mine;
    assert after + (own + lost) == (after + (own + lost)) + mine - mine;
    assert before + (own + below) == (before + (own + below)) + mine - mine;
  }

  lemma Chain(end: multiset<u64>, lostLater: multiset<u64>, later: multiset<u64>, middle: multiset<u64>,
              lostNow: multiset<u64>, start: multiset<u64>, now: multiset<u64>)
    requires end + lostLater == middle + later
    requires middle + lostNow == start + now
    ensures end + (lostNow + lostLater) == start + (now + later)
  {
    assert end + (lostNow + lostLater) == (end + lostLater) + lostNow;
    assert (middle + later) + lostNow == (middle + lostNow) + later;
  }

  lemma {:induction false} MergeOneConserves(self: Node, child: Node)
    ensures Values(MergeOne(self, child)) + LostOne(self, child) == Values(self) + Values(child)
    decreases child, 3, 0
  {
    hide Values, ValuesUnder;
    OwnAndBelow(child);
    if child.name in self.children && !Closed(self.children[child.name].kind) {
      var mine := self.children[child.name];
      MergeConserves(mine, child);
      StoreChild(self, child.name, Merge(mine, child));
      Cancel(Values(MergeOne(self, child)), Values(mine), Values(self), Values(Merge(mine, child)),
             Lost(mine, child), ValuesBelow(child), OwnValue(child));
    } else {
      var renamed := child.(name := FreshName(self.children.Keys, child.name));
      StoreChild(self, renamed.name, renamed);
      SameUnder(child, renamed, child.children.Keys);
      OwnAndBelow(renamed);
    }
  }
}
