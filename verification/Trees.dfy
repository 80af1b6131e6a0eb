/** The register tree as the library updates it in place (lib/src/node.rs). */
module Trees {
  import opened Results
  import opened Bytes
  import opened Names
  import Nodes

  /** How a merge goes: the children in order, as they are before it, and where it leads. */
  datatype Plan = Plan(
    keys: seq<string>,
    them: Nodes.Node,
    reprs: seq<set<TreeNode>>,
    views: seq<Nodes.Node>,
    bound: set<TreeNode>,
    limit: set<TreeNode>,
    goal: Nodes.Node
  )

  class TreeNode {
    var name: string
    var description: string
    var kind: Nodes.Kind
    var children: map<string, TreeNode>
    ghost var Repr: set<TreeNode>

    /** A proper tree: every child owns its nodes, and no two children share one. */
    ghost predicate Valid()
      reads this, Repr
      decreases Repr
    {
      && this in Repr
      && (forall k <- children ::
            && children[k] in Repr
            && children[k].Repr <= Repr
            && this !in children[k].Repr
            && children[k].Valid())
      && (forall k, l | k in children && l in children && k != l :: children[k].Repr !! children[l].Repr)
    }

    /** The value of the tree. */
    ghost function View(): Nodes.Node
      requires Valid()
      reads this, Repr
      decreases Repr
    {
      Nodes.Node(name, description, kind, map k | k in children :: children[k].View())
    }

    constructor Root()
      ensures Valid() && fresh(Repr)
      ensures View() == Nodes.RootNode()
    {
      name := "";
      description := "";
      kind := Nodes.Root;
      children := map[];
      Repr := {this};
    }

    constructor Section(name: string)
      ensures Valid() && fresh(Repr)
      ensures View() == Nodes.SectionNode(name)
    {
      this.name := Lower(name);
      description := "";
      kind := Nodes.Section;
      children := map[];
      Repr := {this};
    }

    constructor Record(name: string)
      ensures Valid() && fresh(Repr)
      ensures View() == Nodes.RecordNode(name)
    {
      this.name := Lower(name);
      description := "";
      kind := Nodes.Record;
      children := map[];
      Repr := {this};
    }

    constructor Field(name: string, value: u64)
      ensures Valid() && fresh(Repr)
      ensures View() == Nodes.FieldNode(name, value)
    {
      this.name := Lower(name);
      description := "";
      kind := Nodes.Field(value);
      children := map[];
      Repr := {this};
    }

    /** Stores a node under its name, in place of what was there. */
    method Add(node: TreeNode)
      requires Valid() && node.Valid() && Repr !! node.Repr
      modifies this
      ensures Valid() && Repr == old(Repr) + node.Repr
      ensures View() == Nodes.Add(old(View()), old(node.View()))
      ensures children == old(children)[node.name := node]
    {
      ghost var before, added := View(), node.View();
      children := children[node.name := node];
      Repr := Repr + node.Repr;
      forall k | k in children
        ensures children[k].Valid() && children[k].View() == Nodes.Add(before, added).children[k]
      {
      }
      ViewIs(Nodes.Add(before, added));
    }

    /** The value of a tree, from the values of its children. */
    lemma ViewIs(value: Nodes.Node)
      requires Valid()
      requires name == value.name && description == value.description && kind == value.kind
      requires children.Keys == value.children.Keys
      requires forall k <- children :: children[k].View() == value.children[k]
      ensures View() == value
    {
      assert View().children == value.children;
    }

    /** Adds a node under the first free name among its own, then its instances. */
    method MergeInstance(other: TreeNode)
      requires Valid() && other.Valid() && Repr !! other.Repr
      modifies this, other`name
      ensures Valid() && Repr == old(Repr) + old(other.Repr)
      ensures View() == Nodes.MergeInstance(old(View()), old(other.View()))
    {
      hide TreeNode.View, TreeNode.Valid;
      Self();
      other.Self();
      ViewOfChildren();
      other.ViewOfChildren();
      var instance: nat := 0;
      var candidate := other.name;
      ghost var free := LeastFree(children.Keys, other.name, 0);
      while candidate in children
        invariant candidate == if instance == 0 then other.name else Instance(other.name, instance - 1)
        invariant instance > 0 ==> other.name in children
        invariant instance <= free + 1
        decreases free + 1 - instance
      {
        candidate := other.name + Decimal(instance);
        instance := instance + 1;
      }
      if instance > 0 {
        assert instance - 1 == free;
      }
      other.name := candidate;
      Framed();
      other.Relabelled();
      Add(other);
    }

    /** Merges the children of the other tree into this one, in alphabetical order. */
    method Merge(other: TreeNode)
      requires Valid() && other.Valid() && Repr !! other.Repr
      modifies Repr, other.Repr
      ensures Valid() && Repr <= old(Repr) + old(other.Repr)
      ensures View() == Nodes.Merge(old(View()), old(other.View()))
      decreases other.Repr, 0
    {
      hide TreeNode.Merging, TreeNode.View, TreeNode.Valid, Nodes.Merge, Sorted;
      var keys, kids := other.ChildrenInOrder();
      ghost var plan := LineUp(other, keys, kids);
      for i := 0 to |keys|
        invariant Merging(kids, plan, i)
      {
        Next(kids, plan, i);
        MergeNext(kids, i, plan);
      }
      MergeEnds(kids, plan);
    }

    method ChildrenInOrder() returns (keys: seq<string>, kids: seq<TreeNode>)
      ensures keys == Sorted(children.Keys) && |kids| == |keys|
      ensures forall i | 0 <= i < |keys| :: keys[i] in children && kids[i] == children[keys[i]]
    {
      keys := Sorted(children.Keys);
      var owned := children;
      kids := seq(|keys|, i requires 0 <= i < |keys| => owned[keys[i]]);
    }

    /** The trees from `i` on are valid, apart from each other and from this one, and as they were. */
    ghost predicate Waiting(kids: seq<TreeNode>, reprs: seq<set<TreeNode>>, views: seq<Nodes.Node>, i: nat,
                            bound: set<TreeNode>)
      reads this, kids, set j, n | 0 <= j < |kids| && n in kids[j].Repr :: n
    {
      && |kids| == |reprs| == |views|
      && (forall j | i <= j < |kids| ::
            && kids[j].Repr == reprs[j] && reprs[j] !! Repr && reprs[j] <= bound
            && kids[j].Valid() && kids[j].View() == views[j])
      && (forall j, l | i <= j < l < |kids| :: reprs[j] !! reprs[l])
    }

    /** A child of another tree is apart from this one. */
    lemma Apart(other: TreeNode, k: string)
      requires Valid() && other.Valid() && Repr !! other.Repr
      requires k in other.children
      ensures other.children[k].Valid() && other.children[k].Repr !! Repr && other.children[k].Repr < other.Repr
      ensures other.children[k].Repr <= Repr + other.Repr - {other}
    {
    }

    lemma ApartFromEachOther(k: string, l: string)
      requires Valid() && k in children && l in children && k != l
      ensures children[k].Repr !! children[l].Repr
    {
    }

    /** The merge stands before child `i`: the rest of the plan leads to its goal. */
    ghost predicate Merging(kids: seq<TreeNode>, plan: Plan, i: nat)
      reads this, Repr, kids, set j, n | 0 <= j < |kids| && n in kids[j].Repr :: n
    {
      && Valid() && Repr <= plan.bound
      && Waiting(kids, plan.reprs, plan.views, i, plan.bound)
      && |plan.keys| == |kids| && i <= |kids|
      && (forall j | 0 <= j < |kids| ::
            && plan.reprs[j] < plan.limit
            && plan.keys[j] in plan.them.children && plan.views[j] == plan.them.children[plan.keys[j]])
      && Nodes.MergeSome(View(), plan.them, plan.keys[i..]) == plan.goal
    }

    /** The children of the other tree, all waiting to be merged. */
    lemma LineUp(other: TreeNode, keys: seq<string>, kids: seq<TreeNode>) returns (plan: Plan)
      requires Valid() && other.Valid() && Repr !! other.Repr
      requires keys == Sorted(other.children.Keys) && |kids| == |keys|
      requires forall i | 0 <= i < |keys| :: keys[i] in other.children && kids[i] == other.children[keys[i]]
      ensures Merging(kids, plan, 0) && plan.keys == keys
      ensures plan.bound == Repr + other.Repr - {other} && plan.limit == other.Repr
      ensures plan.goal == Nodes.Merge(View(), other.View())
    {
      hide TreeNode.View, TreeNode.Valid, Nodes.MergeSome, Nodes.Merge, Sorted;
      var reprs, views := Abreast(other, keys, kids);
      other.ViewOfChildren();
      MergeStarts(View(), other.View());
      plan := Plan(keys, other.View(), reprs, views, Repr + other.Repr - {other}, other.Repr,
                   Nodes.Merge(View(), other.View()));
    }

    lemma Abreast(other: TreeNode, keys: seq<string>, kids: seq<TreeNode>)
      returns (reprs: seq<set<TreeNode>>, views: seq<Nodes.Node>)
      requires Valid() && other.Valid() && Repr !! other.Repr
      requires |kids| == |keys| && forall i, j | 0 <= i < j < |keys| :: keys[i] != keys[j]
      requires forall i | 0 <= i < |keys| :: keys[i] in other.children && kids[i] == other.children[keys[i]]
      ensures Waiting(kids, reprs, views, 0, Repr + other.Repr - {other})
      ensures Repr <= Repr + other.Repr - {other}
      ensures forall i | 0 <= i < |keys| :: reprs[i] < other.Repr
      ensures other.View().children.Keys == other.children.Keys
      ensures forall i | 0 <= i < |keys| :: views[i] == other.View().children[keys[i]]
    {
      hide TreeNode.View, TreeNode.Valid;
      other.ViewOfChildren();
      var reprOf := map k | k in other.children :: other.children[k].Repr;
      var them := other.View();
      reprs := seq(|keys|, i requires 0 <= i < |keys| => reprOf[keys[i]]);
      views := seq(|keys|, i requires 0 <= i < |keys| => them.children[keys[i]]);
      OutOfReach(other);
      forall j | 0 <= j < |kids|
        ensures kids[j].Valid() && reprs[j] !! Repr && reprs[j] <= Repr + other.Repr - {other}
        ensures reprs[j] < other.Repr && kids[j].Repr == reprs[j] && kids[j].View() == views[j]
      {
        Apart(other, keys[j]);
      }
      forall j, l | 0 <= j < l < |kids| ensures reprs[j] !! reprs[l] {
        other.ApartFromEachOther(keys[j], keys[l]);
      }
    }

    lemma OutOfReach(other: TreeNode)
      requires other.Valid() && Repr !! other.Repr
      ensures other !in Repr
    {
    }

    /** The next tree to merge is within reach. */
    lemma Next(kids: seq<TreeNode>, plan: Plan, i: nat)
      requires i < |plan.keys| && Merging(kids, plan, i)
      ensures |kids| == |plan.keys| && Repr <= plan.bound
      ensures kids[i].Repr <= plan.bound && kids[i].Repr < plan.limit
    {
      hide TreeNode.View, TreeNode.Valid, Nodes.MergeSome;
    }

    method MergeNext(kids: seq<TreeNode>, i: nat, ghost plan: Plan)
      requires i < |kids| && Merging(kids, plan, i)
      modifies Repr, kids[i].Repr
      ensures Merging(kids, plan, i + 1)
      decreases kids[i].Repr, 4
    {
      hide TreeNode.View, TreeNode.Valid, TreeNode.Waiting, Nodes.MergeSome, Nodes.MergeOne;
      MergeStep(View(), plan.them, plan.keys, i);
      MergeNth(kids, i, plan.reprs, plan.views, plan.bound);
    }

    method MergeNth(kids: seq<TreeNode>, i: nat, ghost reprs: seq<set<TreeNode>>, ghost views: seq<Nodes.Node>,
                    ghost bound: set<TreeNode>)
      requires Valid() && Repr <= bound
      requires i < |kids| && Waiting(kids, reprs, views, i, bound)
      modifies Repr, kids[i].Repr
      ensures Valid() && Repr <= bound
      ensures Waiting(kids, reprs, views, i + 1, bound)
      ensures View() == Nodes.MergeOne(old(View()), views[i])
      decreases kids[i].Repr, 3
    {
      hide Nodes.MergeOne, TreeNode.View;
      MergeChild(kids[i]);
      forall j | i < j < |kids|
        ensures kids[j].Repr == reprs[j] && kids[j].Valid() && kids[j].View() == views[j]
      {
        kids[j].Framed();
      }
    }

    static lemma MergeStarts(self: Nodes.Node, them: Nodes.Node)
      ensures var keys := Sorted(them.children.Keys);
              Nodes.MergeSome(self, them, keys[0..]) == Nodes.Merge(self, them)
    {
      assert Sorted(them.children.Keys)[0..] == Sorted(them.children.Keys);
    }

    static lemma MergeStep(self: Nodes.Node, them: Nodes.Node, keys: seq<string>, i: nat)
      requires i < |keys| && forall k <- keys :: k in them.children
      ensures Nodes.MergeSome(self, them, keys[i..])
           == Nodes.MergeSome(Nodes.MergeOne(self, them.children[keys[i]]), them, keys[i + 1..])
    {
      assert keys[i..][1..] == keys[i + 1..];
    }

    lemma MergeEnds(kids: seq<TreeNode>, plan: Plan)
      requires Merging(kids, plan, |plan.keys|)
      ensures Valid() && Repr <= plan.bound && View() == plan.goal
    {
      hide TreeNode.View, TreeNode.Valid, TreeNode.Waiting;
    }

    lemma ViewOfChildren()
      requires Valid()
      ensures View().name == name && View().description == description && View().kind == kind
      ensures View().children.Keys == children.Keys
      ensures forall k <- children :: View().children[k] == children[k].View()
    {
    }

    /** One child of the other tree: renamed when it meets a record or a field, else merged or added. */
    method MergeChild(child: TreeNode)
      requires Valid() && child.Valid() && Repr !! child.Repr
      modifies Repr, child.Repr
      ensures Valid() && Repr <= old(Repr) + old(child.Repr)
      ensures View() == Nodes.MergeOne(old(View()), old(child.View()))
      decreases child.Repr, 2
    {
      hide Nodes.Merge, Nodes.MergeInstance, Nodes.Add;
      if child.name in children {
        var mine := children[child.name];
        if mine.kind.Record? || mine.kind.Field? {
          MergeInstance(child);
        } else {
          MergeInto(child.name, child);
        }
      } else {
        Add(child);
      }
    }

    /** Merges into the child stored under a name. */
    method MergeInto(k: string, child: TreeNode)
      requires Valid() && child.Valid() && Repr !! child.Repr
      requires k in children
      modifies Repr, child.Repr
      ensures Valid() && Repr <= old(Repr) + old(child.Repr)
      ensures View() == old(View()).(children := old(View()).children[k :=
                          Nodes.Merge(old(View()).children[k], old(child.View()))])
      decreases child.Repr, 1
    {
      hide Nodes.Merge, TreeNode.View, TreeNode.Valid;
      ChildInside(k);
      child.Self();
      var mine := children[k];
      mine.Merge(child);
      mine.Self();
      Repr := Repr + mine.Repr;
      Rejoined(k);
    }

    lemma Self()
      requires Valid()
      ensures this in Repr
    {
    }

    lemma ChildInside(k: string)
      requires Valid() && k in children
      ensures this in Repr && children[k] in children[k].Repr && children[k].Repr <= Repr && this !in children[k].Repr
      ensures children[k].Valid() && View().children.Keys == children.Keys && View().children[k] == children[k].View()
    {
    }

    /** Every node outside one child is as it was; this one may own more than before. */
    twostate predicate OnlyChildChanged(k: string)
      requires old(Valid()) && k in old(children) && old(Repr) <= Repr
      reads this, Repr
    {
      && children == old(children)
      && name == old(name) && description == old(description) && kind == old(kind)
      && forall n | n in old(Repr) && n != this && n !in old(children[k].Repr) ::
           && n.name == old(n.name) && n.description == old(n.description) && n.kind == old(n.kind)
           && n.children == old(n.children) && n.Repr == old(n.Repr)
    }

    /** The child stored under a name is the tree it was. */
    twostate predicate Beside(l: string)
      requires old(Valid()) && l in children && children == old(children)
      reads this, children[l], children[l].Repr
    {
      && children[l].Valid() && children[l].View() == old(children[l].View())
      && children[l].Repr == old(children[l].Repr) && children[l].Repr <= old(Repr)
      && this !in children[l].Repr
    }

    /** A change inside one child leaves the other children as they were. */
    twostate lemma Siblings(k: string)
      requires old(Valid()) && k in old(children) && old(Repr) <= Repr && OnlyChildChanged(k)
      ensures forall l | l in children && l != k :: Beside(l)
    {
      forall l | l in children && l != k
        ensures children[l].Valid() && children[l].View() == old(children[l].View())
        ensures Beside(l)
      {
        children[l].Framed();
      }
    }

    lemma Assemble()
      requires this in Repr
      requires forall k <- children ::
                 children[k] in Repr && children[k].Repr <= Repr && this !in children[k].Repr && children[k].Valid()
      requires forall k, l | k in children && l in children && k != l :: children[k].Repr !! children[l].Repr
      ensures Valid()
    {
    }

    /** A child that changed, and took only nodes from outside, leaves a proper tree. */
    twostate lemma Rejoined(k: string)
      requires old(Valid()) && k in old(children) && old(Repr) <= Repr && OnlyChildChanged(k)
      requires children[k].Valid() && children[k] in children[k].Repr && this !in children[k].Repr
      requires children[k].Repr !! old(Repr) - old(children[k].Repr)
      requires Repr == old(Repr) + children[k].Repr
      ensures Valid()
      ensures View() == old(View()).(children := old(View()).children[k := children[k].View()])
    {
      hide TreeNode.View, TreeNode.Valid;
      RejoinedParts(k);
      OldApart();
      SiblingsApart(k);
      Assemble();
      OldView(k);
    }

    twostate lemma RejoinedParts(k: string)
      requires old(Valid()) && k in old(children) && old(Repr) <= Repr && OnlyChildChanged(k)
      requires children[k].Valid() && children[k] in children[k].Repr && this !in children[k].Repr
      requires children[k].Repr !! old(Repr) - old(children[k].Repr)
      requires Repr == old(Repr) + children[k].Repr
      ensures this in Repr
      ensures forall l <- children ::
                 children[l] in Repr && children[l].Repr <= Repr && this !in children[l].Repr && children[l].Valid()
      ensures forall l | l in children && l != k :: Beside(l)
    {
      hide TreeNode.View, TreeNode.Valid;
      OldParts();
      Siblings(k);
    }

    twostate lemma SiblingsApart(k: string)
      requires k in children && children == old(children)
      requires children[k].Repr !! old(Repr) - old(children[k].Repr)
      requires forall l <- children :: l != k ==>
                 children[l].Repr == old(children[l].Repr) && children[l].Repr <= old(Repr)
      requires forall l, m | l in children && m in children && l != m ::
                 old(children[l].Repr) !! old(children[m].Repr)
      ensures forall l, m | l in children && m in children && l != m :: children[l].Repr !! children[m].Repr
    {
    }

    twostate lemma OldParts()
      requires old(Valid())
      ensures this in old(Repr)
      ensures forall l <- old(children) :: old(children)[l] in old(Repr)
    {
    }

    twostate lemma OldApart()
      requires old(Valid())
      ensures forall l, m | l in old(children) && m in old(children) && l != m ::
                old(children[l].Repr) !! old(children[m].Repr)
    {
    }

    twostate lemma OldView(k: string)
      requires old(Valid()) && k in old(children) && Valid()
      requires children == old(children) && name == old(name) && description == old(description) && kind == old(kind)
      requires forall l <- children :: l != k ==> children[l].View() == old(children[l].View())
      ensures View() == old(View()).(children := old(View()).children[k := children[k].View()])
    {
      ViewIs(old(View()).(children := old(View()).children[k := children[k].View()]));
    }

    /** The node a path leads to, if any. */
    ghost function NodeAt(path: seq<string>): TreeNode?
      requires Valid()
      reads this, Repr
      decreases |path|
    {
      if path == [] then this
      else if path[0] in children then children[path[0]].NodeAt(path[1..])
      else null
    }

    /**
     Creates the sections missing along the path and hands out the last node. Null
     where the source panics: a section is stored under its lowercase name, then
     looked up under the name as given.
     */
    method CreateHierarchy(path: seq<string>) returns (last: TreeNode?)
      requires Valid()
      modifies Repr
      ensures last == null <==> Nodes.CreateHierarchy(old(View()), path).None?
      ensures last != null ==>
                && Valid() && fresh(Repr - old(Repr))
                && View() == Nodes.CreateHierarchy(old(View()), path).value
                && NodeAt(path) == last
      decreases |path|, 1
    {
      hide TreeNode.View, TreeNode.Valid;
      Self();
      if path == [] {
        return this;
      }
      ViewOfChildren();
      if path[0] !in children {
        var section := new TreeNode.Section(path[0]);
        Add(section);
        ViewOfChildren();
      }
      if path[0] !in children {
        return null;
      }
      last := Descend(path);
    }

    /** Goes on inside the child that exists under the first name. */
    method Descend(path: seq<string>) returns (last: TreeNode?)
      requires Valid() && path != [] && path[0] in children
      modifies Repr
      ensures path[0] in old(View()).children
      ensures last == null <==> Nodes.CreateHierarchy(old(View()).children[path[0]], path[1..]).None?
      ensures last != null ==>
                && Valid() && fresh(Repr - old(Repr))
                && View() == old(View()).(children := old(View()).children[path[0] :=
                                 Nodes.CreateHierarchy(old(View()).children[path[0]], path[1..]).value])
                && NodeAt(path) == last
      decreases |path|, 0
    {
      hide TreeNode.View, TreeNode.Valid, Nodes.CreateHierarchy;
      ChildInside(path[0]);
      var child := children[path[0]];
      last := child.CreateHierarchy(path[1..]);
      if last != null {
        child.Self();
        Repr := Repr + child.Repr;
        Rejoined(path[0]);
      }
    }

    /** Setting the description and the kind of the node at a path changes that node only. */
    twostate lemma FilledAt(path: seq<string>)
      requires old(Valid()) && old(NodeAt(path)) != null
      requires forall n | n in old(Repr) ::
                 && n.name == old(n.name) && n.children == old(n.children) && n.Repr == old(n.Repr)
                 && (n != old(NodeAt(path)) ==> n.description == old(n.description) && n.kind == old(n.kind))
      ensures Nodes.At(old(View()), path).Some?
      ensures Valid() && Repr == old(Repr)
      ensures var node := old(NodeAt(path));
              View() == Nodes.ReplaceAt(old(View()), path,
                          Nodes.At(old(View()), path).value.(description := node.description, kind := node.kind))
      decreases |path|
    {
      if path == [] {
        Relabelled();
      } else {
        var child := children[path[0]];
        child.NodeIsInsideOld(path[1..]);
        child.FilledAt(path[1..]);
        Rejoined(path[0]);
      }
    }

    twostate lemma NodeIsInsideOld(path: seq<string>)
      requires old(Valid()) && old(NodeAt(path)) != null
      ensures old(NodeAt(path)) in old(Repr) && Nodes.At(old(View()), path).Some?
      decreases |path|
    {
      if path != [] {
        old(children[path[0]]).NodeIsInsideOld(path[1..]);
      }
    }

    /** A change to the node's own labels changes nothing else in its tree. */
    twostate lemma Relabelled()
      requires old(Valid())
      requires children == old(children) && Repr == old(Repr)
      requires forall n | n in old(Repr) && n != this ::
                 && n.name == old(n.name) && n.description == old(n.description) && n.kind == old(n.kind)
                 && n.children == old(n.children) && n.Repr == old(n.Repr)
      ensures Valid()
      ensures View() == old(View()).(name := name, description := description, kind := kind)
    {
      forall k | k in children ensures children[k].Valid() && children[k].View() == old(children[k].View()) {
        children[k].Framed();
      }
    }

    /** A tree none of whose nodes changed is the same tree. */
    twostate lemma Framed()
      requires old(Valid())
      requires forall n | n in old(Repr) ::
                 && n.name == old(n.name) && n.description == old(n.description) && n.kind == old(n.kind)
                 && n.children == old(n.children) && n.Repr == old(n.Repr)
      ensures Valid() && View() == old(View())
      decreases old(Repr)
    {
      forall k | k in children ensures children[k].Valid() && children[k].View() == old(children[k].View()) {
        children[k].Framed();
      }
    }
  }
}
