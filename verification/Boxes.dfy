/** Expansion of Box records (lib/src/crashlog.rs, `from_regions`). */
module Boxes {
  import opened Results
  import opened Bytes
  import opened Headers
  import opened Regions
  import opened Seqs

  /** The region that a Box record wraps, when its payload parses. */
  function Child(record: Record): Option<Region> {
    if !record.header.IsBox() then None
    else
      var payload :- GetFrom(record.data, record.header.HeaderSize());
      if RegionOf(payload).Ok? then Some(WithParent(RegionOf(payload).value, record.header)) else None
  }

  /** The children of the records, in record order. */
  function ChildrenOf(records: seq<Record>): seq<Region> {
    FilterMap(Child, records)
  }

  function Children(region: Region): seq<Region> {
    ChildrenOf(region.records)
  }

  function Reverse<T>(s: seq<T>): (r: seq<T>)
    ensures |r| == |s|
  {
    if s == [] then [] else Reverse(s[1..]) + [s[0]]
  }

  function ByteCount(region: Region): nat {
    |Concat(region.records)|
  }

  function TotalBytes(regions: seq<Region>): nat {
    if regions == [] then 0 else ByteCount(regions[0]) + TotalBytes(regions[1..])
  }

  lemma {:induction false} TotalAppend(a: seq<Region>, b: seq<Region>)
    ensures TotalBytes(a + b) == TotalBytes(a) + TotalBytes(b)
  {
    if a == [] {
      assert a + b == b;
    } else {
      assert (a + b)[1..] == a[1..] + b;
      TotalAppend(a[1..], b);
    }
  }

  lemma {:induction false} TotalReverse(s: seq<Region>)
    ensures TotalBytes(Reverse(s)) == TotalBytes(s)
  {
    if s != [] {
      TotalReverse(s[1..]);
      TotalAppend(Reverse(s[1..]), [s[0]]);
    }
  }

  /** A child holds at least eight bytes less than its Box. */
  lemma ChildIsSmaller(record: Record)
    requires Child(record).Some?
    ensures ByteCount(Child(record).value) + 8 <= |record.data|
  {
    hide HeaderFromSlice;
    var payload := record.data[record.header.HeaderSize()..];
    CutTiles(payload);
    ParentKeepsBytes(Child(record).value.records, Cut(payload));
  }

  lemma {:induction false} ChildrenAreSmaller(records: seq<Record>)
    ensures TotalBytes(ChildrenOf(records)) + 8 * |ChildrenOf(records)| <= |Concat(records)|
  {
    if records != [] {
      ChildrenAreSmaller(records[1..]);
      assert |Concat(records)| == |records[0].data| + |Concat(records[1..])|;
      if Child(records[0]).Some? {
        ChildIsSmaller(records[0]);
        var child := Child(records[0]).value;
        assert ChildrenOf(records) == [child] + ChildrenOf(records[1..]);
        assert ChildrenOf(records)[1..] == ChildrenOf(records[1..]);
      } else {
        assert ChildrenOf(records) == ChildrenOf(records[1..]);
      }
    }
  }

  // The traversal order

  /** A region, then the preorder of each child, last Box first. */
  function Preorder(region: Region): seq<Region>
    decreases ByteCount(region), 0, 0
  {
    ChildrenAreSmaller(region.records);
    TotalReverse(Children(region));
    [region] + if Children(region) == [] then [] else Forest(Reverse(Children(region)))
  }

  /** The preorders of the regions, in order. */
  function Forest(regions: seq<Region>): seq<Region>
    decreases TotalBytes(regions), 1, |regions|
  {
    if regions == [] then [] else Preorder(regions[0]) + Forest(regions[1..])
  }

  lemma ForestUnfolds(queue: seq<Region>)
    requires queue != []
    ensures Forest(queue) == Preorder(queue[0]) + Forest(queue[1..])
  {
    hide Preorder;
  }

  lemma {:induction false} ForestAppend(a: seq<Region>, b: seq<Region>)
    ensures Forest(a + b) == Forest(a) + Forest(b)
    decreases |a|
  {
    hide Forest, Preorder;
    if a == [] {
      ForestOfNothing();
      assert a + b == b;
    } else {
      assert (a + b)[1..] == a[1..] + b;
      ForestAppend(a[1..], b);
      ForestUnfolds(a);
      ForestUnfolds(a + b);
      Associative(Preorder(a[0]), Forest(a[1..]), Forest(b));
    }
  }

  lemma ForestOfNothing()
    ensures Forest([]) == []
  {
  }

  /** One turn of the queue: the head goes out, its children come in front of the rest. */
  lemma ForestStep(queue: seq<Region>)
    requires queue != []
    ensures Forest(queue) == [queue[0]] + Forest(Reverse(Children(queue[0])) + queue[1..])
  {
    var children := Reverse(Children(queue[0]));
    ForestUnfolds(queue);
    PreorderUnfolds(queue[0]);
    hide Forest, Preorder, Children, Reverse;
    ForestAppend(children, queue[1..]);
    Associative([queue[0]], Forest(children), Forest(queue[1..]));
  }

  lemma PreorderUnfolds(region: Region)
    ensures Preorder(region) == [region] + Forest(Reverse(Children(region)))
  {
    hide Children;
    ForestOfNothing();
  }

  lemma QueueShrinks(queue: seq<Region>)
    requires queue != []
    ensures var next := Reverse(Children(queue[0])) + queue[1..];
            TotalBytes(next) + 8 * |Children(queue[0])| <= TotalBytes(queue)
  {
    ChildrenAreSmaller(queue[0].records);
    TotalReverse(Children(queue[0]));
    TotalAppend(Reverse(Children(queue[0])), queue[1..]);
  }

  /** What a record contributes to the queue: nothing, or the region of its payload. */
  method ExpandRecord(record: Record) returns (child: Option<Region>)
    ensures child == Child(record)
  {
    hide HeaderFromSlice, Cut;
    if !record.header.IsBox() {
      return None;
    }
    var payload := GetFrom(record.data, record.header.HeaderSize());
    if payload.None? {
      return None;
    }
    var region := FromSlice(payload.value);
    if region.Err? {
      return None;
    }
    var framed := SetChildContext(region.value, record.header);
    return Some(framed);
  }

  /** The children of a region, pushed to the front of the queue one by one. */
  method PushChildren(region: Region, queue: seq<Region>) returns (next: seq<Region>)
    ensures next == Reverse(Children(region)) + queue
  {
    hide Child;
    next := queue;
    for i := 0 to |region.records|
      invariant next == Reverse(ChildrenOf(region.records[..i])) + queue
    {
      ChildrenSnoc(region.records, i);
      var child := ExpandRecord(region.records[i]);
      if child.Some? {
        Associative([child.value], Reverse(ChildrenOf(region.records[..i])), queue);
        next := [child.value] + next;
      }
    }
    assert region.records[..|region.records|] == region.records;
  }

  /** The expansion loop. Pushing to the front makes the last Box of a region come out first. */
  method FromRegions(regions: seq<Region>) returns (r: Result<seq<Region>>)
    ensures r == if regions == [] then Err(InvalidCrashLog) else Ok(Forest(regions))
  {
    hide Forest, Children;
    var queue := regions;
    var output: seq<Region> := [];
    while queue != []
      invariant output + Forest(queue) == Forest(regions)
      invariant output == [] ==> queue == regions
      decreases TotalBytes(queue), |queue|
    {
      ForestStep(queue);
      QueueShrinks(queue);
      var region := queue[0];
      queue := PushChildren(region, queue[1..]);
      Associative(output, [region], Forest(queue));
      output := output + [region];
    }
    ForestOfNothing();
    assert output + [] == output;
    if output == [] {
      return Err(InvalidCrashLog);
    }
    return Ok(output);
  }

  lemma {:induction false} ReverseSnoc<T>(s: seq<T>, x: T)
    ensures Reverse(s + [x]) == [x] + Reverse(s)
  {
    if s == [] {
      assert s + [x] == [x];
      assert [x][1..] == [];
    } else {
      assert (s + [x])[1..] == s[1..] + [x];
      ReverseSnoc(s[1..], x);
    }
  }

  lemma ChildrenSnoc(records: seq<Record>, i: nat)
    requires i < |records|
    ensures Reverse(ChildrenOf(records[..i + 1]))
         == ToSeq(Child(records[i])) + Reverse(ChildrenOf(records[..i]))
  {
    hide Child;
    FilterMapSnoc(Child, records, i);
    if Child(records[i]).Some? {
      ReverseSnoc(ChildrenOf(records[..i]), Child(records[i]).value);
    } else {
      assert ChildrenOf(records[..i]) + [] == ChildrenOf(records[..i]);
    }
  }

  // What the expansion adds

  /** Expanding B bytes adds at most B / 8 regions. */
  lemma {:induction false} ExpansionIsBounded(queue: seq<Region>)
    ensures 8 * |Forest(queue)| <= 8 * |queue| + TotalBytes(queue)
    decreases TotalBytes(queue), |queue|
  {
    if queue != [] {
      ForestStep(queue);
      QueueShrinks(queue);
      ExpansionIsBounded(Reverse(Children(queue[0])) + queue[1..]);
    }
  }

  lemma {:induction false} ExpansionKeepsInput(queue: seq<Region>)
    ensures |Forest(queue)| >= |queue|
    ensures forall region <- queue :: region in Forest(queue)
  {
    if queue != [] {
      ExpansionKeepsInput(queue[1..]);
      assert queue == [queue[0]] + queue[1..];
    }
  }

  lemma {:induction false} ReverseMembers<T>(s: seq<T>)
    ensures forall x :: x in Reverse(s) <==> x in s
  {
    if s != [] {
      ReverseMembers(s[1..]);
      assert s == [s[0]] + s[1..];
    }
  }

  /** `child` is what Box record `j` of `region` wraps, with that Box as its parent. */
  ghost predicate IsChildOf(child: Region, region: Region, j: nat) {
    && j < |region.records|
    && var box := region.records[j];
    && box.header.IsBox()
    && box.header.HeaderSize() <= |box.data|
    && Concat(child.records) <= box.data[box.header.HeaderSize()..]
    && forall record <- child.records :: record.parent == Some(box.header)
  }

  lemma ChildIsTraced(region: Region, child: Region) returns (j: nat)
    requires child in Children(region)
    ensures IsChildOf(child, region, j)
  {
    hide HeaderFromSlice;
    j := FilterMapMember(Child, region.records, child);
    var payload := region.records[j].data[region.records[j].header.HeaderSize()..];
    CutTiles(payload);
    ParentKeepsBytes(child.records, Cut(payload));
  }

  /** Every region of the output comes from the input or from a Box record of the output. */
  lemma {:induction false} ExpansionIsTraceable(queue: seq<Region>, region: Region)
    requires region in Forest(queue)
    ensures region in queue || exists box, j :: box in Forest(queue) && IsChildOf(region, box, j)
    decreases TotalBytes(queue), |queue|
  {
    var head := queue[0];
    var next := Reverse(Children(head)) + queue[1..];
    ForestStep(queue);
    QueueShrinks(queue);
    if region != head {
      ExpansionIsTraceable(next, region);
      if region in Reverse(Children(head)) {
        ReverseMembers(Children(head));
        var j := ChildIsTraced(head, region);
        assert head in Forest(queue) && IsChildOf(region, head, j);
      } else if region !in next {
        var box, j :| box in Forest(next) && IsChildOf(region, box, j);
        assert box in Forest(queue);
      } else {
        assert region in queue[1..];
      }
    }
  }

  /** Every region of the output comes from the input or is what some output region wraps. */
  lemma {:induction false} InnerIsChild(queue: seq<Region>, region: Region)
    requires region in Forest(queue)
    ensures region in queue || exists parent <- Forest(queue) :: region in Children(parent)
    decreases TotalBytes(queue), |queue|
  {
    var head := queue[0];
    var next := Reverse(Children(head)) + queue[1..];
    ForestStep(queue);
    QueueShrinks(queue);
    hide Forest, Children, Reverse;
    if region != head {
      InnerIsChild(next, region);
      ReverseMembers(Children(head));
      if region in Children(head) {
        assert head in Forest(queue);
      } else if region !in next {
        var parent :| parent in Forest(next) && region in Children(parent);
        assert parent in Forest(queue);
      } else {
        assert region in queue[1..];
      }
    }
  }

  lemma {:induction false} ReverseAt<T>(s: seq<T>, i: nat)
    requires i < |s|
    ensures Reverse(s)[i] == s[|s| - 1 - i]
  {
    if |s| > 1 && i < |s| - 1 {
      ReverseAt(s[1..], i);
    }
  }

  /** Regions that wrap nothing come out right behind the one that wraps them, that of the last Box first. */
  lemma LastBoxFirst(region: Region, i: nat)
    requires BoxFree(Children(region)) && i < |Children(region)|
    ensures |Forest([region])| == 1 + |Children(region)| && Forest([region])[0] == region
    ensures Forest([region])[1 + i] == Children(region)[|Children(region)| - 1 - i]
  {
    hide Children, Forest, Reverse;
    var children := Children(region);
    ForestStep([region]);
    assert [region][1..] == [] && Reverse(children) + [] == Reverse(children);
    ReverseMembers(children);
    BoxFreeForest(Reverse(children));
    ReverseAt(children, i);
  }

  /** The output is closed: whatever an output region wraps is itself in the output. */
  lemma {:induction false} ExpansionIsClosed(queue: seq<Region>, region: Region, child: Region)
    requires region in Forest(queue)
    requires child in Children(region)
    ensures child in Forest(queue)
    decreases TotalBytes(queue), |queue|
  {
    var head := queue[0];
    var next := Reverse(Children(head)) + queue[1..];
    ForestStep(queue);
    QueueShrinks(queue);
    if region == head {
      ReverseMembers(Children(head));
      assert child in next;
      ExpansionKeepsInput(next);
    } else {
      ExpansionIsClosed(next, region, child);
    }
  }

  predicate BoxFree(regions: seq<Region>) {
    forall region <- regions :: Children(region) == []
  }

  lemma {:induction false} BoxFreeForest(regions: seq<Region>)
    ensures BoxFree(regions) <==> Forest(regions) == regions
    ensures !BoxFree(regions) ==> |Forest(regions)| > |regions|
  {
    if regions == [] {
      ForestOfNothing();
    } else {
      hide Forest, Preorder, Children, Reverse;
      var children := Reverse(Children(regions[0]));
      BoxFreeForest(regions[1..]);
      ForestStep(regions);
      ForestAppend(children, regions[1..]);
      ExpansionKeepsInput(regions[1..]);
      ExpansionKeepsInput(children);
      assert regions == [regions[0]] + regions[1..];
      if Children(regions[0]) != [] {
        assert regions[0] in regions;
      } else {
        ForestOfNothing();
        EmptyReverse();
        assert [] + regions[1..] == regions[1..];
      }
    }
  }

  lemma EmptyReverse()
    ensures Reverse<Region>([]) == []
  {
  }

  /** Expanding twice changes nothing exactly when there was nothing to expand. */
  lemma ExpansionIsIdempotent(regions: seq<Region>)
    ensures Forest(Forest(regions)) == Forest(regions) <==> BoxFree(regions)
  {
    BoxFreeForest(regions);
    BoxFreeForest(Forest(regions));
    ExpansionKeepsInput(regions);
  }

  // Regions of the input and regions from Boxes

  /** No record of the region came out of a Box. */
  predicate IsRoot(region: Region) {
    forall record <- region.records :: record.parent == None
  }

  function Roots(regions: seq<Region>): seq<Region> {
    if regions == [] then [] else (if IsRoot(regions[0]) then [regions[0]] else []) + Roots(regions[1..])
  }

  /** The regions that came out of a Box. */
  function Inner(regions: seq<Region>): seq<Region> {
    if regions == [] then [] else (if IsRoot(regions[0]) then [] else [regions[0]]) + Inner(regions[1..])
  }

  lemma {:induction false} RootsAppend(a: seq<Region>, b: seq<Region>)
    ensures Roots(a + b) == Roots(a) + Roots(b)
  {
    hide IsRoot;
    if a == [] {
      assert a + b == b;
    } else {
      assert (a + b)[1..] == a[1..] + b;
      RootsAppend(a[1..], b);
      Associative(if IsRoot(a[0]) then [a[0]] else [], Roots(a[1..]), Roots(b));
    }
  }

  lemma ChildrenAreInner(region: Region, child: Region)
    requires child in Children(region)
    ensures !IsRoot(child)
  {
    hide HeaderFromSlice, Cut;
    var j := FilterMapMember(Child, region.records, child);
    assert child.records[0] in child.records;
  }

  /** Everything below a region that came out of a Box did too. */
  lemma {:induction false} NoRootsInside(regions: seq<Region>)
    requires forall region <- regions :: !IsRoot(region)
    ensures Roots(Forest(regions)) == []
    decreases TotalBytes(regions), |regions|
  {
    hide IsRoot;
    if regions == [] {
      ForestOfNothing();
    } else {
      var next := Reverse(Children(regions[0])) + regions[1..];
      ForestStep(regions);
      QueueShrinks(regions);
      forall region | region in next ensures !IsRoot(region) {
        ReverseMembers(Children(regions[0]));
        if region in Children(regions[0]) {
          ChildrenAreInner(regions[0], region);
        }
      }
      NoRootsInside(next);
    }
  }

  /** The expansion of the roots holds no other root, and holds them in order. */
  lemma {:induction false} RootsOfForest(regions: seq<Region>)
    requires forall region <- regions :: IsRoot(region)
    ensures Roots(Forest(regions)) == regions
  {
    hide IsRoot;
    if regions == [] {
      ForestOfNothing();
    } else {
      var children := Reverse(Children(regions[0]));
      RootsOfForest(regions[1..]);
      forall region | region in children ensures !IsRoot(region) {
        ReverseMembers(Children(regions[0]));
        ChildrenAreInner(regions[0], region);
      }
      NoRootsInside(children);
      ForestStep(regions);
      ForestAppend(children, regions[1..]);
      RootsAppend(Forest(children), Forest(regions[1..]));
    }
  }

  /** The list is the expansion of its own roots, as every imported list is. */
  predicate Expanded(regions: seq<Region>) {
    Forest(Roots(regions)) == regions
  }

  /** Expansion loses nothing: only the roots of a list expand to it. */
  lemma OnlyRootsExpand(regions: seq<Region>, roots: seq<Region>)
    requires forall region <- roots :: IsRoot(region)
    ensures Forest(roots) == regions <==> Expanded(regions) && roots == Roots(regions)
  {
    hide IsRoot, Forest, Roots;
    RootsOfForest(roots);
  }

  // Regions cut off from their Box

  /** The same region without parents. */
  function Orphan(region: Region): Region {
    Region(seq(|region.records|, i requires 0 <= i < |region.records| => region.records[i].(parent := None)))
  }

  function Orphans(regions: seq<Region>): seq<Region> {
    if regions == [] then [] else [Orphan(regions[0])] + Orphans(regions[1..])
  }

  lemma OrphanOfRoot(region: Region)
    ensures IsRoot(region) <==> Orphan(region) == region
    ensures IsRoot(Orphan(region))
  {
    if Orphan(region) == region {
      forall record | record in region.records ensures record.parent == None {
        var i :| 0 <= i < |region.records| && region.records[i] == record;
        assert Orphan(region).records[i] == record;
      }
    } else {
      assert exists i | 0 <= i < |region.records| :: region.records[i].parent != None;
    }
  }

  lemma {:induction false} SameChildren(records: seq<Record>, others: seq<Record>)
    requires |records| == |others|
    requires forall i | 0 <= i < |records| :: records[i].(parent := None) == others[i].(parent := None)
    ensures ChildrenOf(records) == ChildrenOf(others)
  {
    if records != [] {
      SameChildren(records[1..], others[1..]);
      hide RegionOf;
      assert Child(records[0]) == Child(others[0]);
    }
  }

  /** A region wraps the same regions whether it came out of a Box or not. */
  lemma OrphanKeepsChildren(region: Region)
    ensures Children(Orphan(region)) == Children(region)
    ensures Concat(Orphan(region).records) == Concat(region.records)
  {
    SameChildren(Orphan(region).records, region.records);
    ParentKeepsBytes(Orphan(region).records, region.records);
  }

  lemma {:induction false} OrphansKeepChildren(regions: seq<Region>)
    ensures |Orphans(regions)| == |regions|
    ensures BoxFree(Orphans(regions)) <==> BoxFree(regions)
    ensures forall region <- Orphans(regions) :: IsRoot(region)
  {
    hide IsRoot, Orphan, Children;
    if regions != [] {
      OrphansKeepChildren(regions[1..]);
      OrphanKeepsChildren(regions[0]);
      OrphanOfRoot(regions[0]);
      assert regions == [regions[0]] + regions[1..];
      assert Orphans(regions) == [Orphan(regions[0])] + Orphans(regions[1..]);
    }
  }

  lemma {:induction false} OrphansOfRoots(regions: seq<Region>)
    requires forall region <- regions :: IsRoot(region)
    ensures Orphans(regions) == regions
  {
    hide IsRoot, Orphan;
    if regions != [] {
      OrphansOfRoots(regions[1..]);
      OrphanOfRoot(regions[0]);
    }
  }

  lemma FirstSplits(regions: seq<Region>)
    requires regions != []
    ensures Orphans(regions) == [Orphan(regions[0])] + Orphans(regions[1..])
    ensures Roots(regions) == (if IsRoot(regions[0]) then [regions[0]] else []) + Roots(regions[1..])
    ensures Inner(regions) == (if IsRoot(regions[0]) then [] else [regions[0]]) + Inner(regions[1..])
  {
    hide IsRoot, Orphan;
  }

  lemma OrphansFirst(region: Region, rest: seq<Region>)
    ensures Orphans([region] + rest) == [Orphan(region)] + Orphans(rest)
  {
    hide Orphan;
    assert ([region] + rest)[1..] == rest;
  }

  lemma JoinBags<T>(all: multiset<T>, head: multiset<T>, later: multiset<T>, a: multiset<T>, b: multiset<T>)
    requires later == a + b && all == head + later
    ensures all == (head + a) + b && all == a + (head + b)
  {
  }

  /** Expanding the orphans: the roots expand as before, and each inner region expands once more. */
  lemma {:induction false} OrphansExpandTwice(regions: seq<Region>)
    ensures multiset(Forest(Orphans(regions)))
         == multiset(Forest(Roots(regions))) + multiset(Forest(Orphans(Inner(regions))))
  {
    if regions == [] {
      ForestOfNothing();
    } else {
      hide *;
      var head, rest := regions[0], regions[1..];
      var later, roots, inner := Orphans(rest), Roots(rest), Orphans(Inner(rest));
      OrphansExpandTwice(rest);
      FirstSplits(regions);
      OrphanOfRoot(head);
      ForestAppend([Orphan(head)], later);
      JoinBags(multiset(Forest(Orphans(regions))), multiset(Forest([Orphan(head)])), multiset(Forest(later)),
               multiset(Forest(roots)), multiset(Forest(inner)));
      if IsRoot(head) {
        ForestAppend([head], roots);
        assert [] + Inner(rest) == Inner(rest);
      } else {
        OrphansFirst(head, Inner(rest));
        ForestAppend([Orphan(head)], inner);
        assert [] + Roots(rest) == Roots(rest);
      }
    }
  }

  /** An expanded list of orphans is the list itself exactly when it holds no Box. */
  lemma OrphansComeBack(regions: seq<Region>)
    requires Expanded(regions)
    ensures Forest(Orphans(regions)) == regions <==> BoxFree(regions)
    ensures !BoxFree(regions) ==> |Forest(Orphans(regions))| > |regions|
    ensures multiset(Forest(Orphans(regions))) == multiset(regions) + multiset(Forest(Orphans(Inner(regions))))
  {
    hide Forest, Orphans, Inner, BoxFree, IsRoot;
    OrphansExpandTwice(regions);
    OrphansKeepChildren(regions);
    BoxFreeForest(Orphans(regions));
    if BoxFree(regions) {
      BoxFreeForest(regions);
      BoxesStay(regions);
      RootsAreRoots(regions);
      OrphansOfRoots(Roots(regions));
    }
  }

  lemma BoxesStay(regions: seq<Region>)
    requires Expanded(regions) && BoxFree(regions)
    ensures Roots(regions) == regions
  {
    hide Children;
    ExpansionKeepsInput(Roots(regions));
    BoxFreeForest(Roots(regions));
  }

  lemma {:induction false} RootsAreRoots(regions: seq<Region>)
    ensures forall region <- Roots(regions) :: IsRoot(region)
  {
    hide IsRoot;
    if regions != [] {
      RootsAreRoots(regions[1..]);
    }
  }

  /** A Box record of sixteen bytes around a record of eight. */
  function SmallBox(): seq<byte> {
    [1, 1, 0, 0x3D, 4, 0, 0, 0] + [1, 1, 0, 1, 2, 0, 0, 0]
  }

  /** The region of such a record is expanded, and its expansion can be expanded again. */
  lemma SmallBoxExpands()
    ensures RegionOf(SmallBox()).Ok?
    ensures !BoxFree([RegionOf(SmallBox()).value])
    ensures Forest(Forest([RegionOf(SmallBox()).value])) != Forest([RegionOf(SmallBox()).value])
  {
    SmallBoxParses();
    var region := RegionOf(SmallBox()).value;
    hide Cut, Forest;
    var record := region.records[0];
    assert Child(record).Some?;
    assert [record][1..] == [];
    assert Children(region) == [Child(record).value] + [];
    assert region in [region];
    ExpansionIsIdempotent([region]);
  }

  lemma SmallBoxParses()
    ensures RegionOf(SmallBox()).Ok? && |RegionOf(SmallBox()).value.records| == 1
    ensures var record := RegionOf(SmallBox()).value.records[0];
            && record.data == SmallBox() && record.header.IsBox() && record.header.HeaderSize() == 8
            && RegionOf(record.data[8..]).Ok?
  {
    var bytes := SmallBox();
    assert bytes[8..] == [1, 1, 0, 1, 2, 0, 0, 0];
    Type1Header(bytes, 0x3D, 4);
    Type1Header(bytes[8..], 1, 2);
    hide HeaderFromSlice;
    assert Cut(bytes) == [FirstRecord(bytes)];
    assert Cut(bytes[8..]) == [FirstRecord(bytes[8..])];
  }

  lemma Type1Header(bytes: seq<byte>, recordType: byte, size: byte)
    requires recordType in {1, 0x3D} && |bytes| >= 8 && bytes[..8] == [1, 1, 0, recordType, size, 0, 0, 0]
    ensures HeaderFromSlice(bytes)
         == Ok(Some(Header(Version(1, 1, 0, recordType, false, false), RecordSize(size as int, 0), Type1)))
  {
    assert bytes[0..4] == bytes[..8][0..4] == [1, 1, 0, recordType];
    assert bytes[4..6] == bytes[..8][4..6] == [size, 0];
    assert bytes[6..8] == bytes[..8][6..8] == [0, 0];
    var word := Le32([1, 1, 0, recordType]);
    assert word == 0x101 + 0x100_0000 * recordType as int;
    assert VersionFromSlice(bytes) == Some(Version(1, 1, 0, recordType, false, false));
    assert RecordSizeFromSlice(bytes) == Some(RecordSize(size as int, 0));
  }

  /** A core record of a legacy server product, with a header of 32 bytes, around a record of eight. */
  function LegacyBox(): seq<byte> {
    [0, 0xF0, 2, 4] + Zeros(12) + [10, 0] + Zeros(14) + [1, 1, 0, 1, 2, 0, 0, 0]
  }

  /** Such a record is a Box too. */
  lemma LegacyBoxExpands()
    ensures RegionOf(LegacyBox()).Ok?
    ensures !BoxFree([RegionOf(LegacyBox()).value])
    ensures RegionOf(LegacyBox()[32..]).Ok?
  {
    LegacyBoxParses();
    var region := RegionOf(LegacyBox()).value;
    hide Cut;
    var record := region.records[0];
    assert Child(record).Some?;
    assert [record][1..] == [];
    assert Children(region) == [Child(record).value] + [];
    assert region in [region];
  }

  lemma LegacyBoxParses()
    ensures RegionOf(LegacyBox()).Ok? && |RegionOf(LegacyBox()).value.records| == 1
    ensures var record := RegionOf(LegacyBox()).value.records[0];
            && record.data == LegacyBox() && record.header.IsBox() && record.header.HeaderSize() == 32
    ensures RegionOf(LegacyBox()[32..]).Ok?
  {
    var bytes := LegacyBox();
    LegacyBoxHeader();
    assert bytes[32..] == [1, 1, 0, 1, 2, 0, 0, 0];
    Type1Header(bytes[32..], 1, 2);
    hide HeaderFromSlice;
    assert Cut(bytes) == [FirstRecord(bytes)];
    assert Cut(bytes[32..]) == [FirstRecord(bytes[32..])];
  }

  lemma LegacyBoxHeader()
    ensures Parses(LegacyBox()) && Parsed(LegacyBox()).IsBox()
    ensures Parsed(LegacyBox()).TotalSize() == 40 && Parsed(LegacyBox()).HeaderSize() == 32
  {
    hide Le64;
    var bytes := LegacyBox();
    assert bytes[0..4] == [0, 0xF0, 2, 4] && bytes[16..18] == [10, 0];
    assert Le32([0, 0xF0, 2, 4]) == 0x402_F000;
    assert VersionFromSlice(bytes) == Some(Version(0, 0, 0x2f, 4, false, false));
    assert RecordSizeFromSliceType0LegacyServer(bytes) == Some(RecordSize(10, 0));
    hide Le32, Le16, VersionFromSlice, RecordSizeFromSliceType0LegacyServer;
    assert Type0LegacyServerFromSlice(bytes).Some?;
  }
}
