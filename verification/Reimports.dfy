/** Logs that were imported from bytes, exported and imported again (lib/src/crashlog.rs). */
module Reimports {
  import opened Results
  import opened Bytes
  import opened Headers
  import opened Regions
  import opened Boxes
  import opened Sections
  import opened Seqs
  import opened CrashLogs
  import opened RawHeaders
  import Cpers
  import Berrs

  ghost predicate IsParsed(region: Region) {
    exists bytes :: RegionOf(bytes) == Ok(region)
  }

  /** The regions that the bytes were imported from, before Boxes are expanded. */
  lemma ImportedForest(s: seq<byte>) returns (roots: seq<Region>)
    requires Import(s).Ok?
    ensures roots != [] && Import(s).value.regions == Forest(roots)
    ensures forall region <- roots :: IsParsed(region)
  {
    hide RegionOf, Berrs.FromBertFile, Cpers.FromSlice, RegionOfBody;
    if Berrs.FromBertFile(s).Some? {
      roots := RegionsOf(EntryBodies(Berrs.FromBertFile(s).value));
      RegionsAreParsed(EntryBodies(Berrs.FromBertFile(s).value));
    } else if Cpers.FromSlice(s).Some? {
      roots := RegionsOf(SectionBodies(Cpers.FromSlice(s).value.sections));
      RegionsAreParsed(SectionBodies(Cpers.FromSlice(s).value.sections));
    } else {
      roots := [RegionOf(s).value];
    }
  }

  lemma RegionsAreParsed(bodies: seq<Body>)
    ensures forall region <- RegionsOf(bodies) :: IsParsed(region)
  {
    hide RegionOf;
    forall region | region in RegionsOf(bodies) ensures IsParsed(region) {
      var j := FilterMapMember(RegionOfBody, bodies, region);
      assert RegionOf(bodies[j].payload) == Ok(region);
    }
  }

  /** The records of all the regions. */
  function RecordCount(regions: seq<Region>): nat {
    if regions == [] then 0 else |regions[0].records| + RecordCount(regions[1..])
  }

  /** Parsing regions again keeps them, or loses records and adds no Box. */
  lemma {:induction false} ReparsedPrefixes(regions: seq<Region>)
    requires forall region <- regions :: IsParsed(region)
    ensures (forall region <- regions :: HeadersCovered(region.records)) ==> Reparsed(regions) == regions
    ensures (exists region <- regions :: !HeadersCovered(region.records))
       ==> RecordCount(Reparsed(regions)) < RecordCount(regions)
    ensures RecordCount(Reparsed(regions)) <= RecordCount(regions)
    ensures BoxFree(regions) ==> BoxFree(Reparsed(regions))
  {
    hide RegionOf, HeadersCovered, Children;
    if regions != [] {
      assert regions == [regions[0]] + regions[1..];
      assert IsParsed(regions[0]);
      ReparsedPrefixes(regions[1..]);
      var bytes :| RegionOf(bytes) == Ok(regions[0]);
      ReparsedPrefix(bytes);
      RegionRoundTrip(bytes);
      assert Reparsed(regions) == ToSeq(Reparse(regions[0])) + Reparsed(regions[1..]);
      if Reparse(regions[0]).Some? {
        assert Reparsed(regions)[0] == Reparse(regions[0]).value;
        assert Reparsed(regions)[1..] == Reparsed(regions[1..]);
      } else {
        assert Reparsed(regions) == Reparsed(regions[1..]);
      }
    }
  }

  lemma ReparsedPrefix(bytes: seq<byte>)
    requires RegionOf(bytes).Ok?
    ensures var region := RegionOf(bytes).value;
            var again := RegionOf(Concat(region.records));
            && region.records != []
            && (again.Ok? ==> again.value.records <= region.records)
            && (again.Ok? && |again.value.records| == |region.records| ==> again.value == region)
            && (again.Ok? && Children(region) == [] ==> Children(again.value) == [])
  {
    hide HeaderFromSlice, Cut;
    ReparseIsPrefix(bytes);
    var records := RegionOf(bytes).value.records;
    var again := RegionOf(Concat(records));
    if again.Ok? {
      var n := |again.value.records|;
      assert records == again.value.records + records[n..];
      FilterMapAppend(Child, again.value.records, records[n..]);
    }
  }

  // What an import returns

  lemma ParsedIsOrphan(bytes: seq<byte>)
    requires RegionOf(bytes).Ok?
    ensures IsRoot(RegionOf(bytes).value) && Orphan(RegionOf(bytes).value) == RegionOf(bytes).value
  {
    hide HeaderFromSlice, Cut;
    CutTiles(bytes);
    OrphanOfRoot(RegionOf(bytes).value);
  }

  /** A child region is what its Box's payload parsed to, up to the parent. */
  lemma ChildIsParsed(region: Region, child: Region)
    requires child in Children(region)
    ensures IsParsed(Orphan(child))
  {
    hide HeaderFromSlice, Cut;
    var j := FilterMapMember(Child, region.records, child);
    var payload := GetFrom(region.records[j].data, region.records[j].header.HeaderSize()).value;
    ParsedIsOrphan(payload);
    assert Orphan(child) == RegionOf(payload).value;
  }

  lemma {:induction false} ForestIsParsed(regions: seq<Region>)
    requires forall region <- regions :: IsParsed(Orphan(region))
    ensures forall region <- Forest(regions) :: IsParsed(Orphan(region))
    decreases TotalBytes(regions), |regions|
  {
    hide IsParsed, Orphan;
    if regions == [] {
      ForestOfNothing();
    } else {
      var next := Reverse(Children(regions[0])) + regions[1..];
      ForestStep(regions);
      QueueShrinks(regions);
      forall region | region in next ensures IsParsed(Orphan(region)) {
        ReverseMembers(Children(regions[0]));
        if region in Children(regions[0]) {
          ChildIsParsed(regions[0], region);
        }
      }
      ForestIsParsed(next);
    }
  }

  /** The regions of an imported log are the expansion of its roots, and each was parsed. */
  lemma ImportIsExpanded(s: seq<byte>)
    requires Import(s).Ok?
    ensures Import(s).value.regions != [] && Expanded(Import(s).value.regions)
    ensures forall region <- Import(s).value.regions :: IsParsed(Orphan(region))
  {
    hide Import, RegionOf, Forest, Roots;
    var roots := ImportedForest(s);
    forall region | region in roots ensures IsRoot(region) && IsParsed(Orphan(region)) {
      var bytes :| RegionOf(bytes) == Ok(region);
      ParsedIsOrphan(bytes);
    }
    ImportedHasRegions(s);
    OnlyRootsExpand(Import(s).value.regions, roots);
    ForestIsParsed(roots);
  }

  lemma ImportedRecord(s: seq<byte>, region: Region, record: Record) returns (bytes: seq<byte>)
    requires Import(s).Ok? && region in Import(s).value.regions && record in region.records
    ensures record.(parent := None) in Cut(bytes)
  {
    hide Import, Cut;
    ImportIsExpanded(s);
    bytes :| RegionOf(bytes) == Ok(Orphan(region));
    var i :| 0 <= i < |region.records| && region.records[i] == record;
    assert Orphan(region).records[i] == record.(parent := None);
  }

  /**
   Whatever the raw bits of an imported record call a Box is expanded: the region behind
   its header, when there is one, is in the log, with that header as its parent.
   */
  lemma ImportedBoxIsExpanded(s: seq<byte>, region: Region, record: Record)
    requires Import(s).Ok? && region in Import(s).value.regions && record in region.records
    requires Parses(record.data) && IsBoxData(record.data)
    requires Parsed(record.data).HeaderSize() <= |record.data|
    requires RegionOf(record.data[Parsed(record.data).HeaderSize()..]).Ok?
    ensures exists child <- Import(s).value.regions :: IsWrapped(child, record)
  {
    var bytes := ImportedRecord(s, region, record);
    RecordShowsHeader(bytes, record.(parent := None));
    BoxByBits(record.data);
    ImportIsExpanded(s);
    BoxedChild(region, record);
    hide *;
    ExpansionIsClosed(Roots(Import(s).value.regions), region, Child(record).value);
    ExpandedIs(Import(s).value.regions);
  }

  /** The child is what lies behind the header of the record, with that header as its parent. */
  predicate IsWrapped(child: Region, record: Record) {
    && Parses(record.data) && IsBoxData(record.data)
    && Parsed(record.data).HeaderSize() <= |record.data|
    && RegionOf(record.data[Parsed(record.data).HeaderSize()..]) == Ok(Orphan(child))
    && forall inner <- child.records :: inner.parent == Some(Parsed(record.data))
  }

  lemma ExpandedIs(regions: seq<Region>)
    requires Expanded(regions)
    ensures Forest(Roots(regions)) == regions
  {
  }

  lemma BoxedChild(region: Region, record: Record)
    requires record in region.records && Parses(record.data) && IsBoxData(record.data)
    requires Parsed(record.data) == record.header && record.header.IsBox()
    requires record.header.HeaderSize() <= |record.data|
    requires RegionOf(record.data[record.header.HeaderSize()..]).Ok?
    ensures Child(record).Some? && Child(record).value in Children(region) && IsWrapped(Child(record).value, record)
  {
    hide Cut, HeaderFromSlice, IsBoxData;
    var payload := record.data[record.header.HeaderSize()..];
    ParsedIsOrphan(payload);
    assert Orphan(Child(record).value) == RegionOf(payload).value;
    var i :| 0 <= i < |region.records| && region.records[i] == record;
    FilterMapHolds(Child, region.records, i);
  }

  /** Every region of an imported log that has a parent is what some record of the log wraps. */
  lemma ImportedChildHasBox(s: seq<byte>, child: Region)
    requires Import(s).Ok? && child in Import(s).value.regions && !IsRoot(child)
    ensures exists region, record :: region in Import(s).value.regions && record in region.records
                                     && IsWrapped(child, record)
  {
    var regions := Import(s).value.regions;
    ImportIsExpanded(s);
    ExpandedIs(regions);
    RootsAreRoots(regions);
    InnerIsChild(Roots(regions), child);
    var region :| region in regions && child in Children(region);
    var record := WrappedByRecord(region, child);
    var bytes := ImportedRecord(s, region, record);
    RecordShowsHeader(bytes, record.(parent := None));
    BoxByBits(record.data);
    ChildIsWrapped(record);
  }

  lemma WrappedByRecord(region: Region, child: Region) returns (record: Record)
    requires child in Children(region)
    ensures record in region.records && Child(record) == Some(child)
    ensures record.header.IsBox() && record.header.HeaderSize() <= |record.data|
  {
    hide RegionOf;
    var j := FilterMapMember(Child, region.records, child);
    record := region.records[j];
  }

  lemma ChildIsWrapped(record: Record)
    requires Child(record).Some? && Parses(record.data) && IsBoxData(record.data)
    requires Parsed(record.data) == record.header && record.header.HeaderSize() <= |record.data|
    ensures IsWrapped(Child(record).value, record)
  {
    hide Cut, HeaderFromSlice, IsBoxData;
    var payload := record.data[record.header.HeaderSize()..];
    ParsedIsOrphan(payload);
    assert Orphan(Child(record).value) == RegionOf(payload).value;
  }

  /** No header was cut off from the records. */
  predicate Covered(regions: seq<Region>) {
    forall region <- regions :: HeadersCovered(region.records)
  }

  lemma {:induction false} OrphansAreCovered(records: seq<Record>, others: seq<Record>)
    requires |records| == |others|
    requires forall i | 0 <= i < |records| :: records[i].(parent := None) == others[i].(parent := None)
    ensures HeadersCovered(records) <==> HeadersCovered(others)
  {
    if records != [] {
      OrphansAreCovered(records[1..], others[1..]);
      ParentKeepsBytes(records, others);
    }
  }

  lemma CoveredIsWhole(regions: seq<Region>)
    requires Covered(regions) && forall region <- regions :: IsParsed(Orphan(region))
    ensures Whole(regions)
  {
    hide RegionOf, HeadersCovered, Children;
    forall region | region in regions ensures RegionOf(Concat(region.records)) == Ok(Orphan(region)) {
      var bytes :| RegionOf(bytes) == Ok(Orphan(region));
      RegionRoundTrip(bytes);
      OrphansAreCovered(Orphan(region).records, region.records);
      OrphanKeepsChildren(region);
    }
  }

  // Round trips

  /**
   An imported log comes back from its BERT export exactly when parsing its regions
   again gives its roots and nothing else.
   */
  lemma ReimportRoundTrip(s: seq<byte>)
    requires Import(s).Ok? && FitsBert(Import(s).value)
    ensures var log := Import(s).value;
            Import(ToBert(log)) == Ok(CrashLog(log.regions, Metadata(None, [])))
            <==> Reparsed(log.regions) == Roots(log.regions)
    ensures var log := Import(s).value;
            BoxFree(log.regions) ==>
              (Import(ToBert(log)) == Ok(CrashLog(log.regions, Metadata(None, []))) <==> Covered(log.regions))
  {
    hide Import, ToBert, Reparsed, Roots, BoxFree, Expanded, HeadersCovered, RegionOf, Orphan;
    var log := Import(s).value;
    ImportIsExpanded(s);
    BertRoundTrip(log);
    if BoxFree(log.regions) {
      BoxesStay(log.regions);
      RootsAreRoots(log.regions);
      forall region | region in log.regions ensures IsParsed(region) {
        OrphanOfRoot(region);
      }
      ReparsedPrefixes(log.regions);
    }
  }

  /**
   When no header was cut off, the import of the BERT export succeeds. It returns every
   region again, and every region that came out of a Box once more with all it wraps,
   so the log comes back exactly when it holds no Box.
   */
  lemma CoveredReimport(s: seq<byte>)
    requires Import(s).Ok? && FitsBert(Import(s).value) && Covered(Import(s).value.regions)
    ensures Import(ToBert(Import(s).value)).Ok?
    ensures var regions, again := Import(s).value.regions, Import(ToBert(Import(s).value)).value.regions;
            && (again == regions <==> BoxFree(regions))
            && (!BoxFree(regions) ==> |again| > |regions|)
            && again == Forest(Orphans(regions))
            && multiset(again) == multiset(regions) + multiset(Forest(Orphans(Inner(regions))))
  {
    hide *;
    var log := Import(s).value;
    ImportIsExpanded(s);
    CoveredIsWhole(log.regions);
    WholeReparses(log.regions);
    BertImportParts(log);
    OrphansKeepChildren(log.regions);
    OrphansComeBack(log.regions);
  }

  lemma ImportedExtras(s: seq<byte>)
    requires Import(s).Ok?
    ensures forall body <- Import(s).value.metadata.extraSections :: ParsedExtra(body)
    ensures Import(s).value.metadata.time == None
  {
    hide RegionOf, Berrs.FromBertFile, Cpers.FromSlice, RegionOfBody, Forest;
    if Berrs.FromBertFile(s).None? && Cpers.FromSlice(s).Some? {
      var sections := Cpers.FromSlice(s).value.sections;
      var bodies := SectionBodies(sections);
      Cpers.ParsedTypes(s);
      forall body | body in ExtrasOf(bodies) ensures ParsedExtra(body) {
        var j := FilterMapMember(ExtraOfBody, bodies, body);
        assert sections[j] in sections;
      }
    }
  }

  /** The exports of an imported log always give the same regions, or both give none. */
  lemma ImportedExportsAgree(s: seq<byte>)
    requires Import(s).Ok? && FitsCper(Import(s).value)
    ensures Import(ToBert(Import(s).value)).Ok? <==> Import(ToCper(Import(s).value)).Ok?
    ensures Import(ToBert(Import(s).value)).Ok? ==>
              Import(ToCper(Import(s).value)).value.regions == Import(ToBert(Import(s).value)).value.regions
  {
    hide *;
    var log := Import(s).value;
    ImportedHasRegions(s);
    ImportedExtras(s);
    ExtrasHoldNoRegion(log.metadata.extraSections);
    CperFitsBert(log);
    BertImportParts(log);
    SectionsAreThere(log);
    CperImportParts(log);
    assert Reparsed(log.regions) + [] == Reparsed(log.regions);
  }

  /**
   Any imported log comes back whole from its CPER export exactly when it holds no Box,
   no header was cut off and its extra sections survive.
   */
  lemma CperReimportRoundTrip(s: seq<byte>)
    requires Import(s).Ok? && FitsCper(Import(s).value)
    ensures var log := Import(s).value;
            Import(ToCper(log)) == Ok(log)
            <==> && BoxFree(log.regions) && Covered(log.regions)
                 && forall body <- log.metadata.extraSections :: BodyKept(body)
  {
    hide Import, ToBert, ToCper, BoxFree, Expanded, Covered, Whole, BodyKept, RegionOfBody, IsRoot;
    var log := Import(s).value;
    ImportIsExpanded(s);
    ImportedExtras(s);
    ExportRoundTrip(log);
    if BoxFree(log.regions) {
      BoxesStay(log.regions);
      RootsAreRoots(log.regions);
      if Covered(log.regions) {
        CoveredIsWhole(log.regions);
      }
    }
    if Whole(log.regions) && Flat(log.regions) {
      WholeIsCovered(log.regions);
    }
  }

  /** Regions that parse again in full were not cut inside a header. */
  lemma WholeIsCovered(regions: seq<Region>)
    requires Whole(regions)
    ensures Covered(regions)
  {
    hide RegionOf, HeadersCovered;
    forall region | region in regions ensures HeadersCovered(region.records) {
      var bytes := Concat(region.records);
      OrphanKeepsChildren(region);
      RegionRoundTrip(bytes);
      OrphansAreCovered(Orphan(region).records, region.records);
    }
  }

  // A log with a Box

  lemma SmallBoxForest()
    ensures RegionOf(SmallBox()).Ok?
    ensures var regions := Forest([RegionOf(SmallBox()).value]);
            |regions| == 2 && Covered(regions) && TotalBytes(regions) == 24 && !BoxFree(regions)
  {
    SmallBoxParses();
    SmallBoxExpands();
    var region := RegionOf(SmallBox()).value;
    SmallChild(region.records[0]);
    var child := Child(region.records[0]).value;
    hide Cut, RegionOf, Child, HeadersCovered, Concat, BoxFree;
    assert region.records == [region.records[0]];
    OneChild(region);
    ForestStep([region]);
    assert [region][1..] == [] && Reverse([child]) == [child] by {
      assert [child][1..] == [];
    }
    NoChild(child);
    ForestStep([child]);
    assert [child][1..] == [];
    EmptyReverse();
    ForestOfNothing();
    assert Forest([region]) == [region, child];
    assert [region, child][1..] == [child];
    CoveredRecord(region);
    CoveredRecord(child);
  }

  lemma OneChild(region: Region)
    requires |region.records| == 1 && Child(region.records[0]).Some?
    ensures Children(region) == [Child(region.records[0]).value]
  {
    hide Child;
    assert region.records[1..] == [];
  }

  lemma NoChild(region: Region)
    requires |region.records| == 1 && Child(region.records[0]).None?
    ensures Children(region) == []
  {
    hide Child;
    assert region.records[1..] == [];
  }

  lemma CoveredRecord(region: Region)
    requires |region.records| == 1 && region.records[0].header.HeaderSize() <= |region.records[0].data|
    ensures HeadersCovered(region.records) && ByteCount(region) == |region.records[0].data|
  {
    assert region.records[1..] == [];
    assert Concat([]) == [];
  }

  lemma SmallChild(box: Record)
    requires box.data == SmallBox() && box.header.IsBox() && box.header.HeaderSize() == 8
    requires RegionOf(box.data[8..]).Ok?
    ensures Child(box).Some?
    ensures var child := Child(box).value;
            && |child.records| == 1 && Child(child.records[0]).None?
            && |child.records[0].data| == 8 && child.records[0].header.HeaderSize() == 8
  {
    var payload := box.data[8..];
    assert payload == [1, 1, 0, 1, 2, 0, 0, 0];
    Type1Header(payload, 1, 2);
    hide HeaderFromSlice;
    assert Cut(payload) == [FirstRecord(payload)];
  }

  /** The regions of a file that holds one Box come back from the log's export, and one of them twice. */
  lemma SmallBoxComesBackTwice()
    ensures Import(SmallBox()).Ok?
    ensures var log := Import(SmallBox()).value;
            && FitsBert(log) && Covered(log.regions) && |log.regions| == 2
            && Import(ToBert(log)).Ok? && |Import(ToBert(log)).value.regions| > 2
  {
    SmallBoxForest();
    SmallBoxImports();
    var log := Import(SmallBox()).value;
    hide Import, ToBert, RegionOf, Forest, Covered, BoxFree, EntryOfRegion, Berrs.Payload, TotalBytes;
    BertSize(log.regions, BerrOf(log).entries);
    CoveredReimport(SmallBox());
  }

  lemma SmallBoxImports()
    requires RegionOf(SmallBox()).Ok?
    ensures Import(SmallBox()) == Ok(CrashLog(Forest([RegionOf(SmallBox()).value]), Metadata(None, [])))
  {
    hide RegionOf, Forest;
    var bytes := SmallBox();
    assert bytes[..4][0] == 1;
    assert Berrs.FromBertFile(bytes).None?;
    assert Cpers.FromSlice(bytes).None?;
  }
}
