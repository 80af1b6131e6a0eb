/** Crash logs imported from and exported to their containers (lib/src/crashlog.rs). */
module CrashLogs {
  import opened Results
  import opened Bytes
  import opened Headers
  import opened Regions
  import opened Boxes
  import opened Sections
  import Descriptors
  import opened Seqs
  import Cpers
  import Berrs

  datatype Metadata = Metadata(time: Option<Descriptors.Timestamp>, extraSections: seq<Body>)

  datatype CrashLog = CrashLog(regions: seq<Region>, metadata: Metadata)

  // Import

  /** The region inside a section, when there is one (lib/src/region.rs). */
  function RegionOfBody(body: Body): Option<Region> {
    if body.FirmwareErrorRecord? && body.header.guid == RECORD_ID_CRASHLOG && RegionOf(body.payload).Ok?
    then Some(RegionOf(body.payload).value)
    else None
  }

  function RegionsOf(bodies: seq<Body>): seq<Region> {
    FilterMap(RegionOfBody, bodies)
  }

  function ExtraOfBody(body: Body): Option<Body> {
    if RegionOfBody(body).Some? then None else Some(body)
  }

  /** The other sections. */
  function ExtrasOf(bodies: seq<Body>): seq<Body> {
    FilterMap(ExtraOfBody, bodies)
  }

  function EntryBodies(berr: Berrs.Berr): seq<Body> {
    seq(|berr.entries|, i requires 0 <= i < |berr.entries| => berr.entries[i].body)
  }

  function SectionBodies(sections: seq<Cpers.Section>): seq<Body> {
    seq(|sections|, i requires 0 <= i < |sections| => sections[i].body)
  }

  /** The log held by the bodies of a Boot Error Region. */
  function FromBerrBodies(bodies: seq<Body>): Result<CrashLog> {
    if RegionsOf(bodies) == [] then Err(InvalidCrashLog)
    else Ok(CrashLog(Forest(RegionsOf(bodies)), Metadata(None, [])))
  }

  /** The log held by the bodies of a CPER record. */
  function FromCperBodies(bodies: seq<Body>): Result<CrashLog> {
    if RegionsOf(bodies) == [] then Err(NoCrashLogFound)
    else Ok(CrashLog(Forest(RegionsOf(bodies)), Metadata(None, ExtrasOf(bodies))))
  }

  /** A Boot Error Region, a CPER record, or else a single raw region. */
  function Import(s: seq<byte>): Result<CrashLog> {
    if Berrs.FromBertFile(s).Some? then FromBerrBodies(EntryBodies(Berrs.FromBertFile(s).value))
    else if Cpers.FromSlice(s).Some? then FromCperBodies(SectionBodies(Cpers.FromSlice(s).value.sections))
    else
      var region :- RegionOf(s);
      Ok(CrashLog(Forest([region]), Metadata(None, [])))
  }

  /** A file that starts with none of the three signatures is a single raw region. */
  lemma RawImport(s: seq<byte>)
    requires !StartsWith(s, [0x42, 0x45, 0x52, 0x52]) && !StartsWith(s, [0x42, 0x45, 0x52, 0x54])
    requires !StartsWith(s, [0x43, 0x50, 0x45, 0x52])
    ensures Import(s) == if RegionOf(s).Ok? then Ok(CrashLog(Forest([RegionOf(s).value]), Metadata(None, [])))
                         else Err(RegionOf(s).error)
  {
    hide RegionOf, Forest, Berrs.FromSlice, Cpers.FromSlice;
    Berrs.BertFileIsRead(s);
    Cpers.CperIsRead(s);
  }

  /** Which of the three a file is, by its first bytes and its length. */
  lemma ImportBySignature(s: seq<byte>)
    ensures Berrs.FromBertFile(s).Some? ==>
              var regions := RegionsOf(EntryBodies(Berrs.FromBertFile(s).value));
              Import(s) == if regions == [] then Err(InvalidCrashLog)
                           else Ok(CrashLog(Forest(regions), Metadata(None, [])))
    ensures Berrs.FromBertFile(s).None? && |s| >= 128 && Descriptors.HasSignature(s) ==>
              && Cpers.FromSlice(s).Some?
              && var bodies := SectionBodies(Cpers.FromSlice(s).value.sections);
              Import(s) == if RegionsOf(bodies) == [] then Err(NoCrashLogFound)
                           else Ok(CrashLog(Forest(RegionsOf(bodies)), Metadata(None, ExtrasOf(bodies))))
    ensures Berrs.FromBertFile(s).None? && !(|s| >= 128 && Descriptors.HasSignature(s)) ==>
              Import(s) == if RegionOf(s).Ok? then Ok(CrashLog(Forest([RegionOf(s).value]), Metadata(None, [])))
                           else Err(RegionOf(s).error)
  {
    hide RegionOf, Forest, Berrs.FromBertFile, Cpers.FromSlice, RegionsOf, ExtrasOf;
    Cpers.CperIsRead(s);
  }

  /** A body is a region when it is a Firmware Error Record of the crash log GUID whose payload parses. */
  lemma RegionBodyIsRead(body: Body)
    ensures RegionOfBody(body).Some?
       <==> && body.FirmwareErrorRecord? && RegionOf(body.payload).Ok?
            && body.header.guid == [0x11, 0xf3, 0x87, 0x8f, 0x98, 0xc9, 0x9e, 0x4d, 0xa0, 0xc4, 0x60, 0x65, 0x51, 0x8c, 0x4f, 0x6d]
    ensures RegionOfBody(body).Some? ==> Ok(RegionOfBody(body).value) == RegionOf(body.payload)
  {
    hide RegionOf;
  }

  method FromCper(cper: Cpers.CperValue) returns (r: Result<CrashLog>)
    ensures r == FromCperBodies(SectionBodies(cper.sections))
  {
    hide RegionOfBody;
    var bodies := SectionBodies(cper.sections);
    var regions: seq<Region> := [];
    var extras: seq<Body> := [];
    for i := 0 to |cper.sections|
      invariant regions == RegionsOf(bodies[..i])
      invariant extras == ExtrasOf(bodies[..i])
    {
      FilterMapSnoc(RegionOfBody, bodies, i);
      FilterMapSnoc(ExtraOfBody, bodies, i);
      var region := RegionOfBody(cper.sections[i].body);
      if region.Some? {
        regions := regions + [region.value];
      } else {
        extras := extras + [cper.sections[i].body];
      }
    }
    assert bodies[..|bodies|] == bodies;
    if regions == [] {
      return Err(NoCrashLogFound);
    }
    var expanded := FromRegions(regions);
    return Ok(CrashLog(expanded.value, Metadata(None, extras)));
  }

  // Export

  /** A region wrapped into a Firmware Error Record. */
  function BodyOfRegion(region: Region): Body {
    FirmwareErrorRecord(FerHeader(2, 2, 0, RECORD_ID_CRASHLOG), Concat(region.records))
  }

  function RegionBodies(regions: seq<Region>): seq<Body> {
    if regions == [] then [] else [BodyOfRegion(regions[0])] + RegionBodies(regions[1..])
  }

  function EntryOfRegion(region: Region): Berrs.Entry {
    Berrs.Entry(
      Berrs.EntryHeader(FW_ERROR_RECORD, 0, 0x300, 0, 0, 0, Zeros(16), Zeros(20), 0),
      BodyOfRegion(region))
  }

  function BerrOf(log: CrashLog): Berrs.Berr {
    Berrs.Berr(
      Berrs.StatusBlock(0, 0, 0, 0, 0),
      seq(|log.regions|, i requires 0 <= i < |log.regions| => EntryOfRegion(log.regions[i])))
  }

  /** The log as a BERT file: the table, then the region it announces. */
  function ToBert(log: CrashLog): seq<byte> {
    var berr := Berrs.ToBytes(BerrOf(log));
    Berrs.BertToBytes(Berrs.DummyBert().(regionLength := AsU32(|berr|))) + berr
  }

  function SectionOfRegion(region: Region): Cpers.Section {
    var section := Cpers.SectionOfBody(BodyOfRegion(region));
    section.(descriptor := section.descriptor.(severity := Descriptors.Fatal))
  }

  function SectionsOfRegions(regions: seq<Region>): seq<Cpers.Section> {
    if regions == [] then [] else [SectionOfRegion(regions[0])] + SectionsOfRegions(regions[1..])
  }

  function SectionsOfBodies(bodies: seq<Body>): seq<Cpers.Section> {
    if bodies == [] then [] else [Cpers.SectionOfBody(bodies[0])] + SectionsOfBodies(bodies[1..])
  }

  function SectionsOf(log: CrashLog): seq<Cpers.Section> {
    SectionsOfRegions(log.regions) + SectionsOfBodies(log.metadata.extraSections)
  }

  function ExportHeader(log: CrashLog): Descriptors.CperHeader {
    Descriptors.DefaultCperHeader().(
      notificationType := Descriptors.BOOT,
      errorSeverity := Descriptors.Fatal,
      timestamp := log.metadata.time
    )
  }

  /** The CPER record that appending the sections one by one builds. */
  function CperOf(log: CrashLog): Cpers.CperValue {
    Cpers.AppendAll(Cpers.CperValue(ExportHeader(log), []), SectionsOf(log))
  }

  /** The log as a CPER file. */
  function ToCper(log: CrashLog): seq<byte> {
    Cpers.ToBytes(CperOf(log))
  }

  lemma {:induction false} AppendAllSnoc(c: Cpers.CperValue, sections: seq<Cpers.Section>, section: Cpers.Section)
    ensures Cpers.AppendAll(c, sections + [section])
         == var before := Cpers.AppendAll(c, sections);
            Cpers.Normal(Cpers.CperValue(before.header, before.sections + [section]))
    decreases |sections|
  {
    hide Cpers.Normal;
    if sections == [] {
      assert sections + [section] == [section];
      assert [section][1..] == [];
    } else {
      assert (sections + [section])[1..] == sections[1..] + [section];
      AppendAllSnoc(Cpers.Normal(Cpers.CperValue(c.header, c.sections + [sections[0]])), sections[1..], section);
    }
  }

  lemma {:induction false} SectionsAt(regions: seq<Region>, bodies: seq<Body>)
    ensures |SectionsOfRegions(regions)| == |regions|
    ensures forall i | 0 <= i < |regions| :: SectionsOfRegions(regions)[i] == SectionOfRegion(regions[i])
    ensures |SectionsOfBodies(bodies)| == |bodies|
    ensures forall i | 0 <= i < |bodies| :: SectionsOfBodies(bodies)[i] == Cpers.SectionOfBody(bodies[i])
    decreases |regions| + |bodies|
  {
    hide SectionOfRegion, Cpers.SectionOfBody;
    if regions != [] {
      SectionsAt(regions[1..], []);
    }
    if bodies != [] {
      SectionsAt([], bodies[1..]);
    }
  }

  lemma SectionsInOrder(log: CrashLog)
    ensures |SectionsOf(log)| == |log.regions| + |log.metadata.extraSections|
    ensures forall i | 0 <= i < |log.regions| :: SectionsOf(log)[i] == SectionOfRegion(log.regions[i])
    ensures forall i | 0 <= i < |log.metadata.extraSections| ::
              SectionsOf(log)[|log.regions| + i] == Cpers.SectionOfBody(log.metadata.extraSections[i])
  {
    hide SectionOfRegion, Cpers.SectionOfBody;
    SectionsAt(log.regions, log.metadata.extraSections);
  }

  lemma AppendNext(c: Cpers.CperValue, sections: seq<Cpers.Section>, at: nat)
    requires at < |sections|
    ensures Cpers.AppendAll(c, sections[..at + 1])
         == var before := Cpers.AppendAll(c, sections[..at]);
            Cpers.Normal(Cpers.CperValue(before.header, before.sections + [sections[at]]))
  {
    hide Cpers.Normal, Cpers.AppendAll;
    assert sections[..at + 1] == sections[..at] + [sections[at]];
    AppendAllSnoc(c, sections[..at], sections[at]);
  }

  /** The record is built by appending a section for each region, then the extra sections. */
  method FromRawCrashLog(log: CrashLog) returns (cper: Cpers.Cper)
    ensures fresh(cper)
    ensures cper.Value() == CperOf(log)
  {
    hide Cpers.Normal, SectionOfRegion, Cpers.SectionOfBody, SectionsOf;
    var extras := log.metadata.extraSections;
    SectionsInOrder(log);
    ghost var all := SectionsOf(log);
    ghost var start := Cpers.CperValue(ExportHeader(log), []);
    cper := new Cpers.Cper();
    cper.recordHeader := cper.recordHeader.(
      notificationType := Descriptors.BOOT,
      errorSeverity := Descriptors.Fatal
    );
    cper.recordHeader := cper.recordHeader.(timestamp := log.metadata.time);
    assert all[..0] == [];
    for i := 0 to |log.regions|
      invariant fresh(cper)
      invariant cper.Value() == Cpers.AppendAll(start, all[..i])
    {
      AppendNext(start, all, i);
      cper.AppendSection(SectionOfRegion(log.regions[i]));
    }
    for i := 0 to |extras|
      invariant fresh(cper)
      invariant cper.Value() == Cpers.AppendAll(start, all[..|log.regions| + i])
    {
      AppendNext(start, all, |log.regions| + i);
      cper.AppendSection(Cpers.SectionOfBody(extras[i]));
    }
    assert all[..|log.regions| + |extras|] == all;
  }

  // What comes back from an export

  function Reparse(region: Region): Option<Region> {
    var again := RegionOf(Concat(region.records));
    if again.Ok? then Some(again.value) else None
  }

  /** The regions that parse again from their own bytes. */
  function Reparsed(regions: seq<Region>): seq<Region> {
    FilterMap(Reparse, regions)
  }

  lemma {:induction false} RegionBodiesReparse(regions: seq<Region>)
    ensures RegionsOf(RegionBodies(regions)) == Reparsed(regions)
  {
    hide RegionOf;
    if regions != [] {
      RegionBodiesReparse(regions[1..]);
      assert RegionBodies(regions)[1..] == RegionBodies(regions[1..]);
    }
  }

  /** Sizes fit the 32-bit fields of the Boot Error Region. */
  predicate FitsBert(log: CrashLog) {
    |Berrs.Payload(BerrOf(log).entries)| < 0x1_0000_0000
  }

  lemma EntriesOfRegions(berr: Berrs.Berr, regions: seq<Region>)
    requires |berr.entries| == |regions|
    requires forall i | 0 <= i < |regions| :: berr.entries[i].body == BodyOfRegion(regions[i])
    ensures EntryBodies(berr) == RegionBodies(regions)
  {
    hide BodyOfRegion;
    RegionBodiesAt(regions);
  }

  /** Importing a BERT export expands the regions that parse again. */
  lemma BertImport(log: CrashLog)
    requires FitsBert(log)
    ensures Import(ToBert(log)) == FromBerrBodies(RegionBodies(log.regions))
  {
    hide Berrs.ToBytes, Berrs.Payload, Berrs.FromSlice, Berrs.BertToBytes, Berrs.FromBertFile, FromBerrBodies,
      BodyOfRegion, EntryBodies, Berrs.EntryKept;
    var b := BerrOf(log);
    var berr := Berrs.ToBytes(b);
    forall e | e in b.entries ensures Berrs.EntryKept(e) {
      ExportedEntryIsKept(log, e);
    }
    assert berr + [] == berr;
    Berrs.BerrRoundTrip(b, []);
    Berrs.BertPrefix(Berrs.DummyBert().(regionLength := AsU32(|berr|)), berr);
    EntriesOfRegions(Berrs.FromSlice(berr).value, log.regions);
  }

  lemma ExportedEntryIsKept(log: CrashLog, e: Berrs.Entry)
    requires e in BerrOf(log).entries
    ensures Berrs.EntryKept(e)
  {
    hide Concat;
  }

  /** Sizes and counts fit the fields of the CPER record. */
  predicate FitsCper(log: CrashLog) {
    && Cpers.InRange(SectionsOf(log))
    && forall section <- SectionsOf(log) :: BodyLen(section.body) < 0x1_0000_0000
  }

  function BodiesOf(log: CrashLog): seq<Body> {
    RegionBodies(log.regions) + log.metadata.extraSections
  }

  /** What the announced bytes of the bodies parse to, without those that do not parse. */
  function ReadBackBodies(bodies: seq<Body>): seq<Body> {
    FilterMap(Cpers.ReadBack, bodies)
  }

  lemma ReadBackOfKept(bodies: seq<Body>)
    requires forall body <- bodies :: BodyKept(body)
    ensures ReadBackBodies(bodies) == bodies
  {
    hide Cpers.ReadBack, BodyKept;
    forall body | body in bodies ensures Cpers.ReadBack(body) == Some(body) {
      Cpers.ReadBackIsKept(body);
    }
    FilterMapKeeps(Cpers.ReadBack, bodies);
  }

  lemma {:induction false} ReadBackOfSections(sections: seq<Cpers.Section>)
    ensures SectionBodies(Cpers.ReadBackAll(sections)) == ReadBackBodies(SectionBodies(sections))
  {
    hide Cpers.ReadBack;
    if sections == [] {
    } else {
      ReadBackOfSections(sections[1..]);
      assert SectionBodies(sections)[1..] == SectionBodies(sections[1..]);
      var rest := Cpers.ReadBackAll(sections[1..]);
      if Cpers.ReadBack(sections[0].body).Some? {
        var head := sections[0].(body := Cpers.ReadBack(sections[0].body).value);
        assert Cpers.ReadBackAll(sections) == [head] + rest;
        assert SectionBodies([head] + rest) == [head.body] + SectionBodies(rest);
      } else {
        assert Cpers.ReadBackAll(sections) == rest;
      }
    }
  }

  lemma {:induction false} RegionBodiesAt(regions: seq<Region>)
    ensures |RegionBodies(regions)| == |regions|
    ensures forall i | 0 <= i < |regions| :: RegionBodies(regions)[i] == BodyOfRegion(regions[i])
  {
    hide BodyOfRegion;
    if regions != [] {
      RegionBodiesAt(regions[1..]);
    }
  }

  lemma BodiesOfSections(log: CrashLog)
    ensures SectionBodies(SectionsOf(log)) == BodiesOf(log)
  {
    hide BodyOfRegion;
    SectionsAt(log.regions, log.metadata.extraSections);
    RegionBodiesAt(log.regions);
  }

  lemma SectionsAreDescribed(log: CrashLog)
    requires FitsCper(log)
    ensures forall section <- SectionsOf(log) :: Cpers.Described(section)
  {
    hide BodyLen, BodyGuid, BodyOfRegion, SectionOfRegion, Cpers.SectionOfBody, Cpers.Described;
    SectionsAt(log.regions, log.metadata.extraSections);
    var sections := SectionsOf(log);
    forall section | section in sections ensures Cpers.Described(section) {
      var i :| 0 <= i < |sections| && sections[i] == section;
      if i < |log.regions| {
        RegionIsDescribed(log.regions[i]);
      } else {
        BodyIsDescribed(log.metadata.extraSections[i - |log.regions|]);
      }
    }
  }

  lemma BodyIsDescribed(body: Body)
    ensures Cpers.SectionOfBody(body).body == body
    ensures BodyLen(body) < 0x1_0000_0000 ==> Cpers.Described(Cpers.SectionOfBody(body))
  {
    hide BodyLen, BodyGuid;
  }

  lemma RegionIsDescribed(region: Region)
    ensures BodyLen(SectionOfRegion(region).body) < 0x1_0000_0000 ==> Cpers.Described(SectionOfRegion(region))
  {
    hide BodyLen, BodyGuid, BodyOfRegion;
  }

  lemma PlacedBodies(sections: seq<Cpers.Section>, cursor: nat)
    ensures SectionBodies(Cpers.PlaceAll(sections, cursor)) == SectionBodies(sections)
  {
    hide Cpers.PlaceAll;
    Cpers.PlaceKeepsBodies(sections, cursor);
  }

  /** Importing a CPER export looks at every body that parses back, extra sections included. */
  lemma CperImport(log: CrashLog)
    requires FitsCper(log) && SectionsOf(log) != []
    ensures Import(ToCper(log)) == FromCperBodies(ReadBackBodies(BodiesOf(log)))
  {
    hide Cpers.Normal, Cpers.ToBytes, Cpers.FromSlice, Cpers.ReadBackAll, Cpers.Described, SectionBodies,
      FromCperBodies, RegionOf, Cpers.PlaceAll, Berrs.FromSlice, Cpers.AppendAll, SectionsOf;
    var sections := SectionsOf(log);
    var c := Cpers.CperValue(ExportHeader(log), sections);
    var start := Cpers.BodiesStart(|sections|);
    Cpers.AppendsNormalizeOnce(Cpers.CperValue(ExportHeader(log), []), sections);
    assert [] + sections == sections;
    assert CperOf(log) == Cpers.Normal(c);
    SectionsAreDescribed(log);
    NormalParts(c);
    Cpers.NormalIsIdempotent(c);
    Cpers.PlaceKeepsLengths(sections, start);
    Cpers.PlaceDescribed(sections, start);
    Cpers.CperReadsBack(Cpers.Normal(c));
    CperIsNotBert(Cpers.Normal(c));
    var placed := Cpers.PlaceAll(sections, start);
    var back := Cpers.ReadBackAll(placed);
    NormalParts(Cpers.CperValue(Cpers.Normal(c).header, back));
    PlacedBodies(back, Cpers.BodiesStart(|back|));
    ReadBackOfSections(placed);
    PlacedBodies(sections, start);
    BodiesOfSections(log);
  }

  lemma NormalParts(c: Cpers.CperValue)
    ensures Cpers.Normal(c).sections == Cpers.PlaceAll(c.sections, Cpers.BodiesStart(|c.sections|))
  {
  }

  lemma CperIsNotBert(c: Cpers.CperValue)
    ensures Berrs.FromBertFile(Cpers.ToBytes(c)).None?
  {
    hide Berrs.FromSlice, Descriptors.CperHeaderToBytes, Cpers.DescriptorBytes, Cpers.BodiesBytes;
    Descriptors.CperHeaderFields(c.header);
    var s := Cpers.ToBytes(c);
    assert s[..4] == Descriptors.CperHeaderToBytes(c.header)[..4];
    assert s[..4][3] == 0x52 && s[..4][0] == 0x43;
  }

  lemma {:induction false} RegionBodiesKept(regions: seq<Region>)
    ensures forall body <- RegionBodies(regions) :: BodyKept(body)
  {
    RegionBodiesAt(regions);
  }

  lemma RegionsAreRoots(bodies: seq<Body>)
    ensures forall region <- RegionsOf(bodies) :: IsRoot(region)
  {
    hide Cut;
    forall region | region in RegionsOf(bodies) ensures IsRoot(region) {
      var j := FilterMapMember(RegionOfBody, bodies, region);
      CutTiles(bodies[j].payload);
    }
  }

  /** No import returns a log without regions. */
  lemma ImportedHasRegions(s: seq<byte>)
    requires Import(s).Ok?
    ensures Import(s).value.regions != []
  {
    hide RegionOf, Berrs.FromBertFile, Cpers.FromSlice, RegionsOf, ExtrasOf, Forest;
    if Berrs.FromBertFile(s).Some? {
      ExpansionKeepsInput(RegionsOf(EntryBodies(Berrs.FromBertFile(s).value)));
    } else if Cpers.FromSlice(s).Some? {
      ExpansionKeepsInput(RegionsOf(SectionBodies(Cpers.FromSlice(s).value.sections)));
    } else {
      ExpansionKeepsInput([RegionOf(s).value]);
    }
  }

  /** What a BERT export holds after a trip through the file. */
  lemma BertImportParts(log: CrashLog)
    requires FitsBert(log)
    ensures Import(ToBert(log)) == if Reparsed(log.regions) == [] then Err(InvalidCrashLog)
                                   else Ok(CrashLog(Forest(Reparsed(log.regions)), Metadata(None, [])))
  {
    hide Import, ToBert, RegionBodies, RegionsOf, Reparsed, Forest;
    BertImport(log);
    RegionBodiesReparse(log.regions);
  }

  /** What a CPER export holds after a trip through the file. */
  lemma CperImportParts(log: CrashLog)
    requires FitsCper(log) && SectionsOf(log) != []
    ensures var regions := Reparsed(log.regions) + RegionsOf(ReadBackBodies(log.metadata.extraSections));
            var extras := ExtrasOf(RegionBodies(log.regions)) + ExtrasOf(ReadBackBodies(log.metadata.extraSections));
            Import(ToCper(log)) == if regions == [] then Err(NoCrashLogFound)
                                   else Ok(CrashLog(Forest(regions), Metadata(None, extras)))
  {
    hide Import, ToCper, RegionOfBody, ExtraOfBody, BodyOfRegion, Cpers.ReadBack, RegionBodies, Reparsed, Forest;
    hide SectionsOf;
    CperImport(log);
    var extras := ReadBackBodies(log.metadata.extraSections);
    RegionBodiesReparse(log.regions);
    RegionBodiesKept(log.regions);
    ReadBackOfKept(RegionBodies(log.regions));
    FilterMapAppend(Cpers.ReadBack, RegionBodies(log.regions), log.metadata.extraSections);
    FilterMapAppend(RegionOfBody, RegionBodies(log.regions), extras);
    FilterMapAppend(ExtraOfBody, RegionBodies(log.regions), extras);
  }

  lemma ReparsedShrinks(regions: seq<Region>)
    ensures |Reparsed(regions)| <= |regions|
  {
  }

  /**
   Both exports give back the same regions, Boxes included, exactly when no extra
   section is itself a crash log region once it has been through the file.
   */
  lemma ExportsAgree(log: CrashLog)
    requires FitsCper(log)
    requires Reparsed(log.regions) != []
    ensures Import(ToBert(log)).Ok? && Import(ToCper(log)).Ok?
    ensures Import(ToBert(log)).value.regions == Forest(Reparsed(log.regions))
    ensures Import(ToCper(log)).value.regions == Import(ToBert(log)).value.regions
       <==> RegionsOf(ReadBackBodies(log.metadata.extraSections)) == []
  {
    hide *;
    CperFitsBert(log);
    BertImportParts(log);
    NothingExpands();
    ReparsedShrinks(log.regions);
    SectionsAreThere(log);
    CperImportParts(log);
    var extras := RegionsOf(ReadBackBodies(log.metadata.extraSections));
    ForestAppend(Reparsed(log.regions), extras);
    ExpansionKeepsInput(extras);
    assert Reparsed(log.regions) + [] == Reparsed(log.regions);
  }

  /**
   Whatever its regions, a log comes back from its BERT export exactly when it is the
   expansion of its roots and parsing its regions again gives just those roots.
   */
  lemma BertRoundTrip(log: CrashLog)
    requires FitsBert(log)
    ensures Import(ToBert(log)) == Ok(CrashLog(log.regions, Metadata(None, [])))
       <==> log.regions != [] && Expanded(log.regions) && Reparsed(log.regions) == Roots(log.regions)
  {
    hide *;
    BertImportParts(log);
    RegionBodiesReparse(log.regions);
    RegionsAreRoots(RegionBodies(log.regions));
    OnlyRootsExpand(log.regions, Reparsed(log.regions));
    NothingExpands();
    if Reparsed(log.regions) != [] {
      ExpansionKeepsInput(Reparsed(log.regions));
    }
  }

  lemma NothingExpands()
    ensures Forest([]) == [] == Roots([])
  {
  }

  /** The same for the regions of a CPER export, where an extra section may bring one more. */
  lemma CperRoundTrip(log: CrashLog)
    requires FitsCper(log)
    ensures Import(ToCper(log)).Ok? && Import(ToCper(log)).value.regions == log.regions
       <==> && log.regions != [] && Expanded(log.regions)
            && Reparsed(log.regions) + RegionsOf(ReadBackBodies(log.metadata.extraSections)) == Roots(log.regions)
  {
    hide *;
    if log.regions == [] {
      if Import(ToCper(log)).Ok? {
        ImportedHasRegions(ToCper(log));
      }
    } else {
      SectionsAreThere(log);
      CperImportParts(log);
      var extras := RegionsOf(ReadBackBodies(log.metadata.extraSections));
      RegionBodiesReparse(log.regions);
      RegionsAreRoots(RegionBodies(log.regions));
      RegionsAreRoots(ReadBackBodies(log.metadata.extraSections));
      OnlyRootsExpand(log.regions, Reparsed(log.regions) + extras);
      NothingExpands();
    }
  }

  lemma SectionsAreThere(log: CrashLog)
    requires log.regions != []
    ensures SectionsOf(log) != []
  {
    SectionsAt(log.regions, log.metadata.extraSections);
  }

  /** Every region parses back from its own bytes, as a region without parents. */
  predicate Whole(regions: seq<Region>) {
    forall region <- regions :: RegionOf(Concat(region.records)) == Ok(Orphan(region))
  }

  /** No region came out of a Box, and none wraps another. */
  predicate Flat(regions: seq<Region>) {
    BoxFree(regions) && forall region <- regions :: IsRoot(region)
  }

  lemma {:induction false} WholeReparses(regions: seq<Region>)
    requires Whole(regions)
    ensures Reparsed(regions) == Orphans(regions)
    ensures ExtrasOf(RegionBodies(regions)) == []
  {
    hide RegionOf, Orphan;
    if regions != [] {
      assert regions == [regions[0]] + regions[1..];
      WholeReparses(regions[1..]);
      assert RegionBodies(regions)[1..] == RegionBodies(regions[1..]);
    }
  }

  lemma {:induction false} OrphansKeep(regions: seq<Region>)
    ensures Orphans(regions) == regions <==> forall region <- regions :: IsRoot(region)
  {
    hide IsRoot, Orphan;
    if regions != [] {
      OrphansKeep(regions[1..]);
      OrphanOfRoot(regions[0]);
      assert regions == [regions[0]] + regions[1..];
      assert Orphans(regions)[1..] == Orphans(regions[1..]);
    }
  }

  /** Orphans expand to the regions they were made from exactly when these are flat. */
  lemma FlatComesBack(regions: seq<Region>)
    ensures Forest(Orphans(regions)) == regions <==> Flat(regions)
  {
    hide Forest, Orphans, BoxFree, IsRoot;
    OrphansKeepChildren(regions);
    OrphansKeep(regions);
    BoxFreeForest(Orphans(regions));
  }

  lemma ExtrasComeBack(extras: seq<Body>)
    ensures ExtrasOf(ReadBackBodies(extras)) == extras
       <==> forall body <- extras :: BodyKept(body) && RegionOfBody(body).None?
    ensures ExtrasOf(ReadBackBodies(extras)) == extras ==> RegionsOf(ReadBackBodies(extras)) == []
  {
    hide RegionOfBody, BodyKept, Cpers.ReadBack;
    var back := ReadBackBodies(extras);
    if ExtrasOf(back) == extras {
      FilterMapFull(Cpers.ReadBack, extras);
      FilterMapFull(ExtraOfBody, back);
      forall body | body in extras ensures BodyKept(body) && RegionOfBody(body).None? {
        var i :| 0 <= i < |extras| && extras[i] == body;
        assert ExtraOfBody(back[i]) == Some(back[i]);
        Cpers.ReadBackIsKept(body);
      }
    }
    if forall body <- extras :: BodyKept(body) && RegionOfBody(body).None? {
      ReadBackOfKept(extras);
      FilterMapKeeps(ExtraOfBody, extras);
      FilterMapDrops(RegionOfBody, extras);
    }
  }

  /** A section that was parsed from a file, and holds no region. */
  predicate ParsedExtra(body: Body) {
    RegionOfBody(body).None? && OwnType(body)
  }

  /** Such a section never reads back as a region: it keeps its GUID, or loses it below revision 2. */
  lemma ExtraStaysExtra(body: Body)
    requires ParsedExtra(body)
    ensures Cpers.ReadBack(body).Some?
    ensures RegionOfBody(Cpers.ReadBack(body).value).None?
  {
    hide RegionOf, Cpers.ReadBack, FerHeaderToBytes, FerHeaderFromSlice;
    if BodyKept(body) {
      Cpers.ReadBackIsKept(body);
    } else {
      RevisionOneReadsBack(body);
      assert ZERO_GUID[0] != RECORD_ID_CRASHLOG[0];
    }
  }

  lemma RevisionOneReadsBack(body: Body)
    requires body.FirmwareErrorRecord? && body.header.revision < 2
    ensures Cpers.ReadBack(body).Some?
    ensures Cpers.ReadBack(body).value.FirmwareErrorRecord? && Cpers.ReadBack(body).value.header.guid == ZERO_GUID
  {
    hide FerHeaderToBytes, FerHeaderFromSlice;
    RevisionOneBytes(body.header, body.payload);
    ShortFerHeaderReadsBack(body.header, (body.header.guid + body.payload)[..|body.payload|]);
  }

  lemma {:induction false} ExtrasHoldNoRegion(extras: seq<Body>)
    requires forall body <- extras :: ParsedExtra(body)
    ensures RegionsOf(ReadBackBodies(extras)) == []
    ensures |ReadBackBodies(extras)| == |extras|
  {
    hide RegionOfBody, Cpers.ReadBack, ParsedExtra;
    forall body | body in extras ensures Cpers.ReadBack(body).Some? {
      ExtraStaysExtra(body);
    }
    FilterMapTotal(Cpers.ReadBack, extras);
    forall body | body in ReadBackBodies(extras) ensures RegionOfBody(body) == None {
      var j := FilterMapMember(Cpers.ReadBack, extras, body);
      ExtraStaysExtra(extras[j]);
    }
    FilterMapDrops(RegionOfBody, ReadBackBodies(extras));
  }

  /** Every body goes to the regions or to the extra sections. */
  lemma {:induction false} BodiesSplit(bodies: seq<Body>)
    ensures |RegionsOf(bodies)| + |ExtrasOf(bodies)| == |bodies|
    ensures forall body <- ExtrasOf(bodies) :: body in bodies && RegionOfBody(body).None?
  {
    hide RegionOfBody;
    if bodies != [] {
      BodiesSplit(bodies[1..]);
      assert bodies == [bodies[0]] + bodies[1..];
    }
  }

  lemma ReadBackIsOwn(bodies: seq<Body>)
    ensures forall body <- ReadBackBodies(bodies) :: OwnType(body)
  {
    hide OwnType;
    forall body | body in ReadBackBodies(bodies) ensures OwnType(body) {
      var j := FilterMapMember(Cpers.ReadBack, bodies, body);
      ParsedBodyIsDescribed(BodyGuid(bodies[j]), Resize(BodyToBytes(bodies[j]), BodyLen(bodies[j])));
    }
  }

  lemma RegionBodiesAreOwn(regions: seq<Region>)
    ensures forall body <- RegionBodies(regions) :: OwnType(body)
  {
    hide Concat;
    RegionBodiesAt(regions);
  }

  /** Extra sections come back among unreadable regions only when there are none of those. */
  lemma OnlyExtrasComeBack(regions: seq<Region>, extras: seq<Body>)
    requires extras == ExtrasOf(RegionBodies(regions)) + ExtrasOf(ReadBackBodies(extras))
    ensures ExtrasOf(RegionBodies(regions)) == []
    ensures ExtrasOf(ReadBackBodies(extras)) == extras
  {
    hide RegionOfBody, RegionBodies, ExtrasOf, RegionsOf, ReadBackBodies, OwnType;
    BodiesSplit(RegionBodies(regions));
    BodiesSplit(ReadBackBodies(extras));
    RegionBodiesAreOwn(regions);
    ReadBackIsOwn(extras);
    ExtrasHoldNoRegion(extras);
  }

  /** Regions that all parse again and expand to the list are that list, flat and whole. */
  lemma FlatAndWhole(regions: seq<Region>)
    requires ExtrasOf(RegionBodies(regions)) == [] && Forest(Reparsed(regions)) == regions
    ensures Flat(regions) && Whole(regions)
  {
    hide RegionOf, RegionBodies, RegionOfBody, Forest, BoxFree, IsRoot, RegionsOf, ExtrasOf, Orphan;
    var again := Reparsed(regions);
    BodiesSplit(RegionBodies(regions));
    RegionBodiesAt(regions);
    RegionBodiesReparse(regions);
    RegionsAreRoots(RegionBodies(regions));
    BoxFreeForest(again);
    FilterMapFull(Reparse, regions);
    forall region | region in regions ensures RegionOf(Concat(region.records)) == Ok(Orphan(region)) {
      var i :| 0 <= i < |regions| && regions[i] == region;
      assert Reparse(region) == Some(region);
      OrphanOfRoot(region);
    }
  }

  /** How many bytes a log takes as a Boot Error Region: 104 for each entry, and its records. */
  lemma {:induction false} BertSize(regions: seq<Region>, entries: seq<Berrs.Entry>)
    requires |entries| == |regions|
    requires forall i | 0 <= i < |regions| :: entries[i] == EntryOfRegion(regions[i])
    ensures |Berrs.Payload(entries)| == 104 * |regions| + TotalBytes(regions)
  {
    hide Berrs.EntryToBytes;
    if regions != [] {
      BertSize(regions[1..], entries[1..]);
      EntryTakes(regions[0]);
    }
  }

  lemma EntryTakes(region: Region)
    ensures |Berrs.EntryToBytes(EntryOfRegion(region))| == 104 + ByteCount(region)
  {
    hide Berrs.EntryHeaderToBytes, FerHeaderToBytes;
  }

  /** A CPER record takes at least the bytes of the Boot Error Region. */
  lemma CperFitsBert(log: CrashLog)
    requires FitsCper(log)
    ensures FitsBert(log)
  {
    hide Berrs.Payload, EntryOfRegion, SectionsOfRegions, SectionsOfBodies, SectionOfRegion, Cpers.SectionOfBody;
    hide BodyLen, ByteCount, Cpers.BodiesBytes, Cpers.DescriptorBytes;
    SectionsAt(log.regions, log.metadata.extraSections);
    var sections := SectionsOf(log);
    var regionSections, rest := sections[..|log.regions|], sections[|log.regions|..];
    assert sections == regionSections + rest;
    Cpers.LengthSplits(regionSections, rest);
    forall section | section in regionSections ensures BodyLen(section.body) < 0x1_0000_0000 {
      assert section in sections;
    }
    RegionSectionsTake(log.regions, regionSections);
    BertSize(log.regions, BerrOf(log).entries);
  }

  lemma {:induction false} RegionSectionsTake(regions: seq<Region>, sections: seq<Cpers.Section>)
    requires |sections| == |regions|
    requires forall i | 0 <= i < |regions| :: sections[i] == SectionOfRegion(regions[i])
    requires forall section <- sections :: BodyLen(section.body) < 0x1_0000_0000
    ensures Cpers.TotalLength(sections) == 32 * |regions| + TotalBytes(regions)
  {
    hide SectionOfRegion, BodyLen, ByteCount;
    if regions != [] {
      assert sections == [sections[0]] + sections[1..];
      RegionSectionsTake(regions[1..], sections[1..]);
      SectionTakes(regions[0]);
    }
  }

  lemma SectionTakes(region: Region)
    requires BodyLen(SectionOfRegion(region).body) < 0x1_0000_0000
    ensures SectionOfRegion(region).descriptor.sectionLength as int == 32 + ByteCount(region)
  {
    hide Concat;
  }

  /**
   A log comes back whole from its CPER export exactly when it has regions, each of
   them parses again in full, none is from a Box and none holds one, and its extra
   sections survive as such. A BERT export keeps the regions of such a log too, and
   of no other log whose regions parse again in full.
   */
  lemma ExportRoundTrip(log: CrashLog)
    requires FitsCper(log)
    ensures Import(ToCper(log)) == Ok(log.(metadata := log.metadata.(time := None)))
       <==> && log.regions != [] && Flat(log.regions) && Whole(log.regions)
            && forall body <- log.metadata.extraSections :: BodyKept(body) && RegionOfBody(body).None?
    ensures Whole(log.regions) ==>
              (Import(ToBert(log)) == Ok(CrashLog(log.regions, Metadata(None, [])))
               <==> log.regions != [] && Flat(log.regions))
  {
    hide *;
    FlatComesBack(log.regions);
    CperFitsBert(log);
    BertImportParts(log);
    NothingExpands();
    OrphansKeepChildren(log.regions);
    ExtrasComeBack(log.metadata.extraSections);
    if Whole(log.regions) {
      WholeReparses(log.regions);
    }
    if log.regions == [] {
      if Import(ToCper(log)).Ok? {
        ImportedHasRegions(ToCper(log));
      }
    } else {
      SectionsAreThere(log);
      CperImportParts(log);
      var extras := log.metadata.extraSections;
      var back := ReadBackBodies(extras);
      assert [] + ExtrasOf(back) == ExtrasOf(back);
      assert Orphans(log.regions) + [] == Orphans(log.regions);
      assert Reparsed(log.regions) + [] == Reparsed(log.regions);
      if Import(ToCper(log)) == Ok(log.(metadata := log.metadata.(time := None))) {
        OnlyExtrasComeBack(log.regions, extras);
        FlatAndWhole(log.regions);
      }
    }
  }
}
