/** The CPER container (lib/src/cper.rs; UEFI 2.10, appendix N). */
module Cpers {
  import opened Results
  import opened Bytes
  import opened Sections
  import opened Descriptors
  import opened Seqs

  datatype Section = Section(descriptor: Descriptor, body: Body)

  /** The section of a body, its descriptor filled in from the body. */
  function SectionOfBody(body: Body): Section {
    Section(DefaultDescriptor().(sectionType := BodyGuid(body), sectionLength := AsU32(BodyLen(body))), body)
  }

  /** The bytes of the body, cut or padded to the length the descriptor announces. */
  function BodyBytes(section: Section): (bytes: seq<byte>)
    ensures |bytes| == section.descriptor.sectionLength
  {
    Resize(BodyToBytes(section.body), section.descriptor.sectionLength)
  }

  /** The value of a CPER record. */
  datatype CperValue = CperValue(header: CperHeader, sections: seq<Section>)

  // Binary layout

  function DescriptorBytes(sections: seq<Section>): (bytes: seq<byte>)
    ensures |bytes| == SECTION_DESCRIPTOR_SIZE * |sections|
  {
    if sections == [] then []
    else DescriptorToBytes(sections[0].descriptor) + DescriptorBytes(sections[1..])
  }

  function BodiesBytes(sections: seq<Section>): (bytes: seq<byte>)
    ensures |bytes| == TotalLength(sections)
  {
    if sections == [] then [] else BodyBytes(sections[0]) + BodiesBytes(sections[1..])
  }

  function TotalLength(sections: seq<Section>): nat {
    if sections == [] then 0 else sections[0].descriptor.sectionLength as int + TotalLength(sections[1..])
  }

  function ToBytes(c: CperValue): seq<byte> {
    CperHeaderToBytes(c.header) + DescriptorBytes(c.sections) + BodiesBytes(c.sections)
  }

  /** Where the bodies begin. */
  function BodiesStart(n: nat): nat {
    RECORD_HEADER_SIZE + SECTION_DESCRIPTOR_SIZE * n
  }

  /** Where the record ends. */
  function RecordEnd(sections: seq<Section>): nat {
    BodiesStart(|sections|) + TotalLength(sections)
  }

  // Normalising

  /** The section with its place in the record written down. */
  function Placed(section: Section, cursor: nat): Section {
    section.(descriptor := NormalDescriptor(section.descriptor.(sectionOffset := AsU32(cursor))))
  }

  /** Sections placed back to back from the cursor on. */
  function PlaceAll(sections: seq<Section>, cursor: nat): (placed: seq<Section>)
    ensures |placed| == |sections|
  {
    if sections == [] then []
    else
      [Placed(sections[0], cursor)]
      + PlaceAll(sections[1..], cursor + sections[0].descriptor.sectionLength as int)
  }

  function NormalHeader(header: CperHeader, sections: seq<Section>): CperHeader {
    header.(
      sectionCount := AsU16(|sections|),
      recordLength := AsU32(RecordEnd(sections)),
      validationBits := CperHeaderBits(header)
    )
  }

  function Normal(c: CperValue): CperValue {
    CperValue(NormalHeader(c.header, c.sections), PlaceAll(c.sections, BodiesStart(|c.sections|)))
  }

  // Parsing

  /** Section `i` as its descriptor announces it, when all of it is there. */
  function SectionAt(slice: seq<byte>, i: nat): Option<Section> {
    var rest :- GetFrom(slice, RECORD_HEADER_SIZE + i * SECTION_DESCRIPTOR_SIZE);
    var descriptor :- DescriptorFromSlice(rest);
    var content :- Get(slice, descriptor.sectionOffset,
                       descriptor.sectionOffset as int + descriptor.sectionLength as int);
    var body :- BodyFromSlice(descriptor.sectionType, content);
    Some(Section(descriptor, body))
  }

  /** The sections among `i .. count` that parse. */
  function SectionsFrom(slice: seq<byte>, i: nat, count: nat): (sections: seq<Section>)
    requires i <= count
    ensures |sections| <= count - i
    decreases count - i
  {
    if i == count then []
    else
      (if SectionAt(slice, i).Some? then [SectionAt(slice, i).value] else [])
      + SectionsFrom(slice, i + 1, count)
  }

  function FromSlice(slice: seq<byte>): Option<CperValue> {
    var headerBytes :- Get(slice, 0, RECORD_HEADER_SIZE);
    var header :- CperHeaderFromSlice(headerBytes);
    Some(Normal(CperValue(header, SectionsFrom(slice, 0, header.sectionCount))))
  }

  /** A file is a CPER record when its first 128 bytes are there and are a record header. */
  lemma CperIsRead(slice: seq<byte>)
    ensures FromSlice(slice).Some? <==> |slice| >= 128 && HasSignature(slice)
  {
    hide CperHeaderFromSlice, Normal, SectionsFrom;
    if |slice| >= 128 {
      CperHeaderIsRead(slice[0..128]);
      assert slice[0..128][..4] == slice[..4] && slice[0..128][6..10] == slice[6..10];
    }
  }

  /** Section `i` is read at its descriptor's offset and length, under its type, when all of that is in the file. */
  lemma SectionIsRead(slice: seq<byte>, i: nat)
    ensures var at := 128 + 72 * i;
            if at > |slice| || DescriptorFromSlice(slice[at..]).None? then SectionAt(slice, i).None?
            else
              var d := DescriptorFromSlice(slice[at..]).value;
              var end := d.sectionOffset as int + d.sectionLength as int;
              if end > |slice| then SectionAt(slice, i).None?
              else SectionAt(slice, i) == var body := BodyFromSlice(d.sectionType, slice[d.sectionOffset..end]);
                                          if body.Some? then Some(Section(d, body.value)) else None
  {
    hide DescriptorFromSlice, BodyFromSlice;
  }

  /** One more section is read after the others; one that cannot be read is skipped. */
  lemma {:induction false} SectionsFollow(slice: seq<byte>, i: nat, count: nat)
    requires i <= count
    ensures SectionsFrom(slice, i, count + 1) == SectionsFrom(slice, i, count) + ToSeq(SectionAt(slice, count))
    decreases count - i
  {
    hide SectionAt;
    if i < count {
      SectionsFollow(slice, i + 1, count);
      Associative(ToSeq(SectionAt(slice, i)), SectionsFrom(slice, i + 1, count), ToSeq(SectionAt(slice, count)));
    } else {
      assert SectionsFrom(slice, count + 1, count + 1) == [];
      assert SectionsFrom(slice, count, count) == [];
    }
  }

  lemma CountIsRead(slice: seq<byte>)
    requires FromSlice(slice).Some?
    ensures |slice| >= 128
    ensures var all := SectionsFrom(slice, 0, Le16(slice[10..12]));
            FromSlice(slice).value.sections == PlaceAll(all, BodiesStart(|all|))
  {
    CperIsRead(slice);
    CperHeaderOfBytes(slice[0..128]);
    assert slice[0..128][10..12] == slice[10..12];
    hide CperHeaderFromSlice, SectionsFrom, PlaceAll, Le16;
  }

  /** The bodies of a parsed record are those of all the sections its header counts, in order. */
  lemma BodiesAreRead(slice: seq<byte>)
    requires FromSlice(slice).Some?
    ensures |slice| >= 128
    ensures var c, all := FromSlice(slice).value, SectionsFrom(slice, 0, Le16(slice[10..12]));
            |c.sections| == |all| && forall i | 0 <= i < |all| :: c.sections[i].body == all[i].body
  {
    hide *;
    CountIsRead(slice);
    var all := SectionsFrom(slice, 0, Le16(slice[10..12]));
    PlaceKeepsBodies(all, BodiesStart(|all|));
  }

  lemma PlaceKeepsBodies(sections: seq<Section>, cursor: nat)
    ensures forall i | 0 <= i < |sections| :: PlaceAll(sections, cursor)[i].body == sections[i].body
  {
    hide PlaceAll;
    forall i | 0 <= i < |sections| ensures PlaceAll(sections, cursor)[i].body == sections[i].body {
      PlaceIndex(sections, cursor, i);
    }
  }

  // Properties of the layout

  lemma {:induction false} PlaceKeepsLengths(sections: seq<Section>, cursor: nat)
    ensures TotalLength(PlaceAll(sections, cursor)) == TotalLength(sections)
    ensures BodiesBytes(PlaceAll(sections, cursor)) == BodiesBytes(sections)
  {
    if sections != [] {
      PlaceKeepsLengths(sections[1..], cursor + sections[0].descriptor.sectionLength as int);
      var placed := PlaceAll(sections, cursor);
      assert placed[1..] == PlaceAll(sections[1..], cursor + sections[0].descriptor.sectionLength as int);
      assert BodyBytes(placed[0]) == BodyBytes(sections[0]);
    }
  }

  lemma {:induction false} PlaceAgain(sections: seq<Section>, at: nat, cursor: nat)
    ensures PlaceAll(PlaceAll(sections, at), cursor) == PlaceAll(sections, cursor)
  {
    hide Placed;
    if sections != [] {
      PlacedTwice(sections[0], at, cursor);
      var length := sections[0].descriptor.sectionLength as int;
      PlaceAgain(sections[1..], at + length, cursor + length);
      assert PlaceAll(sections, at)[1..] == PlaceAll(sections[1..], at + length);
    }
  }

  /** Normalising again changes nothing. */
  lemma NormalIsIdempotent(c: CperValue)
    ensures Normal(Normal(c)) == Normal(c)
  {
    PlaceKeepsLengths(c.sections, BodiesStart(|c.sections|));
    PlaceAgain(c.sections, BodiesStart(|c.sections|), BodiesStart(|c.sections|));
  }

  lemma {:induction false} PlaceIndex(sections: seq<Section>, cursor: nat, i: nat)
    requires i < |sections|
    ensures PlaceAll(sections, cursor)[i] == Placed(sections[i], cursor + TotalLength(sections[..i]))
  {
    if i > 0 {
      PlaceIndex(sections[1..], cursor + sections[0].descriptor.sectionLength as int, i - 1);
      assert sections[1..][..i - 1] == sections[..i][1..];
    } else {
      assert sections[..0] == [];
    }
  }

  lemma {:induction false} LengthSplits(a: seq<Section>, b: seq<Section>)
    ensures TotalLength(a + b) == TotalLength(a) + TotalLength(b)
    ensures BodiesBytes(a + b) == BodiesBytes(a) + BodiesBytes(b)
    ensures DescriptorBytes(a + b) == DescriptorBytes(a) + DescriptorBytes(b)
  {
    hide BodyBytes, DescriptorToBytes;
    if a == [] {
      assert a + b == b;
    } else {
      hide BodiesBytes, DescriptorBytes;
      assert (a + b)[1..] == a[1..] + b;
      LengthSplits(a[1..], b);
      BytesStep(a + b);
      BytesStep(a);
      Associative(BodyBytes(a[0]), BodiesBytes(a[1..]), BodiesBytes(b));
      Associative(DescriptorToBytes(a[0].descriptor), DescriptorBytes(a[1..]), DescriptorBytes(b));
    }
  }

  lemma BytesStep(sections: seq<Section>)
    requires sections != []
    ensures BodiesBytes(sections) == BodyBytes(sections[0]) + BodiesBytes(sections[1..])
    ensures DescriptorBytes(sections)
         == DescriptorToBytes(sections[0].descriptor) + DescriptorBytes(sections[1..])
  {
    hide BodyBytes, DescriptorToBytes;
  }

  /** Section `i` starts where the sections before it end. */
  function SectionStart(sections: seq<Section>, i: nat): nat
    requires i <= |sections|
  {
    BodiesStart(|sections|) + TotalLength(sections[..i])
  }

  lemma SplitAround(sections: seq<Section>, i: nat)
    requires i < |sections|
    ensures BodiesBytes(sections)
         == BodiesBytes(sections[..i]) + (BodyBytes(sections[i]) + BodiesBytes(sections[i + 1..]))
    ensures DescriptorBytes(sections)
         == DescriptorBytes(sections[..i])
            + (DescriptorToBytes(sections[i].descriptor) + DescriptorBytes(sections[i + 1..]))
  {
    hide BodyBytes, DescriptorToBytes, BodiesBytes, DescriptorBytes;
    assert sections == sections[..i] + sections[i..];
    LengthSplits(sections[..i], sections[i..]);
    BytesStep(sections[i..]);
    assert sections[i..][1..] == sections[i + 1..];
  }

  lemma GetMiddle(head: seq<byte>, middle: seq<byte>, tail: seq<byte>)
    ensures Get(head + (middle + tail), |head|, |head| + |middle|) == Some(middle)
    ensures GetFrom(head + (middle + tail), |head|) == Some(middle + tail)
  {
    var s := head + (middle + tail);
    assert s[|head|..|head| + |middle|] == middle;
    assert s[|head|..] == middle + tail;
  }

  /** The body bytes of section `i` lie at its start. */
  lemma BodyPlace(c: CperValue, i: nat)
    requires i < |c.sections|
    ensures var start := SectionStart(c.sections, i);
            Get(ToBytes(c), start, start + c.sections[i].descriptor.sectionLength as int)
            == Some(BodyBytes(c.sections[i]))
  {
    hide CperHeaderToBytes, DescriptorBytes, BodiesBytes, BodyBytes;
    SplitAround(c.sections, i);
    var head := CperHeaderToBytes(c.header) + DescriptorBytes(c.sections);
    var before, body := BodiesBytes(c.sections[..i]), BodyBytes(c.sections[i]);
    var after := BodiesBytes(c.sections[i + 1..]);
    Associative(head, before, body + after);
    GetMiddle(head + before, body, after);
  }

  /** The descriptor of section `i` lies at its index. */
  lemma DescriptorPlace(c: CperValue, i: nat)
    requires i < |c.sections|
    ensures exists rest :: GetFrom(ToBytes(c), RECORD_HEADER_SIZE + i * SECTION_DESCRIPTOR_SIZE)
                        == Some(DescriptorToBytes(c.sections[i].descriptor) + rest)
  {
    hide CperHeaderToBytes, DescriptorToBytes, DescriptorBytes, BodiesBytes, GetFrom;
    SplitAround(c.sections, i);
    var header, bodies := CperHeaderToBytes(c.header), BodiesBytes(c.sections);
    var before, d := DescriptorBytes(c.sections[..i]), DescriptorToBytes(c.sections[i].descriptor);
    var after := DescriptorBytes(c.sections[i + 1..]);
    Regroup(header, before, d, after, bodies);
    GetMiddle(header + before, d, after + bodies);
    assert |header + before| == RECORD_HEADER_SIZE + i * SECTION_DESCRIPTOR_SIZE;
  }

  lemma Regroup(a: seq<byte>, b: seq<byte>, c: seq<byte>, d: seq<byte>, e: seq<byte>)
    ensures a + (b + (c + d)) + e == (a + b) + (c + (d + e))
  {
    Associative(a, b, c + d);
    Associative(a + b, c + d, e);
    Associative(c, d, e);
  }

  /** Sizes and counts fit the fields they are written to. */
  predicate InRange(sections: seq<Section>) {
    |sections| < 0x1_0000 && RecordEnd(sections) < 0x1_0000_0000
  }

  lemma {:induction false} LengthOfPrefix(sections: seq<Section>, i: nat)
    requires i < |sections|
    ensures TotalLength(sections[..i]) + sections[i].descriptor.sectionLength as int
         == TotalLength(sections[..i + 1]) <= TotalLength(sections)
  {
    hide BodyBytes, DescriptorBytes, BodiesBytes;
    assert sections == sections[..i + 1] + sections[i + 1..];
    LengthSplits(sections[..i + 1], sections[i + 1..]);
    assert sections[..i + 1] == sections[..i] + [sections[i]];
    LengthSplits(sections[..i], [sections[i]]);
    assert [sections[i]][1..] == [];
  }

  lemma PlacedBody(section: Section, cursor: nat)
    ensures BodyBytes(Placed(section, cursor)) == BodyBytes(section)
    ensures Placed(section, cursor).descriptor.sectionLength == section.descriptor.sectionLength
    ensures Placed(section, cursor).descriptor.sectionOffset == AsU32(cursor)
  {
  }

  lemma {:induction false} StartKept(sections: seq<Section>, cursor: nat, i: nat)
    requires i <= |sections|
    ensures TotalLength(PlaceAll(sections, cursor)[..i]) == TotalLength(sections[..i])
  {
    hide NormalDescriptor, Placed;
    if i > 0 {
      var next := cursor + sections[0].descriptor.sectionLength as int;
      StartKept(sections[1..], next, i - 1);
      PlacedBody(sections[0], cursor);
      var placed := PlaceAll(sections, cursor);
      assert placed[..i][1..] == PlaceAll(sections[1..], next)[..i - 1];
      assert sections[..i][1..] == sections[1..][..i - 1];
    } else {
      assert PlaceAll(sections, cursor)[..0] == [] && sections[..0] == [];
    }
  }

  /** The offset written for section `i` is where its body starts. */
  lemma SectionOffset(c: CperValue, i: nat)
    requires InRange(c.sections)
    requires i < |c.sections|
    ensures Normal(c).sections[i].descriptor.sectionOffset == SectionStart(Normal(c).sections, i)
    ensures Normal(c).sections[i].descriptor.sectionLength == c.sections[i].descriptor.sectionLength
    ensures BodyBytes(Normal(c).sections[i]) == BodyBytes(c.sections[i])
  {
    hide BodyBytes, Placed, TotalLength, PlaceAll;
    var start := BodiesStart(|c.sections|);
    PlaceIndex(c.sections, start, i);
    PlacedBody(c.sections[i], start + TotalLength(c.sections[..i]));
    StartKept(c.sections, start, i);
    LengthOfPrefix(c.sections, i);
  }

  lemma NormalSizes(c: CperValue)
    requires InRange(c.sections)
    ensures Normal(c).header.sectionCount == |Normal(c).sections| == |c.sections|
    ensures Normal(c).header.recordLength == RecordEnd(Normal(c).sections) == |ToBytes(Normal(c))|
  {
    hide CperHeaderToBytes, TotalLength, PlaceAll, DescriptorBytes, BodiesBytes;
    PlaceKeepsLengths(c.sections, BodiesStart(|c.sections|));
  }

  /** Where section `i` of a record ends: at the next section, or at the end of the record. */
  lemma SectionEnd(sections: seq<Section>, i: nat)
    requires i < |sections|
    ensures SectionStart(sections, i) + sections[i].descriptor.sectionLength as int
         == if i + 1 < |sections| then SectionStart(sections, i + 1) else RecordEnd(sections)
  {
    LengthOfPrefix(sections, i);
    assert sections[..|sections|] == sections;
  }

  /**
   Section `i` of the normalised record ends where the next one starts, or where the
   record ends, and its range holds the bytes of body `i`.
   */
  predicate InPlace(c: CperValue, i: nat)
    requires i < |c.sections|
  {
    var n := Normal(c);
    var d := n.sections[i].descriptor;
    var end := d.sectionOffset as int + d.sectionLength as int;
    && end == (if i + 1 < |n.sections| then n.sections[i + 1].descriptor.sectionOffset as int
               else n.header.recordLength as int)
    && Get(ToBytes(n), d.sectionOffset, end) == Some(BodyBytes(c.sections[i]))
  }

  /**
   After normalising, the sections tile the record: the first body follows the
   descriptors, each starts where the previous one ends, the last one ends the
   record, and every range holds its body.
   */
  lemma SectionsTile(c: CperValue)
    requires InRange(c.sections)
    ensures var n := Normal(c);
            && n.header.sectionCount == |n.sections|
            && n.header.recordLength == |ToBytes(n)|
            && (n.sections != [] ==> n.sections[0].descriptor.sectionOffset == BodiesStart(|n.sections|))
            && forall i | 0 <= i < |c.sections| :: InPlace(c, i)
  {
    hide CperHeaderToBytes, BodyBytes, ToBytes, TotalLength, PlaceAll;
    var n := Normal(c);
    NormalSizes(c);
    forall i | 0 <= i < |c.sections| ensures InPlace(c, i) {
      SectionOffset(c, i);
      SectionEnd(n.sections, i);
      BodyPlace(n, i);
      if i + 1 < |c.sections| {
        SectionOffset(c, i + 1);
      }
    }
    if n.sections != [] {
      SectionOffset(c, 0);
      assert n.sections[..0] == [];
      EmptyLength();
    }
  }

  lemma EmptyLength()
    ensures TotalLength([]) == 0
  {
  }

  // Round trips

  /** The descriptor announces the type and the length of the body. */
  predicate Described(section: Section) {
    && section.descriptor.sectionType == BodyGuid(section.body)
    && section.descriptor.sectionLength == BodyLen(section.body)
  }

  /** What the announced bytes of a body parse to. */
  function ReadBack(body: Body): Option<Body> {
    BodyFromSlice(BodyGuid(body), Resize(BodyToBytes(body), BodyLen(body)))
  }

  /** What parsing finds at index `i` of a serialized normal record. */
  lemma SectionReadsBack(c: CperValue, i: nat)
    requires Normal(c) == c && InRange(c.sections)
    requires i < |c.sections| && Described(c.sections[i])
    ensures SectionAt(ToBytes(c), i)
         == SectionReadBack(c.sections[i])
  {
    hide DescriptorFromSlice, DescriptorToBytes, BodyFromSlice, ToBytes, BodyToBytes, BodyLen;
    var section := c.sections[i];
    DescriptorPlace(c, i);
    var rest :| GetFrom(ToBytes(c), RECORD_HEADER_SIZE + i * SECTION_DESCRIPTOR_SIZE)
             == Some(DescriptorToBytes(section.descriptor) + rest);
    PlaceIndex(c.sections, BodiesStart(|c.sections|), i);
    NormalDescriptorAgrees(section.descriptor);
    DescriptorRoundTrip(section.descriptor, rest);
    SectionOffset(c, i);
    BodyPlace(c, i);
  }

  function SectionReadBack(section: Section): Option<Section> {
    var body :- ReadBack(section.body);
    Some(section.(body := body))
  }

  /** What parsing finds in the whole of a serialized normal record. */
  function ReadBackAll(sections: seq<Section>): seq<Section> {
    FilterMap(SectionReadBack, sections)
  }

  lemma {:induction false} SectionsReadBack(c: CperValue, i: nat)
    requires Normal(c) == c && InRange(c.sections)
    requires forall section <- c.sections :: Described(section)
    requires i <= |c.sections|
    ensures SectionsFrom(ToBytes(c), i, |c.sections|) == ReadBackAll(c.sections[i..])
    decreases |c.sections| - i
  {
    hide SectionAt, ToBytes, Normal, Described, RecordEnd, SectionReadBack;
    if i < |c.sections| {
      SectionReadsBack(c, i);
      SectionsReadBack(c, i + 1);
      assert c.sections[i..][1..] == c.sections[i + 1..];
    }
  }

  /** Nothing is lost exactly when every body is kept. */
  lemma {:induction false} ReadBackAllKept(sections: seq<Section>)
    ensures |ReadBackAll(sections)| <= |sections|
    ensures ReadBackAll(sections) == sections <==> forall section <- sections :: BodyKept(section.body)
    ensures |ReadBackAll(sections)| == |sections|
         && (forall i | 0 <= i < |sections| :: ReadBackAll(sections)[i].body == sections[i].body)
         ==> ReadBackAll(sections) == sections
  {
    hide ReadBack, BodyKept;
    if sections != [] {
      ReadBackAllKept(sections[1..]);
      ReadBackIsKept(sections[0].body);
      var all := ReadBackAll(sections);
      assert sections == [sections[0]] + sections[1..];
      if ReadBack(sections[0].body).Some? {
        assert all == [sections[0].(body := ReadBack(sections[0].body).value)] + ReadBackAll(sections[1..]);
        assert all[1..] == ReadBackAll(sections[1..]);
        if all[0].body == sections[0].body {
          assert all[0] == sections[0];
        }
        if |all| == |sections| && forall i | 0 <= i < |sections| :: all[i].body == sections[i].body {
          forall i | 0 <= i < |sections[1..]| ensures ReadBackAll(sections[1..])[i].body == sections[1..][i].body {
            assert all[i + 1].body == sections[i + 1].body;
          }
        }
      }
    }
  }

  lemma ReadBackIsKept(body: Body)
    ensures ReadBack(body) == Some(body) <==> BodyKept(body)
  {
    BodyRoundTrip(body);
  }

  /** What parsing makes of any serialized normal record whose descriptors describe their bodies. */
  lemma CperReadsBack(c: CperValue)
    requires Normal(c) == c && InRange(c.sections)
    requires forall section <- c.sections :: Described(section)
    ensures FromSlice(ToBytes(c)) == Some(Normal(CperValue(c.header, ReadBackAll(c.sections))))
  {
    hide CperHeaderToBytes, CperHeaderFromSlice, DescriptorBytes, BodiesBytes, SectionsFrom, Described, PlaceAll;
    NormalCperHeaderAgrees(c.header);
    CperHeaderRoundTrip(c.header);
    assert ToBytes(c)[0..RECORD_HEADER_SIZE] == CperHeaderToBytes(c.header);
    SectionsReadBack(c, 0);
    assert c.sections[0..] == c.sections;
  }

  /**
   A normal record whose descriptors describe their bodies survives serialization
   exactly when every body is one that survives it.
   */
  lemma CperRoundTrip(c: CperValue)
    requires Normal(c) == c && InRange(c.sections)
    requires forall section <- c.sections :: Described(section)
    ensures FromSlice(ToBytes(c)) == Some(c) <==> forall section <- c.sections :: BodyKept(section.body)
  {
    hide BodyKept, ReadBackAll, Described, PlaceAll, FromSlice, ToBytes, NormalHeader;
    var n := |c.sections|;
    var parsed := ReadBackAll(c.sections);
    CperReadsBack(c);
    ReadBackAllKept(c.sections);
    if FromSlice(ToBytes(c)) == Some(c) {
      forall j | 0 <= j < n ensures parsed[j].body == c.sections[j].body {
        PlaceIndex(parsed, BodiesStart(n), j);
      }
    }
  }

  /** Everything a parse returns is normal and described. */
  lemma ParsedIsNormal(slice: seq<byte>)
    requires FromSlice(slice).Some?
    ensures var c := FromSlice(slice).value;
            Normal(c) == c && forall section <- c.sections :: Described(section)
  {
    hide CperHeaderFromSlice, Described, PlaceAll, SectionsFrom;
    var header := CperHeaderFromSlice(slice[0..RECORD_HEADER_SIZE]).value;
    var sections := SectionsFrom(slice, 0, header.sectionCount);
    NormalIsIdempotent(CperValue(header, sections));
    forall section | section in sections ensures Described(section) {
      ParsedSectionDescribed(slice, 0, header.sectionCount, section);
    }
    PlaceDescribed(sections, BodiesStart(|sections|));
  }

  lemma ParsedTypes(slice: seq<byte>)
    requires FromSlice(slice).Some?
    ensures forall section <- FromSlice(slice).value.sections :: OwnType(section.body)
  {
    hide CperHeaderFromSlice, PlaceAll, SectionsFrom, OwnType;
    var header := CperHeaderFromSlice(slice[0..RECORD_HEADER_SIZE]).value;
    var sections := SectionsFrom(slice, 0, header.sectionCount);
    var start := BodiesStart(|sections|);
    forall section | section in PlaceAll(sections, start) ensures OwnType(section.body) {
      var i :| 0 <= i < |sections| && PlaceAll(sections, start)[i] == section;
      PlaceIndex(sections, start, i);
      ParsedSectionDescribed(slice, 0, header.sectionCount, sections[i]);
    }
  }

  lemma {:induction false} ParsedSectionDescribed(slice: seq<byte>, i: nat, count: nat, section: Section)
    requires i <= count
    requires section in SectionsFrom(slice, i, count)
    ensures Described(section) && OwnType(section.body)
    decreases count - i
  {
    hide DescriptorFromSlice, BodyFromSlice;
    if SectionAt(slice, i) == Some(section) {
      var d := section.descriptor;
      var content := slice[d.sectionOffset..d.sectionOffset as int + d.sectionLength as int];
      ParsedBodyIsDescribed(d.sectionType, content);
    } else {
      ParsedSectionDescribed(slice, i + 1, count, section);
    }
  }

  /**
   Parse, serialize, parse: whatever was read comes back, unless a Firmware Error
   Record of revision 0 or 1 carries a payload that is not all zero.
   */
  lemma ParsedRoundTrip(slice: seq<byte>)
    requires FromSlice(slice).Some?
    requires InRange(FromSlice(slice).value.sections)
    ensures var c := FromSlice(slice).value;
            FromSlice(ToBytes(c)) == Some(c) <==> forall section <- c.sections :: BodyKept(section.body)
  {
    ParsedIsNormal(slice);
    CperRoundTrip(FromSlice(slice).value);
  }

  // The record as the library updates it

  class Cper {
    var recordHeader: CperHeader
    var sections: seq<Section>

    function Value(): CperValue
      reads this
    {
      CperValue(recordHeader, sections)
    }

    constructor ()
      ensures Value() == CperValue(DefaultCperHeader(), [])
    {
      recordHeader := DefaultCperHeader();
      sections := [];
    }

    /** Updates the fields to reflect the actual binary layout. */
    method Normalize()
      modifies this
      ensures Value() == Normal(old(Value()))
    {
      hide Placed, PlaceAll, TotalLength;
      ghost var before := sections;
      recordHeader := recordHeader.(sectionCount := AsU16(|sections|));
      var cursor: nat := RECORD_HEADER_SIZE + SECTION_DESCRIPTOR_SIZE * |sections|;
      assert before[0..] == before;
      for i := 0 to |sections|
        invariant |sections| == |before|
        invariant recordHeader == old(recordHeader).(sectionCount := AsU16(|before|))
        invariant sections[i..] == before[i..]
        invariant PlaceAll(before, BodiesStart(|before|)) == sections[..i] + PlaceAll(before[i..], cursor)
        invariant cursor + TotalLength(before[i..]) == RecordEnd(before)
      {
        var section := sections[i];
        assert section == sections[i..][0] == before[i];
        PlaceStep(before, i, cursor);
        ghost var done := sections[..i];
        ghost var rest := sections[i..];
        sections := sections[i := Placed(section, cursor)];
        assert sections[..i + 1] == done + [Placed(section, cursor)];
        assert sections[i + 1..] == rest[1..] == before[i + 1..];
        cursor := cursor + section.descriptor.sectionLength;
      }
      assert sections[..|sections|] == sections;
      PlaceStepEnd(before, cursor);
      recordHeader := recordHeader.(recordLength := AsU32(cursor));
      recordHeader := recordHeader.(validationBits := CperHeaderBits(recordHeader));
    }

    method AppendSection(section: Section)
      modifies this
      ensures Value() == Normal(CperValue(old(recordHeader), old(sections) + [section]))
    {
      sections := sections + [section];
      Normalize();
    }

    method Serialize() returns (bytes: seq<byte>)
      ensures bytes == ToBytes(Value())
    {
      hide CperHeaderToBytes, DescriptorBytes, BodiesBytes, DescriptorToBytes, BodyBytes;
      DescriptorsNone(sections);
      bytes := CperHeaderToBytes(recordHeader);
      ghost var head := bytes;
      for i := 0 to |sections|
        invariant bytes == head + DescriptorBytes(sections[..i])
      {
        DescriptorsSnoc(sections, i);
        bytes := bytes + DescriptorToBytes(sections[i].descriptor);
      }
      assert sections[..|sections|] == sections;
      head := bytes;
      for i := 0 to |sections|
        invariant bytes == head + BodiesBytes(sections[..i])
      {
        DescriptorsSnoc(sections, i);
        bytes := bytes + BodyBytes(sections[i]);
      }
    }
  }

  lemma PlaceStep(sections: seq<Section>, i: nat, cursor: nat)
    requires i < |sections|
    ensures var next := cursor + sections[i].descriptor.sectionLength as int;
            PlaceAll(sections[i..], cursor) == [Placed(sections[i], cursor)] + PlaceAll(sections[i + 1..], next)
    ensures TotalLength(sections[i..])
         == sections[i].descriptor.sectionLength as int + TotalLength(sections[i + 1..])
  {
    hide Placed;
    assert sections[i..][1..] == sections[i + 1..];
  }

  lemma PlaceStepEnd(sections: seq<Section>, cursor: nat)
    ensures PlaceAll(sections[|sections|..], cursor) == []
    ensures TotalLength(sections[|sections|..]) == 0
  {
  }

  lemma DescriptorsNone(sections: seq<Section>)
    ensures DescriptorBytes(sections[..0]) == [] && BodiesBytes(sections[..0]) == []
  {
  }

  lemma DescriptorsSnoc(sections: seq<Section>, i: nat)
    requires i < |sections|
    ensures DescriptorBytes(sections[..i + 1])
         == DescriptorBytes(sections[..i]) + DescriptorToBytes(sections[i].descriptor)
    ensures BodiesBytes(sections[..i + 1]) == BodiesBytes(sections[..i]) + BodyBytes(sections[i])
  {
    hide DescriptorToBytes, BodyBytes;
    assert sections[..i + 1] == sections[..i] + [sections[i]];
    LengthSplits(sections[..i], [sections[i]]);
    assert [sections[i]][1..] == [];
    assert DescriptorBytes([sections[i]]) == DescriptorToBytes(sections[i].descriptor);
    assert BodiesBytes([sections[i]]) == BodyBytes(sections[i]);
  }

  // Runs of appends

  /** The record after appending the sections one by one. */
  function AppendAll(c: CperValue, sections: seq<Section>): CperValue
    decreases |sections|
  {
    if sections == [] then c
    else AppendAll(Normal(CperValue(c.header, c.sections + [sections[0]])), sections[1..])
  }

  lemma PlacedTwice(section: Section, at: nat, cursor: nat)
    ensures Placed(Placed(section, at), cursor) == Placed(section, cursor)
    ensures Placed(section, at).descriptor.sectionLength == section.descriptor.sectionLength
  {
  }

  lemma PlaceFirst(sections: seq<Section>, cursor: nat)
    requires sections != []
    ensures PlaceAll(sections, cursor)
         == [Placed(sections[0], cursor)]
            + PlaceAll(sections[1..], cursor + sections[0].descriptor.sectionLength as int)
  {
    hide Placed;
  }

  lemma {:induction false} PlaceConcat(a: seq<Section>, b: seq<Section>, cursor: nat)
    ensures PlaceAll(a + b, cursor) == PlaceAll(a, cursor) + PlaceAll(b, cursor + TotalLength(a))
  {
    hide Placed;
    if a == [] {
      assert a + b == b;
    } else {
      hide PlaceAll;
      var next := cursor + a[0].descriptor.sectionLength as int;
      PlaceConcat(a[1..], b, next);
      assert (a + b)[1..] == a[1..] + b;
      PlaceFirst(a, cursor);
      PlaceFirst(a + b, cursor);
      var tail := PlaceAll(b, next + TotalLength(a[1..]));
      Associative([Placed(a[0], cursor)], PlaceAll(a[1..], next), tail);
    }
  }

  lemma PlaceAppend(a: seq<Section>, b: seq<Section>, at: nat, cursor: nat)
    ensures PlaceAll(PlaceAll(a, at) + b, cursor) == PlaceAll(a + b, cursor)
  {
    hide PlaceAll, TotalLength;
    PlaceConcat(PlaceAll(a, at), b, cursor);
    PlaceConcat(a, b, cursor);
    PlaceAgain(a, at, cursor);
    PlaceKeepsLengths(a, at);
  }

  /** Normalising before an append makes no difference to the record after it. */
  lemma NormalAppend(c: CperValue, more: seq<Section>)
    ensures Normal(CperValue(Normal(c).header, Normal(c).sections + more))
         == Normal(CperValue(c.header, c.sections + more))
  {
    hide PlaceAll, TotalLength, DescriptorBytes, BodiesBytes;
    var start := BodiesStart(|c.sections|);
    PlaceAppend(c.sections, more, start, BodiesStart(|c.sections| + |more|));
    PlaceKeepsLengths(c.sections, start);
    LengthSplits(c.sections, more);
    LengthSplits(PlaceAll(c.sections, start), more);
  }

  /** A run of appends leaves one normalised record that holds all the sections. */
  lemma {:induction false} AppendsNormalizeOnce(c: CperValue, sections: seq<Section>)
    requires sections != []
    ensures AppendAll(c, sections) == Normal(CperValue(c.header, c.sections + sections))
    decreases |sections|
  {
    hide PlaceAll, NormalHeader;
    var first := CperValue(c.header, c.sections + [sections[0]]);
    if |sections| == 1 {
      assert sections == [sections[0]];
    } else {
      AppendsNormalizeOnce(Normal(first), sections[1..]);
      NormalAppend(first, sections[1..]);
      assert c.sections + [sections[0]] + sections[1..] == c.sections + sections;
    }
  }

  lemma {:induction false} PlaceDescribed(sections: seq<Section>, cursor: nat)
    ensures (forall section <- PlaceAll(sections, cursor) :: Described(section))
       <==> forall section <- sections :: Described(section)
    ensures (forall section <- PlaceAll(sections, cursor) :: BodyKept(section.body))
       <==> forall section <- sections :: BodyKept(section.body)
  {
    hide BodyKept, BodyGuid, BodyLen;
    var placed := PlaceAll(sections, cursor);
    forall i | 0 <= i < |sections|
      ensures placed[i].body == sections[i].body && Described(placed[i]) == Described(sections[i])
    {
      PlaceIndex(sections, cursor, i);
    }
    forall i | 0 <= i < |sections| ensures placed[i] in placed && sections[i] in sections {
    }
  }

  /** A record built by appends survives serialization exactly when its bodies do. */
  lemma BuiltRoundTrip(header: CperHeader, sections: seq<Section>)
    requires sections != [] && InRange(sections)
    requires forall section <- sections :: Described(section)
    ensures var c := AppendAll(CperValue(header, []), sections);
            FromSlice(ToBytes(c)) == Some(c) <==> forall section <- sections :: BodyKept(section.body)
  {
    hide BodyKept, Described;
    var c := CperValue(header, sections);
    AppendsNormalizeOnce(CperValue(header, []), sections);
    assert [] + sections == sections;
    NormalIsIdempotent(c);
    PlaceKeepsLengths(sections, BodiesStart(|sections|));
    PlaceDescribed(sections, BodiesStart(|sections|));
    CperRoundTrip(Normal(c));
  }
}
