# Crash Log model

A Dafny model of the decode and container pipeline of the Intel Crash Log library, and
proofs about it. To verify it, run `dafny verify dfyconfig.toml` in this directory.

## What is modelled

**Bits and headers.** `Bytes`, `Bits` and `Fields` define little-endian integers, shifts
and masks one bit at a time, and the bit field extraction loop. `Headers` has the record
headers of every type and the product erratas that choose their layout; `RawHeaders` says
what all of that is in terms of the raw bits alone.

**Regions and Boxes.** `Regions` cuts bytes into records; `Boxes` expands Box records
through the work queue.

**Containers.** `Sections`, `Descriptors` and `Cpers` are the CPER record (UEFI 2.10,
sections N.2.1, N.2.2 and N.2.10); `Berrs` is the Boot Error Region and the table in front
of it (ACPI 6.3, section 18.3). `CrashLogs` imports logs from both and exports them to both; `Exports` gives the bytes of
the files; `Reimports` says what a log
that was imported, exported and imported again comes back as.

**Register trees.** `Names` has decimal suffixes, dotted paths and alphabetical order.
`Nodes` is the tree as a value: merge with instance renaming, hierarchy creation, lookup.
`Trees` is the same tree as a heap structure updated in place, each operation tied to the
value it computes. `Layouts` is the meaning of a layout; `Decoders` is the loop that runs
one over a heap tree; `Truncations` is about cut data and `Shorthand` about relative names. `HeaderTrees` and `LogDecoders` build the trees of record headers,
as values and on the heap; `HeaderFields` compares them with the raw bits; `LogTrees` says
where each record of a log ends up.

**Smaller pieces.** `Collateral` is the cache of collateral items; `Checksums` the record
checksum. `Results` and `Seqs` hold shared result types and facts about sequences.

Methods follow the loops of the source and are proved equal to a function; the theorems
are about that function. Panics of the source (`expect` in hierarchy creation) are a
missing result. Error returns are values of `Result` or `Option`.

## Where the code is narrower than it looks

- Hierarchy creation stores a section under its lowercase name and then looks it up under
  the name as given. `Layouts.DecodePanics` shows that a layout decodes without a panic
  exactly when every path it resolves to is in lower case; `Layouts.UpperCasePanics` is a
  layout that does not.
- A top-level name with upper-case letters that the path leaves again does not panic, but
  empties the record stored under its lowercase form (`Layouts.ResettingTree`).
  `Layouts.DecodedTree` shows that every entry matters at every path exactly when no layout
  name does that, and `Layouts.UpperCaseEmpties` is a layout whose first field is gone.
- Relative layout names are shorthand for the paths they stand for, except that a
  top-level name first reached by a relative entry becomes a section and not a record.
  `Shorthand.RelativeNamesAreShorthand` gives the exact condition, and
  `Shorthand.RelativeFirstDiffers` a layout where the two differ.
- When a layout names a path twice, cutting the data can bring an earlier entry's value
  back. `Truncations.TruncationIsSafe` says for which layouts that never happens, and
  `Truncations.RepeatedPathChanges` is one where it does.
- A Firmware Error Record always writes a 32-byte header while its length counts 16 below
  revision 2. `Sections.BodyRoundTrip` says exactly which bodies survive, and
  `Sections.RevisionOneIsLost` is a parsed one that does not.
- Box expansion keeps a Box and adds its children, so expanding twice gives the same list
  exactly when there is no Box to expand (`Boxes.ExpansionIsIdempotent`;
  `Boxes.SmallBoxExpands` is a Box). An export writes those children as regions of their
  own, so each comes back once more (`Reimports.CoveredReimport`;
  `Reimports.SmallBoxComesBackTwice` is a file where that happens).
- A record may be cut inside its own header. Such a region writes bytes that parse to
  fewer records; `Regions.RegionRoundTrip` says exactly when everything comes back, and
  `Regions.CutHeaderIsLost` is a region that does not.
- The two collateral getters share one key space. `Collateral.MixedRunsAgree` says for which
  trees that never shows, and `Collateral.RedHidesAll` is a tree where it does.
- The checksum ignores bytes after the last whole dword (`Checksums.TrailingBytesAreIgnored`),
  and a change of one byte goes unnoticed only there (`Checksums.OneByteIsNoticed`).

## Model

| member | source | states |
|---|---|---|
| Fields.ReadField | lib/src/record/decode.rs:28-51 | The chunk-by-chunk loop computes the `size` bits of the little-endian data that start at bit `offset`; it gives nothing exactly when the field is wider than 64 bits or, not being empty, runs past the data |
| Fields.WhenDecoded | lib/src/record/decode.rs:28-51 | A field is decoded exactly when it has at most 64 bits and, if it has any, all of them are in the data |
| Fields.FieldBits | lib/src/record/decode.rs:28-51 | Bit i of a decoded field is bit offset + i of the data, which is bit (offset + i) % 8 of byte (offset + i) / 8, and there is nothing above the field |
| Fields.AdjacentFields | lib/src/record/decode.rs:28-51 | Two adjacent fields, the second shifted above the first, add up to the field that covers both |
| Fields.FieldOfPrefix | lib/src/record/decode.rs:28-51 | A field that a prefix of the data still holds has the same value in the whole data |
| Headers.VersionIsBitFields | lib/src/header.rs:506-522 | The parsed version is what a layout reads as bit fields 0-7, 8-11, 12-23, 24-29, 30 and 31 |
| Headers.VersionWordRoundTrip | lib/src/header.rs:506-532 | `as_u32` of a parsed version is the word it was parsed from |
| Headers.VersionValueRoundTrip | lib/src/header.rs:506-532 | Any version whose fields fit their bits parses back from its word, unless that word is a termination marker |
| Headers.HeaderFits | lib/src/header.rs:252-292 | A header that parses lies inside the slice and takes at least 8 bytes |
| Headers.HeaderIsLocal | lib/src/header.rs:252-292 | Header parsing depends on the first `header_size` bytes only |
| Headers.HeaderWithSuffix | lib/src/header.rs:252-292 | The same header parses whatever bytes follow |
| Headers.CutHeaderStops | lib/src/header.rs:252-292 | A slice cut inside its header does not parse as any header |
| RawHeaders.VersionIsRaw | lib/src/header.rs:506-522 | A version is read from any four bytes that are neither all zero nor the marker 0xdeadbeef, and its parts and flags are bits 0-7, 8-11, 12-23, 24-29, 30 and 31 |
| RawHeaders.HeaderByNumber | lib/src/header.rs:218-277 | Whether a slice holds a header, the size of that header and the error if it does not, all by the type number in bits 8-11, the product number and the length |
| RawHeaders.TypeByNumber | lib/src/header.rs:218-236 | The layout that is read is the legacy one exactly for type 0 of the three server products, and otherwise the one of the number |
| RawHeaders.BoxByBits | lib/src/crashlog.rs:35-41 | A parsed record is a Box exactly when its type bits say 0x3D, or say 4 in a legacy server header |
| RawHeaders.SizeByBits | lib/src/header.rs:280-292 | The announced size is the sum of bits 32-47 and 48-63, or bits 128-143 of a legacy header, in dwords, or in bytes for the core records of the products listed |
| HeaderFields.HeaderNodeIsBitFields | lib/src/header.rs:592-637 | The `hdr` node of parsed data holds the bit fields of that data: version and its parts, the sizes where each header keeps them, and from Type 2 on timestamp, agent version and reason |
| HeaderFields.HeaderTypeIsBitFields | lib/src/header.rs:94-236 | The fields special to each header type, completion status and flag, die and socket, status words, all the legacy server fields, are the bits of the data at their place; the legacy die number is computed from bits 0, 1 and 7 |
| RawHeaders.HeaderNodeByNumber | lib/src/header.rs:615-744 | The header node of parsed data shows the fields that the number of its type calls for, each being the bits of the data at its place |
| HeaderTrees.VersionFitsU32 | lib/src/header.rs:524-532 | The rebuilt version word fits 32 bits for any field values |
| HeaderTrees.RecordNodeIsFreeBelow | lib/src/header.rs:615-744 | No node below the record node of a header is itself a record |
| Regions.FromSlice | lib/src/region.rs:44-101 | The cursor loop returns the records of the input, or the error of the first header, or an empty-region error |
| Regions.ToBytes | lib/src/region.rs:103-109 | The bytes of a region are the data of its records one after the other |
| Regions.SetChildContext | lib/src/region.rs:38-42 | Every record gets the parent header and nothing else changes |
| Regions.CutTiles | lib/src/region.rs:44-101 | The records' data are a prefix of the input; every record but the last has exactly its announced size, and one that is shorter ends with the input |
| Regions.CutIsMaximal | lib/src/region.rs:48-76 | The parser stops only at the end of the bytes, or where no header parses or the announced size is zero |
| Regions.RecordsAreParsed | lib/src/region.rs:78-91 | Each record has the header parsed where the records before it end, and the announced bytes from there on, or all that are left |
| Regions.RecordShowsHeader | lib/src/region.rs:85-89 | A record's own bytes parse to its header exactly when they cover it |
| Regions.WhyNoRegion | lib/src/region.rs:48-98 | There is no region exactly when the first header is not there or announces nothing; the error is that header's, or that the region is empty |
| Regions.CutIsHomomorphism | lib/src/region.rs:44-101 | Complete records followed by any bytes parse to those records followed by the records of those bytes |
| Regions.CutOfConcat | lib/src/region.rs:44-109 | Re-parsing the serialized records gives the same records exactly when each of them still covers its header |
| Regions.ReparseIsPrefix | lib/src/region.rs:44-109 | Re-parsing never gives anything but a prefix of the records |
| Regions.RegionRoundTrip | lib/src/region.rs:44-109 | `from_slice(to_bytes(r)) == r` for a parsed region exactly when its records cover their headers |
| Regions.LongRecordsCover | lib/src/region.rs:44-109 | Records at least as long as their headers cover them |
| Regions.CutHeaderIsLost | lib/src/region.rs:78-91 | A Type 6 record of eight bytes parses, and does not parse again from its own bytes |
| Boxes.ExpandRecord | lib/src/crashlog.rs:34-55 | A record yields the region after its header, with that header as parent of every record, when it is a Box and the rest parses |
| Boxes.PushChildren | lib/src/crashlog.rs:34-55 | The children of a region end up at the front of the queue, last Box first |
| Boxes.FromRegions | lib/src/crashlog.rs:29-68 | The queue loop ends on every input and returns the concatenated preorders of the input regions; an empty input is the error |
| Boxes.ChildIsSmaller | lib/src/crashlog.rs:45-51 | A child region is at least 8 bytes shorter than its Box |
| Boxes.ExpansionIsBounded | lib/src/crashlog.rs:29-68 | With B input bytes, expansion adds at most B/8 regions |
| Boxes.ExpansionKeepsInput | lib/src/crashlog.rs:29-68 | Every input region is in the output |
| Boxes.ExpansionIsTraceable | lib/src/crashlog.rs:29-68 | Every other output region starts right after the header of a Box record of the output and carries that header |
| Boxes.ExpansionIsClosed | lib/src/crashlog.rs:29-68 | The children of every output region are in the output too |
| Boxes.InnerIsChild | lib/src/crashlog.rs:29-68 | Every output region that is not an input region is what some output region wraps |
| Boxes.LastBoxFirst | lib/src/crashlog.rs:45-58 | Regions that wrap nothing come out right behind the region that wraps them, that of its last Box first |
| Boxes.BoxFreeForest | lib/src/crashlog.rs:29-68 | Expansion changes nothing exactly when no record is a Box that parses; otherwise the list grows |
| Boxes.ExpansionIsIdempotent | lib/src/crashlog.rs:29-68 | Expanding twice is expanding once exactly when there is no such Box |
| Boxes.SmallBoxExpands | lib/src/crashlog.rs:29-68 | A sixteen-byte file with a Box, whose expansion expands again |
| Boxes.LegacyBoxExpands | lib/src/errata.rs:46-49 | A legacy server file with a Box |
| Boxes.OnlyRootsExpand | lib/src/crashlog.rs:29-68 | A list of regions without parents expands to a given list exactly when it is that list's regions without parents, in order, and they expand to it |
| Boxes.OrphansComeBack | lib/src/crashlog.rs:29-68 | Stripping every region of an expanded list of its parent and expanding again gives that list exactly when it holds no Box, and otherwise each region from a Box once more with all it wraps |
| Sections.FerHeaderFields | lib/src/cper/section/fer.rs:65-73 | The serialized header has its fields at the offsets of UEFI section N.2.10 |
| Sections.FerHeaderReadsBack | lib/src/cper/section/fer.rs:50-73 | A header reads back from its bytes; below revision 2 its GUID is lost |
| Sections.FerHeaderIsRead | lib/src/cper/section/fer.rs:50-63 | Which bytes are a Firmware Error Record header, and what its fields are |
| Sections.BodyIsRead | lib/src/cper/section.rs:31-38 | Bodies under that GUID are what follows their header of 16 or 32 bytes; all others are taken as they are |
| Sections.ResizeIs | lib/src/cper/section.rs:106-110 | The bytes of a body are cut to the announced length, or padded with zeros |
| Sections.BodyRoundTrip | lib/src/cper/section.rs:31-65 | A body, cut or padded to its length, parses back exactly when it is unknown under a foreign GUID, or of revision 2 and up, or has neither GUID nor payload bytes to lose |
| Sections.RevisionOneIsLost | lib/src/cper/section/fer.rs:65-82 | A parsed revision 1 body that does not survive |
| Sections.ParsedBodyIsDescribed | lib/src/cper/section.rs:31-55 | A parsed body has the GUID it was parsed under and the length of its slice |
| Descriptors.DescriptorFields | lib/src/cper/descr.rs:125-142 | The serialized descriptor has its fields at the offsets of UEFI section N.2.2 |
| Descriptors.DescriptorRoundTrip | lib/src/cper/descr.rs:84-142 | A descriptor reads back exactly when its validation bits say which optional fields are present |
| Descriptors.DescriptorIsRead | lib/src/cper/descr.rs:84-111 | Which bytes are a descriptor, and what its fields are, the optional ones by their validation bits |
| Descriptors.NormalDescriptorAgrees | lib/src/cper/descr.rs:114-122 | Normalizing makes the validation bits say so |
| Descriptors.SeverityRoundTrip | lib/src/cper/descr.rs:33-52 | Every severity is recovered from its code |
| Descriptors.CperHeaderFields | lib/src/cper/header.rs:206-229 | The serialized record header has its fields at the offsets of UEFI section N.2.1 |
| Descriptors.CperHeaderRoundTrip | lib/src/cper/header.rs:150-229 | A record header reads back exactly when its validation bits say which optional fields are present |
| Descriptors.CperHeaderIsRead | lib/src/cper/header.rs:150-189 | A record header is read exactly from 116 bytes or more that carry "CPER" and 0xFFFFFFFF |
| Descriptors.CperHeaderOfBytes | lib/src/cper/header.rs:150-189 | Its fields are at the offsets of UEFI section N.2.1, the optional ones present by validation bits 0, 1 and 2 |
| Descriptors.NormalCperHeaderAgrees | lib/src/cper/header.rs:192-203 | Normalizing makes the validation bits say so |
| Descriptors.TimestampRoundTrip | lib/src/cper/header.rs:83-107 | A timestamp reads back from its eight bytes |
| Descriptors.TimestampIsRead | lib/src/cper/header.rs:83-94 | The eight bytes of a timestamp, the fourth a flag in its lowest bit |
| Cpers.Cper.Normalize | lib/src/cper.rs:91-104 | The loop places the sections one after the other and sets count, length and validation bits |
| Cpers.Cper.AppendSection | lib/src/cper.rs:85-88 | The record becomes the normal form of the old one with the section at its end |
| Cpers.Cper.Serialize | lib/src/cper.rs:107-121 | Header, then all descriptors, then all bodies |
| Cpers.CperIsRead | lib/src/cper.rs:32-33 | A file is a CPER record exactly when it has 128 bytes with both signatures |
| Cpers.SectionIsRead | lib/src/cper.rs:35-46 | Section i is read where its descriptor, at 128 + 72i, says, under the type it says, when all of that is in the file |
| Cpers.SectionsFollow | lib/src/cper.rs:35-47 | Sections are read in order and those that cannot be are skipped |
| Cpers.BodiesAreRead | lib/src/cper.rs:32-55 | The bodies of a parsed record are those of all the sections that bytes 10 and 11 count |
| Cpers.NormalIsIdempotent | lib/src/cper.rs:91-104 | Normalizing again changes nothing |
| Cpers.SectionsTile | lib/src/cper.rs:91-121 | In a normal record the first section starts at 128 + 72n, each starts where the one before ends, the last ends at `record_length`, which is the length of the bytes, and the bytes in each range are that section's body |
| Cpers.CperReadsBack | lib/src/cper.rs:32-121 | What a normal record parses back to, section by section, whatever its bodies |
| Cpers.CperRoundTrip | lib/src/cper.rs:32-121 | It parses back to itself exactly when every body survives |
| Cpers.ParsedIsNormal | lib/src/cper.rs:32-55 | A parsed record is normal and its descriptors describe its bodies |
| Cpers.ParsedRoundTrip | lib/src/cper.rs:32-121 | `from_slice(to_bytes(c)) == c` for every parsed record in range exactly when every body survives |
| Cpers.AppendsNormalizeOnce | lib/src/cper.rs:85-104 | Any run of appends equals one normalization of all the sections |
| Cpers.BuiltRoundTrip | lib/src/cper.rs:85-121 | The same round trip for every record built by at least one append |
| Berrs.StatusBlockFields | lib/src/bert/berr.rs:37-45 | The serialized status block has its fields at the offsets of ACPI table 18-391 |
| Berrs.StatusBlockRoundTrip | lib/src/bert/berr.rs:27-45 | A status block reads back from its bytes |
| Berrs.EntryHeaderFields | lib/src/bert/berr.rs:88-105 | The serialized entry header has its fields at the offsets of ACPI table 18-392 |
| Berrs.EntryHeaderReadsBack | lib/src/bert/berr.rs:68-113 | It reads back, for both sizes; a timestamp below revision 0x300 is lost |
| Berrs.Parse | lib/src/bert/berr.rs:192-209 | The entry loop, which never moves past its end, collects the entries of the data area |
| Berrs.BerrIsRead | lib/src/bert/berr.rs:192-209 | A region is read exactly when its status block and the data it announces at byte 12 are there |
| Berrs.EntryIsRead | lib/src/bert/berr.rs:68-132 | An entry is read when its header, of 72 bytes from revision 0x300 on and 64 below, and the body it announces are there |
| Berrs.EntriesStep | lib/src/bert/berr.rs:192-209 | After an entry the loop goes on with the bytes behind it |
| Berrs.NoEntries | lib/src/bert/berr.rs:192-209 | It ends where no entry is read |
| Berrs.EntryAdvances | lib/src/bert/berr.rs:122-147 | An entry takes at least 64 bytes and never more than there are |
| Berrs.EntriesAreBounded | lib/src/bert/berr.rs:192-209 | n bytes hold at most n/64 entries |
| Berrs.Serialize | lib/src/bert/berr.rs:211-225 | The status block with the summed data length, then the entries |
| Berrs.EntryReadsBack | lib/src/bert/berr.rs:122-142 | An entry reads back, with its data length filled in, exactly when its timestamp and its body survive |
| Berrs.BerrReadsBack | lib/src/bert/berr.rs:192-225 | What a serialized Boot Error Region parses to, whatever its entries and whatever follows it |
| Berrs.BerrRoundTrip | lib/src/bert/berr.rs:192-225 | Every entry is recovered exactly when each one survives on its own |
| Berrs.BertFields | lib/src/bert.rs:72-86 | The serialized table has 48 bytes, with the region's length and address at 36 and 40 |
| Berrs.SerializeTable | lib/src/bert.rs:72-86 | Appending the fields one by one gives that table |
| Berrs.BertPrefix | lib/src/bert/berr.rs:181-190 | The region that follows a table is found again |
| Berrs.BerrPrefix | lib/src/bert/berr.rs:181-190 | So is a region behind its own signature |
| Berrs.BertFileIsRead | lib/src/bert/berr.rs:181-190 | Other files are no BERT files |
| CrashLogs.FromCper | lib/src/crashlog.rs:92-111 | The loop splits the sections into regions, expanded, and extra sections, in order; no region is the error |
| CrashLogs.RegionBodyIsRead | lib/src/region.rs:23-36 | A section is a region exactly when it is a Firmware Error Record of the crash log GUID whose payload parses |
| CrashLogs.ImportBySignature | lib/src/crashlog.rs:71-124 | What a file is imported as, by its first bytes and length, with the error of each kind of file that holds no region |
| CrashLogs.RawImport | lib/src/crashlog.rs:118-121 | A file that starts with none of the three signatures is its single raw region, or that region's error |
| CrashLogs.FromRawCrashLog | lib/src/cper.rs:58-83 | The record holds every region and every extra section, appended in order |
| Exports.BertFileBytes | lib/src/crashlog.rs:126-138 | The 48 bytes of the table, with the length of what follows at 36, the status block with the length of the entries, and the entries |
| Exports.EntryBytes | lib/src/bert/berr.rs:157-178 | The header bytes of an exported entry, and the region wrapped behind them |
| Exports.EntriesInOrder | lib/src/bert/berr.rs:157-178 | Where the entry of each region is |
| Exports.RegionBodyBytes | lib/src/cper/section/fer.rs:94-111 | A region is wrapped behind a revision 2 header of error type 2 and the crash log GUID |
| Exports.CperFileBytes | lib/src/cper.rs:58-71 | The 128 header bytes of an exported record: fatal, boot notification, the section count, the length and the time of the log when it has one |
| Exports.CperSectionBytes | lib/src/cper.rs:73-80 | Each section descriptor: type and length of its body, severity fatal for regions and informational for extra sections |
| CrashLogs.BertImport | lib/src/crashlog.rs:114-138 | Importing the BERT export is importing the exported bodies |
| CrashLogs.CperIsNotBert | lib/src/crashlog.rs:114-124 | A CPER file is never taken for a BERT file |
| CrashLogs.CperImport | lib/src/crashlog.rs:114-143 | Importing the CPER export is importing the exported bodies, as they read back |
| CrashLogs.ExportsAgree | lib/src/crashlog.rs:114-143 | When some region parses again, both imports succeed and have the same regions, Boxes included, exactly when no extra section reads back as a crash log region |
| CrashLogs.BertRoundTrip | lib/src/crashlog.rs:114-138 | Any log comes back from its BERT export exactly when it is not empty, is the expansion of its regions without parents, and parsing its regions again gives just those |
| CrashLogs.CperRoundTrip | lib/src/crashlog.rs:114-143 | The regions of any log come back from its CPER export exactly when the same holds with the regions its extra sections read back as |
| CrashLogs.ExportRoundTrip | lib/src/crashlog.rs:114-143 | Any log comes back whole from its CPER export, regions and extra sections, exactly when it has regions, all of them parse again in full, none is from a Box or holds one, and its extra sections survive as such; among logs whose regions all parse again in full, the BERT export keeps the regions of just those without Boxes |
| CrashLogs.BertSize | lib/src/bert/berr.rs:157-178 | A log takes 104 bytes for each region besides its records |
| CrashLogs.CperFitsBert | lib/src/cper.rs:58-104 | A log that fits a CPER record fits a Boot Error Region |
| Reimports.ImportIsExpanded | lib/src/crashlog.rs:71-124 | Every imported log is the expansion of its regions without parents, and each region was parsed from bytes |
| Reimports.ImportedBoxIsExpanded | lib/src/crashlog.rs:34-55 | Whatever the raw bits of a record of an imported log call a Box is expanded: the region behind its header, if there is one, is in the log with that header as its parent |
| Reimports.ImportedChildHasBox | lib/src/crashlog.rs:34-55 | Every region of the log that has a parent comes from such a record |
| Reimports.ReimportRoundTrip | lib/src/crashlog.rs:114-138 | Any imported log comes back from its BERT export exactly when parsing its regions again gives its regions without parents and nothing else; without Boxes, exactly when every header is covered |
| Reimports.CoveredReimport | lib/src/crashlog.rs:114-138 | When every header is covered, the import of the BERT export succeeds and returns every region again, and every region from a Box once more with all it wraps; so it is the same list exactly when there is no Box |
| Reimports.ImportedExportsAgree | lib/src/crashlog.rs:114-143 | Both exports of any imported log are imported with the same regions, or both are refused |
| Reimports.CperReimportRoundTrip | lib/src/crashlog.rs:114-143 | Any imported log comes back whole from its CPER export exactly when it holds no Box, no header was cut off and its extra sections survive |
| Reimports.SmallBoxComesBackTwice | lib/src/crashlog.rs:114-138 | A sixteen-byte file with a Box, for which that happens |
| Names.DecimalReadsBack | lib/src/node.rs:220-228 | Numbers are printed in base ten, without a leading zero |
| Names.DecimalIsInjective | lib/src/node.rs:220-228 | Different instance numbers print differently |
| Names.LeastFree | lib/src/node.rs:220-228 | There is always a free suffix, and this is the least one |
| Names.FreshName | lib/src/node.rs:220-228 | The name a renamed child gets is free |
| Names.SplitJoin | lib/src/node.rs:248-250 | A dotted path splits into the names it was joined from |
| Names.Sorted | lib/src/node.rs:230-242 | The order in which children are merged visits each of them once |
| Names.SortedIsAlphabetical | lib/src/node.rs:230-242 | That order is alphabetical |
| Names.FirstDifferenceDecides | lib/src/node.rs:230-242 | In it the first different character decides, and a name comes before its own continuations |
| Names.LowerLetters | lib/src/node.rs:71-76 | The lower case of each capital letter |
| Names.OtherCharactersStay | lib/src/node.rs:71-76 | Every other character is its own |
| Nodes.MergeKeepsKeys | lib/src/node.rs:220-246 | A merge keeps every map key equal to its child's name |
| Nodes.MergeExtends | lib/src/node.rs:220-246 | Whatever resolved before a merge still resolves, to the same name, kind and description, and nothing changes below a record or a field |
| Nodes.ExtendsAt | lib/src/node.rs:220-246 | The same, read path by path |
| Nodes.ExtendsByPath | lib/src/node.rs:172-178 | The same for the lookup by dotted path |
| Nodes.MergeConserves | lib/src/node.rs:220-246 | The field values after a merge are those of both trees minus exactly those of field nodes that land on an existing node that is neither record nor field |
| Nodes.MergeKeepsValues | lib/src/node.rs:220-246 | No value of the tree merged into is lost, and no value is invented |
| Nodes.HierarchyExtends | lib/src/node.rs:252-268 | Hierarchy creation keeps everything that resolved before |
| Nodes.HierarchyFrame | lib/src/node.rs:252-268 | A node that is not on the path keeps its whole subtree |
| Nodes.HierarchyKeepsKeys | lib/src/node.rs:252-268 | Hierarchy creation keeps every map key equal to its child's name |
| Trees.TreeNode.Root | lib/src/node.rs:56-58 | A new root has no name and no children |
| Trees.TreeNode.Section | lib/src/node.rs:71-77 | A new section has its name in lower case and no children |
| Trees.TreeNode.Record | lib/src/node.rs:90-96 | The same for a record |
| Trees.TreeNode.Field | lib/src/node.rs:109-115 | The same for a field with its value |
| Trees.TreeNode.Add | lib/src/node.rs:244-246 | The child is stored under its name, in place of what was there |
| Trees.TreeNode.MergeInstance | lib/src/node.rs:220-228 | The renaming loop ends on the least free suffix |
| Trees.TreeNode.MergeChild | lib/src/node.rs:231-240 | A child is renamed when it meets a record or a field, merged into a section, or added |
| Trees.TreeNode.Merge | lib/src/node.rs:230-242 | The in-place merge computes the merge of the two values and stays a proper tree |
| Trees.TreeNode.CreateHierarchy | lib/src/node.rs:252-268 | The in-place creation computes the created hierarchy and hands out the node at the path, or stops where the source panics |
| Layouts.RelativeName | lib/src/record/decode.rs:111-137 | A name of k + 1 dots and some names, resolved from a path, drops its last k names and goes down the others |
| Layouts.AbsoluteName | lib/src/record/decode.rs:111-137 | A name without a leading dot is its own path |
| Layouts.DotsInside | lib/src/record/decode.rs:131-137 | k + 1 dots inside a name drop the k names before them |
| Layouts.PathsFollowOn | lib/src/record/decode.rs:83-143 | Over a whole layout, each named line is resolved from the path of the named line before it, and asks for its own description and bits |
| Layouts.RelativeLayoutPaths | lib/tests/record.rs:51-58 | The seven paths of the library's own test of relative names |
| Decoders.Follow | lib/src/record/decode.rs:131-137 | The push and pop loop computes the path the segments lead to |
| Decoders.ApplyItem | lib/src/record/decode.rs:124-143 | One entry changes the tree in place as the meaning of the entry says |
| Decoders.DecodeWithCsv | lib/src/record/decode.rs:83-146 | The whole loop over entries, current path and tree builds the tree that the layout means, or stops where the source panics |
| Layouts.ResettingTree | lib/src/record/decode.rs:83-146 | For every layout that decodes at all, what the tree holds at each path: whether there is a node, its name, description and kind, given by the entries that still matter there |
| Layouts.DecodedTree | lib/src/record/decode.rs:83-146 | All entries matter at every path exactly when top-level names are in lower case too; then there is a node at a path exactly when an entry or a top-level name leads there, with the last description and the kind the entries give it |
| Layouts.UpperCaseEmpties | lib/src/record/decode.rs:124-129 | A two-line layout whose second line takes away the field of the first |
| Layouts.LastValueWins | lib/src/record/decode.rs:139-143 | A node holds the value of the last readable entry at its path |
| Layouts.LastDescriptionWins | lib/src/record/decode.rs:140 | A node has the description of the last entry at its path |
| Layouts.NoEntryNoDescription | lib/src/record/decode.rs:140 | Without an entry at its path it has none |
| Layouts.FirstMentionDecides | lib/src/record/decode.rs:124-129 | Without a value a node is a record when an absolute entry named it first, at the top, and a section otherwise |
| Layouts.WellRootedTree | lib/src/record/decode.rs:83-146 | For layouts that start absolute and never leave their top level, the paths are the prefixes of the entries' paths, records are at the top and sections below |
| Layouts.DecodePanics | lib/src/node.rs:252-268 | Decoding runs to its end exactly when every resolved path is in lower case |
| Layouts.UpperCasePanics | lib/src/node.rs:252-268 | A layout whose decoding does not |
| Truncations.TruncationOnlyLoses | lib/src/record/decode.rs:139-143 | Decoding a prefix of the data gives the same paths; in a layout that is safe to cut, each field of the tree is the same field of the full tree |
| Truncations.TruncationIsSafe | lib/src/record/decode.rs:28-51 | A layout keeps every field on all data and all cuts exactly when it is safe to cut: at each path, no decodable entry needs less data than the last of them |
| Truncations.DistinctPathsAreSafe | lib/src/record/decode.rs:139-143 | Layouts that name each path once are safe to cut |
| Truncations.RepeatedPathChanges | lib/src/record/decode.rs:139-143 | A two-line layout and two bytes of data that change a value when cut |
| Truncations.DecodeBehind | lib/src/record/decode.rs:139-143 | Decoding at a byte offset is decoding the bytes behind it |
| Shorthand.RelativeNamesAreShorthand | lib/src/record/decode.rs:111-139 | Spelling every relative name out leaves the result unchanged exactly when decoding panics anyway, or no valueless top-level name is reached first by a relative entry |
| Shorthand.WellRootedIsShorthand | lib/src/record/decode.rs:111-139 | For well-rooted layouts it never changes anything |
| Shorthand.RelativeFirstDiffers | lib/src/record/decode.rs:111-139 | A one-line layout where it does |
| LogDecoders.NewHeader | lib/src/header.rs:615-744 | The node built by successive additions is the header's node |
| LogDecoders.DecodeRecord | lib/src/record/decode.rs:149-182 | The tree built in place for one record, below its own or its parent's root path |
| LogDecoders.DecodeLog | lib/src/crashlog.rs:146-154 | The loop over regions and records merges every record's tree, in order |
| LogTrees.RecordIsPlaced | lib/src/record/decode.rs:149-182 | Creating the root path of a record never panics, and its tree is the record node below sections `processors`, `cpuN` and `dieM`, or below the root |
| LogTrees.BoxedRecordSitsByItsBox | lib/src/record/decode.rs:172-182 | A record found in a Box sits below its own die, or else below the die of the Box, or else at the root |
| LogTrees.MergePlaced | lib/src/node.rs:230-242 | Merging a tree with a single leaf adds the leaf below its path, under the first free name, and changes nothing elsewhere |
| LogTrees.MergeOfOne | lib/src/node.rs:220-242 | Merging a tree with one child adds it, merges it into a root or section of its name, or adds it beside a record or field under the first free number |
| LogTrees.MergeOfNone | lib/src/node.rs:230-242 | Merging a tree without children changes nothing |
| LogTrees.NewNameIsNext | lib/src/node.rs:220-228 | The least free suffix is the number of records of that root path and type already there |
| LogTrees.EveryRecordIsFound | lib/src/crashlog.rs:146-154 | The k-th record of a root path and type is found, also by dotted path, under `type`, `type0`, `type1` and so on, with the subtree its header gave |
| LogTrees.NameTellsCount | lib/src/crashlog.rs:146-154 | The first record of its root path and type is called by its type, every other by its type and the decimal number of those in between |
| LogTrees.NameByNumber | lib/src/header.rs:534-551 | The type name of a record, in lower case, by its type number |
| LogTrees.DieSegmentsTell | lib/src/header.rs:449-461 | The path of a die tells the decimal numbers of its socket and of itself |
| LogTrees.EveryHeaderIsShown | lib/src/crashlog.rs:146-154 | Below the node of every record that covers its header, the log's tree shows the bits of that record's own data |
| LogTrees.RecordNodesAreRecords | lib/src/crashlog.rs:146-154 | The record nodes of a log's tree are exactly those, one for each record |
| Collateral.SearchIsFirst | lib/src/collateral.rs:140-164 | The uncached search answers with the first of red, white, green and all that has the item |
| Collateral.SearchFails | lib/src/collateral.rs:140-164 | It fails, naming the item asked for, exactly when all four fail |
| Collateral.LevelsInOrder | lib/src/collateral.rs:141-152 | The four levels and their order, with nothing but the security level replaced |
| Collateral.CollateralManager.constructor | lib/src/collateral.rs:61-69 | The cache starts empty |
| Collateral.CollateralManager.GetItemWithPvss | lib/src/collateral.rs:85-104 | Answer and cache after a direct call |
| Collateral.CollateralManager.GetItemWithPvs | lib/src/collateral.rs:120-138 | Answer and cache after a searching call |
| Collateral.CollateralManager.FetchItem | lib/src/collateral.rs:140-164 | The loop over security levels caches what the search finds, under the index asked for |
| Collateral.AnswersAreFirstFound | lib/src/collateral.rs:85-164 | In any run a call answers what the first successful call with its index found |
| Collateral.OneGetterAgrees | lib/src/collateral.rs:85-164 | In a run of one getter every answer is the uncached one |
| Collateral.MixedRunsAgree | lib/src/collateral.rs:90-132 | All mixed runs agree with the uncached answers exactly when the two getters agree on every index |
| Collateral.RedHidesAll | lib/src/collateral.rs:90-132 | A tree on which they do not |
| Checksums.SumIsTotal | lib/src/record.rs:44-56 | The checksum is the sum of the whole dwords, wrapped to 32 bits |
| Checksums.ChecksumIsTotal | lib/src/record.rs:44-56 | A record with a checksum is valid exactly when its whole dwords add up to a multiple of 2^32 |
| Checksums.SumIsAdditive | lib/src/record.rs:44-56 | It is additive over concatenation at a dword boundary |
| Checksums.OneDwordCompletes | lib/src/record.rs:44-56 | Aligned data is completed to a valid record by one dword and by no other |
| Checksums.OneChangeFails | lib/src/record.rs:44-56 | Changing exactly one whole dword of a valid record makes it fail |
| Checksums.TrailingBytesAreIgnored | lib/src/record.rs:49-53 | Bytes after the last whole dword do not count |
| Checksums.OneByteIsNoticed | lib/src/record.rs:44-56 | Of all changes to one byte of a valid record, exactly those after the last whole dword leave it valid |
| Checksums.PayloadTiles | lib/src/record.rs:32-42 | Header, payload and checksum tile a record that has room for all three |
| Checksums.PayloadWithoutChecksum | lib/src/record.rs:32-48 | Without a checksum everything behind the header is payload, and there is no verdict |
| Checksums.ShortRecordHasNoPayload | lib/src/record.rs:32-42 | A shorter record has no payload |

## Left out

- Decoding with the collateral manager (`Record::decode`, core records, decode definitions): lookup around the merge and layout functions that are modelled.
- Extraction and control sources, the foreign interface, the applications, analysis: input, output and single-branch lookups.
- CSV cells: a layout is a list of entries whose cells are already split and whose numbers are already read; UTF-8 and number errors are not modelled.
- Lower case is that of ASCII letters; Unicode case folding is not modelled.
- Sizes and offsets that the source keeps in `usize`, and the instance counter, are unbounded; overflow of those is not modelled, nor are the extra checks of debug builds: overflow, and the length assertions in the serializers, which stop on a revision 1 body. Narrowing to 16 and 32 bits in the containers is.
- Decoders.DecodeWithCsv: the path loop and the tree update are methods of their own, and an entry's field is read before its node is created, which no result can tell apart.
- Trees.TreeNode.CreateHierarchy: goes down by recursion where the source moves one pointer, so that each node can account for the nodes it owns.
- LogDecoders.DecodeRecord: reaches the record root by its path a second time instead of keeping the pointer, for the same reason.
- Regions.SetChildContext: regions and records are values, so the loop rebuilds the region instead of updating it in place; CPER sections and descriptors are values inside the record object in the same way.
- CrashLogs.BertImport: asks for less than 2^32 bytes of entries, and CrashLogs.CperImport for counts and sizes that fit their fields, as every export theorem does.
- Cpers.ParsedRoundTrip: asks for at most 65535 sections and sizes below 2^32, where the count and the offsets are narrowed.
- Berrs.BerrRoundTrip: asks for less than 2^32 bytes of entries, where the data length is narrowed.
- The date in CPER timestamps is kept as its eight bytes; its conversion from the metadata of a log, and the computer and source names there, are not modelled.
- The system description table in front of a BERT is kept as its fields; its own checksum is not checked by the source either.
- Serializing trees to JSON, printing errors and logging.
