/** What decoding a prefix of the data loses (lib/src/record/decode.rs, lib/src/region.rs). */
module Truncations {
  import opened Results
  import opened Bytes
  import opened Names
  import opened Nodes
  import opened Layouts
  import Bits
  import Fields

  // Truncated data

  /** The same entry over less data: the same path, and the same value unless it is gone. */
  predicate Truncated(less: seq<Item>, more: seq<Item>) {
    && |less| == |more|
    && forall i | 0 <= i < |less| ::
         && less[i].(value := more[i].value) == more[i]
         && (less[i].value.Some? ==> less[i].value == more[i].value)
  }

  lemma {:induction false} ItemsOfPrefix(entries: seq<Entry>, current: seq<string>, data: seq<byte>, cut: nat,
                                              base: nat)
    requires cut <= |data|
    ensures Truncated(Items(entries, current, data[..cut], base), Items(entries, current, data, base))
    decreases |entries|
  {
    hide Fields.Field, Resolve, IsAbsolute, Split;
    if entries == [] {
    } else if entries[0].name == "" {
      ItemsOfPrefix(entries[1..], current, data, cut, base);
    } else {
      Fields.FieldOfPrefix(data, cut, base * 8 + entries[0].offset, entries[0].size);
      ItemsOfPrefix(entries[1..], ItemOf(entries[0], current, data, base).path, data, cut, base);
    }
  }

  lemma TruncatedKnows(less: seq<Item>, more: seq<Item>, q: seq<string>)
    requires Truncated(less, more)
    ensures Known(less, q) <==> Known(more, q)
  {
    forall i | 0 <= i < |less| ensures Touches(less[i], q) == Touches(more[i], q) {
    }
    if item :| item in less && Touches(item, q) {
      var i :| 0 <= i < |less| && less[i] == item;
      assert more[i] in more;
    }
    if item :| item in more && Touches(item, q) {
      var i :| 0 <= i < |more| && more[i] == item;
      assert less[i] in less;
    }
  }

  /** A field in the tree was put there by a readable entry. */
  lemma {:induction false} FieldHasEntry(items: seq<Item>, q: seq<string>)
    requires KindAt(items, q).Field?
    ensures !Unreadable(items, q)
    decreases |items|
  {
    hide KindAt;
    if items == [] {
      NoEntries(q);
    } else {
      var before, last := items[..|items| - 1], items[|items| - 1];
      KindStep(items, q);
      SnocDecomposes(items);
      assert last in items;
      if !(last.path == q && last.value.Some?) {
        FieldHasEntry(before, q);
      }
    }
  }

  lemma NoEntries(q: seq<string>)
    ensures KindAt([], q) == Root
  {
  }

  // Which layouts are safe to truncate

  /** Wider fields are never decoded. */
  predicate IsDecodable(item: Item) {
    item.size <= 64
  }

  /** How many bytes of data the field needs. */
  function Need(item: Item): nat {
    if item.size == 0 then 0 else (item.offset + item.size + 7) / 8
  }

  /** The entries of the layout apart from any data. */
  function Blank(entries: seq<Entry>, base: nat): seq<Item> {
    Items(entries, [], [], base)
  }

  /** The items are what the names become on the data. */
  predicate Meets(items: seq<Item>, names: seq<Item>, data: seq<byte>) {
    && |items| == |names|
    && forall i | 0 <= i < |items| ::
         && names[i].(value := items[i].value) == items[i]
         && items[i].value == Fields.Field(data, items[i].offset, items[i].size)
  }

  lemma {:induction false} ItemsMeetNames(entries: seq<Entry>, current: seq<string>, data: seq<byte>, base: nat)
    ensures Meets(Items(entries, current, data, base), Items(entries, current, [], base), data)
    decreases |entries|
  {
    hide Fields.Field, Resolve, IsAbsolute;
    if entries != [] {
      var path := if entries[0].name == "" then current else Resolve(current, entries[0].name);
      ItemsMeetNames(entries[1..], path, data, base);
    }
  }

  lemma {:induction false} SinceMeets(items: seq<Item>, names: seq<Item>, data: seq<byte>, q: seq<string>)
    requires Meets(items, names, data)
    ensures Meets(Since(items, q), Since(names, q), data)
    decreases |items|
  {
    hide Fields.Field;
    if items != [] {
      SinceMeets(items[..|items| - 1], names[..|names| - 1], data, q);
    }
  }

  lemma {:induction false} SinceTruncated(less: seq<Item>, more: seq<Item>, q: seq<string>)
    requires Truncated(less, more)
    ensures Truncated(Since(less, q), Since(more, q))
    decreases |less|
  {
    if less != [] {
      SinceTruncated(less[..|less| - 1], more[..|more| - 1], q);
    }
  }

  lemma ReadableWhenNeedIsMet(data: seq<byte>, item: Item)
    ensures Fields.Field(data, item.offset, item.size).Some? <==> IsDecodable(item) && Need(item) <= |data|
  {
  }

  /** Entry `j` is the last decodable one at the path. */
  predicate LastDecodable(names: seq<Item>, q: seq<string>, j: nat) {
    && j < |names| && names[j].path == q && IsDecodable(names[j])
    && forall k | j < k < |names| :: names[k].path == q ==> !IsDecodable(names[k])
  }

  /** No decodable entry at the path needs less data than the last of them. */
  predicate LastNeedsLeast(names: seq<Item>, q: seq<string>) {
    forall i, j | 0 <= i < |names| && 0 <= j < |names| && LastDecodable(names, q, j) ::
      names[i].path == q && IsDecodable(names[i]) ==> Need(names[j]) <= Need(names[i])
  }

  /** That is so at every path, among the entries that still matter there. */
  predicate SafeToCut(names: seq<Item>) {
    forall item <- names :: LastNeedsLeast(Since(names, item.path), item.path)
  }

  predicate DistinctPaths(items: seq<Item>) {
    forall i, j | 0 <= i < j < |items| :: items[i].path != items[j].path
  }

  /** Layouts that name each path once are safe. */
  lemma DistinctPathsAreSafe(names: seq<Item>)
    requires DistinctPaths(names)
    ensures SafeToCut(names)
  {
    hide Since;
    forall item | item in names ensures LastNeedsLeast(Since(names, item.path), item.path) {
      var kept := Since(names, item.path);
      var start := SinceIsSuffix(names, item.path);
      forall i, j | 0 <= i < |kept| && 0 <= j < |kept| && kept[i].path == kept[j].path ensures i == j {
        assert names[start + i].path == names[start + j].path;
      }
    }
  }

  lemma {:induction false} LastDecodableExists(names: seq<Item>, q: seq<string>, i: nat) returns (j: nat)
    requires i < |names| && names[i].path == q && IsDecodable(names[i])
    ensures LastDecodable(names, q, j)
    decreases |names| - i
  {
    if k :| i < k < |names| && names[k].path == q && IsDecodable(names[k]) {
      j := LastDecodableExists(names, q, k);
    } else {
      j := i;
    }
  }

  lemma SameNeed(name: Item, item: Item)
    requires name.(value := item.value) == item
    ensures Need(name) == Need(item) && (IsDecodable(name) <==> IsDecodable(item))
  {
  }

  /** In a safe layout the last readable entry at a path is the last decodable one. */
  lemma LastReadableIsLast(items: seq<Item>, names: seq<Item>, data: seq<byte>, q: seq<string>, i: nat)
    requires Meets(items, names, data) && LastNeedsLeast(names, q) && LastReadable(items, q, i)
    ensures LastDecodable(names, q, i)
  {
    hide Fields.Field, Need, IsDecodable;
    SameNeed(names[i], items[i]);
    ReadableWhenNeedIsMet(data, items[i]);
    var j := LastDecodableExists(names, q, i);
    SameNeed(names[j], items[j]);
    ReadableWhenNeedIsMet(data, items[j]);
    assert Need(names[j]) <= Need(names[i]);
    if i < j {
      assert false;
    }
  }

  /** Every field at the path of the tree of the cut data is that field of the full tree. */
  predicate KeepsField(entries: seq<Entry>, data: seq<byte>, cut: nat, base: nat, q: seq<string>)
    requires cut <= |data|
  {
    var less, more := Decode(entries, data[..cut], base), Decode(entries, data, base);
    less.Some? && At(less.value, q).Some? && At(less.value, q).value.kind.Field? ==>
      more.Some? && At(more.value, q).Some? && At(more.value, q).value.kind == At(less.value, q).value.kind
  }

  /** What the decoded tree holds at a path. */
  lemma DecodedAt(entries: seq<Entry>, data: seq<byte>, base: nat, q: seq<string>)
    requires LowerPaths(Blank(entries, base))
    ensures Decode(entries, data, base).Some?
    ensures Holds(Decode(entries, data, base).value, Since(Items(entries, [], data, base), q), q)
  {
    hide Items, Build, Holds, Since, Fields.Field;
    var items, names := Items(entries, [], data, base), Blank(entries, base);
    ItemsMeetNames(entries, [], data, base);
    forall item | item in items ensures AllLower(item.path) {
      var i :| 0 <= i < |items| && items[i] == item;
      assert names[i] in names;
    }
    ResettingTree(items);
  }

  /**
   Decoding a prefix of the data gives a tree with the same paths. When at each path
   the last decodable entry needs the least data, every field of the tree is the same
   field of the full tree.
   */
  lemma TruncationOnlyLoses(entries: seq<Entry>, data: seq<byte>, cut: nat, base: nat, q: seq<string>)
    requires cut <= |data| && LowerPaths(Blank(entries, base))
    ensures Decode(entries, data[..cut], base).Some? && Decode(entries, data, base).Some?
    ensures At(Decode(entries, data[..cut], base).value, q).Some? <==> At(Decode(entries, data, base).value, q).Some?
    ensures SafeToCut(Blank(entries, base)) ==> KeepsField(entries, data, cut, base, q)
  {
    hide Decode, KindAt, DescriptionAt, At, Items, Since, SafeToCut, Known;
    var less, more := Items(entries, [], data[..cut], base), Items(entries, [], data, base);
    ItemsOfPrefix(entries, [], data, cut, base);
    DecodedAt(entries, data[..cut], base, q);
    DecodedAt(entries, data, base, q);
    SinceTruncated(less, more, q);
    TruncatedKnows(Since(less, q), Since(more, q), q);
    if SafeToCut(Blank(entries, base)) && KindAt(Since(less, q), q).Field? {
      SafeKindStays(entries, data, cut, base, q);
    }
  }

  lemma SafeKindStays(entries: seq<Entry>, data: seq<byte>, cut: nat, base: nat, q: seq<string>)
    requires cut <= |data| && SafeToCut(Blank(entries, base))
    requires KindAt(Since(Items(entries, [], data[..cut], base), q), q).Field?
    ensures KindAt(Since(Items(entries, [], data, base), q), q)
         == KindAt(Since(Items(entries, [], data[..cut], base), q), q)
  {
    hide KindAt, Items, Since, Fields.Field, LastNeedsLeast;
    var names := Blank(entries, base);
    var kept, less := Since(names, q), Since(Items(entries, [], data[..cut], base), q);
    var more := Since(Items(entries, [], data, base), q);
    ItemsOfPrefix(entries, [], data, cut, base);
    SinceTruncated(Items(entries, [], data[..cut], base), Items(entries, [], data, base), q);
    ItemsMeetNames(entries, [], data[..cut], base);
    SinceMeets(Items(entries, [], data[..cut], base), names, data[..cut], q);
    ItemsMeetNames(entries, [], data, base);
    SinceMeets(Items(entries, [], data, base), names, data, q);
    FieldHasEntry(less, q);
    var i := LastReadableExists(less, q);
    PathIsNamed(names, q, i);
    LastValueWins(less, q, i);
    LastReadableIsLast(less, kept, data[..cut], q, i);
    forall k | i < k < |more| && more[k].path == q ensures more[k].value.None? {
      ReadableWhenNeedIsMet(data, more[k]);
    }
    LastValueWins(more, q, i);
  }

  lemma PathIsNamed(names: seq<Item>, q: seq<string>, i: nat)
    requires i < |Since(names, q)| && Since(names, q)[i].path == q
    ensures exists item <- names :: item.path == q
  {
    hide Since;
    var start := SinceIsSuffix(names, q);
    assert names[start + i] in names;
  }

  /** Data whose only set bit is bit `p`, the last one it has room for. */
  function OneBit(p: nat): (data: seq<byte>)
    ensures |data| == p / 8 + 1
  {
    Bits.Pow2Below(p % 8);
    Zeros(p / 8) + [Bits.Pow2(p % 8)]
  }

  lemma OneBitIsZeroBefore(p: nat, cut: nat)
    requires cut <= p / 8
    ensures OneBit(p)[..cut] == Zeros(cut)
  {
  }

  lemma FieldOfZeros(n: nat, offset: nat, size: nat)
    ensures Fields.Field(Zeros(n), offset, size).Some? ==> Fields.Field(Zeros(n), offset, size).value == 0
  {
    Bits.LeValueZeros(n);
    Bits.ShiftRightZero(offset);
    Bits.LowZero(size);
  }

  /** A field that ends with the set bit is not zero. */
  lemma FieldOfOneBit(offset: nat, size: nat)
    requires 0 < size <= 64
    ensures Fields.Field(OneBit(offset + size - 1), offset, size).Some?
    ensures Fields.Field(OneBit(offset + size - 1), offset, size).value != 0
  {
    hide Bits.LeValue, Bits.ShiftRight, Bits.ShiftLeft, Bits.Low;
    var p := offset + size - 1;
    var data := OneBit(p);
    Bits.Pow2Below(p % 8);
    Bits.LeValueZeros(p / 8);
    Bits.LeValueConcat(Zeros(p / 8), [Bits.Pow2(p % 8)]);
    Bits.LeValueOne(Bits.Pow2(p % 8));
    Bits.ShiftLeftTwice(1, p % 8, 8 * (p / 8));
    assert Bits.LeValue(data) == Bits.Pow2(p);
    Bits.TopBitOfPow2(p);
    Fields.FieldBits(data, offset, size, size - 1);
    Bits.ShiftRightZero(size - 1);
  }

  /** A layout that is not safe loses a field's value on some data, cut somewhere. */
  lemma UnsafeLayoutLoses(entries: seq<Entry>, base: nat, q: seq<string>, i: nat, j: nat)
    requires LowerPaths(Blank(entries, base))
    requires var names := Since(Blank(entries, base), q);
             && i < |names| && LastDecodable(names, q, j)
             && names[i].path == q && IsDecodable(names[i]) && Need(names[i]) < Need(names[j])
    ensures var names := Since(Blank(entries, base), q);
            var data := OneBit(names[j].offset + names[j].size - 1);
            Need(names[i]) <= |data| && !KeepsField(entries, data, Need(names[i]), base, q)
  {
    hide Build, KindAt, DescriptionAt, At, Items, Since, Fields.Field;
    var names := Since(Blank(entries, base), q);
    var d := names[j];
    var data, cut := OneBit(d.offset + d.size - 1), Need(names[i]);
    var less, more := Since(Items(entries, [], data[..cut], base), q), Since(Items(entries, [], data, base), q);
    ItemsMeetNames(entries, [], data[..cut], base);
    SinceMeets(Items(entries, [], data[..cut], base), Blank(entries, base), data[..cut], q);
    ItemsMeetNames(entries, [], data, base);
    SinceMeets(Items(entries, [], data, base), Blank(entries, base), data, q);
    OneBitIsZeroBefore(d.offset + d.size - 1, cut);
    FieldOfOneBit(d.offset, d.size);
    ReadableWhenNeedIsMet(data[..cut], less[i]);
    assert !Unreadable(less, q) by {
      assert less[i] in less;
    }
    var k := LastReadableExists(less, q);
    FieldOfZeros(cut, less[k].offset, less[k].size);
    LastValueWins(less, q, k);
    forall l | j < l < |more| && more[l].path == q ensures more[l].value.None? {
      ReadableWhenNeedIsMet(data, more[l]);
    }
    LastValueWins(more, q, j);
    KindIsDecoded(entries, data[..cut], base, q, k);
    KindIsDecoded(entries, data, base, q, j);
  }

  lemma KindIsDecoded(entries: seq<Entry>, data: seq<byte>, base: nat, q: seq<string>, i: nat)
    requires LowerPaths(Blank(entries, base)) && LastReadable(Since(Items(entries, [], data, base), q), q, i)
    ensures Decode(entries, data, base).Some? && At(Decode(entries, data, base).value, q).Some?
    ensures At(Decode(entries, data, base).value, q).value.kind == KindAt(Since(Items(entries, [], data, base), q), q)
  {
    hide Build, KindAt, DescriptionAt, At, Items, Since;
    DecodedAt(entries, data, base, q);
    LastReadableIsKnown(Since(Items(entries, [], data, base), q), q, i);
  }

  /**
   A layout keeps every field on all data and all cuts exactly when, at each path, no
   decodable entry needs less data than the last of them.
   */
  lemma TruncationIsSafe(entries: seq<Entry>, base: nat)
    requires LowerPaths(Blank(entries, base))
    ensures (forall data: seq<byte>, cut: nat, q: seq<string> | cut <= |data| ::
               KeepsField(entries, data, cut, base, q))
       <==> SafeToCut(Blank(entries, base))
  {
    hide KeepsField, LastDecodable, OneBit, Blank, Since, LowerPaths;
    var names := Blank(entries, base);
    if SafeToCut(names) {
      forall data: seq<byte>, cut: nat, q: seq<string> | cut <= |data| ensures KeepsField(entries, data, cut, base, q) {
        TruncationOnlyLoses(entries, data, cut, base, q);
      }
    } else {
      var item :| item in names && !LastNeedsLeast(Since(names, item.path), item.path);
      var q := item.path;
      var kept := Since(names, q);
      var i, j :| 0 <= i < |kept| && 0 <= j < |kept| && LastDecodable(kept, q, j)
        && kept[i].path == q && IsDecodable(kept[i]) && Need(kept[i]) < Need(kept[j]);
      UnsafeLayoutLoses(entries, base, q, i, j);
    }
  }

  /** A field given twice, the second time by later bits. */
  function TwiceGiven(): seq<Entry> {
    [Entry("a.b", 0, 8, ""), Entry("a.b", 8, 8, "")]
  }

  lemma TwiceGivenResolves(current: seq<string>)
    ensures Resolve(current, "a.b") == ["a", "b"] && IsAbsolute("a.b") && Split("a.b")[0] == "a"
    ensures AllLower(["a", "b"]) && IsLower("a")
  {
    hide Split, IsLower;
    SplitPlain("b");
    SplitAtDot("a", "b");
    assert "a" + "." + "b" == "a.b";
    assert ["a", "b"][1..] == ["b"];
    WalkDown(["a"], ["b"]);
    UnchangedIsLower("a");
    UnchangedIsLower("b");
  }

  lemma TwiceGivenItems(data: seq<byte>)
    ensures Items(TwiceGiven(), [], data, 0)
         == [Item(Some("a"), ["a", "b"], "", 0, 8, Fields.Field(data, 0, 8)),
             Item(Some("a"), ["a", "b"], "", 8, 8, Fields.Field(data, 8, 8))]
    ensures Lowercase(Items(TwiceGiven(), [], data, 0))
  {
    hide Split, Resolve, IsAbsolute, Fields.Field, IsLower;
    TwiceGivenResolves([]);
    TwiceGivenResolves(["a", "b"]);
    var first, second := Entry("a.b", 0, 8, ""), Entry("a.b", 8, 8, "");
    assert [first, second][1..] == [second];
    assert [second][1..] == [];
    assert Items([second], ["a", "b"], data, 0) == [ItemOf(second, ["a", "b"], data, 0)];
  }

  lemma ByteField(data: seq<byte>, k: nat)
    ensures Fields.Field(data, 8 * k, 8) == if k < |data| then Some(data[k]) else None
  {
    if k < |data| {
      Bits.LeValueByte(data, k);
    }
  }

  /** Cut after its first byte, such a layout shows a value that the whole data does not. */
  lemma RepeatedPathChanges()
    ensures !KeepsField(TwiceGiven(), [1, 2], 1, 0, ["a", "b"])
    ensures !SafeToCut(Blank(TwiceGiven(), 0))
  {
    hide Build, KindAt, DescriptionAt, At, Items, Fields.Field, KeepsField, SafeToCut, Since;
    var q := ["a", "b"];
    TwiceGivenItems([1, 2]);
    TwiceGivenItems([1]);
    TwiceGivenItems([]);
    ByteField([1, 2], 0);
    ByteField([1, 2], 1);
    ByteField([1], 0);
    ByteField([1], 1);
    assert [1, 2][..1] == [1];
    var less, more := Items(TwiceGiven(), [], [1], 0), Items(TwiceGiven(), [], [1, 2], 0);
    SinceTheStart(less, q);
    SinceTheStart(more, q);
    LastValueWins(less, q, 0);
    LastValueWins(more, q, 1);
    KindIsDecoded(TwiceGiven(), [1], 0, q, 0);
    KindIsDecoded(TwiceGiven(), [1, 2], 0, q, 1);
    FieldsDiffer([1, 2], 1, q);
    TruncationOnlyLoses(TwiceGiven(), [1, 2], 1, 0, q);
  }

  lemma FieldsDiffer(data: seq<byte>, cut: nat, q: seq<string>)
    requires cut <= |data|
    requires var less, more := Decode(TwiceGiven(), data[..cut], 0), Decode(TwiceGiven(), data, 0);
             && less.Some? && At(less.value, q).Some? && At(less.value, q).value.kind == Field(1)
             && more.Some? && At(more.value, q).Some? && At(more.value, q).value.kind == Field(2)
    ensures !KeepsField(TwiceGiven(), data, cut, 0, q)
  {
  }

  // Data behind an offset

  function Behind(data: seq<byte>, base: nat): seq<byte> {
    if base <= |data| then data[base..] else []
  }

  lemma FieldBehind(data: seq<byte>, base: nat, offset: nat, size: nat)
    ensures Fields.Field(data, base * 8 + offset, size) == Fields.Field(Behind(data, base), offset, size)
  {
    if base <= |data| {
      Fields.FieldOfSuffix(data, base, offset, size);
    }
  }

  /** The same items, but for the place of their bits. */
  predicate SameButOffset(a: seq<Item>, b: seq<Item>) {
    |a| == |b| && forall i | 0 <= i < |a| :: a[i].(offset := b[i].offset) == b[i]
  }

  lemma {:induction false} ItemsBehind(entries: seq<Entry>, current: seq<string>, data: seq<byte>, base: nat)
    ensures SameButOffset(Items(entries, current, data, base), Items(entries, current, Behind(data, base), 0))
    decreases |entries|
  {
    hide Fields.Field, Resolve, IsAbsolute, Split, Behind;
    if entries != [] {
      var path := if entries[0].name == "" then current else Resolve(current, entries[0].name);
      FieldBehind(data, base, entries[0].offset, entries[0].size);
      ItemsBehind(entries[1..], path, data, base);
    }
  }

  lemma {:induction false} BuildIgnoresOffsets(a: seq<Item>, b: seq<Item>)
    requires SameButOffset(a, b)
    ensures Build(a) == Build(b)
    decreases |a|
  {
    hide CreateHierarchy, ReplaceAt, At;
    if a != [] {
      BuildIgnoresOffsets(a[..|a| - 1], b[..|b| - 1]);
    }
  }

  /** Decoding at a byte offset is decoding the bytes behind it. */
  lemma DecodeBehind(entries: seq<Entry>, data: seq<byte>, base: nat)
    ensures Decode(entries, data, base) == Decode(entries, Behind(data, base), 0)
  {
    hide Items, Build;
    ItemsBehind(entries, [], data, base);
    BuildIgnoresOffsets(Items(entries, [], data, base), Items(entries, [], Behind(data, base), 0));
  }
}
