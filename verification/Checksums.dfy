/** Payload and additive checksum of a record (lib/src/record.rs). */
module Checksums {
  import opened Results
  import opened Bytes
  import opened Headers
  import opened Regions

  /** The bytes between the header and the checksum; none when they do not leave room for any. */
  function Payload(record: Record): seq<byte> {
    var reserved := if record.header.version.cldic then 4 else 0;
    var end := if |record.data| < reserved then 0 else |record.data| - reserved;
    var payload := Get(record.data, record.header.HeaderSize(), end);
    if payload.Some? then payload.value else []
  }

  /** The data in pieces of four bytes; the last one may be shorter. */
  function Chunks(data: seq<byte>): seq<seq<byte>> {
    if data == [] then []
    else if |data| <= 4 then [data]
    else [data[..4]] + Chunks(data[4..])
  }

  /** A piece that is no whole dword counts for nothing. */
  function Dword(chunk: seq<byte>): u32 {
    if |chunk| == 4 then Le32(chunk) else 0
  }

  function WrappingAdd(a: u32, b: u32): u32 {
    (a as int + b as int) % 0x1_0000_0000
  }

  function Fold(acc: u32, chunks: seq<seq<byte>>): u32
    decreases |chunks|
  {
    if chunks == [] then acc else Fold(WrappingAdd(acc, Dword(chunks[0])), chunks[1..])
  }

  function Sum(data: seq<byte>): u32 {
    Fold(0, Chunks(data))
  }

  /** Whether the record adds up to zero; nothing when it carries no checksum. */
  function Checksum(record: Record): Option<bool> {
    if record.header.version.cldic then Some(Sum(record.data) == 0) else None
  }

  // The sum without wrap-around

  function Total(data: seq<byte>): nat {
    if |data| < 4 then 0 else Le32(data[..4]) as int + Total(data[4..])
  }

  lemma Wraps(a: nat, b: nat)
    ensures (a % 0x1_0000_0000 + b) % 0x1_0000_0000 == (a + b) % 0x1_0000_0000
  {
  }

  lemma {:induction false} FoldIsTotal(acc: u32, data: seq<byte>)
    ensures Fold(acc, Chunks(data)) == (acc as int + Total(data)) % 0x1_0000_0000
    decreases |data|
  {
    if data == [] {
    } else if |data| <= 4 {
      assert Fold(acc, [data]) == WrappingAdd(acc, Dword(data)) by {
        assert [data][1..] == [];
      }
      if |data| == 4 {
        assert data[..4] == data;
      }
    } else {
      var next := WrappingAdd(acc, Dword(data[..4]));
      assert Chunks(data)[1..] == Chunks(data[4..]);
      FoldIsTotal(next, data[4..]);
      Wraps(acc as int + Le32(data[..4]) as int, Total(data[4..]));
    }
  }

  /** The checksum is the sum of the whole dwords, wrapped to 32 bits. */
  lemma SumIsTotal(data: seq<byte>)
    ensures Sum(data) == Total(data) % 0x1_0000_0000
  {
    FoldIsTotal(0, data);
  }

  lemma {:induction false} TotalAppends(a: seq<byte>, b: seq<byte>)
    requires |a| % 4 == 0
    ensures Total(a + b) == Total(a) + Total(b)
    decreases |a|
  {
    if a == [] {
      assert a + b == b;
    } else {
      assert (a + b)[..4] == a[..4] && (a + b)[4..] == a[4..] + b;
      TotalAppends(a[4..], b);
    }
  }

  /** The checksum is additive over concatenation at a dword boundary. */
  lemma SumIsAdditive(a: seq<byte>, b: seq<byte>)
    requires |a| % 4 == 0
    ensures Sum(a + b) == WrappingAdd(Sum(a), Sum(b))
  {
    hide Sum, Total;
    TotalAppends(a, b);
    SumIsTotal(a);
    SumIsTotal(b);
    SumIsTotal(a + b);
    Wraps(Total(a), Total(b) % 0x1_0000_0000);
    Wraps(Total(b), Total(a));
  }

  lemma OneDword(dword: u32)
    ensures Sum(ToLe32(dword)) == dword
  {
    Le32RoundTrip(dword);
    assert ToLe32(dword)[..4] == ToLe32(dword);
    assert Total(ToLe32(dword)[4..]) == 0;
    SumIsTotal(ToLe32(dword));
  }

  /** Aligned data is completed to a valid record by one dword, and by no other. */
  lemma OneDwordCompletes(header: Header, data: seq<byte>, dword: u32)
    requires header.version.cldic && |data| % 4 == 0
    ensures Checksum(Record(header, data + ToLe32(dword), None)) == Some(true)
       <==> dword == (0x1_0000_0000 - Sum(data) as int) % 0x1_0000_0000
  {
    hide Sum, ToLe32;
    SumIsAdditive(data, ToLe32(dword));
    OneDword(dword);
  }

  lemma SumOfDword(s: seq<byte>)
    requires |s| == 4
    ensures Sum(s) == Le32(s)
  {
    SumIsTotal(s);
    assert s[..4] == s;
    assert Total(s[4..]) == 0;
  }

  lemma CancelAdd(a: u32, b: u32, x: u32, y: u32)
    ensures WrappingAdd(a, WrappingAdd(x, b)) == WrappingAdd(a, WrappingAdd(y, b)) <==> x == y
  {
  }

  /** Changing exactly one whole dword of a valid record always makes it fail. */
  lemma OneChangeFails(header: Header, head: seq<byte>, dword: seq<byte>, tail: seq<byte>, changed: seq<byte>)
    requires |head| % 4 == 0 && |dword| == |changed| == 4 && dword != changed
    requires Checksum(Record(header, head + (dword + tail), None)) == Some(true)
    ensures Checksum(Record(header, head + (changed + tail), None)) == Some(false)
  {
    hide Sum, Le32;
    SumIsAdditive(head, dword + tail);
    SumIsAdditive(dword, tail);
    SumIsAdditive(head, changed + tail);
    SumIsAdditive(changed, tail);
    SumOfDword(dword);
    SumOfDword(changed);
    CancelAdd(Sum(head), Sum(tail), Sum(dword), Sum(changed));
    if Sum(dword) == Sum(changed) {
      Le32IsInjective(dword, changed);
    }
  }

  /** Bytes after the last whole dword are not checked at all. */
  lemma TrailingBytesAreIgnored(head: seq<byte>, tail: seq<byte>)
    requires |head| % 4 == 0 && |tail| < 4
    ensures Sum(head + tail) == Sum(head)
  {
    TotalAppends(head, tail);
    SumIsTotal(head);
    SumIsTotal(head + tail);
  }

  /** The dword around a byte, and the change of the byte inside it. */
  lemma DwordAround(data: seq<byte>, at: nat, i: nat, b: byte)
    requires at <= i < at + 4 <= |data|
    ensures data == data[..at] + (data[at..at + 4] + data[at + 4..])
    ensures data[i := b] == data[..at] + (data[at..at + 4][i - at := b] + data[at + 4..])
  {
  }

  lemma TailAround(data: seq<byte>, at: nat, i: nat, b: byte)
    requires at <= i < |data|
    ensures data == data[..at] + data[at..]
    ensures data[i := b] == data[..at] + data[at..][i - at := b]
  {
  }

  lemma ChangeInDword(header: Header, data: seq<byte>, at: nat, i: nat, b: byte)
    requires Checksum(Record(header, data, None)) == Some(true)
    requires at % 4 == 0 && at <= i < at + 4 <= |data| && b != data[i]
    ensures Checksum(Record(header, data[i := b], None)) == Some(false)
  {
    DwordAround(data, at, i, b);
    var dword := data[at..at + 4];
    var changed := dword[i - at := b];
    assert changed[i - at] != dword[i - at];
    hide *;
    OneChangeFails(header, data[..at], dword, data[at + 4..], changed);
  }

  lemma ChangeInTail(data: seq<byte>, at: nat, i: nat, b: byte)
    requires at % 4 == 0 && at <= i < |data| < at + 4
    ensures Sum(data[i := b]) == Sum(data)
  {
    hide Sum;
    TailAround(data, at, i, b);
    TrailingBytesAreIgnored(data[..at], data[at..]);
    TrailingBytesAreIgnored(data[..at], data[at..][i - at := b]);
  }

  lemma Multiple(i: nat)
    ensures (i - i % 4) % 4 == 0 && i - i % 4 <= i < i - i % 4 + 4
    ensures forall n: nat | i < n - n % 4 :: i - i % 4 + 4 <= n - n % 4
  {
  }

  /** Of all changes to one byte of a valid record, just those after the last whole dword go unnoticed. */
  lemma OneByteIsNoticed(header: Header, data: seq<byte>, i: nat, b: byte)
    requires Checksum(Record(header, data, None)) == Some(true)
    requires i < |data| && b != data[i]
    ensures Checksum(Record(header, data[i := b], None)) == Some(true) <==> i >= |data| - |data| % 4
  {
    hide Sum;
    Multiple(i);
    Multiple(|data|);
    if i < |data| - |data| % 4 {
      ChangeInDword(header, data, i - i % 4, i, b);
    } else {
      ChangeInTail(data, |data| - |data| % 4, i, b);
    }
  }

  /** Header, payload and checksum tile a record that has room for all three. */
  lemma PayloadTiles(record: Record)
    requires record.header.version.cldic && record.header.HeaderSize() + 4 <= |record.data|
    ensures record.data
         == record.data[..record.header.HeaderSize()] + Payload(record) + record.data[|record.data| - 4..]
  {
  }

  /** A record that carries no checksum has everything behind its header for payload. */
  lemma PayloadWithoutChecksum(record: Record)
    requires !record.header.version.cldic && record.header.HeaderSize() <= |record.data|
    ensures Payload(record) == record.data[record.header.HeaderSize()..]
    ensures Checksum(record) == None
  {
  }

  /** The verdict on a record with a checksum: its whole dwords, added up, are a multiple of 2^32. */
  lemma ChecksumIsTotal(record: Record)
    requires record.header.version.cldic
    ensures Checksum(record) == Some(Total(record.data) % 0x1_0000_0000 == 0)
  {
    SumIsTotal(record.data);
  }

  /** A record too short for its header and its checksum has no payload. */
  lemma ShortRecordHasNoPayload(record: Record)
    requires |record.data| < record.header.HeaderSize() + if record.header.version.cldic then 4 else 0
    ensures Payload(record) == []
  {
  }
}
