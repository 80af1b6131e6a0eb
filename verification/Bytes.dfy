/** Bytes, machine integers and little-endian fields. */
module Bytes {
  import opened Results

  type byte = b: int | 0 <= b < 0x100
  type u16 = n: int | 0 <= n < 0x1_0000
  type u32 = n: int | 0 <= n < 0x1_0000_0000
  type u64 = n: int | 0 <= n < 0x1_0000_0000_0000_0000

  /** A GUID is kept as its sixteen bytes. */
  type Guid = g: seq<byte> | |g| == 16 witness Zeros(16)

  function Zeros(n: nat): (s: seq<byte>)
    ensures |s| == n
  {
    seq(n, _ => 0)
  }

  /** The checked slicing of the source: nothing when the range leaves the slice. */
  function Get(s: seq<byte>, from: nat, to: nat): (r: Option<seq<byte>>)
  {
    if from <= to <= |s| then Some(s[from..to]) else None
  }

  function GetFrom(s: seq<byte>, from: nat): (r: Option<seq<byte>>)
  {
    if from <= |s| then Some(s[from..]) else None
  }

  function ByteAt(s: seq<byte>, at: nat): (r: Option<byte>)
  {
    if at < |s| then Some(s[at]) else None
  }

  predicate StartsWith(s: seq<byte>, prefix: seq<byte>) {
    |prefix| <= |s| && s[..|prefix|] == prefix
  }

  // Little-endian integers of a fixed width

  function Le16(s: seq<byte>): u16
    requires |s| == 2
  {
    s[0] as int + 0x100 * s[1] as int
  }

  function Le32(s: seq<byte>): u32
    requires |s| == 4
  {
    s[0] as int + 0x100 * s[1] as int + 0x1_0000 * s[2] as int + 0x100_0000 * s[3] as int
  }

  function Le64(s: seq<byte>): u64
    requires |s| == 8
  {
    Le32(s[..4]) as int + 0x1_0000_0000 * Le32(s[4..]) as int
  }

  function ToLe16(n: u16): (s: seq<byte>)
    ensures |s| == 2
  {
    [n % 0x100, n / 0x100]
  }

  function ToLe32(n: u32): (s: seq<byte>)
    ensures |s| == 4
  {
    [n % 0x100, n / 0x100 % 0x100, n / 0x1_0000 % 0x100, n / 0x100_0000]
  }

  function ToLe64(n: u64): (s: seq<byte>)
    ensures |s| == 8
  {
    ToLe32(n % 0x1_0000_0000) + ToLe32(n / 0x1_0000_0000)
  }

  /** The narrowing conversion to 32 bits. */
  function AsU32(n: nat): u32 {
    n % 0x1_0000_0000
  }

  /** The narrowing conversion to 16 bits. */
  function AsU16(n: nat): u16 {
    n % 0x1_0000
  }

  function U16At(s: seq<byte>, at: nat): (r: Option<u16>)
  {
    var field :- Get(s, at, at + 2);
    Some(Le16(field))
  }

  function U32At(s: seq<byte>, at: nat): (r: Option<u32>)
  {
    var field :- Get(s, at, at + 4);
    Some(Le32(field))
  }

  function U64At(s: seq<byte>, at: nat): (r: Option<u64>)
  {
    var field :- Get(s, at, at + 8);
    Some(Le64(field))
  }

  function GuidAt(s: seq<byte>, at: nat): (r: Option<Guid>)
  {
    var field :- Get(s, at, at + 16);
    Some(field)
  }

  lemma Le16RoundTrip(n: u16)
    ensures Le16(ToLe16(n)) == n
  {
  }

  lemma Le32RoundTrip(n: u32)
    ensures Le32(ToLe32(n)) == n
  {
    var low, high := n % 0x1_0000, n / 0x1_0000;
    assert n % 0x100 == low % 0x100 && n / 0x100 % 0x100 == low / 0x100;
    assert n / 0x100_0000 == high / 0x100;
    Halves(low);
    Halves(high);
  }

  lemma Halves(n: u16)
    ensures n == n % 0x100 + 0x100 * (n / 0x100)
  {
  }

  lemma LowByte(a: byte, high: nat, b: byte, top: nat)
    requires a as int + 0x100 * high == b as int + 0x100 * top
    ensures a == b && high == top
  {
  }

  lemma Le32IsInjective(s: seq<byte>, t: seq<byte>)
    requires |s| == |t| == 4 && Le32(s) == Le32(t)
    ensures s == t
  {
    LowByte(s[0], s[1] as int + 0x100 * (s[2] as int + 0x100 * s[3] as int),
            t[0], t[1] as int + 0x100 * (t[2] as int + 0x100 * t[3] as int));
    LowByte(s[1], s[2] as int + 0x100 * s[3] as int, t[1], t[2] as int + 0x100 * t[3] as int);
    LowByte(s[2], s[3], t[2], t[3]);
  }

  lemma Le64RoundTrip(n: u64)
    ensures Le64(ToLe64(n)) == n
  {
    Le32RoundTrip(n % 0x1_0000_0000);
    Le32RoundTrip(n / 0x1_0000_0000);
    assert ToLe64(n)[..4] == ToLe32(n % 0x1_0000_0000);
    assert ToLe64(n)[4..] == ToLe32(n / 0x1_0000_0000);
  }

  /** Reading inside the first part of a concatenation does not see the second. */
  lemma GetBefore(head: seq<byte>, tail: seq<byte>, from: nat, to: nat)
    requires from <= to <= |head|
    ensures Get(head + tail, from, to) == Some(head[from..to])
  {
    assert (head + tail)[from..to] == head[from..to];
  }
}
