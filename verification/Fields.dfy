/** Bit fields of record data (lib/src/record/decode.rs, `read_field`). */
module Fields {
  import opened Results
  import opened Bytes
  import opened Bits

  /** Whether the field of `size` bits at bit `offset` is decoded. */
  predicate Readable(data: seq<byte>, offset: nat, size: nat) {
    size <= 64 && (size > 0 ==> offset + size <= 8 * |data|)
  }

  /** The field as a number: bits `offset .. offset + size` of the little-endian data. */
  function Field(data: seq<byte>, offset: nat, size: nat): (r: Option<u64>)
  {
    if Readable(data, offset, size) then
      FieldFits(ShiftRight(LeValue(data), offset), size);
      Some(Low(ShiftRight(LeValue(data), offset), size))
    else
      None
  }

  /** A field is decoded exactly when it has at most 64 bits and, if it has any, all of them are there. */
  lemma WhenDecoded(data: seq<byte>, offset: nat, size: nat)
    ensures Field(data, offset, size).Some? <==> size <= 64 && (size == 0 || offset + size <= 8 * |data|)
    ensures size == 0 ==> Field(data, offset, size) == Some(0)
  {
  }

  lemma FieldFits(x: nat, n: nat)
    requires n <= 64
    ensures Low(x, n) < 0x1_0000_0000_0000_0000
  {
    LowBound(x, n);
    Pow2Monotone(n, 64);
    Pow2Values();
  }

  function Min(a: nat, b: nat): nat {
    if a < b then a else b
  }

  /** The bits a chunk contributes, whether the mask or the byte boundary ends them. */
  lemma ChunkMask(data: seq<byte>, at: nat, left: nat)
    requires at / 8 < |data|
    ensures Pow2(Min(left, 8)) >= 1
    ensures BitAnd(ShiftRight(data[at / 8], at % 8), Pow2(Min(left, 8)) - 1)
         == Low(ShiftRight(LeValue(data), at), Min(left, 8 - at % 8))
  {
    var k, b := at / 8, at % 8;
    var piece := ShiftRight(data[k], b);
    var m, take := Min(left, 8), Min(left, 8 - b);
    MaskIsLow(piece, m);
    LeValueByte(data, k);
    ShiftRightTwice(LeValue(data), 8 * k, b);
    FieldInField(ShiftRight(LeValue(data), 8 * k), 8, b, take);
    if take < m {
      ByteShift(data[k], b);
      Pow2Monotone(take, m);
      LowOfSmall(piece, m);
      LowOfSmall(piece, take);
    }
  }

  lemma {:induction false} ShiftedBound(x: nat, n: nat, m: nat)
    requires x < Pow2(n + m)
    ensures ShiftRight(x, n) < Pow2(m)
    decreases n
  {
    if n > 0 {
      ShiftedBound(x / 2, n - 1, m);
    }
  }

  lemma ByteShift(b: byte, n: nat)
    requires n <= 8
    ensures ShiftRight(b, n) < Pow2(8 - n)
  {
    Pow2Values();
    ShiftedBound(b, n, 8 - n);
  }

  /** One turn of the extraction loop appends one chunk to the field read so far. */
  lemma ReadStep(data: seq<byte>, offset: nat, size: nat, bit: nat)
    requires bit < size <= 64
    requires (offset + bit) / 8 < |data|
    ensures Pow2(Min(size - bit, 8)) >= 1
    ensures var x := ShiftRight(LeValue(data), offset);
            var piece := BitAnd(ShiftRight(data[(offset + bit) / 8], (offset + bit) % 8),
                                Pow2(Min(size - bit, 8)) - 1);
            BitOr(Low(x, bit), ShiftLeft(piece, bit)) == Low(x, Min(bit + (8 - (offset + bit) % 8), size))
  {
    var x := ShiftRight(LeValue(data), offset);
    var take := Min(size - bit, 8 - (offset + bit) % 8);
    ChunkMask(data, offset + bit, size - bit);
    ShiftRightTwice(LeValue(data), offset, bit);
    OrAppends(x, bit, take);
  }

  /** The extraction loop, byte chunk by byte chunk. */
  method ReadField(data: seq<byte>, offset: nat, size: nat) returns (r: Option<u64>)
    ensures r == Field(data, offset, size)
  {
    if size > 64 {
      return None;
    }
    ghost var x := ShiftRight(LeValue(data), offset);
    var value: u64 := 0;
    var bit: nat := 0;
    while bit < size
      invariant value == Low(x, Min(bit, size))
      invariant bit > 0 ==> offset + Min(bit, size) <= 8 * |data|
    {
      var chunk := (offset + bit) / 8;
      if chunk >= |data| {
        return None;
      }
      var bitOffset := (offset + bit) % 8;
      ReadStep(data, offset, size, bit);
      FieldFits(x, Min(bit + (8 - bitOffset), size));
      var mask := ShiftLeft(1, Min(size - bit, 8)) - 1;
      value := BitOr(value, ShiftLeft(BitAnd(ShiftRight(data[chunk], bitOffset), mask), bit));
      bit := bit + (8 - bitOffset);
    }
    r := Some(value);
  }

  /** Bit p of the data is bit p % 8 of its byte p / 8. */
  lemma DataBit(data: seq<byte>, p: nat)
    requires p / 8 < |data|
    ensures Bit(LeValue(data), p) <==> Bit(data[p / 8], p % 8)
  {
    var k, b := p / 8, p % 8;
    LeValueByte(data, k);
    hide LeValue;
    BitOfLow(ShiftRight(LeValue(data), 8 * k), 8, b);
    ShiftRightTwice(LeValue(data), 8 * k, b);
  }

  /**
   Bit i of a decoded field is bit offset + i of the data, counted from the lowest bit of
   its first byte, and nothing lies above the field.
   */
  lemma FieldBits(data: seq<byte>, offset: nat, size: nat, i: nat)
    requires Readable(data, offset, size)
    ensures Bit(Field(data, offset, size).value, i) <==> i < size && Bit(LeValue(data), offset + i)
    ensures Bit(Field(data, offset, size).value, i)
       <==> i < size && Bit(data[(offset + i) / 8], (offset + i) % 8)
  {
    BitOfLow(ShiftRight(LeValue(data), offset), size, i);
    ShiftRightTwice(LeValue(data), offset, i);
    if i < size {
      DataBit(data, offset + i);
    }
  }

  /** A field of the data behind its first bytes is the field as far behind their bits. */
  lemma FieldOfSuffix(data: seq<byte>, base: nat, offset: nat, size: nat)
    requires base <= |data|
    ensures Field(data, 8 * base + offset, size) == Field(data[base..], offset, size)
  {
    hide LeValue, ShiftRight, ShiftLeft;
    if size == 0 {
    } else if Readable(data[base..], offset, size) {
      assert data == data[..base] + data[base..];
      LeValueConcat(data[..base], data[base..]);
      LeValueBound(data[..base]);
      ShiftBack(LeValue(data[..base]), LeValue(data[base..]), 8 * base);
      ShiftRightTwice(LeValue(data), 8 * base, offset);
    }
  }

  /** Two adjacent fields concatenate to the field that covers both. */
  lemma AdjacentFields(data: seq<byte>, offset: nat, low: nat, high: nat)
    requires Readable(data, offset, low + high)
    ensures Readable(data, offset, low) && Readable(data, offset + low, high)
    ensures Field(data, offset, low + high).value
         == Field(data, offset, low).value + ShiftLeft(Field(data, offset + low, high).value, low)
  {
    SplitLow(ShiftRight(LeValue(data), offset), low, high);
    ShiftRightTwice(LeValue(data), offset, low);
  }

  /** A field that a prefix of the data still holds has the same value in the whole data. */
  lemma FieldOfPrefix(data: seq<byte>, cut: nat, offset: nat, size: nat)
    requires cut <= |data|
    ensures Field(data[..cut], offset, size).Some?
        ==> Field(data, offset, size) == Field(data[..cut], offset, size)
  {
    if Readable(data[..cut], offset, size) && size > 0 {
      assert data == data[..cut] + data[cut..];
      LeValueConcat(data[..cut], data[cut..]);
      FieldBelow(LeValue(data[..cut]), LeValue(data[cut..]), 8 * cut, offset, size);
    }
  }
}
