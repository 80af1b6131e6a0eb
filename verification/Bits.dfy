/**
 Bit operations of the source on unsigned integers, over the naturals, and the
 arithmetic they amount to. Everything is defined one bit at a time.
 */
module Bits {
  import opened Bytes

  function ShiftRight(x: nat, n: nat): nat
    decreases n, x
  {
    if n == 0 then x else ShiftRight(x / 2, n - 1)
  }

  function ShiftLeft(x: nat, n: nat): nat
    decreases n, x
  {
    if n == 0 then x else 2 * ShiftLeft(x, n - 1)
  }

  function Pow2(n: nat): nat {
    ShiftLeft(1, n)
  }

  /** The n low bits of x. */
  function Low(x: nat, n: nat): nat
    decreases n, x
  {
    if n == 0 then 0 else x % 2 + 2 * Low(x / 2, n - 1)
  }

  /** Bit i of x. */
  predicate Bit(x: nat, i: nat) {
    ShiftRight(x, i) % 2 == 1
  }

  /** Bitwise inclusive or. */
  function BitOr(a: nat, b: nat): nat
    decreases a + b
  {
    if a == 0 && b == 0 then 0
    else (if a % 2 == 1 || b % 2 == 1 then 1 else 0) + 2 * BitOr(a / 2, b / 2)
  }

  /** Bitwise and. */
  function BitAnd(a: nat, b: nat): nat
    decreases a + b
  {
    if a == 0 && b == 0 then 0
    else (if a % 2 == 1 && b % 2 == 1 then 1 else 0) + 2 * BitAnd(a / 2, b / 2)
  }

  // Shifts

  lemma {:induction false} ShiftRightTwice(x: nat, a: nat, b: nat)
    ensures ShiftRight(ShiftRight(x, a), b) == ShiftRight(x, a + b)
    decreases a
  {
    if a > 0 {
      ShiftRightTwice(x / 2, a - 1, b);
    }
  }

  lemma {:induction false} ShiftLeftTwice(x: nat, a: nat, b: nat)
    ensures ShiftLeft(ShiftLeft(x, a), b) == ShiftLeft(x, a + b)
    decreases b
  {
    if b > 0 {
      ShiftLeftTwice(x, a, b - 1);
    }
  }

  lemma {:induction false} ShiftLeftSum(x: nat, y: nat, n: nat)
    ensures ShiftLeft(x + y, n) == ShiftLeft(x, n) + ShiftLeft(y, n)
  {
    if n > 0 {
      ShiftLeftSum(x, y, n - 1);
    }
  }

  lemma {:induction false} Pow2Monotone(a: nat, b: nat)
    requires a <= b
    ensures 1 <= Pow2(a) <= Pow2(b)
    decreases b
  {
    if a < b {
      Pow2Monotone(a, b - 1);
    } else if a > 0 {
      Pow2Monotone(a - 1, a - 1);
    }
  }

  lemma ShiftLeftBy4(x: nat)
    ensures ShiftLeft(x, 4) == 0x10 * x
  {
    assert ShiftLeft(x, 1) == 2 * ShiftLeft(x, 0);
    assert ShiftLeft(x, 2) == 2 * ShiftLeft(x, 1);
    assert ShiftLeft(x, 3) == 2 * ShiftLeft(x, 2);
  }

  lemma ShiftLeftBy8(x: nat)
    ensures ShiftLeft(x, 8) == 0x100 * x
  {
    ShiftLeftTwice(x, 4, 4);
    ShiftLeftBy4(x);
    ShiftLeftBy4(0x10 * x);
  }

  lemma Pow2Values()
    ensures Pow2(8) == 0x100
    ensures Pow2(64) == 0x1_0000_0000_0000_0000
  {
    ShiftLeftBy8(1);
    ShiftLeftTwice(1, 8, 8);
    ShiftLeftBy8(0x100);
    ShiftLeftTwice(1, 16, 8);
    ShiftLeftBy8(0x1_0000);
    ShiftLeftTwice(1, 24, 8);
    ShiftLeftBy8(0x100_0000);
    ShiftLeftTwice(1, 32, 8);
    ShiftLeftBy8(0x1_0000_0000);
    ShiftLeftTwice(1, 40, 8);
    ShiftLeftBy8(0x100_0000_0000);
    ShiftLeftTwice(1, 48, 8);
    ShiftLeftBy8(0x1_0000_0000_0000);
    ShiftLeftTwice(1, 56, 8);
    ShiftLeftBy8(0x100_0000_0000_0000);
  }

  // Low bits

  lemma {:induction false} LowBound(x: nat, n: nat)
    ensures Low(x, n) < Pow2(n)
    decreases n
  {
    if n > 0 {
      LowBound(x / 2, n - 1);
    }
  }

  lemma {:induction false} LowOfSmall(x: nat, n: nat)
    requires x < Pow2(n)
    ensures Low(x, n) == x
    decreases n
  {
    if n > 0 {
      LowOfSmall(x / 2, n - 1);
    }
  }

  /** A field of a + b bits is its low a bits followed by its high b bits. */
  lemma {:induction false} SplitLow(x: nat, a: nat, b: nat)
    ensures Low(x, a + b) == Low(x, a) + ShiftLeft(Low(ShiftRight(x, a), b), a)
    decreases a
  {
    if a > 0 {
      SplitLow(x / 2, a - 1, b);
    }
  }

  /** A field cut out of a field is a field of the number itself. */
  lemma {:induction false} FieldInField(x: nat, n: nat, b: nat, t: nat)
    requires b + t <= n
    ensures Low(ShiftRight(Low(x, n), b), t) == Low(ShiftRight(x, b), t)
    decreases b, t
  {
    if b > 0 {
      assert Low(x, n) / 2 == Low(x / 2, n - 1);
      FieldInField(x / 2, n - 1, b - 1, t);
    } else if t > 0 {
      assert Low(x, n) / 2 == Low(x / 2, n - 1);
      FieldInField(x / 2, n - 1, 0, t - 1);
    }
  }

  /** What lies above bit n does not show in a field that ends by then. */
  lemma {:induction false} FieldBelow(x: nat, y: nat, n: nat, b: nat, t: nat)
    requires b + t <= n
    ensures Low(ShiftRight(x + ShiftLeft(y, n), b), t) == Low(ShiftRight(x, b), t)
    decreases b, t
  {
    if b + t > 0 {
      var h := ShiftLeft(y, n - 1);
      assert (x + 2 * h) / 2 == x / 2 + h && (x + 2 * h) % 2 == x % 2;
      if b > 0 {
        FieldBelow(x / 2, y, n - 1, b - 1, t);
      } else {
        FieldBelow(x / 2, y, n - 1, 0, t - 1);
      }
    }
  }

  /** Dropping the n low bits of a number built above them leaves what was put there. */
  lemma {:induction false} ShiftBack(x: nat, y: nat, n: nat)
    requires x < Pow2(n)
    ensures ShiftRight(x + ShiftLeft(y, n), n) == y
    decreases n
  {
    if n > 0 {
      var h := ShiftLeft(y, n - 1);
      assert (x + 2 * h) / 2 == x / 2 + h;
      ShiftBack(x / 2, y, n - 1);
    }
  }

  /** Bit i of the n low bits is bit i of the number, and the bits above n are clear. */
  lemma {:induction false} BitOfLow(x: nat, n: nat, i: nat)
    ensures Bit(Low(x, n), i) <==> i < n && Bit(x, i)
    decreases i
  {
    if n == 0 {
      ShiftRightZero(i);
    } else if i > 0 {
      assert Low(x, n) / 2 == Low(x / 2, n - 1);
      assert ShiftRight(Low(x, n), i) == ShiftRight(Low(x / 2, n - 1), i - 1);
      assert ShiftRight(x, i) == ShiftRight(x / 2, i - 1);
      hide ShiftRight, Low;
      BitOfLow(x / 2, n - 1, i - 1);
    }
  }

  lemma {:induction false} ShiftRightZero(i: nat)
    ensures ShiftRight(0, i) == 0
  {
    if i > 0 {
      ShiftRightZero(i - 1);
    }
  }

  // Masks and disjoint or

  lemma {:induction false} AndZero(x: nat)
    ensures BitAnd(x, 0) == 0
  {
    if x > 0 {
      AndZero(x / 2);
    }
  }

  lemma {:induction false} OrZero(x: nat)
    ensures BitOr(0, x) == x
    ensures BitOr(x, 0) == x
  {
    if x > 0 {
      OrZero(x / 2);
    }
  }

  /** Masking with n ones keeps the n low bits. */
  lemma {:induction false} MaskIsLow(x: nat, n: nat)
    ensures Pow2(n) >= 1
    ensures BitAnd(x, Pow2(n) - 1) == Low(x, n)
    decreases n
  {
    if n == 0 {
      AndZero(x);
    } else {
      MaskIsLow(x / 2, n - 1);
      var m := Pow2(n - 1);
      assert (2 * m - 1) / 2 == m - 1 && (2 * m - 1) % 2 == 1;
    }
  }

  lemma OrEven(low: nat, half: nat)
    ensures BitOr(low, 2 * half) == low % 2 + 2 * BitOr(low / 2, half)
    ensures BitOr(2 * half, low) == low % 2 + 2 * BitOr(half, low / 2)
  {
    var even := 2 * half;
    assert even / 2 == half && even % 2 == 0;
    if low == 0 {
      OrZero(half);
      OrZero(even);
    }
  }

  /** Or with bits shifted above a smaller number is addition. */
  lemma {:induction false} OrIsAdd(low: nat, high: nat, n: nat)
    requires low < Pow2(n)
    ensures BitOr(low, ShiftLeft(high, n)) == low + ShiftLeft(high, n)
    ensures BitOr(ShiftLeft(high, n), low) == low + ShiftLeft(high, n)
    decreases n
  {
    if n == 0 {
      OrZero(high);
    } else {
      OrEven(low, ShiftLeft(high, n - 1));
      OrIsAdd(low / 2, high, n - 1);
    }
  }

  /** Or appends the next bits of a number to its low bits. */
  lemma OrAppends(x: nat, n: nat, take: nat)
    ensures BitOr(Low(x, n), ShiftLeft(Low(ShiftRight(x, n), take), n)) == Low(x, n + take)
  {
    SplitLow(x, n, take);
    LowBound(x, n);
    OrIsAdd(Low(x, n), Low(ShiftRight(x, n), take), n);
  }

  /** Packing a k-bit field under a number, both shifted by n. */
  lemma OrPack(high: nat, field: nat, n: nat, k: nat)
    requires field < Pow2(k)
    ensures BitOr(ShiftLeft(high, k + n), ShiftLeft(field, n)) == ShiftLeft(ShiftLeft(high, k) + field, n)
  {
    ShiftLeftTwice(high, k, n);
    ShiftLeftSum(ShiftLeft(high, k), field, n);
    ShiftLeftTwice(1, k, n);
    ShiftBelow(field, Pow2(k), n);
    OrIsAdd(ShiftLeft(field, n), high, k + n);
  }

  lemma {:induction false} ShiftBelow(x: nat, y: nat, n: nat)
    requires x < y
    ensures ShiftLeft(x, n) < ShiftLeft(y, n)
  {
    if n > 0 {
      ShiftBelow(x, y, n - 1);
    }
  }

  // Little-endian data of any length

  /** The number a byte string denotes, first byte least significant. */
  function LeValue(s: seq<byte>): nat {
    if s == [] then 0 else s[0] as int + 0x100 * LeValue(s[1..])
  }

  lemma {:induction false} LeValueConcat(s: seq<byte>, t: seq<byte>)
    ensures LeValue(s + t) == LeValue(s) + ShiftLeft(LeValue(t), 8 * |s|)
    decreases |s|
  {
    if s == [] {
      assert s + t == t;
    } else {
      assert (s + t)[1..] == s[1..] + t;
      LeValueConcat(s[1..], t);
      ShiftLeftTwice(LeValue(t), 8 * |s[1..]|, 8);
      ShiftLeftBy8(ShiftLeft(LeValue(t), 8 * |s[1..]|));
    }
  }

  lemma {:induction false} LeValueBound(s: seq<byte>)
    ensures LeValue(s) < Pow2(8 * |s|)
    decreases |s|
  {
    if s != [] {
      LeValueBound(s[1..]);
      ShiftLeftTwice(1, 8 * |s[1..]|, 8);
      ShiftLeftBy8(Pow2(8 * |s[1..]|));
    }
  }

  lemma FirstByte(s: seq<byte>)
    requires s != []
    ensures Low(LeValue(s), 8) == s[0]
  {
    var rest := LeValue(s[1..]);
    ShiftLeftBy8(rest);
    FieldBelow(s[0], rest, 8, 0, 8);
    Pow2Values();
    LowOfSmall(s[0], 8);
  }

  /** Byte k of the data sits at bit 8k of its value. */
  lemma LeValueByte(s: seq<byte>, k: nat)
    requires k < |s|
    ensures Low(ShiftRight(LeValue(s), 8 * k), 8) == s[k]
  {
    assert s == s[..k] + s[k..];
    LeValueConcat(s[..k], s[k..]);
    LeValueBound(s[..k]);
    ShiftBack(LeValue(s[..k]), LeValue(s[k..]), 8 * k);
    FirstByte(s[k..]);
  }

  lemma LeValue32(s: seq<byte>)
    requires |s| == 4
    ensures LeValue(s) == Le32(s)
  {
    assert LeValue(s[1..]) == s[1] as int + 0x100 * LeValue(s[1..][1..]);
    assert s[1..][1..] == s[2..];
    assert s[2..][1..] == s[3..];
    assert LeValue(s[3..]) == s[3] as int;
  }

  lemma {:induction false} LeValueZeros(n: nat)
    ensures LeValue(Zeros(n)) == 0
  {
    if n > 0 {
      assert Zeros(n)[1..] == Zeros(n - 1);
      LeValueZeros(n - 1);
    }
  }

  lemma LeValueOne(b: byte)
    ensures LeValue([b]) == b
  {
    assert [b][1..] == [];
  }

  lemma {:induction false} LowZero(n: nat)
    ensures Low(0, n) == 0
    decreases n
  {
    if n > 0 {
      LowZero(n - 1);
    }
  }

  lemma Pow2Below(n: nat)
    requires n < 8
    ensures Pow2(n) < 0x100
  {
    hide ShiftLeft;
    Pow2Values();
    Pow2Monotone(n + 1, 8);
    assert Pow2(n + 1) == 2 * Pow2(n) by {
      ShiftLeftTwice(1, n, 1);
      DoubleOnce(Pow2(n));
    }
    Pow2Monotone(0, n);
  }

  lemma DoubleOnce(x: nat)
    ensures ShiftLeft(x, 1) == 2 * x
  {
    assert ShiftLeft(x, 0) == x;
  }

  /** A power of two has its own bit set. */
  lemma TopBitOfPow2(n: nat)
    ensures Bit(Pow2(n), n)
  {
    Pow2Monotone(0, n);
    ShiftBack(0, 1, n);
  }
}
