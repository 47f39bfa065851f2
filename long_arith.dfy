// Kotlin `Long` arithmetic: 64-bit two's complement, with every wrap-around,
// truncating division and shift-count masking written out.
module Longs {
  const TWO_63: int := 0x8000_0000_0000_0000
  const TWO_64: int := 0x1_0000_0000_0000_0000

  type Long = x: int | -0x8000_0000_0000_0000 <= x < 0x8000_0000_0000_0000

  /** The `Long` congruent to `x` modulo 2^64: what a 64-bit register keeps of `x`. */
  function Wrap(x: int): (r: Long)
    ensures -TWO_63 <= x < TWO_63 ==> r == x
  {
    var m := (x + TWO_63) % TWO_64;
    m - TWO_63
  }

  /** `x` and its wrapped value differ by a multiple of 2^64. */
  lemma WrapDifference(x: int)
    ensures (x - Wrap(x)) % TWO_64 == 0
  {
  }

  /** Values that agree modulo 2^64 wrap to the same `Long`. */
  lemma WrapCongruent(x: int, y: int)
    requires (x - y) % TWO_64 == 0
    ensures Wrap(x) == Wrap(y)
  {
    var k := (x - y) / TWO_64;
    assert x + TWO_63 == (y + TWO_63) + k * TWO_64;
  }

  /** Wrapping an intermediate result first changes nothing about the final `Long`. */
  lemma WrapTimesPlus(a: int, m: int, c: int)
    ensures Wrap(Wrap(a) * m + c) == Wrap(a * m + c)
  {
    var d := (a - Wrap(a)) / TWO_64;
    assert a == Wrap(a) + d * TWO_64;
    assert a * m + c == Wrap(a) * m + c + (d * m) * TWO_64;
    WrapCongruent(a * m + c, Wrap(a) * m + c);
  }

  /** Adding after wrapping or before gives the same `Long`. */
  lemma WrapPlus(x: int, c: int)
    ensures Wrap(Wrap(x) + c) == Wrap(x + c)
  {
    WrapCongruent(Wrap(x) + c, x + c);
  }

  /** The unsigned reading of the same 64 bits. */
  function Unsigned(x: Long): (u: nat)
    ensures u < TWO_64 && (u - x) % TWO_64 == 0
    ensures x >= 0 ==> u == x
  {
    if x < 0 then x + TWO_64 else x
  }

  datatype BitOp = AndBits | OrBits | XorBits

  function CombineBits(op: BitOp, x: bool, y: bool): bool
  {
    match op
    case AndBits => x && y
    case OrBits => x || y
    case XorBits => x != y
  }

  /** `op` applied bit by bit to the low `n` bits of `a` and `b`. */
  function Bitwise(op: BitOp, a: nat, b: nat, n: nat): nat
  {
    if n == 0 then 0
    else (if CombineBits(op, a % 2 == 1, b % 2 == 1) then 1 else 0) + 2 * Bitwise(op, a / 2, b / 2, n - 1)
  }

  function Pow2(n: nat): (r: nat)
    ensures r >= 1
  {
    if n == 0 then 1 else 2 * Pow2(n - 1)
  }

  function Add(a: Long, b: Long): Long { Wrap(a + b) }
  function Sub(a: Long, b: Long): Long { Wrap(a - b) }
  function Mul(a: Long, b: Long): Long { Wrap(a * b) }

  /** Unary minus: negating `Long.MIN_VALUE` gives it back. */
  function Neg(a: Long): Long { Wrap(-(a as int)) }

  /** `inv()`: in two's complement the bitwise complement of `a` is `-a - 1`, which never overflows. */
  function Inv(a: Long): Long { -(a as int) - 1 }

  function And(a: Long, b: Long): Long { Wrap(Bitwise(AndBits, Unsigned(a), Unsigned(b), 64)) }
  function Or(a: Long, b: Long): Long { Wrap(Bitwise(OrBits, Unsigned(a), Unsigned(b), 64)) }
  function Xor(a: Long, b: Long): Long { Wrap(Bitwise(XorBits, Unsigned(a), Unsigned(b), 64)) }

  function Abs(a: int): nat { if a < 0 then -a else a }

  /** The quotient of `/` before the 64-bit wrap: rounded toward zero, as on the JVM. */
  function TruncQuot(a: int, b: int): int
    requires b != 0
  {
    var q := Abs(a) / Abs(b);
    if (a < 0) != (b < 0) then -q else q
  }

  /** `a / b` on `Long`: truncating; only `MIN_VALUE / -1` wraps (back to `MIN_VALUE`). */
  function Quot(a: Long, b: Long): Long
    requires b != 0
  {
    Wrap(TruncQuot(a, b))
  }

  /** `a % b` on `Long`: the remainder of the truncating division, with the sign of `a`. */
  function Rem(a: Long, b: Long): (r: Long)
    requires b != 0
  {
    RemBound(a, b);
    a - b * TruncQuot(a, b)
  }

  lemma RemBound(a: int, b: int)
    requires b != 0
    ensures Abs(a - b * TruncQuot(a, b)) < Abs(b)
    ensures a - b * TruncQuot(a, b) == 0 || ((a - b * TruncQuot(a, b) < 0) <==> (a < 0))
  {
    var q := Abs(a) / Abs(b);
    var m := Abs(a) % Abs(b);
    assert Abs(a) == Abs(b) * q + m;
    if a < 0 && b < 0 {
      assert a - b * TruncQuot(a, b) == -m;
    } else if a < 0 {
      assert a - b * TruncQuot(a, b) == -m;
    } else if b < 0 {
      assert a - b * TruncQuot(a, b) == m;
    } else {
      assert a - b * TruncQuot(a, b) == m;
    }
  }

  /**
   * Quotient and remainder fit together as on the JVM: `(a / b) * b + a % b == a`
   * in 64-bit arithmetic, the remainder is smaller than the divisor and has the
   * sign of the dividend.
   */
  lemma QuotRem(a: Long, b: Long)
    requires b != 0
    ensures Add(Mul(Quot(a, b), b), Rem(a, b)) == a
    ensures Abs(Rem(a, b)) < Abs(b)
    ensures Rem(a, b) == 0 || ((Rem(a, b) < 0) <==> (a < 0))
  {
    RemBound(a, b);
    var q := TruncQuot(a, b);
    WrapTimesPlus(q, b, 0);
    WrapTimesPlus(Wrap(q) * b, 1, Rem(a, b));
    WrapTimesPlus(q * b, 1, Rem(a, b));
    assert q * b + Rem(a, b) == a;
  }

  /** The overflowing division: `Long.MIN_VALUE / -1` is `Long.MIN_VALUE`, and the remainder is 0. */
  lemma QuotOverflow()
    ensures Quot(-TWO_63, -1) == -TWO_63
    ensures Rem(-TWO_63, -1) == 0
  {
  }

  /** The shift distance a JVM `Long` shift uses: the low six bits of the count. */
  function ShiftCount(n: Long): (k: nat)
    ensures k < 64
  {
    n % 64
  }

  /** `a shl n`: bits shifted past bit 63 are lost. */
  function Shl(a: Long, n: Long): Long
  {
    Wrap(a * Pow2(ShiftCount(n)))
  }

  /** `a ushr n`: a logical shift, zeros enter at the top. */
  function Ushr(a: Long, n: Long): Long
  {
    Wrap(Unsigned(a) / Pow2(ShiftCount(n)))
  }

  /** Shifting left by one adds the value to itself, modulo 2^64. */
  lemma ShlDoubles(x: Long)
    ensures Shl(x, 1) == Add(x, x)
  {
    assert ShiftCount(1) == 1;
    assert Pow2(1) == 2;
  }

  /** Reading a wrapped value back as unsigned recovers any value of 64 bits. */
  lemma UnsignedWrap(x: int)
    requires 0 <= x < TWO_64
    ensures Unsigned(Wrap(x)) == x
  {
    if x >= TWO_63 {
      assert Wrap(x) == x - TWO_64 by {
        WrapCongruent(x, x - TWO_64);
      }
    }
  }

  lemma Pow2Byte()
    ensures Pow2(8) == 256
  {
    assert Pow2(4) == 16;
  }

  /** Negation and complement are involutions, and `~a == -a - 1`. */
  lemma NegInvolutive(a: Long)
    ensures Neg(Neg(a)) == a
    ensures Inv(Inv(a)) == a
    ensures Inv(a) == Sub(Neg(a), 1)
  {
    WrapTimesPlus(-(a as int), -1, 0);
    WrapTimesPlus(-(a as int), 1, -1);
  }

  lemma {:induction false} Pow2Add(m: nat, n: nat)
    ensures Pow2(m + n) == Pow2(m) * Pow2(n)
    decreases m
  {
    if m > 0 {
      Pow2Add(m - 1, n);
    }
  }

  lemma Pow2Values()
    ensures Pow2(8) == 256
    ensures Pow2(60) == 0x1000_0000_0000_0000
    ensures Pow2(63) == 0x8000_0000_0000_0000
  {
    assert Pow2(4) == 16;
    Pow2Add(4, 4);
    Pow2Add(8, 8);
    Pow2Add(16, 16);
    Pow2Add(32, 16);
    Pow2Add(48, 8);
    Pow2Add(56, 4);
    Pow2Add(60, 3);
    assert Pow2(3) == 8;
  }

  /** A shift count of 64 or more is taken modulo 64: `1 shl 65 == 2`; `ushr` brings in zeros. */
  lemma ShiftCountMasked()
    ensures Shl(1, 65) == 2
    ensures Shl(1, 63) == -TWO_63
    ensures Ushr(-1, 60) == 15
    ensures Shl(-1, 0) == -1 && Ushr(-1, 64) == -1
  {
    assert ShiftCount(65) == 1 && ShiftCount(63) == 63 && ShiftCount(60) == 60;
    assert ShiftCount(0) == 0 && ShiftCount(64) == 0;
    assert Pow2(1) == 2;
    Pow2Values();
  }
}
