/** Unsigned C integer arithmetic on Dafny's unbounded integers: the fixed-width
    types, shifts, bitwise `|` and `&`, conversions that wrap, and bit-fields
    allocated from the least significant bit.

    Shifts and low-bit masks are defined by recursion on the shift distance, one
    bit per step, so that the proofs about `|` and `&` are inductions in linear
    arithmetic; separate lemmas connect them to multiplication, division and
    remainder by powers of two. */
module Bits {

  type byte = x: int | 0 <= x < 0x100
  type uint16 = x: int | 0 <= x < 0x1_0000
  type uint32 = x: int | 0 <= x < 0x1_0000_0000

  function Pow2(n: nat): (r: nat)
    ensures r >= 1
  {
    if n == 0 then 1 else 2 * Pow2(n - 1)
  }

  /** The powers of two the EDID fields use, one unfolding at a time. */
  lemma Pow2Values()
    ensures Pow2(1) == 2 && Pow2(2) == 4 && Pow2(3) == 8 && Pow2(4) == 16
    ensures Pow2(5) == 32 && Pow2(6) == 64 && Pow2(8) == 256 && Pow2(10) == 1024
    ensures Pow2(13) == 8192 && Pow2(16) == 0x1_0000
  {
    assert Pow2(1) == 2;
    assert Pow2(2) == 4;
    assert Pow2(3) == 8;
    assert Pow2(4) == 16;
    assert Pow2(5) == 32;
    assert Pow2(6) == 64;
    assert Pow2(7) == 128;
    assert Pow2(8) == 256;
    assert Pow2(9) == 512;
    assert Pow2(10) == 1024;
    assert Pow2(11) == 2048;
    assert Pow2(12) == 4096;
    assert Pow2(13) == 8192;
    assert Pow2(14) == 16384;
    assert Pow2(15) == 32768;
    assert Pow2(16) == 0x1_0000;
  }

  /** `x << n` for a value that does not overflow its type. */
  function Shl(x: nat, n: nat): nat {
    if n == 0 then x else 2 * Shl(x, n - 1)
  }

  /** `x >> n` for an unsigned value. */
  function Shr(x: nat, n: nat): nat {
    if n == 0 then x else Shr(x / 2, n - 1)
  }

  /** The n least significant bits of x, `x & ((1 << n) - 1)`. */
  function Low(x: nat, n: nat): nat {
    if n == 0 then 0 else 2 * Low(x / 2, n - 1) + x % 2
  }

  /** Bitwise `a | b`, one bit at a time from the least significant. */
  function Or(a: nat, b: nat): nat
    decreases a + b
  {
    if a == 0 then b
    else if b == 0 then a
    else 2 * Or(a / 2, b / 2) + (if a % 2 == 1 || b % 2 == 1 then 1 else 0)
  }

  /** Bitwise `a & b`, one bit at a time from the least significant. */
  function And(a: nat, b: nat): nat
    decreases a + b
  {
    if a == 0 || b == 0 then 0
    else 2 * And(a / 2, b / 2) + (if a % 2 == 1 && b % 2 == 1 then 1 else 0)
  }

  /** Conversion of an int to `uint8_t`, `uint16_t` and `uint32_t`: reduction modulo 2^n. */
  function ToUint8(x: int): byte {
    x % 0x100
  }

  function ToUint16(x: int): uint16 {
    x % 0x1_0000
  }

  function ToUint32(x: int): uint32 {
    x % 0x1_0000_0000
  }

  /** A value that fits its type converts to itself. */
  lemma ConversionsKeepSmall(x: int)
    requires 0 <= x
    ensures x < 0x100 ==> ToUint8(x) == x
    ensures x < 0x1_0000 ==> ToUint16(x) == x
    ensures x < 0x1_0000_0000 ==> ToUint32(x) == x
  {
    if x < 0x100 {
      DivModUnique(x, 0x100, 0, x);
    }
    if x < 0x1_0000 {
      DivModUnique(x, 0x1_0000, 0, x);
    }
    if x < 0x1_0000_0000 {
      DivModUnique(x, 0x1_0000_0000, 0, x);
    }
  }

  /** Bits pos .. pos + width - 1 of x: an unsigned bit-field of `width` bits
      allocated at bit `pos`, bit 0 being the least significant. */
  function BitField(x: nat, pos: nat, width: nat): nat {
    Low(Shr(x, pos), width)
  }

  // ---- one-bit steps of | and &, for every operand ----

  lemma OrEven(a: nat, b: nat)
    ensures Or(2 * a, b) == 2 * Or(a, b / 2) + b % 2
  {
    if a != 0 && b != 0 {
      assert (2 * a) / 2 == a && (2 * a) % 2 == 0;
    }
  }

  lemma AndEven(x: nat, m: nat)
    ensures And(x, 2 * m) == 2 * And(x / 2, m)
  {
    if x != 0 && m != 0 {
      assert (2 * m) / 2 == m && (2 * m) % 2 == 0;
    }
  }

  lemma AndOdd(x: nat, m: nat)
    ensures And(x, 2 * m + 1) == 2 * And(x / 2, m) + x % 2
  {
    if x != 0 {
      assert (2 * m + 1) / 2 == m && (2 * m + 1) % 2 == 1;
    }
  }

  // ---- shifts and low bits ----

  /** Shifting right then left by k clears the k low bits, which Low keeps. */
  lemma {:induction false} ShlShrLow(b: nat, k: nat)
    ensures Shl(Shr(b, k), k) + Low(b, k) == b
  {
    if k > 0 {
      ShlShrLow(b / 2, k - 1);
      ShlShrStep(b, k);
    }
  }

  lemma {:induction false} ShlShrStep(b: nat, k: nat)
    requires k > 0
    ensures Shl(Shr(b, k), k) == 2 * Shl(Shr(b / 2, k - 1), k - 1)
  {
  }

  lemma {:induction false} ShrShl(y: nat, s: nat)
    ensures Shr(Shl(y, s), s) == y
  {
    if s > 0 {
      ShrShl(y, s - 1);
      ShrOfDouble(Shl(y, s - 1), s - 1);
    }
  }

  lemma {:induction false} ShrOfDouble(z: nat, s: nat)
    ensures Shr(2 * z, s + 1) == Shr(z, s)
  {
    assert (2 * z) / 2 == z;
  }

  lemma {:induction false} LowBound(x: nat, n: nat)
    ensures Low(x, n) < Pow2(n)
  {
    if n > 0 {
      LowBound(x / 2, n - 1);
    }
  }

  /** A value below 2^k has no bits at or above k. */
  lemma {:induction false} BelowPow2(x: nat, k: nat)
    requires x < Pow2(k)
    ensures Shr(x, k) == 0 && Low(x, k) == x
  {
    if k > 0 {
      BelowPow2(x / 2, k - 1);
    }
  }

  lemma {:induction false} ShlIsMul(x: nat, n: nat)
    ensures Shl(x, n) == x * Pow2(n)
  {
    if n > 0 {
      var p := Pow2(n - 1);
      ShlIsMul(x, n - 1);
      assert Shl(x, n) == 2 * Shl(x, n - 1) && Pow2(n) == 2 * p;
      assert x * (2 * p) == x * p + x * p;
    }
  }

  lemma MulAtLeast(a: int, d: int)
    requires a >= 1 && d > 0
    ensures a * d >= d
  {
  }

  /** Quotient and remainder are determined by the division identity. */
  lemma DivModUnique(b: int, d: int, q: int, r: int)
    requires d > 0 && 0 <= r < d && b == q * d + r
    ensures b / d == q && b % d == r
  {
    var q', r' := b / d, b % d;
    assert b == q' * d + r';
    if q' > q {
      assert (q' - q) * d == r - r';
      MulAtLeast(q' - q, d);
    } else if q' < q {
      assert (q - q') * d == r' - r;
      MulAtLeast(q - q', d);
    }
  }

  /** A positive product with a positive factor has a positive other factor. */
  lemma PositiveFactor(k: int, d: int)
    requires d > 0 && k * d > 0
    ensures k > 0
  {
  }

  /** A value below k * d has a quotient by d below k. */
  lemma QuotientBound(x: nat, d: nat, k: nat)
    requires d > 0 && x < k * d
    ensures x / d < k
  {
    assert (x / d) * d <= x;
    assert (k - x / d) * d > 0;
    PositiveFactor(k - x / d, d);
  }

  /** `x >> n` and `x & ((1 << n) - 1)` are quotient and remainder by 2^n. */
  lemma ShrLowAreDivMod(x: nat, n: nat)
    ensures Shr(x, n) == x / Pow2(n) && Low(x, n) == x % Pow2(n)
  {
    ShlShrLow(x, n);
    LowBound(x, n);
    ShlIsMul(Shr(x, n), n);
    DivModUnique(x, Pow2(n), Shr(x, n), Low(x, n));
  }

  /** The bit-field at pos of width w, in terms of division and remainder. */
  lemma BitFieldValue(x: nat, pos: nat, w: nat)
    ensures BitField(x, pos, w) == (x / Pow2(pos)) % Pow2(w)
    ensures BitField(x, pos, w) < Pow2(w)
  {
    ShrLowAreDivMod(x, pos);
    ShrLowAreDivMod(Shr(x, pos), w);
  }

  // ---- | and & with shifted operands ----

  /** OR-ing a value shifted left by k with b keeps the low k bits of b and
      ORs the rest of b into the shifted value. */
  lemma {:induction false} OrShifted(a: nat, k: nat, b: nat)
    ensures Or(Shl(a, k), b) == Shl(Or(a, Shr(b, k)), k) + Low(b, k)
  {
    if k > 0 {
      OrShifted(a, k - 1, b / 2);
      OrEven(Shl(a, k - 1), b);
    }
  }

  /** When b fits below bit k, `(a << k) | b` is the sum `a * 2^k + b`. */
  lemma OrDisjoint(a: nat, k: nat, b: nat)
    requires b < Pow2(k)
    ensures Or(Shl(a, k), b) == a * Pow2(k) + b
  {
    OrShifted(a, k, b);
    BelowPow2(b, k);
    ShlIsMul(a, k);
  }

  /** OR never leaves the width both operands fit in. */
  lemma {:induction false} OrBound(a: nat, b: nat, n: nat)
    requires a < Pow2(n) && b < Pow2(n)
    ensures Or(a, b) < Pow2(n)
  {
    if a != 0 && b != 0 {
      assert n > 0;
      OrBound(a / 2, b / 2, n - 1);
    }
  }

  /** OR keeps every bit of its second operand, so it is never smaller. */
  lemma {:induction false} OrAtLeast(a: nat, b: nat)
    ensures Or(a, b) >= b
    decreases a + b
  {
    if a != 0 && b != 0 {
      OrAtLeast(a / 2, b / 2);
    }
  }

  lemma {:induction false} OrCommutes(a: nat, b: nat)
    ensures Or(a, b) == Or(b, a)
    decreases a + b
  {
    if a != 0 && b != 0 {
      OrCommutes(a / 2, b / 2);
    }
  }

  /** AND with a mask of w low one-bits keeps the w low bits. */
  lemma {:induction false} AndLowMask(x: nat, w: nat)
    ensures And(x, Pow2(w) - 1) == Low(x, w)
  {
    if w > 0 {
      assert Pow2(w) - 1 == 2 * (Pow2(w - 1) - 1) + 1;
      AndOdd(x, Pow2(w - 1) - 1);
      AndLowMask(x / 2, w - 1);
    }
  }

  /** AND with a mask shifted left by s works on x shifted right by s. */
  lemma {:induction false} AndShiftedMask(x: nat, m: nat, s: nat)
    ensures And(x, Shl(m, s)) == Shl(And(Shr(x, s), m), s)
  {
    if s > 0 {
      AndEven(x, Shl(m, s - 1));
      AndShiftedMask(x / 2, m, s - 1);
    }
  }

  /** `(x & (((1 << w) - 1) << s)) >> s` reads the bit-field of width w at bit s. */
  lemma MaskShift(x: nat, w: nat, s: nat)
    ensures Shr(And(x, Shl(Pow2(w) - 1, s)), s) == BitField(x, s, w)
  {
    AndShiftedMask(x, Pow2(w) - 1, s);
    AndLowMask(Shr(x, s), w);
    ShrShl(Low(Shr(x, s), w), s);
  }
}
