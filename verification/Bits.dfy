/** Shifts, truncation, bitwise AND and OR of integers of any width, and the
    shift-and-mask helpers of pawn/bits.h with their arithmetic meaning. */
module Bits {

  // ---------------------------------------------------------------------
  // Powers of two, shifts and truncation
  // ---------------------------------------------------------------------

  function Pow2(n: nat): (r: nat)
    ensures r > 0
  {
    if n == 0 then 1 else 2 * Pow2(n - 1)
  }

  /** x << k without truncation. */
  function Shl(x: nat, k: nat): nat {
    if k == 0 then x else 2 * Shl(x, k - 1)
  }

  /** x >> k. */
  function Shr(x: nat, k: nat): nat {
    if k == 0 then x else Shr(x / 2, k - 1)
  }

  /** The low k bits of x; on a negative x, of its two's complement. */
  function Low(x: int, k: nat): nat
    decreases k, x
  {
    if k == 0 then 0 else x % 2 + 2 * Low(x / 2, k - 1)
  }

  /** The powers that occur as field positions and widths in 32-bit registers. */
  lemma Pow2Table()
    ensures Pow2(0) == 1 && Pow2(1) == 2 && Pow2(2) == 4 && Pow2(3) == 8
    ensures Pow2(4) == 16 && Pow2(5) == 32 && Pow2(6) == 64 && Pow2(7) == 128
    ensures Pow2(8) == 0x100 && Pow2(9) == 0x200 && Pow2(10) == 0x400 && Pow2(11) == 0x800
    ensures Pow2(12) == 0x1000 && Pow2(13) == 0x2000 && Pow2(14) == 0x4000 && Pow2(15) == 0x8000
    ensures Pow2(16) == 0x1_0000 && Pow2(17) == 0x2_0000 && Pow2(18) == 0x4_0000 && Pow2(19) == 0x8_0000
    ensures Pow2(20) == 0x10_0000 && Pow2(21) == 0x20_0000 && Pow2(22) == 0x40_0000 && Pow2(23) == 0x80_0000
    ensures Pow2(24) == 0x100_0000 && Pow2(25) == 0x200_0000 && Pow2(26) == 0x400_0000
    ensures Pow2(27) == 0x800_0000 && Pow2(28) == 0x1000_0000 && Pow2(29) == 0x2000_0000
    ensures Pow2(30) == 0x4000_0000 && Pow2(31) == 0x8000_0000 && Pow2(32) == 0x1_0000_0000
  {
  }

  lemma MulMagnitude(m: nat, d: int)
    ensures d >= 1 ==> m * d >= m
    ensures d <= -1 ==> m * d + m <= 0
  {
  }

  /** Quotient and remainder are the only pair that fit. */
  lemma DivModUnique(x: int, m: nat, q: int, r: int)
    requires 0 < m && 0 <= r < m && x == m * q + r
    ensures x / m == q && x % m == r
  {
    var d := x / m - q;
    assert m * d == m * (x / m) - m * q;
    MulMagnitude(m, d);
  }

  /** Dividing by 2n is halving and then dividing by n. */
  lemma DivModHalf(x: int, n: nat)
    requires 0 < n
    ensures x / 2 / n == x / (2 * n)
    ensures x % (2 * n) == x % 2 + 2 * (x / 2 % n)
  {
    var q := x / 2;
    assert x == (2 * n) * (q / n) + (2 * (q % n) + x % 2) by {
      assert q == n * (q / n) + q % n;
      assert (2 * n) * (q / n) == 2 * (n * (q / n));
    }
    DivModUnique(x, 2 * n, q / n, 2 * (q % n) + x % 2);
  }

  /** One mixed-radix digit: the part below m, then the digit of size n. */
  lemma Digit(x: nat, m: nat, n: nat, mn: nat)
    requires 0 < m && 0 < n && mn == m * n
    ensures 0 < mn && x % mn == x % m + m * (x / m % n)
  {
    var q := x / m;
    TwoDigits(x, m, n, mn, q, x % m, q / n, q % n);
  }

  lemma TwoDigits(x: nat, m: nat, n: nat, mn: nat, q: nat, r: nat, d: nat, e: nat)
    requires 0 < m && mn == m * n && r < m && e < n
    requires x == m * q + r && q == n * d + e
    ensures 0 < mn && x % mn == r + m * e
  {
    assert x == mn * d + (m * e + r) by {
      assert m * q == m * (n * d) + m * e;
      assert m * (n * d) == mn * d;
    }
    assert m * e + r < mn by {
      assert mn == m * e + m * (n - e);
      MulMagnitude(m, n - e);
    }
    DivModUnique(x, mn, d, m * e + r);
  }

  lemma {:induction false} ShlMeaning(x: nat, k: nat)
    ensures Shl(x, k) == x * Pow2(k)
  {
    if k != 0 {
      ShlMeaning(x, k - 1);
      assert x * Pow2(k) == 2 * (x * Pow2(k - 1));
    }
  }

  lemma {:induction false} ShrMeaning(x: nat, k: nat)
    ensures Shr(x, k) == x / Pow2(k)
    decreases k
  {
    if k != 0 {
      ShrMeaning(x / 2, k - 1);
      DivModHalf(x, Pow2(k - 1));
    }
  }

  lemma {:induction false} LowMeaning(x: int, k: nat)
    ensures Low(x, k) == x % Pow2(k)
    decreases k
  {
    if k != 0 {
      LowMeaning(x / 2, k - 1);
      DivModHalf(x, Pow2(k - 1));
    }
  }

  lemma {:induction false} LowBound(x: int, k: nat)
    ensures Low(x, k) < Pow2(k)
    decreases k
  {
    if k != 0 {
      LowBound(x / 2, k - 1);
    }
  }

  /** Truncation leaves a word that fits alone. */
  lemma {:induction false} LowFits(x: nat, k: nat)
    requires x < Pow2(k)
    ensures Low(x, k) == x
    decreases k
  {
    if k != 0 {
      LowFits(x / 2, k - 1);
    }
  }

  lemma {:induction false} LowLow(x: int, j: nat, k: nat)
    requires k <= j
    ensures Low(Low(x, j), k) == Low(x, k)
    decreases k
  {
    if k != 0 {
      LowLow(x / 2, j - 1, k - 1);
    }
  }

  lemma {:induction false} LowZero(k: nat)
    ensures Low(0, k) == 0
  {
    if k != 0 {
      LowZero(k - 1);
    }
  }

  lemma {:induction false} ShrZero(k: nat)
    ensures Shr(0, k) == 0
  {
    if k != 0 {
      ShrZero(k - 1);
    }
  }

  lemma {:induction false} ShlZero(k: nat)
    ensures Shl(0, k) == 0
  {
    if k != 0 {
      ShlZero(k - 1);
    }
  }

  lemma {:induction false} ShlAdd(x: nat, j: nat, k: nat)
    ensures Shl(x, j + k) == Shl(Shl(x, j), k)
    decreases k
  {
    if k != 0 {
      ShlAdd(x, j, k - 1);
    }
  }

  lemma {:induction false} ShrAdd(x: nat, j: nat, k: nat)
    ensures Shr(x, j + k) == Shr(Shr(x, j), k)
    decreases j
  {
    if j != 0 {
      ShrAdd(x / 2, j - 1, k);
    }
  }

  lemma {:induction false} ShrShl(x: nat, k: nat)
    ensures Shr(Shl(x, k), k) == x
  {
    if k != 0 {
      ShrShl(x, k - 1);
    }
  }

  lemma {:induction false} ShlBound(x: nat, j: nat, k: nat)
    requires x < Pow2(j)
    ensures Shl(x, k) < Pow2(j + k)
    decreases k
  {
    if k != 0 {
      ShlBound(x, j, k - 1);
    }
  }

  lemma {:induction false} ShrBound(x: nat, w: nat, k: nat)
    requires x < Pow2(w) && k <= w
    ensures Shr(x, k) < Pow2(w - k)
    decreases k
  {
    if k != 0 {
      ShrBound(x / 2, w - 1, k - 1);
    }
  }

  lemma {:induction false} Pow2Monotone(m: nat, n: nat)
    requires m <= n
    ensures Pow2(m) <= Pow2(n) && (m < n ==> Pow2(m) < Pow2(n))
    decreases n
  {
    if m < n {
      Pow2Monotone(m, n - 1);
    }
  }

  /** The low bits of a left shift are clear, below and up to the shift. */
  lemma {:induction false} LowShl(x: nat, k: nat, l: nat)
    ensures Low(Shl(x, l), k) == if k <= l then 0 else Shl(Low(x, k - l), l)
    decreases k
  {
    if l == 0 {
    } else if k != 0 {
      LowShl(x, k - 1, l - 1);
      ShlZero(l);
      assert Shl(x, l) / 2 == Shl(x, l - 1);
    } else {
      ShlZero(l);
    }
  }

  // ---------------------------------------------------------------------
  // Bitwise operators
  // ---------------------------------------------------------------------

  function And(x: nat, y: nat): nat {
    if x == 0 || y == 0 then 0 else (if x % 2 == 1 && y % 2 == 1 then 1 else 0) + 2 * And(x / 2, y / 2)
  }

  function Or(x: nat, y: nat): nat {
    if x == 0 then y
    else if y == 0 then x
    else (if x % 2 == 1 || y % 2 == 1 then 1 else 0) + 2 * Or(x / 2, y / 2)
  }

  lemma {:induction false} AndMask(x: nat, k: nat)
    ensures And(x, Pow2(k) - 1) == Low(x, k)
    decreases k
  {
    if x == 0 {
      LowZero(k);
    } else if k != 0 {
      AndMask(x / 2, k - 1);
      assert (Pow2(k) - 1) / 2 == Pow2(k - 1) - 1;
    }
  }

  lemma {:induction false} AndShl(x: nat, y: nat, l: nat)
    ensures And(x, Shl(y, l)) == Shl(And(Shr(x, l), y), l)
    decreases l
  {
    if x == 0 {
      ShrZero(l);
      ShlZero(l);
    } else if l != 0 {
      AndShl(x / 2, y, l - 1);
      assert Shl(y, l) / 2 == Shl(y, l - 1);
      assert y == 0 ==> Shl(y, l) == 0 by { ShlZero(l); }
    }
  }

  /** Bits of `y` above the width of `x` do not matter to x & y. */
  lemma {:induction false} AndTruncated(x: nat, y: nat, w: nat)
    requires x < Pow2(w)
    ensures And(x, Low(y, w)) == And(x, y)
    decreases w
  {
    if w != 0 {
      AndTruncated(x / 2, y / 2, w - 1);
      if y == 0 {
        LowZero(w);
      } else if Low(y, w) == 0 {
        assert y % 2 == 0 && Low(y / 2, w - 1) == 0;
      }
    }
  }

  /** OR works on the bits below and above position k independently. */
  lemma {:induction false} OrLowHigh(x: nat, y: nat, k: nat)
    ensures Low(Or(x, y), k) == Or(Low(x, k), Low(y, k))
    ensures Shr(Or(x, y), k) == Or(Shr(x, k), Shr(y, k))
    decreases k
  {
    if k != 0 {
      OrLowHigh(x / 2, y / 2, k - 1);
      OrStep(x, y);
      OrStep(Low(x, k), Low(y, k));
    }
  }

  lemma OrStep(x: nat, y: nat)
    ensures Or(x, y) == (if x % 2 == 1 || y % 2 == 1 then 1 else 0) + 2 * Or(x / 2, y / 2)
    ensures Or(x, y) / 2 == Or(x / 2, y / 2)
    ensures Or(x, y) % 2 == if x % 2 == 1 || y % 2 == 1 then 1 else 0
  {
  }

  /** OR of a word whose low k bits are clear with a k-bit word is their sum. */
  lemma {:induction false} OrAppend(high: nat, low: nat, k: nat)
    requires Low(high, k) == 0 && low < Pow2(k)
    ensures Or(high, low) == high + low
    decreases k
  {
    if k != 0 {
      OrAppend(high / 2, low / 2, k - 1);
      OrStep(high, low);
    }
  }

  // ---------------------------------------------------------------------
  // pawn/bits.h
  // ---------------------------------------------------------------------

  /** Raw<msb, lsb> on a w-bit word. The mask holds msb - 1 ones, as the source
      writes it, not msb - lsb + 1. */
  function Raw(bits: nat, msb: nat, lsb: nat, w: nat): nat
    requires 1 <= msb < w && lsb <= msb && bits < Pow2(w)
  {
    And(bits, Low(Shl(Pow2(msb - 1) - 1, lsb), w))
  }

  /** Value<msb, lsb>: the field, shifted down to bit 0. */
  function Value(bits: nat, msb: nat, lsb: nat): nat
    requires lsb <= msb
  {
    And(Shr(bits, lsb), Pow2(msb - lsb + 1) - 1)
  }

  /** Test<i>. */
  predicate Test(bits: nat, i: nat) {
    And(bits, Shl(1, i)) != 0
  }

  /** Set<msb, lsb>: the value truncated to the field's width and shifted into
      place in w-bit unsigned arithmetic (32 in the source). */
  function Set(value: int, msb: nat, lsb: nat, w: nat := 32): nat
    requires lsb <= msb < w
  {
    Low(Shl(And(Low(value, w), Pow2(msb - lsb + 1) - 1), lsb), w)
  }

  /** Value is a quotient and a remainder. */
  lemma ValueMeaning(bits: nat, msb: nat, lsb: nat)
    requires lsb <= msb
    ensures Value(bits, msb, lsb) == bits / Pow2(lsb) % Pow2(msb - lsb + 1)
  {
    ValueAsLow(bits, msb, lsb);
    ShrMeaning(bits, lsb);
    LowMeaning(Shr(bits, lsb), msb - lsb + 1);
  }

  lemma ValueBound(bits: nat, msb: nat, lsb: nat)
    requires lsb <= msb
    ensures Value(bits, msb, lsb) < Pow2(msb - lsb + 1)
  {
    ValueAsLow(bits, msb, lsb);
    LowBound(Shr(bits, lsb), msb - lsb + 1);
  }

  lemma TestMeaning(bits: nat, i: nat)
    ensures Test(bits, i) <==> bits / Pow2(i) % 2 == 1
  {
    TestAsLow(bits, i);
    ShrMeaning(bits, i);
  }

  /** Set is a remainder and a product: no bit outside the field is set, and a
      negative value contributes its two's complement. */
  lemma SetMeaning(value: int, msb: nat, lsb: nat, w: nat)
    requires lsb <= msb < w
    ensures Set(value, msb, lsb, w) == value % Pow2(msb - lsb + 1) * Pow2(lsb)
  {
    SetAsShl(value, msb, lsb, w);
    LowMeaning(value, msb - lsb + 1);
    ShlMeaning(Low(value, msb - lsb + 1), lsb);
  }

  /** Set touches no bit below its field and none above it. */
  lemma SetExtent(value: int, msb: nat, lsb: nat, w: nat)
    requires lsb <= msb < w
    ensures Low(Set(value, msb, lsb, w), lsb) == 0
    ensures Set(value, msb, lsb, w) < Pow2(msb + 1)
  {
    SetAsShl(value, msb, lsb, w);
  }

  lemma ValueAsLow(bits: nat, msb: nat, lsb: nat)
    requires lsb <= msb
    ensures And(Shr(bits, lsb), Pow2(msb - lsb + 1) - 1) == Low(Shr(bits, lsb), msb - lsb + 1)
  {
    AndMask(Shr(bits, lsb), msb - lsb + 1);
  }

  lemma TestAsLow(bits: nat, i: nat)
    ensures And(bits, Shl(1, i)) != 0 <==> Shr(bits, i) % 2 == 1
  {
    AndShl(bits, 1, i);
    var b := And(Shr(bits, i), 1);
    assert b == Shr(bits, i) % 2;
    ShlZero(i);
    ShrShl(b, i);
    ShrZero(i);
  }

  lemma SetAsShl(value: int, msb: nat, lsb: nat, w: nat)
    requires lsb <= msb < w
    ensures Low(Shl(And(Low(value, w), Pow2(msb - lsb + 1) - 1), lsb), w)
            == Shl(Low(value, msb - lsb + 1), lsb)
    ensures Shl(Low(value, msb - lsb + 1), lsb) < Pow2(msb + 1)
    ensures Low(Shl(Low(value, msb - lsb + 1), lsb), lsb) == 0
  {
    var k := msb - lsb + 1;
    AndMask(Low(value, w), k);
    LowLow(value, w, k);
    LowBound(value, k);
    ShlBound(Low(value, k), k, lsb);
    Pow2Monotone(msb + 1, w);
    LowFits(Shl(Low(value, k), lsb), w);
    LowShl(Low(value, k), lsb, lsb);
  }

  // ---------------------------------------------------------------------
  // Raw against Value
  // ---------------------------------------------------------------------

  /** Raw keeps the msb - 1 bits from lsb on, in place. */
  lemma RawAsLow(bits: nat, msb: nat, lsb: nat, w: nat)
    requires 1 <= msb < w && lsb <= msb && bits < Pow2(w)
    ensures Raw(bits, msb, lsb, w) == Shl(Low(Shr(bits, lsb), msb - 1), lsb)
  {
    var mask := Pow2(msb - 1) - 1;
    AndTruncated(bits, Shl(mask, lsb), w);
    AndShl(bits, mask, lsb);
    AndMask(Shr(bits, lsb), msb - 1);
  }

  /** Raw<msb, lsb> is Value<msb, lsb> moved back to its position, for every
      w-bit word, exactly when lsb is 2, or when msb is the top bit and lsb is
      at least 2. */
  lemma RawCharacterisation(msb: nat, lsb: nat, w: nat)
    requires 1 <= msb < w && lsb <= msb
    ensures (forall bits: nat | bits < Pow2(w) ::
               Raw(bits, msb, lsb, w) == Shl(Value(bits, msb, lsb), lsb))
            <==> lsb == 2 || (msb == w - 1 && lsb >= 2)
  {
    if lsb == 2 || (msb == w - 1 && lsb >= 2) {
      forall bits: nat | bits < Pow2(w)
        ensures Raw(bits, msb, lsb, w) == Shl(Value(bits, msb, lsb), lsb)
      {
        RawAgrees(bits, msb, lsb, w);
      }
    } else {
      var bits := RawDisagrees(msb, lsb, w);
      assert Raw(bits, msb, lsb, w) != Shl(Value(bits, msb, lsb), lsb);
    }
  }

  lemma RawAgrees(bits: nat, msb: nat, lsb: nat, w: nat)
    requires 1 <= msb < w && lsb <= msb && bits < Pow2(w)
    requires lsb == 2 || (msb == w - 1 && lsb >= 2)
    ensures Raw(bits, msb, lsb, w) == Shl(Value(bits, msb, lsb), lsb)
  {
    RawAsLow(bits, msb, lsb, w);
    ValueAsLow(bits, msb, lsb);
    if lsb != 2 {
      ShrBound(bits, w, lsb);
      LowFits(Shr(bits, lsb), w - lsb);
      Pow2Monotone(w - lsb, msb - 1);
      LowFits(Shr(bits, lsb), msb - 1);
    }
  }

  /** A word with a single bit set on which the two differ. */
  lemma RawDisagrees(msb: nat, lsb: nat, w: nat) returns (bits: nat)
    requires 1 <= msb < w && lsb <= msb
    requires !(lsb == 2 || (msb == w - 1 && lsb >= 2))
    ensures bits < Pow2(w)
    ensures Raw(bits, msb, lsb, w) != Shl(Value(bits, msb, lsb), lsb)
  {
    // The lowest bit, counted from lsb, that exactly one of the two keeps.
    var i := if lsb < 2 then msb - 1 else msb - lsb + 1;
    bits := Shl(1, i + lsb);
    ShlBound(1, 1, i + lsb);
    Pow2Monotone(1 + i + lsb, w);
    RawAsLow(bits, msb, lsb, w);
    ValueAsLow(bits, msb, lsb);
    ShlAdd(1, i, lsb);
    ShrShl(Shl(1, i), lsb);
    SingleBit(i, msb - 1);
    SingleBit(i, msb - lsb + 1);
    ShrShl(Low(Shl(1, i), msb - 1), lsb);
    ShrShl(Low(Shl(1, i), msb - lsb + 1), lsb);
  }

  /** Truncating a single bit keeps or drops it. */
  lemma SingleBit(i: nat, k: nat)
    ensures Low(Shl(1, i), k) == (if i < k then Shl(1, i) else 0)
    ensures Shl(1, i) > 0
  {
    LowShl(1, k, i);
    if i < k {
      Pow2Monotone(1, k - i);
      LowFits(1, k - i);
    }
    ShlMeaning(1, i);
  }
}
