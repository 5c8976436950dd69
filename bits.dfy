/** Bit arithmetic behind `(charCode >> (7 - j)) & 1` and its inverse, reading
    eight bits back into a byte, most significant bit first. */
module Bits {

  /** 2 to the power n. */
  function Pow2(n: nat): (p: nat)
    ensures p >= 1
  {
    if n == 0 then 1 else 2 * Pow2(n - 1)
  }

  /** JavaScript's `c >> n` on a code unit: for 0 <= c < 2^31 the signed 32-bit
      shift is floor halving, n times. */
  function ShiftRight(c: nat, n: nat): nat
  {
    if n == 0 then c else ShiftRight(c / 2, n - 1)
  }

  /** Bit j of the low byte of c, counted from the most significant end:
      `(c >> (7 - j)) & 1`, where `& 1` on a non-negative number is `% 2`. */
  function Bit(c: nat, j: nat): (b: int)
    requires j < 8
    ensures b == 0 || b == 1
  {
    ShiftRight(c, 7 - j) % 2
  }

  /** The n low bits of c, most significant first. */
  function MsbBits(c: nat, n: nat): (bits: seq<int>)
    ensures |bits| == n
  {
    if n == 0 then [] else MsbBits(c / 2, n - 1) + [c % 2]
  }

  /** The number whose binary digits, most significant first, are `bits`. */
  function FromBits(bits: seq<int>): int
  {
    if |bits| == 0 then 0 else 2 * FromBits(bits[..|bits| - 1]) + bits[|bits| - 1]
  }

  /** Division and remainder are determined by the defining equation. */
  lemma DivModUnique(a: int, d: int, t: int, s: int)
    requires d > 0 && 0 <= s < d && a == d * t + s
    ensures a / d == t && a % d == s
  {
    var t', s' := a / d, a % d;
    assert d * (t - t') == s' - s;
    if t > t' {
      MulAtLeast(d, t - t');
    } else if t < t' {
      MulAtLeast(d, t' - t);
    }
  }

  lemma MulAtLeast(d: int, e: int)
    requires d > 0 && e >= 1
    ensures d * e >= d
  {
    assert d * e == d * (e - 1) + d;
    if e > 1 {
      MulAtLeast(d, e - 1);
    }
  }

  /** Dividing by 2q is halving and then dividing by q; the remainder modulo 2q
      is twice the remainder of the half, plus the dropped bit. */
  lemma HalveDivMod(c: nat, q: nat)
    requires q > 0
    ensures c / (2 * q) == (c / 2) / q
    ensures c % (2 * q) == 2 * ((c / 2) % q) + c % 2
  {
    var t, s := (c / 2) / q, (c / 2) % q;
    assert c == (2 * q) * t + (2 * s + c % 2);
    DivModUnique(c, 2 * q, t, 2 * s + c % 2);
  }

  /** The halving model of `>>` is division by a power of two. */
  lemma {:induction false} ShiftRightIsDiv(c: nat, n: nat)
    ensures ShiftRight(c, n) == c / Pow2(n)
  {
    if n > 0 {
      ShiftRightIsDiv(c / 2, n - 1);
      HalveDivMod(c, Pow2(n - 1));
    }
  }

  /** Element j of MsbBits(c, n) is the bit that `>>` brings to position 0. */
  lemma {:induction false} MsbBitsAt(c: nat, n: nat, j: nat)
    requires j < n
    ensures MsbBits(c, n)[j] == ShiftRight(c, n - 1 - j) % 2
  {
    if j < n - 1 {
      MsbBitsAt(c / 2, n - 1, j);
    }
  }

  /** The bits of the source's inner loop, j = 0 .. 7, are MsbBits(c, 8). */
  lemma BitIsMsbFirst(c: nat, j: nat)
    requires j < 8
    ensures Bit(c, j) == MsbBits(c, 8)[j]
  {
    MsbBitsAt(c, 8, j);
  }

  /** Reading back the n low bits of c gives c modulo 2^n. */
  lemma {:induction false} FromMsbBits(c: nat, n: nat)
    ensures FromBits(MsbBits(c, n)) == c % Pow2(n)
  {
    if n > 0 {
      var bits := MsbBits(c, n);
      assert bits[..n - 1] == MsbBits(c / 2, n - 1);
      FromMsbBits(c / 2, n - 1);
      HalveDivMod(c, Pow2(n - 1));
    }
  }

  /** Shifting by n < m and taking bit 0 only sees the m low bits of c. */
  lemma {:induction false} ShiftedBitOfLowBits(c: nat, n: nat, m: nat)
    requires n < m
    ensures ShiftRight(c, n) % 2 == ShiftRight(c % Pow2(m), n) % 2
  {
    var q := Pow2(m - 1);
    var low := c % Pow2(m);
    assert Pow2(m) == 2 * q;
    HalveDivMod(c, q);
    assert low == 2 * ((c / 2) % q) + c % 2;
    if n == 0 {
      assert low % 2 == c % 2;
    } else {
      assert low / 2 == (c / 2) % q;
      ShiftedBitOfLowBits(c / 2, n - 1, m - 1);
      assert ShiftRight(low, n) == ShiftRight(low / 2, n - 1);
    }
  }

  /** Only the low byte of a code unit reaches the matrix. */
  lemma BitOfLowByte(c: nat, j: nat)
    requires j < 8
    ensures Bit(c, j) == Bit(c % 256, j)
  {
    assert Pow2(8) == 256;
    ShiftedBitOfLowBits(c, 7 - j, 8);
  }

  /** Eight bits, most significant first, give back the low byte. */
  lemma ByteRoundTrip(c: nat)
    ensures FromBits(MsbBits(c, 8)) == c % 256
  {
    assert Pow2(8) == 256;
    FromMsbBits(c, 8);
  }
}
