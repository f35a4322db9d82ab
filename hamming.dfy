/**
 * Branch metrics of the hard-decision decoders: the Hamming distance between
 * a received coded segment and the segment an edge emits, counted over the
 * `width` low bits (8 for the general decoder's byte-wide calcHammingDist,
 * n for the butterfly decoder's).
 */
module Hamming {
  import opened Bits

  /** The number of the `width` low bit positions in which a and b differ. */
  function HammingDist(a: nat, b: nat, width: nat): nat
  {
    Popcount(Xor(a, b), width)
  }

  /**
   * calcHammingDist without the popcount builtin: counts the set bits of
   * a xor b one at a time over the 8 bits of a byte.
   */
  method CalcHammingDist(a: Byte, b: Byte) returns (distance: nat)
    ensures distance == HammingDist(a, b, 8)
    ensures distance <= 8 && (distance == 0 <==> a == b)
  {
    var bitDifferences := Xor(a, b);
    distance := 0;
    var i := 0;
    while i < 8
      invariant 0 <= i <= 8
      invariant distance + Popcount(bitDifferences, 8 - i) == HammingDist(a, b, 8)
    {
      distance := distance + bitDifferences % 2;
      bitDifferences := bitDifferences / 2;
      i := i + 1;
    }
    HammingBound(a, b, 8);
    HammingZeroIff(a, b, 8);
    assert Pow2(8) == 256;
    DivModUnique(a, 256, 0, a);
    DivModUnique(b, 256, 0, b);
  }

  /**
   * The three-argument calcHammingDist(a, b, n) the butterfly decoder calls:
   * the same count over the `width` low bits only.
   */
  method CalcHammingDistWidth(a: Byte, b: Byte, width: nat) returns (distance: nat)
    ensures distance == HammingDist(a, b, width) && distance <= width
  {
    var bitDifferences := Xor(a, b);
    distance := 0;
    var i := 0;
    while i < width
      invariant 0 <= i <= width
      invariant distance + Popcount(bitDifferences, width - i) == HammingDist(a, b, width)
    {
      distance := distance + bitDifferences % 2;
      bitDifferences := bitDifferences / 2;
      i := i + 1;
    }
    HammingBound(a, b, width);
  }

  // ---------------------------------------------------------------------------
  // Properties

  lemma {:induction false} XorSymmetric(a: nat, b: nat)
    ensures Xor(a, b) == Xor(b, a)
    decreases a + b
  {
    if a != 0 || b != 0 {
      XorSymmetric(a / 2, b / 2);
    }
  }

  /** The distance is symmetric. */
  lemma HammingSymmetric(a: nat, b: nat, width: nat)
    ensures HammingDist(a, b, width) == HammingDist(b, a, width)
  {
    XorSymmetric(a, b);
  }

  /** The distance never exceeds the width. */
  lemma HammingBound(a: nat, b: nat, width: nat)
    ensures HammingDist(a, b, width) <= width
  {
    PopcountBound(Xor(a, b), width);
  }

  /** The low bits of a xor b are zero exactly when a and b agree on them. */
  lemma {:induction false} XorLowZero(a: nat, b: nat, width: nat)
    ensures Xor(a, b) % Pow2(width) == 0 <==> a % Pow2(width) == b % Pow2(width)
  {
    if width > 0 {
      var p := Pow2(width - 1);
      var x, xh := Xor(a, b), Xor(a / 2, b / 2);
      XorLowZero(a / 2, b / 2, width - 1);
      XorParts(a, b);
      LowBitsSplit(x, width);
      LowBitsSplit(a, width);
      LowBitsSplit(b, width);
      assert x % Pow2(width) == 2 * (xh % p) + x % 2;
      DigitsAgree(x % 2, a % 2, b % 2, xh % p, (a / 2) % p, (b / 2) % p);
    }
  }

  /** The width low bits of x: its lowest bit, and the width - 1 low bits of x / 2 above it. */
  lemma LowBitsSplit(x: nat, width: nat)
    requires width > 0
    ensures x % Pow2(width) == 2 * ((x / 2) % Pow2(width - 1)) + x % 2
  {
    DivPow2Succ(x, width - 1);
  }

  /** The step of XorLowZero on the lowest binary digit and the rest. */
  /** Two-digit numbers in base 2 are equal exactly when both digits are. */
  lemma DigitsAgree(x0: nat, a0: nat, b0: nat, xh: nat, ah: nat, bh: nat)
    requires a0 < 2 && b0 < 2 && x0 == (a0 + b0) % 2
    requires xh == 0 <==> ah == bh
    ensures 2 * xh + x0 == 0 <==> 2 * ah + a0 == 2 * bh + b0
  {
  }

  /** The distance is zero exactly when the width low bits agree. */
  lemma HammingZeroIff(a: nat, b: nat, width: nat)
    ensures HammingDist(a, b, width) == 0 <==> a % Pow2(width) == b % Pow2(width)
  {
    PopcountZero(Xor(a, b), width);
    XorLowZero(a, b, width);
  }

  /**
   * Against the bitwise complement of x (within the width) the distance is
   * the width minus the distance against x.
   */
  lemma {:induction false} HammingComplement(x: nat, y: nat, width: nat)
    requires x < Pow2(width)
    ensures HammingDist(Pow2(width) - 1 - x, y, width) == width - HammingDist(x, y, width)
  {
    if width > 0 {
      var x' := Pow2(width) - 1 - x;
      var xh, yh := x / 2, y / 2;
      var xh' := Pow2(width - 1) - 1 - xh;
      ComplementHalves(x, width);
      XorParts(x', y);
      XorParts(x, y);
      assert Xor(x', y) / 2 == Xor(xh', yh);
      HammingComplement(xh, yh, width - 1);
      HammingBound(xh, yh, width - 1);
      XorFlippedParity(x', x, y);
      var d', d := Xor(x', y) % 2, Xor(x, y) % 2;
      var p', p := HammingDist(xh', yh, width - 1), HammingDist(xh, yh, width - 1);
      assert d' == 1 - d;
      assert p' == (width - 1) - p;
      assert HammingDist(x', y, width) == d' + p';
      assert HammingDist(x, y, width) == d + p;
    }
  }

  /** Complementing within w bits complements the lowest bit and, within w - 1 bits, the rest. */
  lemma ComplementHalves(x: nat, width: nat)
    requires width > 0 && x < Pow2(width)
    ensures x / 2 < Pow2(width - 1)
    ensures (Pow2(width) - 1 - x) / 2 == Pow2(width - 1) - 1 - x / 2
    ensures (Pow2(width) - 1 - x) % 2 == 1 - x % 2
  {
    var h := Pow2(width - 1);
    assert Pow2(width) == 2 * h;
    DivModDecompose(x, 2);
    var x' := 2 * h - 1 - x;
    assert x' == 2 * (h - 1 - x / 2) + (1 - x % 2);
    DivModUnique(x', 2, h - 1 - x / 2, 1 - x % 2);
  }

  /** Flipping the lowest bit of one operand flips the lowest bit of the xor. */
  lemma XorFlippedParity(x': nat, x: nat, y: nat)
    requires x' % 2 == 1 - x % 2
    ensures Xor(x', y) % 2 == 1 - Xor(x, y) % 2
  {
    XorParts(x', y);
    XorParts(x, y);
    if x % 2 == y % 2 {
      assert Xor(x, y) % 2 == 0 && Xor(x', y) % 2 == 1;
    } else {
      assert Xor(x, y) % 2 == 1 && Xor(x', y) % 2 == 0;
    }
  }
}
