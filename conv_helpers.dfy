/**
 * Unpacking an integer into an array holding one bit per element
 * (src/convHelpers.c).
 */
module ConvHelpers {
  import opened Bits

  /**
   * Writes the low `len` bits of `packed` into `a`, most significant first:
   * the last element receives bit 0.
   */
  method UnpackBigToLittleEndian(a: array<Bit>, len: nat, packed: nat)
    requires len <= a.Length
    modifies a
    ensures a[..len] == BigEndianBits(packed, len)
    ensures a[len..] == old(a[len..])
  {
    var p := packed;
    var i: int := len - 1;
    while i >= 0
      invariant -1 <= i < len
      invariant BigEndianBits(packed, len) == BigEndianBits(p, i + 1) + a[i + 1..len]
      invariant a[len..] == old(a[len..])
    {
      a[i] := p % 2;
      p := p / 2;
      i := i - 1;
    }
  }

  /**
   * Writes the low `len` bits of `packed` into `a`, least significant first:
   * the first element receives bit 0.
   */
  method UnpackLittleToLittleEndian(a: array<Bit>, len: nat, packed: nat)
    requires len <= a.Length
    modifies a
    ensures a[..len] == LittleEndianBits(packed, len)
    ensures a[len..] == old(a[len..])
  {
    var p := packed;
    var i := 0;
    while i < len
      invariant 0 <= i <= len
      invariant LittleEndianBits(packed, len) == a[..i] + LittleEndianBits(p, len - i)
      invariant a[len..] == old(a[len..])
    {
      a[i] := p % 2;
      p := p / 2;
      i := i + 1;
    }
  }

  /** The two unpackings list the same bits in opposite orders. */
  lemma {:induction false} BigEndianIsReversedLittleEndian(x: nat, len: nat)
    ensures BigEndianBits(x, len) == Reverse(LittleEndianBits(x, len))
  {
    BigEndianBitsAt(x, len);
    LittleEndianBitsAt(x, len);
  }
}
