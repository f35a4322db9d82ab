/**
 * Bit-level arithmetic shared by the encoder and the decoders: powers of two,
 * single bits of a packed value, the LSB-first and MSB-first packings of bit
 * sequences, bitwise exclusive or and population count.
 *
 * Packed values are unbounded naturals; a C integer type of width w is
 * modelled by keeping values below Pow2(w) and writing truncation as `% Pow2(w)`.
 */
module Bits {

  type Bit = b: nat | b < 2
  type Byte = b: nat | b < 256

  function Pow2(e: nat): (r: nat)
    ensures r >= 1
  {
    if e == 0 then 1 else 2 * Pow2(e - 1)
  }

  lemma Pow2Byte()
    ensures Pow2(7) == 128 && Pow2(8) == 256
  {
  }

  lemma {:induction false} Pow2Add(a: nat, b: nat)
    ensures Pow2(a + b) == Pow2(a) * Pow2(b)
  {
    if a > 0 {
      Pow2Add(a - 1, b);
      assert Pow2(a + b) == 2 * Pow2(a - 1 + b);
    }
  }

  lemma {:induction false} Pow2Monotone(a: nat, b: nat)
    requires a <= b
    ensures Pow2(a) <= Pow2(b)
  {
    if a < b {
      Pow2Monotone(a, b - 1);
    }
  }

  lemma Pow2Even(e: nat)
    requires e >= 1
    ensures Pow2(e) % 2 == 0 && Pow2(e) / 2 == Pow2(e - 1)
  {
  }

  lemma {:induction false} MulMonotone(a: nat, b: int, c: int)
    requires b <= c
    ensures a * b <= a * c
  {
    if a > 0 {
      MulMonotone(a - 1, b, c);
      assert a * b == (a - 1) * b + b;
      assert a * c == (a - 1) * c + c;
    }
  }

  /** Euclidean division is unique: the quotient and remainder are determined by the equation. */
  lemma DivModUnique(x: int, d: int, q: int, r: int)
    requires d > 0 && 0 <= r < d && x == d * q + r
    ensures x / d == q && x % d == r
  {
    var q0, r0 := x / d, x % d;
    assert x == d * q0 + r0;
    assert d * (q + 1) == d * q + d;
    assert d * (q0 + 1) == d * q0 + d;
    if q0 > q {
      MulMonotone(d, q + 1, q0);
    } else if q0 < q {
      MulMonotone(d, q0 + 1, q);
    }
  }

  lemma DivModDecompose(x: int, d: int)
    requires d > 0
    ensures x == d * (x / d) + x % d && 0 <= x % d < d
  {
  }




  lemma DivDiv(x: nat, a: nat, b: nat)
    requires a > 0 && b > 0
    ensures x / (a * b) == (x / a) / b
    ensures x % (a * b) == a * ((x / a) % b) + x % a
  {
    var q := x / a;
    var q2 := q / b;
    var ra := x % a;
    var rb := q % b;
    assert x == a * q + ra;
    assert q == b * q2 + rb;
    assert a * q == a * (b * q2) + a * rb;
    assert a * (b * q2) == (a * b) * q2;
    assert x == (a * b) * q2 + (a * rb + ra);
    MulMonotone(a, rb, b - 1);
    assert a * (b - 1) == a * b - a;
    DivModUnique(x, a * b, q2, a * rb + ra);
  }

  /** Dividing by 2^(i+1) is halving and then dividing by 2^i. */
  lemma DivPow2Succ(x: nat, i: nat)
    ensures x / Pow2(i + 1) == (x / 2) / Pow2(i)
    ensures x % Pow2(i + 1) == 2 * ((x / 2) % Pow2(i)) + x % 2
  {
    DivDiv(x, 2, Pow2(i));
  }

  lemma DivPow2Add(x: nat, a: nat, b: nat)
    ensures x / Pow2(a + b) == (x / Pow2(a)) / Pow2(b)
    ensures x % Pow2(a + b) == Pow2(a) * ((x / Pow2(a)) % Pow2(b)) + x % Pow2(a)
  {
    Pow2Add(a, b);
    DivDiv(x, Pow2(a), Pow2(b));
  }

  /** Bit i of x. */
  function BitOf(x: nat, i: nat): Bit
  {
    (x / Pow2(i)) % 2
  }

  lemma BitOfSucc(x: nat, i: nat)
    ensures BitOf(x, i + 1) == BitOf(x / 2, i)
  {
    DivPow2Succ(x, i);
  }

  /** LSB-first packing: element j is the coefficient of 2^j. */
  function PackLsb(bits: seq<Bit>): nat
  {
    if |bits| == 0 then 0 else bits[0] + 2 * PackLsb(bits[1..])
  }

  /** MSB-first packing: the last element is the least significant bit. */
  function PackMsb(bits: seq<Bit>): nat
  {
    if |bits| == 0 then 0 else 2 * PackMsb(bits[..|bits| - 1]) + bits[|bits| - 1]
  }

  /** The len low bits of x, bit i at index i. */
  function LittleEndianBits(x: nat, len: nat): (r: seq<Bit>)
    ensures |r| == len
  {
    if len == 0 then [] else [x % 2] + LittleEndianBits(x / 2, len - 1)
  }

  /** The len low bits of x, most significant first: bit len-1-i at index i. */
  function BigEndianBits(x: nat, len: nat): (r: seq<Bit>)
    ensures |r| == len
  {
    if len == 0 then [] else BigEndianBits(x / 2, len - 1) + [x % 2]
  }

  function Reverse<T>(s: seq<T>): (r: seq<T>)
    ensures |r| == |s|
    ensures forall i :: 0 <= i < |s| ==> r[i] == s[|s| - 1 - i]
  {
    if |s| == 0 then [] else Reverse(s[1..]) + [s[0]]
  }

  lemma {:induction false} LittleEndianBitsAt(x: nat, len: nat)
    ensures |LittleEndianBits(x, len)| == len
    ensures forall i :: 0 <= i < len ==> LittleEndianBits(x, len)[i] == BitOf(x, i)
  {
    if len > 0 {
      LittleEndianBitsAt(x / 2, len - 1);
      forall i | 1 <= i < len
        ensures LittleEndianBits(x, len)[i] == BitOf(x, i)
      {
        BitOfSucc(x, i - 1);
      }
    }
  }

  lemma {:induction false} BigEndianBitsAt(x: nat, len: nat)
    ensures |BigEndianBits(x, len)| == len
    ensures forall i :: 0 <= i < len ==> BigEndianBits(x, len)[i] == BitOf(x, len - 1 - i)
  {
    if len > 0 {
      BigEndianBitsAt(x / 2, len - 1);
      forall i | 0 <= i < len - 1
        ensures BigEndianBits(x, len)[i] == BitOf(x, len - 1 - i)
      {
        BitOfSucc(x, len - 2 - i);
      }
    }
  }

  lemma {:induction false} PackLsbBound(bits: seq<Bit>)
    ensures PackLsb(bits) < Pow2(|bits|)
  {
    if |bits| > 0 {
      PackLsbBound(bits[1..]);
    }
  }

  lemma {:induction false} PackMsbBound(bits: seq<Bit>)
    ensures PackMsb(bits) < Pow2(|bits|)
  {
    if |bits| > 0 {
      PackMsbBound(bits[..|bits| - 1]);
    }
  }

  lemma {:induction false} PackLsbOfLittleEndian(x: nat, len: nat)
    ensures PackLsb(LittleEndianBits(x, len)) == x % Pow2(len)
  {
    if len > 0 {
      PackLsbOfLittleEndian(x / 2, len - 1);
      DivPow2Succ(x, len - 1);
      assert LittleEndianBits(x, len)[1..] == LittleEndianBits(x / 2, len - 1);
    }
  }

  lemma {:induction false} PackMsbOfBigEndian(x: nat, len: nat)
    ensures PackMsb(BigEndianBits(x, len)) == x % Pow2(len)
  {
    if len > 0 {
      PackMsbOfBigEndian(x / 2, len - 1);
      DivPow2Succ(x, len - 1);
      BigEndianBitsAt(x / 2, len - 1);
      var b := BigEndianBits(x, len);
      assert b[..|b| - 1] == BigEndianBits(x / 2, len - 1);
    }
  }

  lemma {:induction false} LittleEndianOfPackLsb(bits: seq<Bit>)
    ensures LittleEndianBits(PackLsb(bits), |bits|) == bits
  {
    if |bits| > 0 {
      LittleEndianOfPackLsb(bits[1..]);
      var p := PackLsb(bits);
      assert p % 2 == bits[0] && p / 2 == PackLsb(bits[1..]);
      assert bits == [bits[0]] + bits[1..];
    }
  }

  lemma {:induction false} BigEndianOfPackMsb(bits: seq<Bit>)
    ensures BigEndianBits(PackMsb(bits), |bits|) == bits
  {
    if |bits| > 0 {
      var init := bits[..|bits| - 1];
      BigEndianOfPackMsb(init);
      var p := PackMsb(bits);
      assert p % 2 == bits[|bits| - 1] && p / 2 == PackMsb(init);
      assert bits == init + [bits[|bits| - 1]];
    }
  }

  /** A prefix of an LSB-first sequence packs to the value reduced modulo the prefix width. */
  lemma {:induction false} PackLsbPrefix(bits: seq<Bit>, m: nat)
    requires m <= |bits|
    ensures PackLsb(bits[..m]) == PackLsb(bits) % Pow2(m)
  {
    if m > 0 {
      PackLsbPrefix(bits[1..], m - 1);
      assert bits[..m][1..] == bits[1..][..m - 1];
      var p := PackLsb(bits);
      DivPow2Succ(p, m - 1);
      assert p % 2 == bits[0] && p / 2 == PackLsb(bits[1..]);
    }
  }

  lemma PackMsbUnfoldAppend(a: seq<Bit>, b: seq<Bit>)
    requires |b| > 0
    ensures PackMsb(a + b) == 2 * PackMsb(a + b[..|b| - 1]) + b[|b| - 1]
  {
    var ab := a + b;
    assert ab[..|ab| - 1] == a + b[..|b| - 1];
  }

  lemma {:induction false} PackMsbAppend(a: seq<Bit>, b: seq<Bit>)
    ensures PackMsb(a + b) == PackMsb(a) * Pow2(|b|) + PackMsb(b)
  {
    if |b| == 0 {
      assert a + b == a;
    } else {
      var b' := b[..|b| - 1];
      PackMsbUnfoldAppend(a, b);
      PackMsbAppend(a, b');
      assert b == b' + [b[|b| - 1]];
      ShiftedSum(PackMsb(a), PackMsb(b'), Pow2(|b'|), b[|b| - 1]);
    }
  }

  lemma ShiftedSum(x: nat, y: nat, pw: nat, last: nat)
    ensures 2 * (x * pw + y) + last == x * (2 * pw) + (2 * y + last)
  {
  }

  lemma LittleEndianBitsPrefix(x: nat, len: nat, m: nat)
    requires m <= len
    ensures LittleEndianBits(x, len)[..m] == LittleEndianBits(x, m)
  {
    LittleEndianBitsAt(x, len);
    LittleEndianBitsAt(x, m);
  }

  /**
   * Shifting one bit into an L-bit LSB-first register: the new bit becomes bit 0,
   * every other bit moves up one place and the oldest bit falls off.
   */
  lemma ShiftInBit(x: nat, b: Bit, len: nat)
    requires len >= 1
    ensures LittleEndianBits(2 * x + b, len) == [b] + LittleEndianBits(x, len)[..len - 1]
  {
    var y := 2 * x + b;
    DivModUnique(y, 2, x, b);
    assert LittleEndianBits(y, len) == [b] + LittleEndianBits(x, len - 1);
    LittleEndianBitsPrefix(x, len, len - 1);
  }

  lemma MulPred(a: nat, b: nat)
    requires a >= 1
    ensures a * b == b + (a - 1) * b
  {
  }

  /** The first MSB-first bit is the top one. */
  lemma BigEndianBitsHead(x: nat, len: nat)
    requires len >= 1
    ensures BigEndianBits(x, len) == [BitOf(x, len - 1)] + BigEndianBits(x, len - 1)
  {
    BigEndianBitsAt(x, len);
    BigEndianBitsAt(x, len - 1);
  }

  /**
   * Appending a digit x < q to s in radix q and keeping the value modulo
   * p * q keeps the low digit of s in radix p.
   */
  lemma MixedRadix(p: nat, q: nat, s: nat, x: nat)
    requires p > 0 && q > 0 && x < q
    ensures (s * q + x) % (p * q) == (s % p) * q + x
    ensures ((s % p) * q + x) / q == s % p && ((s % p) * q + x) % q == x
  {
    DivModUnique(s * q + x, q, s, x);
    DivDiv(s * q + x, q, p);
    assert q * p == p * q;
    DivModUnique((s % p) * q + x, q, s % p, x);
  }

  /** x mod 2^M keeps the m <= M low bits of x. */
  lemma ModPow2Nest(x: nat, m: nat, M: nat)
    requires m <= M
    ensures (x % Pow2(M)) % Pow2(m) == x % Pow2(m)
  {
    DivPow2Add(x, m, M - m);
    DivModUnique(x % Pow2(M), Pow2(m), (x / Pow2(m)) % Pow2(M - m), x % Pow2(m));
  }

  /** The big-endian bits of x depend only on x mod 2^len. */
  lemma BigEndianBitsMod(x: nat, len: nat)
    ensures BigEndianBits(x, len) == BigEndianBits(x % Pow2(len), len)
  {
    BigEndianOfPackMsb(BigEndianBits(x, len));
    PackMsbOfBigEndian(x, len);
  }

  /** Shifting y < 2^b in below x appends y's b bits after x's a bits. */
  lemma BigEndianBitsConcat(x: nat, a: nat, y: nat, b: nat)
    requires y < Pow2(b)
    ensures BigEndianBits(x * Pow2(b) + y, a + b) == BigEndianBits(x, a) + BigEndianBits(y, b)
  {
    var v := x * Pow2(b) + y;
    var bits := BigEndianBits(x, a) + BigEndianBits(y, b);
    var p := PackMsb(bits);
    PackMsbOfConcat(x, a, y, b);
    assert p == v % Pow2(a + b);
    BigEndianBitsMod(v, a + b);
    assert BigEndianBits(v, a + b) == BigEndianBits(p, a + b);
    BigEndianOfPackMsb(bits);
    assert BigEndianBits(p, |bits|) == bits;
  }

  lemma PackMsbOfConcat(x: nat, a: nat, y: nat, b: nat)
    requires y < Pow2(b)
    ensures PackMsb(BigEndianBits(x, a) + BigEndianBits(y, b)) == (x * Pow2(b) + y) % Pow2(a + b)
  {
    PackMsbAppend(BigEndianBits(x, a), BigEndianBits(y, b));
    PackMsbOfBigEndian(x, a);
    PackMsbOfBigEndian(y, b);
    DivModUnique(y, Pow2(b), 0, y);
    Pow2Add(a, b);
    MixedRadix(Pow2(a), Pow2(b), x, y);
  }

  lemma ConcatAssoc<T>(x: seq<T>, y: seq<T>, z: seq<T>)
    ensures (x + y) + z == x + (y + z)
  {
  }

  lemma SliceOfAppend<T>(a: seq<T>, b: seq<T>, m: nat)
    requires m <= |a|
    ensures (a + b)[..m] == a[..m] && (a + b)[m..] == a[m..] + b
  {
  }

  /** Bitwise exclusive or of two naturals. */
  function Xor(a: nat, b: nat): nat
    decreases a + b
  {
    if a == 0 && b == 0 then 0 else (a % 2 + b % 2) % 2 + 2 * Xor(a / 2, b / 2)
  }

  lemma XorParts(a: nat, b: nat)
    ensures Xor(a, b) % 2 == (a % 2 + b % 2) % 2
    ensures Xor(a, b) / 2 == Xor(a / 2, b / 2)
  {
  }

  /** Number of set bits among the w low bits of x. */
  function Popcount(x: nat, w: nat): nat
  {
    if w == 0 then 0 else x % 2 + Popcount(x / 2, w - 1)
  }

  lemma {:induction false} PopcountBound(x: nat, w: nat)
    ensures Popcount(x, w) <= w
  {
    if w > 0 {
      PopcountBound(x / 2, w - 1);
    }
  }

  lemma {:induction false} PopcountZero(x: nat, w: nat)
    ensures Popcount(x, w) == 0 <==> x % Pow2(w) == 0
  {
    if w > 0 {
      PopcountZero(x / 2, w - 1);
      DivPow2Succ(x, w - 1);
    }
  }
}
