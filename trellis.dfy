/**
 * The trellis both decoders walk. A state is the k*S newest bits of the
 * encoder's register (its last S input chunks, the newest in the low bits);
 * from state s, input chunk e leads to state (s * 2^k + e) mod 2^(k*S) and
 * emits the segment of the register s * 2^k + e.
 */
module Trellis {
  import opened Bits
  import opened CodeParams
  import opened EncoderSpec

  /** The state reached from s on input chunk e. */
  function NextState(c: Config, s: nat, e: nat): (r: nat)
    ensures r < c.NumStates()
  {
    (s * c.NumEdges() + e) % c.NumStates()
  }

  /** The weight 2^(k(S-1)) of the oldest chunk of a state. */
  function HighWeight(c: Config): (r: nat)
    ensures r >= 1
  {
    if c.S() == 0 then 1 else Pow2(c.k * (c.S() - 1))
  }

  /** Integer division of naturals stays natural. */
  lemma QuotientNat(x: nat, d: nat)
    requires d > 0
    ensures x / d >= 0
  {
  }

  /** The oldest input chunk held in state s: its k high bits. */
  function OldestChunk(c: Config, s: nat): nat
  {
    var p := HighWeight(c);
    QuotientNat(s, p);
    s / p
  }

  /**
   * The e-th predecessor of `dst` as viterbiDecoderHard enumerates them:
   * dst / 2^k + e * 2^((S-1)k).
   */
  function Source(c: Config, dst: nat, e: nat): nat
  {
    RadixSource(dst, e, c.NumEdges(), HighWeight(c))
  }

  /** dst / q + e * p: the state whose k(S-1) newest bits are dst's oldest ones and whose oldest chunk is e. */
  function RadixSource(dst: nat, e: nat, q: nat, p: nat): nat
    requires q > 0
  {
    dst / q + e * p
  }

  /** The coded segment on the edge leaving s with input chunk e. */
  function EdgeSymbol(c: Config, s: nat, e: nat): nat
  {
    SegmentOf(c, s * c.NumEdges() + e)
  }

  /** Symbols emitted along a walk and the state it ends in. */
  datatype Walked = Walked(symbols: seq<nat>, state: nat)

  /** Walking the trellis from s along the whole k-bit chunks of `bits`, each read most significant bit first. */
  function Walk(c: Config, s: nat, bits: seq<Bit>): Walked
    requires c.k >= 1
    decreases |bits|
  {
    if |bits| < c.k then Walked([], s)
    else
      var e := PackMsb(bits[..c.k]);
      var w := Walk(c, NextState(c, s, e), bits[c.k..]);
      Walked([EdgeSymbol(c, s, e)] + w.symbols, w.state)
  }

  // ---------------------------------------------------------------------------
  // Properties

  /** 2^(kS) splits as 2^(k(S-1)) states per input chunk of the oldest position. */
  lemma StateSplit(c: Config)
    requires ValidEncoder(c)
    ensures c.NumStates() == HighWeight(c) * c.NumEdges()
  {
    var k, n := c.k, c.S();
    var a := k * (n - 1);
    assert k * n == a + k;
    Pow2Add(a, k);
  }

  /** A value below p * q has a quotient by q below p. */
  lemma QuotientBound(p: nat, q: nat, x: nat)
    requires p > 0 && q > 0 && x < p * q
    ensures x / q < p
  {
    DivModUnique(x, q * p, 0, x);
    DivDiv(x, q, p);
    DivModUnique(x / q, p, 0, x / q);
  }

  /** Every enumerated predecessor is a state. */
  lemma SourceInRange(c: Config, dst: nat, e: nat)
    requires ValidEncoder(c) && dst < c.NumStates() && e < c.NumEdges()
    ensures Source(c, dst, e) < c.NumStates()
  {
    StateSplit(c);
    RadixSourceBound(HighWeight(c), c.NumEdges(), dst, e);
  }

  lemma RadixSourceBound(p: nat, q: nat, dst: nat, e: nat)
    requires p > 0 && q > 0 && dst < p * q && e < q
    ensures RadixSource(dst, e, q, p) < p * q
    ensures RadixSource(dst, e, q, p) / p == e && RadixSource(dst, e, q, p) % p == dst / q
  {
    QuotientBound(p, q, dst);
    MulMonotone(p, e, q - 1);
    assert p * (q - 1) == p * q - p;
    DivModUnique(dst / q + e * p, p, e, dst / q);
  }

  /**
   * The predecessors of `dst` are exactly the states Source(dst, e), and each
   * reaches `dst` on the input chunk dst mod 2^k: the edge into a state
   * carries that state's k low bits.
   */
  lemma PredecessorsOf(c: Config, s: nat, x: nat, dst: nat)
    requires ValidEncoder(c) && s < c.NumStates() && x < c.NumEdges() && dst < c.NumStates()
    ensures NextState(c, s, x) == dst <==>
            x == dst % c.NumEdges() && s == Source(c, dst, OldestChunk(c, s))
  {
    var p, q := HighWeight(c), c.NumEdges();
    StateSplit(c);
    RadixPredecessor(p, q, s, x, dst);
  }

  /** An edge into `dst` is the one from dst's enumerated predecessor number s / 2^(k(S-1)). */
  lemma EnumeratedPredecessor(c: Config, s: nat, x: nat, dst: nat)
    requires ValidEncoder(c) && s < c.NumStates() && x < c.NumEdges() && dst < c.NumStates()
    requires NextState(c, s, x) == dst
    ensures OldestChunk(c, s) < c.NumEdges()
    ensures Source(c, dst, OldestChunk(c, s)) == s && x == dst % c.NumEdges()
  {
    var p, q := HighWeight(c), c.NumEdges();
    StateSplit(c);
    RadixEnumerated(p, q, s, x, dst);
  }

  lemma RadixEnumerated(p: nat, q: nat, s: nat, x: nat, dst: nat)
    requires p > 0 && q > 0 && s < p * q && x < q && dst < p * q && (s * q + x) % (p * q) == dst
    ensures s / p < q && RadixSource(dst, s / p, q, p) == s && x == dst % q
  {
    RadixPredecessor(p, q, s, x, dst);
    assert s < q * p;
    QuotientBound(q, p, s);
  }

  /** PredecessorsOf in radix arithmetic: p states per value of the oldest chunk, q edges per state. */
  lemma RadixPredecessor(p: nat, q: nat, s: nat, x: nat, dst: nat)
    requires p > 0 && q > 0 && s < p * q && x < q && dst < p * q
    ensures (s * q + x) % (p * q) == dst <==> x == dst % q && s == dst / q + (s / p) * p
  {
    MixedRadix(p, q, s, x);
    DivModDecompose(s, p);
    if x == dst % q && s == dst / q + (s / p) * p {
      QuotientBound(p, q, dst);
      DivModUnique(s, p, s / p, dst / q);
      DivModDecompose(dst, q);
    }
  }

  /** Each enumerated predecessor leads to `dst`. */
  lemma SourceLeadsTo(c: Config, dst: nat, e: nat)
    requires ValidEncoder(c) && dst < c.NumStates() && e < c.NumEdges()
    ensures OldestChunk(c, Source(c, dst, e)) == e
    ensures NextState(c, Source(c, dst, e), dst % c.NumEdges()) == dst
  {
    var p, q := HighWeight(c), c.NumEdges();
    StateSplit(c);
    RadixSourceBound(p, q, dst, e);
    DivModDecompose(dst, q);
    RadixPredecessor(p, q, Source(c, dst, e), dst % q, dst);
  }

  /** The delay line sees only the k*K low bits of the register. */
  lemma TapsOfLowBits(c: Config, r: nat)
    ensures Taps(c, r) == Taps(c, r % Pow2(c.L()))
  {
    LittleEndianOfPackLsb(LittleEndianBits(r, c.L()));
    PackLsbOfLittleEndian(r, c.L());
  }

  /**
   * One encoder step is one trellis step: shifting chunk e into the register
   * `reg` emits the segment of the edge from state reg mod 2^(kS) on e, and
   * the new register's state is that edge's end.
   */
  lemma EncoderStepIsEdge(c: Config, reg: nat, e: nat)
    requires ValidEncoder(c) && e < c.NumEdges()
    ensures SegmentOf(c, reg * c.NumEdges() + e) == EdgeSymbol(c, reg % c.NumStates(), e)
    ensures (reg * c.NumEdges() + e) % c.NumStates() == NextState(c, reg % c.NumStates(), e)
  {
    var q, m := c.NumEdges(), c.NumStates();
    StateCountSplit(c);
    var r := reg * q + e;
    var low := (reg % m) * q + e;
    MixedRadix(m, q, reg, e);
    TapsOfLowBits(c, r);
    StateOfShift(m, q, reg, e);
  }

  /** Only the state (reg mod m) matters for the state after a shift. */
  lemma StateOfShift(m: nat, q: nat, reg: nat, e: nat)
    requires m > 0
    ensures (reg * q + e) % m == ((reg % m) * q + e) % m
  {
    var t, r0 := reg / m, reg % m;
    DivModDecompose(reg, m);
    assert reg * q + e == (t * q) * m + (r0 * q + e) by {
      assert ((m * t) + r0) * q == (m * t) * q + r0 * q;
      assert m * (t * q) == (m * t) * q;
      assert m * (t * q) == (t * q) * m;
    }
    ModOfMultipleAdd(t * q, m, r0 * q + e);
  }

  lemma ModOfMultipleAdd(a: nat, m: nat, b: nat)
    requires m > 0
    ensures (a * m + b) % m == b % m
  {
    DivModUnique(b, m, b / m, b % m);
    DivModUnique(a * m + b, m, a + b / m, b % m);
  }

  /**
   * The encoder follows the trellis: encoding a stream from register `reg`
   * emits the symbols of the walk from state reg mod 2^(kS), and ends in the
   * state the walk ends in.
   */
  lemma {:induction false} FeedWalksTrellis(c: Config, reg: nat, bits: seq<Bit>)
    requires ValidEncoder(c)
    ensures Feed(c, reg, bits).segments == Walk(c, reg % c.NumStates(), bits).symbols
    ensures Feed(c, reg, bits).reg % c.NumStates() == Walk(c, reg % c.NumStates(), bits).state
    decreases |bits|
  {
    if |bits| >= c.k {
      var e := PackMsb(bits[..c.k]);
      PackMsbBound(bits[..c.k]);
      ShiftInValue(reg, bits[..c.k]);
      var reg' := ShiftIn(reg, bits[..c.k]);
      assert reg' == reg * c.NumEdges() + e;
      EncoderStepIsEdge(c, reg, e);
      FeedWalksTrellis(c, reg', bits[c.k..]);
    }
  }

  /**
   * A whole message, terminated by S zero chunks, is a walk from the
   * starting state that ends in state 0.
   */
  lemma EncodedMessageIsWalk(c: Config, msg: seq<Byte>)
    requires ValidEncoder(c) && 8 % c.k == 0
    ensures var w := Walk(c, StartingState, MessageBits(msg) + Zeros(c.S() * c.k));
            EncodeMessage(c, msg) == w.symbols && w.state == 0
  {
    var bits := MessageBits(msg);
    var tail := Zeros(c.S() * c.k);
    var f := Feed(c, StartingState, bits);
    FeedCount(c, StartingState, bits);
    WholeChunks(c.k, |msg|);
    assert f.rest == [];
    FlushIsZeroFeed(c, f.reg, c.S());
    FeedAppend(c, StartingState, bits, tail);
    assert f.rest + tail == tail;
    FeedWalksTrellis(c, StartingState, bits + tail);
    FlushEndsInStateZero(c, f.reg);
  }

  /** A whole number of bytes is a whole number of k-bit chunks when k divides 8. */
  lemma WholeChunks(k: nat, bytes: nat)
    requires 1 <= k && 8 % k == 0
    ensures (8 * bytes) % k == 0
  {
    DivModDecompose(8, k);
    assert bytes * ((8 / k) * k) == (bytes * (8 / k)) * k;
    DivModUnique(8 * bytes, k, bytes * (8 / k), 0);
  }
}
