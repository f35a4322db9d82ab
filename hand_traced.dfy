/**
 * The literal vectors of the hand-traced test, stated for the 4-state code
 * it uses: K = 3, k = 1, n = 2, generator 0 = 0b111 and generator 1 = 0b110.
 * The encoder vector is the encoding of the byte 0b01101000; the decoder
 * vectors are the reset metrics, the metrics and tracebacks after each
 * received segment of a sequence with one corrupted bit, and the byte that
 * sequence decodes to.
 *
 * For this one code the encoder and the add-compare-select are written out
 * again as small reference functions (ExampleFeed, AcsMetrics,
 * AcsTracebacks), proved equal to the general definitions for every
 * register, bit stream and metric vector; the vectors themselves are then
 * computations of the reference functions on the literal data.
 */
module HandTraced {
  import opened Bits
  import opened CodeParams
  import opened EncoderSpec
  import opened Trellis
  import opened Hamming
  import opened ViterbiSpec

  /** The code of the hand-traced test. */
  predicate IsExample(c: Config)
  {
    c == Config(3, 1, 2, [7, 6])
  }

  /** The derived sizes: 4 states, 2 edges per state, S = 2, a traceback depth of 15. */
  lemma ExampleShape(c: Config)
    requires IsExample(c)
    ensures ValidDecoder(c) && ViterbiConfigCheck(c) == Returned(0)
    ensures c.S() == 2 && c.L() == 3 && c.TracebackLen() == 15 && PaddingBits(c) == 2
    ensures c.NumStates() == 4 && c.NumEdges() == 2 && HighWeight(c) == 2
  {
  }

  // ---------------------------------------------------------------------------
  // The encoder

  /**
   * The segment of this code for the three newest register bits `low`
   * (0 to 7): bit 0 is their parity (generator 0b111), bit 1 the parity of
   * the two newest (generator 0b110). In order: 0, 3, 3, 0, 1, 2, 2, 1.
   */
  function SegmentTable(low: nat): (r: nat)
    ensures r < 4
  {
    if low == 0 || low == 3 then 0
    else if low == 1 || low == 2 then 3
    else if low == 4 || low == 7 then 1
    else 2
  }

  /** The segment of this code for a whole register: only its three newest bits count. */
  function SegmentRef(reg: nat): (r: nat)
    ensures r < 4
  {
    SegmentTable(reg % 8)
  }

  /** The table is the two parities of the three newest bits. */
  lemma SegmentTableParities(reg: nat)
    ensures SegmentRef(reg) == (reg % 2 + reg / 2 % 2 + reg / 4 % 2) % 2 + 2 * ((reg % 2 + reg / 2 % 2) % 2)
  {
    var b0, b1, b2 := reg % 2, reg / 2 % 2, reg / 4 % 2;
    LowBits(reg);
    TableOfBits(b0, b1, b2);
  }

  /** The three low bits of a number, as its remainder modulo 8. */
  lemma LowBits(reg: nat)
    ensures reg % 8 == reg % 2 + 2 * (reg / 2 % 2) + 4 * (reg / 4 % 2)
  {
    assert reg / 2 / 2 == reg / 4 && reg / 4 / 2 == reg / 8;
    DivModUnique(reg, 8, reg / 8, reg % 2 + 2 * (reg / 2 % 2) + 4 * (reg / 4 % 2));
  }

  lemma TableOfBits(b0: nat, b1: nat, b2: nat)
    requires b0 < 2 && b1 < 2 && b2 < 2
    ensures SegmentTable(b0 + 2 * b1 + 4 * b2) == (b0 + b1 + b2) % 2 + 2 * ((b0 + b1) % 2)
  {
  }

  lemma ExampleSegment(c: Config, reg: nat)
    requires IsExample(c)
    ensures SegmentOf(c, reg) == SegmentRef(reg)
  {
    var w := [reg % 2, reg / 2 % 2, reg / 4 % 2];
    ExampleTaps(c, reg);
    WindowSegment(w, c.g);
    assert SegmentOf(c, reg) == SegmentFor(w, c.g);
    SegmentTableParities(reg);
  }

  /** The delay line of this code holds the three newest bits. */
  lemma ExampleTaps(c: Config, reg: nat)
    requires IsExample(c)
    ensures Taps(c, reg) == [reg % 2, reg / 2 % 2, reg / 4 % 2]
  {
    assert c.L() == 3;
    assert reg / 2 / 2 == reg / 4;
    assert LittleEndianBits(reg / 4, 1) == [reg / 4 % 2];
    assert LittleEndianBits(reg / 2, 2) == [reg / 2 % 2, reg / 4 % 2];
  }

  /** Generators 0b111 and 0b110 on a three-bit delay line. */
  lemma WindowSegment(w: seq<Bit>, gs: seq<nat>)
    requires |w| == 3 && gs == [7, 6]
    ensures SegmentFor(w, gs) == (w[0] as nat + w[1] + w[2]) % 2 + 2 * ((w[0] as nat + w[1]) % 2)
  {
    var g0, g1 := BigEndianBits(7, 3), BigEndianBits(6, 3);
    assert g0 == [1, 1, 1];
    assert g1 == [1, 1, 0];
    DotThree(w, g0);
    DotThree(w, g1);
    assert gs[1..] == [6] && gs[1..][1..] == [];
    assert SegmentFor(w, gs[1..]) == Dot(w, g1) % 2 + 2 * SegmentFor(w, gs[1..][1..]);
  }

  lemma DotThree(a: seq<Bit>, b: seq<Bit>)
    requires |a| == 3 && |b| == 3
    ensures Dot(a, b) == a[0] as nat * b[0] + a[1] as nat * b[1] + a[2] as nat * b[2]
  {
    assert a[..2][..1] == a[..1] && b[..2][..1] == b[..1];
    assert a[..1][..0] == [] && b[..1][..0] == [];
    assert Dot(a[..1], b[..1]) == a[0] * b[0];
    assert Dot(a[..2], b[..2]) == a[0] as nat * b[0] + a[1] * b[1];
  }

  /** This code's encoder, one bit at a time: the register doubles, takes the bit in and emits its segment. */
  function ExampleFeed(reg: nat, bits: seq<Bit>): (r: Fed)
    ensures |r.segments| == |bits| && r.rest == []
    decreases |bits|
  {
    if |bits| == 0 then Fed([], reg, [])
    else
      var reg' := 2 * reg + bits[0];
      var f := ExampleFeed(reg', bits[1..]);
      Fed([SegmentRef(reg')] + f.segments, f.reg, [])
  }

  /** The general encoder, for this code, is the reference one. */
  lemma {:induction false} FeedIsExampleFeed(c: Config, reg: nat, bits: seq<Bit>)
    requires IsExample(c)
    ensures Feed(c, reg, bits) == ExampleFeed(reg, bits)
    decreases |bits|
  {
    if |bits| > 0 {
      var reg' := 2 * reg + bits[0];
      assert bits[..1] == [bits[0]] && [bits[0]][..0] == [];
      assert ShiftIn(reg, bits[..c.k]) == reg';
      ExampleSegment(c, reg');
      FeedIsExampleFeed(c, reg', bits[1..]);
    }
  }

  /** One step of the reference encoder, with the rest of the run already known. */
  lemma FeedOne(reg: nat, bits: seq<Bit>, segs: seq<nat>, last: nat)
    requires |bits| > 0 && |segs| > 0 && segs[0] == SegmentRef(2 * reg + bits[0])
    requires ExampleFeed(2 * reg + bits[0], bits[1..]) == Fed(segs[1..], last, [])
    ensures ExampleFeed(reg, bits) == Fed(segs, last, [])
  {
  }

  /** FeedOne on the suffixes of a run. */
  lemma FeedSuffix(bits: seq<Bit>, segs: seq<nat>, i: nat, reg: nat, reg': nat)
    requires i < |bits| == |segs| && reg' == 2 * reg + bits[i] && segs[i] == SegmentRef(reg')
    requires ExampleFeed(reg', bits[i + 1..]) == Fed(segs[i + 1..], 104, [])
    ensures ExampleFeed(reg, bits[i..]) == Fed(segs[i..], 104, [])
  {
    assert bits[i..][1..] == bits[i + 1..] && segs[i..][1..] == segs[i + 1..];
    FeedOne(reg, bits[i..], segs[i..], 104);
  }

  /** The last six message bits 1, 0, 1, 0, 0, 0, from register 0b01. */
  lemma ExampleMessageTail(bits: seq<Bit>, segs: seq<nat>)
    requires |bits| == 8 && bits[0] == 0 && bits[1] == 1 && bits[2] == 1 && bits[3] == 0
    requires bits[4] == 1 && bits[5] == 0 && bits[6] == 0 && bits[7] == 0
    requires |segs| == 8 && segs[0] == 0 && segs[1] == 3 && segs[2] == 0 && segs[3] == 2
    requires segs[4] == 2 && segs[5] == 3 && segs[6] == 1 && segs[7] == 0
    ensures ExampleFeed(1, bits[2..]) == Fed(segs[2..], 104, [])
  {
    assert bits[8..] == [] && segs[8..] == [];
    FeedSuffix(bits, segs, 7, 52, 104);
    FeedSuffix(bits, segs, 6, 26, 52);
    FeedSuffix(bits, segs, 5, 13, 26);
    FeedSuffix(bits, segs, 4, 6, 13);
    FeedSuffix(bits, segs, 3, 3, 6);
    FeedSuffix(bits, segs, 2, 1, 3);
  }

  /**
   * The reference encoder on the message bits 0, 1, 1, 0, 1, 0, 0, 0 from
   * register 0 (the bits are passed as a variable so that each step is
   * taken by FeedOne rather than by evaluating the whole run at once).
   */
  lemma ExampleMessageFeed(bits: seq<Bit>, segs: seq<nat>)
    requires |bits| == 8 && bits[0] == 0 && bits[1] == 1 && bits[2] == 1 && bits[3] == 0
    requires bits[4] == 1 && bits[5] == 0 && bits[6] == 0 && bits[7] == 0
    requires |segs| == 8 && segs[0] == 0 && segs[1] == 3 && segs[2] == 0 && segs[3] == 2
    requires segs[4] == 2 && segs[5] == 3 && segs[6] == 1 && segs[7] == 0
    ensures ExampleFeed(0, bits) == Fed(segs, 104, [])
  {
    ExampleMessageTail(bits, segs);
    FeedSuffix(bits, segs, 1, 0, 1);
    FeedSuffix(bits, segs, 0, 0, 0);
    assert bits[0..] == bits && segs[0..] == segs;
  }

  /** The reference encoder on the two padding bits from register 0b01101000. */
  lemma ExamplePaddingFeed(bits: seq<Bit>, segs: seq<nat>)
    requires bits == [0, 0] && segs == [0, 0]
    ensures ExampleFeed(104, bits) == Fed(segs, 416, [])
  {
    assert bits[2..] == [] && segs[2..] == [];
    assert bits[1..][1..] == bits[2..] && segs[1..][1..] == segs[2..];
    FeedOne(208, bits[1..], segs[1..], 416);
    assert bits[0..][1..] == bits[1..] && segs[0..][1..] == segs[1..];
    FeedOne(104, bits[0..], segs[0..], 416);
    assert bits[0..] == bits && segs[0..] == segs;
  }

  /** The message part of convEnc on 0b01101000: segments 00,11,00,10,10,11,01,00, register 0b01101000. */
  lemma MessageVector(c: Config, bits: seq<Bit>, segs: seq<nat>)
    requires IsExample(c)
    requires |bits| == 8 && bits[0] == 0 && bits[1] == 1 && bits[2] == 1 && bits[3] == 0
    requires bits[4] == 1 && bits[5] == 0 && bits[6] == 0 && bits[7] == 0
    requires |segs| == 8 && segs[0] == 0 && segs[1] == 3 && segs[2] == 0 && segs[3] == 2
    requires segs[4] == 2 && segs[5] == 3 && segs[6] == 1 && segs[7] == 0
    ensures Feed(c, StartingState, bits) == Fed(segs, 104, [])
  {
    FeedIsExampleFeed(c, StartingState, bits);
    ExampleMessageFeed(bits, segs);
  }

  /** The termination tail after 0b01101000: two zero segments. */
  lemma PaddingVector(c: Config)
    requires IsExample(c)
    ensures Flush(c, 104, c.S()).segments == [0, 0]
  {
    ExampleShape(c);
    FlushIsZeroFeed(c, 104, c.S());
    var zeros := Zeros(c.S() * c.k);
    assert zeros == [0, 0];
    FeedIsExampleFeed(c, 104, zeros);
    ExamplePaddingFeed(zeros, [0, 0]);
  }

  /** The bits of the one-byte message 0b01101000, most significant first. */
  lemma ExampleByteBits(msg: seq<Byte>)
    requires |msg| == 1 && msg[0] == 0x68
    ensures var bits := MessageBits(msg);
      |bits| == 8 && bits[0] == 0 && bits[1] == 1 && bits[2] == 1 && bits[3] == 0 &&
      bits[4] == 1 && bits[5] == 0 && bits[6] == 0 && bits[7] == 0
  {
    assert msg[1..] == [];
    assert MessageBits(msg) == BigEndianBits(0x68, 8);
  }

  /** convEnc on a message holding the byte 0b01101000, with termination. */
  lemma EncodeExampleByte(c: Config, msg: seq<Byte>)
    requires IsExample(c) && |msg| == 1 && msg[0] == 0x68
    ensures EncodeMessage(c, msg) == [0, 3, 0, 2, 2, 3, 1, 0, 0, 0]
  {
    var bits := MessageBits(msg);
    ExampleByteBits(msg);
    var segs: seq<nat> := [0, 3, 0, 2, 2, 3, 1, 0];
    MessageVector(c, bits, segs);
    PaddingVector(c);
  }

  /** convEnc on the byte 0b01101000 with termination emits {00,11,00,10,10,11,01,00,00,00}. */
  lemma EncoderVector(c: Config)
    requires IsExample(c)
    ensures EncodeMessage(c, [0x68]) == [0, 3, 0, 2, 2, 3, 1, 0, 0, 0]
  {
    EncodeExampleByte(c, [0x68]);
  }

  // ---------------------------------------------------------------------------
  // The decoder

  /** Hamming distance between two 2-bit segments. */
  function Dist2(a: nat, b: nat): nat
  {
    if a == b then 0 else if a + b == 3 then 2 else 1
  }

  /** calcHammingDist on two 2-bit segments counts the two bit positions. */
  lemma HammingOfSegments(a: nat, b: nat)
    requires a < 4 && b < 4
    ensures HammingDist(a, b, 8) == Dist2(a, b)
  {
    var x := Xor(a, b);
    XorParts(a, b);
    XorParts(a / 2, b / 2);
    assert Xor(a / 2 / 2, b / 2 / 2) == 0;
    PopcountZero(x / 2 / 2, 6);
    assert HammingDist(a, b, 8) == (if a % 2 == b % 2 then 0 else 1) + (if a / 2 % 2 == b / 2 % 2 then 0 else 1);
  }

  /** The metric of the path into dst through its predecessor src, for this code. */
  function Through(m: seq<nat>, sym: nat, dst: nat, src: nat): nat
    requires |m| == 4 && src < 4
  {
    m[src] + Dist2(SegmentTable(2 * src + dst % 2), sym)
  }

  /**
   * Add-compare-select into dst, written out for the 4-state trellis: the
   * predecessors of dst are dst / 2 (input 0 as the oldest chunk) and
   * dst / 2 + 2, and a tie keeps the first.
   */
  function AcsMetric(m: seq<nat>, sym: nat, dst: nat): nat
    requires |m| == 4 && dst < 4
  {
    var a := Through(m, sym, dst, dst / 2);
    var b := Through(m, sym, dst, dst / 2 + 2);
    if a <= b then a else b
  }

  /** The survivor's traceback, shifted, with dst's newest input bit appended. */
  function AcsTraceback(m: seq<nat>, tb: seq<nat>, sym: nat, dst: nat): nat
    requires |m| == 4 && |tb| == 4 && dst < 4
  {
    var a := Through(m, sym, dst, dst / 2);
    var b := Through(m, sym, dst, dst / 2 + 2);
    2 * (if a <= b then tb[dst / 2] else tb[dst / 2 + 2]) + dst % 2
  }

  /** The branch metric of the edge into register reg (three bits) for received segment sym. */
  function Branch(reg: nat, sym: nat): nat
  {
    Dist2(SegmentTable(reg), sym)
  }

  /** The smaller of two path metrics, the first on a tie. */
  function Best(x: nat, y: nat): nat
  {
    if x <= y then x else y
  }

  /** The traceback of the better of two paths, shifted, with the destination's input bit appended. */
  function Pick(x: nat, y: nat, tx: nat, ty: nat, bit: nat): nat
  {
    2 * (if x <= y then tx else ty) + bit
  }

  /**
   * One whole add-compare-select step of this code with every index written
   * out: destination 0 is entered from states 0 and 2 (registers 0b000 and
   * 0b100), destination 1 from 0 and 2 (0b001, 0b101), destination 2 from 1
   * and 3 (0b010, 0b110) and destination 3 from 1 and 3 (0b011, 0b111).
   */
  function AcsMetrics(m: seq<nat>, sym: nat): (r: seq<nat>)
    requires |m| == 4
  {
    [Best(m[0] + Branch(0, sym), m[2] + Branch(4, sym)), Best(m[0] + Branch(1, sym), m[2] + Branch(5, sym)),
     Best(m[1] + Branch(2, sym), m[3] + Branch(6, sym)), Best(m[1] + Branch(3, sym), m[3] + Branch(7, sym))]
  }

  function AcsTracebacks(m: seq<nat>, tb: seq<nat>, sym: nat): (r: seq<nat>)
    requires |m| == 4 && |tb| == 4
  {
    [Pick(m[0] + Branch(0, sym), m[2] + Branch(4, sym), tb[0], tb[2], 0),
     Pick(m[0] + Branch(1, sym), m[2] + Branch(5, sym), tb[0], tb[2], 1),
     Pick(m[1] + Branch(2, sym), m[3] + Branch(6, sym), tb[1], tb[3], 0),
     Pick(m[1] + Branch(3, sym), m[3] + Branch(7, sym), tb[1], tb[3], 1)]
  }

  /** The written-out step is add-compare-select into each destination in turn. */
  lemma WrittenOut(m: seq<nat>, tb: seq<nat>, sym: nat)
    requires |m| == 4 && |tb| == 4
    ensures AcsMetrics(m, sym) == [AcsMetric(m, sym, 0), AcsMetric(m, sym, 1), AcsMetric(m, sym, 2), AcsMetric(m, sym, 3)]
    ensures AcsTracebacks(m, tb, sym) == [AcsTraceback(m, tb, sym, 0), AcsTraceback(m, tb, sym, 1),
                                          AcsTraceback(m, tb, sym, 2), AcsTraceback(m, tb, sym, 3)]
  {
  }

  /** Metrics and tracebacks small enough that no uint32_t or uint64_t arithmetic wraps. */
  predicate Small(m: seq<nat>, tb: seq<nat>)
  {
    |m| == 4 && |tb| == 4 &&
    m[0] < 1000 && m[1] < 1000 && m[2] < 1000 && m[3] < 1000 &&
    tb[0] < 1000 && tb[1] < 1000 && tb[2] < 1000 && tb[3] < 1000
  }

  /** The branch metric of the edge leaving src with input e, for this code. */
  lemma BranchAt(c: Config, src: nat, e: nat, sym: Byte)
    requires IsExample(c) && src < 4 && e < 2 && sym < 4
    ensures BranchMetric(c, src, e, sym) == Dist2(SegmentTable(2 * src + e), sym)
  {
    var reg := 2 * src + e;
    DivModUnique(reg, 8, 0, reg);
    assert c.NumEdges() == 2;
    assert EdgeSymbol(c, src, e) == SegmentOf(c, reg);
    ExampleSegment(c, reg);
    HammingOfSegments(SegmentTable(reg), sym);
  }

  /** The path metric into dst through its e-th enumerated predecessor, dst / 2 + 2e. */
  lemma PathAt(c: Config, m: seq<nat>, sym: Byte, dst: nat, e: nat)
    requires IsExample(c) && |m| == 4 && (forall i :: 0 <= i < 4 ==> m[i] < 1000)
    requires sym < 4 && dst < 4 && e < 2
    ensures PathMetric(c, m, sym, dst, e) == Through(m, sym, dst, dst / 2 + 2 * e)
  {
    ExampleShape(c);
    var src := dst / 2 + 2 * e;
    assert Source(c, dst, e) == src;
    BranchAt(c, src, dst % 2, sym);
  }

  /** Appending to a traceback that has not reached the top of its uint64_t. */
  lemma TbAppendSmall(c: Config, t: nat, e: nat)
    requires IsExample(c) && t < 1000
    ensures TbAppend(c, t, e) == 2 * t + e
  {
    var q := TracebackModulus();
    assert q >= 2048 by {
      Pow2Monotone(11, TracebackWidth);
      assert Pow2(11) == 2048;
    }
    assert c.NumEdges() == 2;
    DivModUnique(t * 2, q, 0, t * 2);
  }

  /** The survivor into dst: the first predecessor unless the second's path metric is strictly smaller. */
  lemma SurvivorAt(c: Config, m: seq<nat>, sym: Byte, dst: nat)
    requires IsExample(c) && |m| == 4 && (forall i :: 0 <= i < 4 ==> m[i] < 1000)
    requires sym < 4 && dst < 4
    ensures ValidDecoder(c) && c.NumStates() == 4
    ensures var a, b := Through(m, sym, dst, dst / 2), Through(m, sym, dst, dst / 2 + 2);
            Survivor(c, m, sym, dst) == (if a <= b then 0 else 1) &&
            PathMetrics(c, m, sym, dst)[Survivor(c, m, sym, dst)] == (if a <= b then a else b)
  {
    ExampleShape(c);
    PathAt(c, m, sym, dst, 0);
    PathAt(c, m, sym, dst, 1);
    var pm := PathMetrics(c, m, sym, dst);
    assert pm == [Through(m, sym, dst, dst / 2), Through(m, sym, dst, dst / 2 + 2)];
    assert pm[..1] == [pm[0]];
  }

  /** One destination of the general add-compare-select is the reference one. */
  lemma AcsAt(c: Config, m: seq<nat>, tb: seq<nat>, sym: Byte, dst: nat)
    requires IsExample(c) && Small(m, tb) && sym < 4 && dst < 4
    ensures NextMetrics(c, m, sym)[dst] == AcsMetric(m, sym, dst)
    ensures NextTracebacks(c, m, tb, sym)[dst] == AcsTraceback(m, tb, sym, dst)
  {
    AcsMetricAt(c, m, tb, sym, dst);
    AcsTracebackAt(c, m, tb, sym, dst);
  }

  lemma AcsMetricAt(c: Config, m: seq<nat>, tb: seq<nat>, sym: Byte, dst: nat)
    requires IsExample(c) && Small(m, tb) && sym < 4 && dst < 4
    ensures ValidDecoder(c) && c.NumStates() == 4
    ensures NextMetrics(c, m, sym)[dst] == AcsMetric(m, sym, dst)
  {
    assert forall i :: 0 <= i < 4 ==> m[i] < 1000;
    SurvivorAt(c, m, sym, dst);
    NextMetricsAt(c, m, sym, dst);
  }

  lemma AcsTracebackAt(c: Config, m: seq<nat>, tb: seq<nat>, sym: Byte, dst: nat)
    requires IsExample(c) && Small(m, tb) && sym < 4 && dst < 4
    ensures ValidDecoder(c) && c.NumStates() == 4
    ensures NextTracebacks(c, m, tb, sym)[dst] == AcsTraceback(m, tb, sym, dst)
  {
    var src := SurvivorSource(c, m, tb, sym, dst);
    var e := dst % 2;
    assert dst % c.NumEdges() == e;
    NextTracebacksAt(c, m, tb, sym, dst, src);
    var t := tb[src];
    assert t < 1000 by {
      assert src == 0 || src == 1 || src == 2 || src == 3;
    }
    TbAppendSmall(c, t, e);
    TracebackOfSurvivor(m, tb, sym, dst, src);
  }

  /** The state the survivor into dst comes from. */
  lemma SurvivorSource(c: Config, m: seq<nat>, tb: seq<nat>, sym: Byte, dst: nat) returns (src: nat)
    requires IsExample(c) && Small(m, tb) && sym < 4 && dst < 4
    ensures ValidDecoder(c) && c.NumStates() == 4 && c.NumEdges() == 2 && src < 4
    ensures src == Source(c, dst, Survivor(c, m, sym, dst))
    ensures var a, b := Through(m, sym, dst, dst / 2), Through(m, sym, dst, dst / 2 + 2);
            src == if a <= b then dst / 2 else dst / 2 + 2
  {
    assert forall i :: 0 <= i < 4 ==> m[i] < 1000;
    SurvivorAt(c, m, sym, dst);
    var w := Survivor(c, m, sym, dst);
    var a, b := Through(m, sym, dst, dst / 2), Through(m, sym, dst, dst / 2 + 2);
    src := if a <= b then dst / 2 else dst / 2 + 2;
    assert Source(c, dst, w) == src by {
      ExampleShape(c);
    }
  }

  lemma TracebackOfSurvivor(m: seq<nat>, tb: seq<nat>, sym: nat, dst: nat, src: nat)
    requires |m| == 4 && |tb| == 4 && dst < 4
    requires var a, b := Through(m, sym, dst, dst / 2), Through(m, sym, dst, dst / 2 + 2);
             src == if a <= b then dst / 2 else dst / 2 + 2
    ensures AcsTraceback(m, tb, sym, dst) == 2 * tb[src] + dst % 2
  {
  }

  /** For this code, add-compare-select over all four states is the reference one. */
  lemma ExampleStep(c: Config, m: seq<nat>, tb: seq<nat>, sym: Byte)
    requires IsExample(c) && Small(m, tb) && sym < 4
    ensures NextMetrics(c, m, sym) == AcsMetrics(m, sym)
    ensures NextTracebacks(c, m, tb, sym) == AcsTracebacks(m, tb, sym)
  {
    ExampleShape(c);
    AcsAt(c, m, tb, sym, 0);
    AcsAt(c, m, tb, sym, 1);
    AcsAt(c, m, tb, sym, 2);
    AcsAt(c, m, tb, sym, 3);
    WrittenOut(m, tb, sym);
    FourElements(NextMetrics(c, m, sym));
    FourElements(NextTracebacks(c, m, tb, sym));
  }

  lemma FourElements(s: seq<nat>)
    requires |s| == 4
    ensures s == [s[0], s[1], s[2], s[3]]
  {
  }

  /** The reset state: metrics {0:0, 1:5, 2:5, 3:5} with 5 = NUM_STATES + 1, tracebacks all 0. */
  lemma ResetVector(c: Config)
    requires IsExample(c)
    ensures Initial(c).metrics == [0, 5, 5, 5] && Initial(c).tracebacks == [0, 0, 0, 0]
    ensures Initial(c).iteration == 0 && Initial(c).carry == 0 && Initial(c).carryCount == 0
  {
    ExampleShape(c);
    assert ForceNot(c) == 5;
  }

  /** The received sequence {01,11,01,10,10,11,01,00,00,00}: the encoding of 0b01101000 with bit 0 of segments 0 and 2 flipped. */
  const Received: seq<Byte> := [1, 3, 1, 2, 2, 3, 1, 0, 0, 0]

  /** Add-compare-select for this code moves (m, tb) to (m', tb') on sym, with no arithmetic wrapping. */
  predicate Moves(m: seq<nat>, tb: seq<nat>, sym: nat, m': seq<nat>, tb': seq<nat>)
  {
    Small(m, tb) && sym < 4 && AcsMetrics(m, sym) == m' && AcsTracebacks(m, tb, sym) == tb'
  }

  /** The decoder after i received segments of syms, none of them decided yet. */
  ghost predicate After(c: Config, syms: seq<Byte>, i: nat, m: seq<nat>, tb: seq<nat>)
    requires IsExample(c) && i <= |syms|
  {
    ExampleShape(c);
    DecodeSegments(c, Initial(c), syms[..i]) == Stepped(DecoderState(m, tb, i, 0, 0), [], [])
  }

  /**
   * One more received segment, while the traceback is too short to stream:
   * the state moves by the reference add-compare-select and nothing is
   * decided.
   */
  lemma Advance(c: Config, syms: seq<Byte>, i: nat, m: seq<nat>, tb: seq<nat>, m': seq<nat>, tb': seq<nat>)
    requires IsExample(c) && i < |syms| && i < 14
    requires After(c, syms, i, m, tb) && Moves(m, tb, syms[i], m', tb')
    ensures After(c, syms, i + 1, m', tb')
  {
    ExampleShape(c);
    var st := DecoderState(m, tb, i, 0, 0);
    DecodeSegmentsSnoc(c, Initial(c), syms, i);
    ExampleStep(c, m, tb, syms[i]);
    var t := TrellisStep(c, st, syms[i]);
    assert t == DecoderState(m', tb', i + 1, 0, 0);
    assert StreamStep(c, t) == Stepped(t, [], []);
  }

  /** Before any segment: the reset state. */
  lemma NoStepVector(c: Config)
    requires IsExample(c)
    ensures After(c, Received, 0, [0, 5, 5, 5], [0, 0, 0, 0])
  {
    ResetVector(c);
    assert Received[..0] == [];
  }

  lemma Move1()
    ensures Received[0] == 1 && Moves([0, 5, 5, 5], [0, 0, 0, 0], 1, [1, 1, 6, 5], [0, 1, 0, 1])
  {
  }

  /** After the first segment {01}: metrics {1,1,6,5} and tracebacks {0,1,0,1}. */
  lemma FirstStepVector(c: Config)
    requires IsExample(c)
    ensures After(c, Received, 1, [1, 1, 6, 5], [0, 1, 0, 1])
  {
    NoStepVector(c);
    Move1();
    Advance(c, Received, 0, [0, 5, 5, 5], [0, 0, 0, 0], [1, 1, 6, 5], [0, 1, 0, 1]);
  }

  lemma Move2()
    ensures Received[1] == 3 && Moves([1, 1, 6, 5], [0, 1, 0, 1], 3, [3, 1, 1, 3], [0, 1, 2, 3])
  {
  }

  /** After two segments: metrics {3,1,1,3}. */
  lemma SecondStepVector(c: Config)
    requires IsExample(c)
    ensures After(c, Received, 2, [3, 1, 1, 3], [0, 1, 2, 3])
  {
    FirstStepVector(c);
    Move2();
    Advance(c, Received, 1, [1, 1, 6, 5], [0, 1, 0, 1], [3, 1, 1, 3], [0, 1, 2, 3]);
  }

  lemma Move3()
    ensures Received[2] == 1 && Moves([3, 1, 1, 3], [0, 1, 2, 3], 1, [1, 3, 2, 2], [4, 5, 2, 3])
  {
  }

  /** After three segments: metrics {1,3,2,2}. */
  lemma ThirdStepVector(c: Config)
    requires IsExample(c)
    ensures After(c, Received, 3, [1, 3, 2, 2], [4, 5, 2, 3])
  {
    SecondStepVector(c);
    Move3();
    Advance(c, Received, 2, [3, 1, 1, 3], [0, 1, 2, 3], [1, 3, 2, 2], [4, 5, 2, 3]);
  }

  lemma Move4()
    ensures Received[3] == 2 && Moves([1, 3, 2, 2], [4, 5, 2, 3], 2, [2, 2, 2, 4], [8, 9, 6, 11])
  {
  }

  /** After four segments: metrics {2,2,2,4} and tracebacks {0b1000,0b1001,0b0110,0b1011}. */
  lemma FourthStepVector(c: Config)
    requires IsExample(c)
    ensures After(c, Received, 4, [2, 2, 2, 4], [8, 9, 6, 11])
  {
    ThirdStepVector(c);
    Move4();
    Advance(c, Received, 3, [1, 3, 2, 2], [4, 5, 2, 3], [2, 2, 2, 4], [8, 9, 6, 11]);
  }

  lemma Move5()
    ensures Received[4] == 2 && Moves([2, 2, 2, 4], [8, 9, 6, 11], 2, [3, 2, 3, 3], [16, 13, 18, 19])
  {
  }

  /** After five segments. */
  lemma FifthStepVector(c: Config)
    requires IsExample(c)
    ensures After(c, Received, 5, [3, 2, 3, 3], [16, 13, 18, 19])
  {
    FourthStepVector(c);
    Move5();
    Advance(c, Received, 4, [2, 2, 2, 4], [8, 9, 6, 11], [3, 2, 3, 3], [16, 13, 18, 19]);
  }

  lemma Move6()
    ensures Received[5] == 3 && Moves([3, 2, 3, 3], [16, 13, 18, 19], 3, [4, 3, 2, 4], [36, 33, 26, 27])
  {
  }

  /** After six segments. */
  lemma SixthStepVector(c: Config)
    requires IsExample(c)
    ensures After(c, Received, 6, [4, 3, 2, 4], [36, 33, 26, 27])
  {
    FifthStepVector(c);
    Move6();
    Advance(c, Received, 5, [3, 2, 3, 3], [16, 13, 18, 19], [4, 3, 2, 4], [36, 33, 26, 27]);
  }

  lemma Move7()
    ensures Received[6] == 1 && Moves([4, 3, 2, 4], [36, 33, 26, 27], 1, [2, 4, 4, 4], [52, 53, 66, 67])
  {
  }

  /** After seven segments, one short of the whole message: state 0 leads with metric 2. */
  lemma SeventhStepVector(c: Config)
    requires IsExample(c)
    ensures After(c, Received, 7, [2, 4, 4, 4], [52, 53, 66, 67])
  {
    SixthStepVector(c);
    Move7();
    Advance(c, Received, 6, [4, 3, 2, 4], [36, 33, 26, 27], [2, 4, 4, 4], [52, 53, 66, 67]);
  }

  lemma Move8()
    ensures Received[7] == 0 && Moves([2, 4, 4, 4], [52, 53, 66, 67], 0, [2, 4, 5, 4], [104, 105, 134, 107])
  {
  }

  /** After eight segments, the whole message. */
  lemma EighthStepVector(c: Config)
    requires IsExample(c)
    ensures After(c, Received, 8, [2, 4, 5, 4], [104, 105, 134, 107])
  {
    SeventhStepVector(c);
    Move8();
    Advance(c, Received, 7, [2, 4, 4, 4], [52, 53, 66, 67], [2, 4, 5, 4], [104, 105, 134, 107]);
  }

  lemma Move9()
    ensures Received[8] == 0 && Moves([2, 4, 5, 4], [104, 105, 134, 107], 0, [2, 4, 5, 4], [208, 209, 214, 211])
  {
  }

  /** After nine segments. */
  lemma NinthStepVector(c: Config)
    requires IsExample(c)
    ensures After(c, Received, 9, [2, 4, 5, 4], [208, 209, 214, 211])
  {
    EighthStepVector(c);
    Move9();
    Advance(c, Received, 8, [2, 4, 5, 4], [104, 105, 134, 107], [2, 4, 5, 4], [208, 209, 214, 211]);
  }

  lemma Move10()
    ensures Received[9] == 0 && Moves([2, 4, 5, 4], [208, 209, 214, 211], 0, [2, 4, 5, 4], [416, 417, 422, 419])
  {
  }

  /** After all ten segments: state 0 has metric 2 and traceback 0b110100000. */
  lemma LastStepVector(c: Config)
    requires IsExample(c)
    ensures After(c, Received, 10, [2, 4, 5, 4], [416, 417, 422, 419])
  {
    NinthStepVector(c);
    Move10();
    Advance(c, Received, 9, [2, 4, 5, 4], [208, 209, 214, 211], [2, 4, 5, 4], [416, 417, 422, 419]);
  }

  /** One more bit shifted into a partial output byte of this code. */
  lemma PushBit(c: Config, s: seq<nat>, j: nat, carry: nat, count: nat, carry': nat)
    requires IsExample(c) && j < |s| && count + 1 < 8 && carry' == 2 * carry + s[j] && carry' < 256
    requires PushAll(c, 0, 0, s[..j]) == Pushed(carry, count, [])
    ensures PushAll(c, 0, 0, s[..j + 1]) == Pushed(carry', count + 1, [])
  {
    ExampleShape(c);
    PushAllSnoc(c, 0, 0, s, j);
    assert PushSegment(c, carry, count, s[j]) == Pushed(carry', count + 1, []);
  }

  /** Pushing the eight bits of 0b01101000 from an empty carry writes that byte and leaves nothing pending. */
  lemma PushExampleByte(c: Config)
    requires IsExample(c)
    ensures PushAll(c, 0, 0, [0, 1, 1, 0, 1, 0, 0, 0]) == Pushed(104, 0, [104])
  {
    ExampleShape(c);
    var s := [0, 1, 1, 0, 1, 0, 0, 0];
    assert s[..0] == [];
    PushBit(c, s, 0, 0, 0, 0);
    PushBit(c, s, 1, 0, 1, 1);
    PushBit(c, s, 2, 1, 2, 3);
    PushBit(c, s, 3, 3, 3, 6);
    PushBit(c, s, 4, 6, 4, 13);
    PushBit(c, s, 5, 13, 5, 26);
    PushBit(c, s, 6, 26, 6, 52);
    PushAllSnoc(c, 0, 0, s, 7);
    assert PushSegment(c, 52, 7, s[7]) == Pushed(104, 0, [104]);
    assert s[..8] == s;
  }

  /** The end of the message drains state 0's traceback 0b110100000 past the two padding bits: 0b01101000. */
  lemma DrainVector(c: Config)
    requires IsExample(c)
    ensures DrainSegments(c, DecoderState([2, 4, 5, 4], [416, 417, 422, 419], 10, 0, 0))
            == [0, 1, 1, 0, 1, 0, 0, 0]
  {
    ExampleShape(c);
    assert DrainCount(c, 10) == 8;
    assert ShiftRight(416, 2) == 104;
    var d := TracebackSegments(c, 104, 8);
    forall j | 0 <= j < 8
      ensures d[j] == [0, 1, 1, 0, 1, 0, 0, 0][j]
    {
      assert (7 - j) * c.k == 7 - j;
      if j == 0 {
      } else if j == 1 {
      } else if j == 2 {
      } else if j == 3 {
      } else if j == 4 {
      } else if j == 5 {
      } else if j == 6 {
      } else {
      }
    }
  }

  /** The corrupted sequence, as one whole message, decodes to 0b01101000; the call returns 1 and resets the decoder. */
  lemma CorruptedDecodeVector(c: Config)
    requires IsExample(c)
    ensures var r := ViterbiDecode(c, Initial(c), Received, true);
            r.out == [0x68] && r.outcome == Returned(1) && r.state == Initial(c)
  {
    ExampleShape(c);
    LastStepVector(c);
    assert Received[..10] == Received;
    DrainVector(c);
    PushExampleByte(c);
  }
}
