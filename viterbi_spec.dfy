/**
 * What the general hard-decision Viterbi decoder computes, as functions of
 * its state. Each received segment updates every state's path metric by
 * add-compare-select over the 2^k edges into it, appends the edge's input
 * chunk to the winner's traceback, and, once TRACEBACK_LEN segments have been
 * received, emits the chunk TRACEBACK_LEN-1 steps back on the traceback of
 * the state with the least metric. At the end of a message the rest of state
 * 0's traceback is emitted, minus the S chunks of termination padding.
 *
 * Widths follow the C types: metrics are uint32_t, tracebacks uint64_t and
 * the output carry a uint8_t; each update is written with its truncation.
 */
module ViterbiSpec {
  import opened Bits
  import opened CodeParams
  import opened EncoderSpec
  import opened Trellis
  import opened Hamming

  /** METRIC_TYPE is uint32_t. */
  const MetricModulus: nat := 0x1_0000_0000
  /** TRACEBACK_TYPE is uint64_t. */
  const TracebackWidth: nat := 64

  function TracebackModulus(): nat
  {
    Pow2(TracebackWidth)
  }

  /** uint32_t addition. */
  function MetricAdd(m: nat, d: nat): (r: nat)
    ensures r < MetricModulus
    ensures m + d < MetricModulus ==> r == m + d
  {
    (m + d) % MetricModulus
  }

  // ---------------------------------------------------------------------------
  // Selecting a least element, the lowest index on ties

  /** r indexes a least element of xs[lo..hi], and no element before it in the block is as small. */
  predicate IsBlockMin(xs: seq<nat>, lo: nat, hi: nat, r: nat)
  {
    lo <= r < hi <= |xs| &&
    (forall j :: lo <= j < hi ==> xs[r] <= xs[j]) &&
    (forall j :: lo <= j < r ==> xs[r] < xs[j])
  }

  predicate IsFirstMin(xs: seq<nat>, r: nat)
  {
    IsBlockMin(xs, 0, |xs|, r)
  }

  /** The lowest index of a least element. */
  function FirstMin(xs: seq<nat>): (r: nat)
    requires |xs| > 0
    ensures IsFirstMin(xs, r)
  {
    if |xs| == 1 then 0
    else
      var r := FirstMin(xs[..|xs| - 1]);
      if xs[r] <= xs[|xs| - 1] then r else |xs| - 1
  }

  /** Only one index is the first least element. */
  lemma FirstMinUnique(xs: seq<nat>, r1: nat, r2: nat)
    requires IsFirstMin(xs, r1) && IsFirstMin(xs, r2)
    ensures r1 == r2
  {
    assert xs[r1] == xs[r2];
  }

  // ---------------------------------------------------------------------------
  // Add-compare-select

  /** The distance between the segment on the edge leaving s with input e and the received byte. */
  function BranchMetric(c: Config, s: nat, e: nat, sym: Byte): nat
  {
    HammingDist(EdgeSymbol(c, s, e), sym, 8)
  }

  /** The metric of the path into dst through its e-th enumerated predecessor. */
  function PathMetric(c: Config, metrics: seq<nat>, sym: Byte, dst: nat, e: nat): nat
    requires ValidDecoder(c) && |metrics| == c.NumStates() && dst < c.NumStates() && e < c.NumEdges()
  {
    var src := Source(c, dst, e);
    SourceInRange(c, dst, e);
    MetricAdd(metrics[src], BranchMetric(c, src, dst % c.NumEdges(), sym))
  }

  function PathMetrics(c: Config, metrics: seq<nat>, sym: Byte, dst: nat): (r: seq<nat>)
    requires ValidDecoder(c) && |metrics| == c.NumStates() && dst < c.NumStates()
    ensures |r| == c.NumEdges()
  {
    seq(c.NumEdges(), e requires 0 <= e < c.NumEdges() => PathMetric(c, metrics, sym, dst, e))
  }

  /** Which enumerated predecessor of dst survives. */
  function Survivor(c: Config, metrics: seq<nat>, sym: Byte, dst: nat): (r: nat)
    requires ValidDecoder(c) && |metrics| == c.NumStates() && dst < c.NumStates()
    ensures r < c.NumEdges()
  {
    FirstMin(PathMetrics(c, metrics, sym, dst))
  }

  function NextMetrics(c: Config, metrics: seq<nat>, sym: Byte): (r: seq<nat>)
    requires ValidDecoder(c) && |metrics| == c.NumStates()
    ensures |r| == c.NumStates()
  {
    seq(c.NumStates(), dst requires 0 <= dst < c.NumStates() =>
      PathMetrics(c, metrics, sym, dst)[Survivor(c, metrics, sym, dst)])
  }

  /**
   * uint64_t (tb << k) | e. The shifted value has k zero low bits and e < 2^k,
   * so the or is an addition.
   */
  function TbAppend(c: Config, tb: nat, e: nat): nat
  {
    var q := c.NumEdges();
    (tb * q) % TracebackModulus() + e
  }

  function NextTracebacks(c: Config, metrics: seq<nat>, tracebacks: seq<nat>, sym: Byte): (r: seq<nat>)
    requires ValidDecoder(c) && |metrics| == c.NumStates() && |tracebacks| == c.NumStates()
    ensures |r| == c.NumStates()
  {
    seq(c.NumStates(), dst requires 0 <= dst < c.NumStates() =>
      var src := Source(c, dst, Survivor(c, metrics, sym, dst));
      SourceInRange(c, dst, Survivor(c, metrics, sym, dst));
      TbAppend(c, tracebacks[src], dst % c.NumEdges()))
  }

  /** Entry dst of NextMetrics: the survivor's path metric. */
  lemma NextMetricsAt(c: Config, metrics: seq<nat>, sym: Byte, dst: nat)
    requires ValidDecoder(c) && |metrics| == c.NumStates() && dst < c.NumStates()
    ensures NextMetrics(c, metrics, sym)[dst] == PathMetrics(c, metrics, sym, dst)[Survivor(c, metrics, sym, dst)]
  {
  }

  /** Entry dst of NextTracebacks: the survivor's traceback with dst's chunk appended. */
  lemma NextTracebacksAt(c: Config, metrics: seq<nat>, tracebacks: seq<nat>, sym: Byte, dst: nat, src: nat)
    requires ValidDecoder(c) && |metrics| == c.NumStates() && |tracebacks| == c.NumStates() && dst < c.NumStates()
    requires src == Source(c, dst, Survivor(c, metrics, sym, dst)) && src < c.NumStates()
    ensures NextTracebacks(c, metrics, tracebacks, sym)[dst] == TbAppend(c, tracebacks[src], dst % c.NumEdges())
  {
    var r := NextTracebacks(c, metrics, tracebacks, sym);
    assert r[dst] == TbAppend(c, tracebacks[Source(c, dst, Survivor(c, metrics, sym, dst))], dst % c.NumEdges());
  }

  // ---------------------------------------------------------------------------
  // Output packing

  /** x >> b: b halvings. */
  function ShiftRight(x: nat, b: nat): nat
  {
    if b == 0 then x else ShiftRight(x / 2, b - 1)
  }

  lemma {:induction false} ShiftRightIsDiv(x: nat, b: nat)
    ensures ShiftRight(x, b) == x / Pow2(b)
  {
    if b > 0 {
      ShiftRightIsDiv(x / 2, b - 1);
      DivPow2Succ(x, b - 1);
    }
  }

  /** The chunk at depth TRACEBACK_LEN-1 of a traceback: its k bits above the (TRACEBACK_LEN-1)*k lowest. */
  function StreamSegment(c: Config, tb: nat): nat
    requires c.K >= 1
  {
    ShiftRight(tb, (c.TracebackLen() - 1) * c.k) % c.NumEdges()
  }

  /** Output carry and its bit count after pushing segments, and the bytes completed. */
  datatype Pushed = Pushed(carry: nat, count: nat, out: seq<Byte>)

  /**
   * Shifting one k-bit segment into the uint8_t carry, MSB side first; the
   * eighth bit completes a byte, which is emitted, and the count restarts.
   */
  function PushSegment(c: Config, carry: nat, count: nat, seg: nat): (r: Pushed)
  {
    var carry' := (carry * c.NumEdges() + seg) % 256;
    if count + c.k == 8 then Pushed(carry', 0, [carry']) else Pushed(carry', count + c.k, [])
  }

  /** Pushing segments in order. */
  function PushAll(c: Config, carry: nat, count: nat, segs: seq<nat>): (r: Pushed)
  {
    if |segs| == 0 then Pushed(carry, count, [])
    else
      var p := PushAll(c, carry, count, segs[..|segs| - 1]);
      var p' := PushSegment(c, p.carry, p.count, segs[|segs| - 1]);
      Pushed(p'.carry, p'.count, p.out + p'.out)
  }

  /** The i-th k-bit chunk of tb, counting from the least significant. */
  function TracebackChunk(c: Config, tb: nat, i: nat): nat
  {
    ShiftRight(tb, i * c.k) % c.NumEdges()
  }

  /** The r lowest k-bit chunks of tb, oldest (most significant) first. */
  function TracebackSegments(c: Config, tb: nat, r: nat): (segs: seq<nat>)
    ensures |segs| == r
  {
    seq(r, j requires 0 <= j < r => TracebackChunk(c, tb, r - 1 - j))
  }

  // ---------------------------------------------------------------------------
  // The decoder's state and its evolution

  datatype DecoderState = DecoderState(metrics: seq<nat>, tracebacks: seq<nat>, iteration: nat,
                                       carry: nat, carryCount: nat)

  /** Shape of a state: one metric and traceback per trellis state, a partial byte of whole chunks. */
  predicate WellFormed(c: Config, st: DecoderState)
  {
    |st.metrics| == c.NumStates() && |st.tracebacks| == c.NumStates() &&
    st.carry < 256 && st.carryCount < 8 && (c.k > 0 ==> st.carryCount % c.k == 0)
  }

  /** NUM_STATES + 1 in a uint32_t: the metric that keeps a state off every survivor at first. */
  function ForceNot(c: Config): nat
  {
    (c.NumStates() + 1) % MetricModulus
  }

  function InitialMetric(c: Config, i: int): nat
  {
    if i == StartingState then 0 else ForceNot(c)
  }

  /** The state after a reset: only the starting state has metric 0. */
  function Initial(c: Config): (st: DecoderState)
    ensures WellFormed(c, st)
  {
    DecoderState(seq(c.NumStates(), i => InitialMetric(c, i)), seq(c.NumStates(), _ => 0), 0, 0, 0)
  }

  /** State after some received segments, the chunks decided on the way and the bytes they completed. */
  datatype Stepped = Stepped(state: DecoderState, segs: seq<nat>, out: seq<Byte>)

  /** Add-compare-select for every state, and one more iteration counted; the output carry is untouched. */
  function TrellisStep(c: Config, st: DecoderState, sym: Byte): (r: DecoderState)
    requires ValidDecoder(c) && WellFormed(c, st)
    ensures WellFormed(c, r)
  {
    DecoderState(NextMetrics(c, st.metrics, sym), NextTracebacks(c, st.metrics, st.tracebacks, sym),
                 st.iteration + 1, st.carry, st.carryCount)
  }

  /** Once the traceback is deep enough, the chunk of the first least-metric state is pushed into the output. */
  function StreamStep(c: Config, st: DecoderState): (r: Stepped)
    requires ValidDecoder(c) && WellFormed(c, st)
    ensures WellFormed(c, r.state)
  {
    if st.iteration >= c.TracebackLen() then
      var seg := StreamSegment(c, st.tracebacks[FirstMin(st.metrics)]);
      var p := PushSegment(c, st.carry, st.carryCount, seg);
      PushWellFormed(c, st.carry, st.carryCount, seg);
      Stepped(st.(carry := p.carry, carryCount := p.count), [seg], p.out)
    else
      Stepped(st, [], [])
  }

  /** One received segment: add-compare-select everywhere, then stream a chunk once the traceback is deep enough. */
  function DecodeStep(c: Config, st: DecoderState, sym: Byte): (r: Stepped)
    requires ValidDecoder(c) && WellFormed(c, st)
    ensures WellFormed(c, r.state)
  {
    StreamStep(c, TrellisStep(c, st, sym))
  }

  /** Received segments in order. */
  function DecodeSegments(c: Config, st: DecoderState, syms: seq<Byte>): (r: Stepped)
    requires ValidDecoder(c) && WellFormed(c, st)
    ensures WellFormed(c, r.state)
  {
    if |syms| == 0 then Stepped(st, [], [])
    else
      var r := DecodeSegments(c, st, syms[..|syms| - 1]);
      var r' := DecodeStep(c, r.state, syms[|syms| - 1]);
      Stepped(r'.state, r.segs + r'.segs, r.out + r'.out)
  }

  /** How many chunks of state 0's traceback the end of a message emits: the unstreamed ones, minus S padding chunks. */
  function DrainCount(c: Config, iteration: nat): nat
  {
    var remaining := if iteration < c.TracebackLen() - 1 then iteration else c.TracebackLen() - 1;
    if remaining < c.S() then 0 else remaining - c.S()
  }

  /** S*k, the bits of termination padding. */
  function PaddingBits(c: Config): nat
  {
    c.S() * c.k
  }

  /** The chunks emitted at the end of a message, oldest first. */
  function DrainSegments(c: Config, st: DecoderState): seq<nat>
    requires |st.tracebacks| > 0
  {
    TracebackSegments(c, ShiftRight(st.tracebacks[0], PaddingBits(c)), DrainCount(c, st.iteration))
  }

  /** Result of one call: the new state, the chunks decided, the bytes written, and the return value or exit status. */
  datatype Decoded = Decoded(state: DecoderState, segs: seq<nat>, out: seq<Byte>, outcome: Outcome)

  /**
   * The end of a message: drain state 0's traceback into the output; exit(1)
   * if a partial byte remains, else reset the decoder for the next message.
   */
  function FinishMessage(c: Config, s: Stepped): (r: Decoded)
    requires ValidDecoder(c) && WellFormed(c, s.state)
  {
    var drained := DrainSegments(c, s.state);
    var p := PushAll(c, s.state.carry, s.state.carryCount, drained);
    var out := s.out + p.out;
    if p.count != 0 then
      Decoded(DecoderState(s.state.metrics, s.state.tracebacks, s.state.iteration, p.carry, p.count),
              s.segs + drained, out, Exited(1))
    else Decoded(Initial(c), s.segs + drained, out, Returned(|out|))
  }

  /** viterbiDecoderHard: decode the segments, and finish the message on `last`. */
  function ViterbiDecode(c: Config, st: DecoderState, syms: seq<Byte>, last: bool): (r: Decoded)
    requires ValidDecoder(c) && WellFormed(c, st)
  {
    var s := DecodeSegments(c, st, syms);
    if !last then Decoded(s.state, s.segs, s.out, Returned(|s.out|))
    else FinishMessage(c, s)
  }

  // ---------------------------------------------------------------------------
  // Properties

  /** Pushing keeps the carry a byte and its count a whole number of chunks below 8. */
  lemma PushWellFormed(c: Config, carry: nat, count: nat, seg: nat)
    requires ValidDecoder(c) && count < 8 && count % c.k == 0
    ensures var p := PushSegment(c, carry, count, seg);
            p.carry < 256 && p.count < 8 && p.count % c.k == 0 &&
            |p.out| == (count + c.k) / 8 && p.count == (count + c.k) % 8
  {
    ChunkFits(c.k, count);
  }

  /** A count of whole chunks below 8 has room for one more chunk. */
  lemma ChunkFits(k: nat, count: nat)
    requires 1 <= k && 8 % k == 0 && count < 8 && count % k == 0
    ensures count + k <= 8 && (count + k) % k == 0
  {
    DivModDecompose(count, k);
    DivModDecompose(8, k);
    var a, b := count / k, 8 / k;
    assert count == k * a && 8 == k * b;
    if a >= b {
      MulMonotone(k, b, a);
    } else {
      MulMonotone(k, a + 1, b);
    }
    DivModUnique(count + k, k, a + 1, 0);
  }

  // ---------------------------------------------------------------------------
  // Output packing: the bytes written are the pushed chunks, MSB first

  /** The bits of a run of k-bit segments, each most significant bit first. */
  function Chunks(c: Config, segs: seq<nat>): (r: seq<Bit>)
  {
    if |segs| == 0 then [] else Chunks(c, segs[..|segs| - 1]) + BigEndianBits(segs[|segs| - 1], c.k)
  }

  lemma {:induction false} ChunksLength(c: Config, segs: seq<nat>)
    ensures |Chunks(c, segs)| == c.k * |segs|
  {
    if |segs| > 0 {
      ChunksLength(c, segs[..|segs| - 1]);
      MulPred(|segs|, c.k);
    }
  }

  lemma {:induction false} ChunksAppend(c: Config, a: seq<nat>, b: seq<nat>)
    ensures Chunks(c, a + b) == Chunks(c, a) + Chunks(c, b)
    decreases |b|
  {
    if |b| == 0 {
      assert a + b == a;
    } else {
      var b' := b[..|b| - 1];
      assert (a + b)[..|a + b| - 1] == a + b';
      ChunksAppend(c, a, b');
      ConcatAssoc(Chunks(c, a), Chunks(c, b'), BigEndianBits(b[|b| - 1], c.k));
    }
  }

  /**
   * One push appends the segment's k bits to the pending bits of the carry;
   * a completed byte moves them, in order, to the output.
   */
  lemma PushSegmentPacks(c: Config, carry: nat, count: nat, seg: nat)
    requires ValidDecoder(c) && count < 8 && count % c.k == 0 && seg < c.NumEdges()
    ensures var p := PushSegment(c, carry, count, seg);
            MessageBits(p.out) + BigEndianBits(p.carry, p.count)
            == BigEndianBits(carry, count) + BigEndianBits(seg, c.k)
  {
    ChunkFits(c.k, count);
    PushSegmentBits(c, carry, count, seg);
  }

  /** What a push leaves pending or emits is the pending bits followed by the segment's. */
  lemma PushSegmentBits(c: Config, carry: nat, count: nat, seg: nat)
    requires count + c.k <= 8 && seg < c.NumEdges()
    ensures var p := PushSegment(c, carry, count, seg);
            MessageBits(p.out) + BigEndianBits(p.carry, p.count)
            == BigEndianBits(carry, count) + BigEndianBits(seg, c.k)
  {
    var p := PushSegment(c, carry, count, seg);
    CarryShiftIn(carry, count, seg, c.k, c.NumEdges());
    if count + c.k == 8 {
      MessageBitsOfByte(p.carry);
    }
  }

  lemma MessageBitsOfByte(b: Byte)
    ensures MessageBits([b]) == BigEndianBits(b, 8)
  {
    assert MessageBits([b]) == BigEndianBits(b, 8) + MessageBits([]);
  }

  /** Shifting seg < 2^k into a uint8_t holding `count` pending bits appends seg's k bits to them. */
  lemma CarryShiftIn(carry: nat, count: nat, seg: nat, k: nat, q: nat)
    requires count + k <= 8 && q == Pow2(k) && seg < q
    ensures BigEndianBits((carry * q + seg) % 256, count + k)
            == BigEndianBits(carry, count) + BigEndianBits(seg, k)
  {
    var m := count + k;
    var v := carry * q + seg;
    Pow2Byte();
    BigEndianBitsMod(v % 256, m);
    ModPow2Nest(v, m, 8);
    BigEndianBitsMod(v, m);
    BigEndianBitsConcat(carry, count, seg, k);
  }

  /**
   * Pushing a run of segments: the output bytes followed by the bits still
   * pending in the carry are the bits pending before followed by every
   * segment's k bits, and each completed byte accounts for 8 of them.
   */
  lemma {:induction false} PushAllPacks(c: Config, carry: nat, count: nat, segs: seq<nat>)
    requires ValidDecoder(c) && count < 8 && count % c.k == 0
    requires forall i :: 0 <= i < |segs| ==> segs[i] < c.NumEdges()
    ensures var p := PushAll(c, carry, count, segs);
            MessageBits(p.out) + BigEndianBits(p.carry, p.count)
              == BigEndianBits(carry, count) + Chunks(c, segs) &&
            8 * |p.out| + p.count == count + c.k * |segs| &&
            p.count < 8 && p.count % c.k == 0
  {
    if |segs| > 0 {
      assert c.k * |segs| == c.k * (|segs| - 1) + c.k;
      var prefix, last := segs[..|segs| - 1], segs[|segs| - 1];
      var p := PushAll(c, carry, count, prefix);
      PushAllPacks(c, carry, count, prefix);
      var p' := PushSegment(c, p.carry, p.count, last);
      PushSegmentPacks(c, p.carry, p.count, last);
      PushWellFormed(c, p.carry, p.count, last);
      assert segs == prefix + [last];
      ChunksAppend(c, prefix, [last]);
      assert Chunks(c, [last]) == BigEndianBits(last, c.k);
      ComposePacking(p.out, p'.out, BigEndianBits(carry, count), BigEndianBits(p.carry, p.count),
                     BigEndianBits(p'.carry, p'.count), Chunks(c, prefix), Chunks(c, [last]));
      assert 8 * |p'.out| + p'.count == p.count + c.k by {
        DivModDecompose(p.count + c.k, 8);
      }
    } else {
      assert c.k * |segs| == 0;
    }
  }

  /**
   * Two packing steps in a row: bytes o1 then o2 written, pending bits p0 then
   * p1 then p2, chunk bits s1 then s2 pushed.
   */
  lemma ComposePacking(o1: seq<Byte>, o2: seq<Byte>, p0: seq<Bit>, p1: seq<Bit>, p2: seq<Bit>,
                       s1: seq<Bit>, s2: seq<Bit>)
    requires MessageBits(o1) + p1 == p0 + s1 && MessageBits(o2) + p2 == p1 + s2
    ensures MessageBits(o1 + o2) + p2 == p0 + (s1 + s2)
  {
    MessageBitsAppend(o1, o2);
    calc {
      MessageBits(o1 + o2) + p2;
      (MessageBits(o1) + MessageBits(o2)) + p2;
      { ConcatAssoc(MessageBits(o1), MessageBits(o2), p2); }
      MessageBits(o1) + (p1 + s2);
      { ConcatAssoc(MessageBits(o1), p1, s2); }
      (p0 + s1) + s2;
      { ConcatAssoc(p0, s1, s2); }
      p0 + (s1 + s2);
    }
  }


  // ---------------------------------------------------------------------------
  // Tracebacks: the uint64_t keeps the newest 64 bits of the chunks appended

  /** The traceback built by appending chunks es to an empty one. */
  function TbOf(c: Config, es: seq<nat>): nat
  {
    if |es| == 0 then 0 else TbAppend(c, TbOf(c, es[..|es| - 1]), es[|es| - 1])
  }

  /** x mod (r*q) keeps x mod r. */
  lemma ModOfMultipleModulus(x: nat, r: nat, q: nat)
    requires r > 0 && q > 0
    ensures (x % (r * q)) % r == x % r
  {
    DivDiv(x, r, q);
    DivModUnique(x % (r * q), r, (x / r) % q, x % r);
  }

  /** Shift-and-or of a chunk into a value truncated to M = r*q bits, in radix arithmetic. */
  lemma AppendModulo(x: nat, r: nat, q: nat, e: nat)
    requires r > 0 && q > 0 && e < q
    ensures ((x % (r * q)) * q) % (r * q) + e == (x * q + e) % (r * q)
  {
    MixedRadix(r, q, x, e);
    MixedRadix(r, q, x % (r * q), 0);
    ModOfMultipleModulus(x, r, q);
  }

  /** A traceback is the 64 newest bits of its chunks, MSB first. */
  lemma {:induction false} TbOfIsLowBits(c: Config, es: seq<nat>)
    requires ValidDecoder(c)
    requires forall i :: 0 <= i < |es| ==> es[i] < c.NumEdges()
    ensures TbOf(c, es) == PackMsb(Chunks(c, es)) % TracebackModulus()
  {
    if |es| > 0 {
      var prefix := es[..|es| - 1];
      TbOfIsLowBits(c, prefix);
      PackChunksSnoc(c, es);
      TbAppendTruncates(c, PackMsb(Chunks(c, prefix)), es[|es| - 1]);
    } else {
      assert PackMsb(Chunks(c, es)) == 0;
      assert 0 % TracebackModulus() == 0;
    }
  }


  /** Appending to the truncation of x is truncating the append to x. */
  lemma TbAppendTruncates(c: Config, x: nat, e: nat)
    requires ValidDecoder(c) && e < c.NumEdges()
    ensures TbAppend(c, x % TracebackModulus(), e) == (x * c.NumEdges() + e) % TracebackModulus()
  {
    TruncatedAppend(x, c.k, e, TracebackWidth);
  }

  lemma PackChunksSnoc(c: Config, a: seq<nat>)
    requires |a| > 0 && a[|a| - 1] < c.NumEdges()
    ensures PackMsb(Chunks(c, a)) == PackMsb(Chunks(c, a[..|a| - 1])) * c.NumEdges() + a[|a| - 1]
  {
    var e := a[|a| - 1];
    PackMsbAppend(Chunks(c, a[..|a| - 1]), BigEndianBits(e, c.k));
    PackMsbOfBigEndian(e, c.k);
    DivModUnique(e, c.NumEdges(), 0, e);
  }

  /** Appending a k-bit chunk to a w-bit truncation truncates the appended value. */
  lemma TruncatedAppend(x: nat, k: nat, e: nat, w: nat)
    requires k <= w && e < Pow2(k)
    ensures ((x % Pow2(w)) * Pow2(k)) % Pow2(w) + e == (x * Pow2(k) + e) % Pow2(w)
  {
    Pow2Add(w - k, k);
    assert w - k + k == w;
    AppendModulo(x, Pow2(w - k), Pow2(k), e);
  }

  /**
   * StreamSegment picks the chunk appended TRACEBACK_LEN-1 appends ago, as
   * long as TRACEBACK_LEN chunks fit in the 64-bit traceback.
   */
  lemma StreamSegmentOfTb(c: Config, es: seq<nat>)
    requires ValidDecoder(c) && c.TracebackLen() * c.k <= TracebackWidth
    requires |es| >= c.TracebackLen()
    requires forall i :: 0 <= i < |es| ==> es[i] < c.NumEdges()
    ensures StreamSegment(c, TbOf(c, es)) == es[|es| - c.TracebackLen()]
  {
    var j := |es| - c.TracebackLen() + 1;
    var d := (c.TracebackLen() - 1) * c.k;
    assert |es| - j == c.TracebackLen() - 1;
    assert c.k * (c.TracebackLen() - 1) == (c.TracebackLen() - 1) * c.k;
    assert c.k * (|es| - j) == d;
    assert d + c.k == c.TracebackLen() * c.k;
    var head := es[..j];
    ChunksSplitAt(c, es, j);
    TbOfIsLowBits(c, es);
    StreamSegmentOfTruncated(c, PackMsb(Chunks(c, es)), PackMsb(Chunks(c, head)), PackMsb(Chunks(c, es[j..])));
    assert head[j - 1] == es[j - 1];
    LastChunk(c, head);
  }

  /** ChunksSplit at an index of one run of chunks. */
  lemma ChunksSplitAt(c: Config, es: seq<nat>, j: nat)
    requires j <= |es|
    ensures PackMsb(Chunks(c, es)) == PackMsb(Chunks(c, es[..j])) * Pow2(c.k * (|es| - j)) + PackMsb(Chunks(c, es[j..]))
    ensures PackMsb(Chunks(c, es[j..])) < Pow2(c.k * (|es| - j))
  {
    assert es == es[..j] + es[j..];
    ChunksSplit(c, es[..j], es[j..]);
  }

  /** On a traceback holding a * 2^((TRACEBACK_LEN-1)k) + b, StreamSegment reads the low chunk of a. */
  lemma StreamSegmentOfTruncated(c: Config, x: nat, a: nat, b: nat)
    requires ValidDecoder(c) && (c.TracebackLen() - 1) * c.k + c.k <= TracebackWidth
    requires x == a * Pow2((c.TracebackLen() - 1) * c.k) + b && b < Pow2((c.TracebackLen() - 1) * c.k)
    ensures StreamSegment(c, x % TracebackModulus()) == a % c.NumEdges()
  {
    TruncatedDigit(x, a, b, (c.TracebackLen() - 1) * c.k, c.k, TracebackWidth);
  }

  /** The packed bits of two runs of chunks: the first run's value shifted above the second's. */
  lemma ChunksSplit(c: Config, a: seq<nat>, b: seq<nat>)
    ensures PackMsb(Chunks(c, a + b)) == PackMsb(Chunks(c, a)) * Pow2(c.k * |b|) + PackMsb(Chunks(c, b))
    ensures PackMsb(Chunks(c, b)) < Pow2(c.k * |b|)
  {
    ChunksAppend(c, a, b);
    ChunksLength(c, b);
    PackMsbAppend(Chunks(c, a), Chunks(c, b));
    PackMsbBound(Chunks(c, b));
  }

  /** The low k bits of packed chunks are the last chunk. */
  lemma LastChunk(c: Config, a: seq<nat>)
    requires |a| > 0 && a[|a| - 1] < c.NumEdges()
    ensures PackMsb(Chunks(c, a)) % c.NumEdges() == a[|a| - 1]
  {
    var prefix := a[..|a| - 1];
    var e, q := a[|a| - 1], c.NumEdges();
    var x, y := PackMsb(Chunks(c, a)), PackMsb(Chunks(c, prefix));
    PackChunksSnoc(c, a);
    DigitOf(x, q, y, e);
  }

  lemma DigitOf(x: nat, q: nat, y: nat, e: nat)
    requires x == y * q + e && e < q
    ensures x % q == e
  {
    DivModUnique(x, q, y, e);
  }

  /** The k bits above the d lowest of a w-bit truncation, when d + k <= w. */
  lemma TruncatedDigit(x: nat, a: nat, b: nat, d: nat, k: nat, w: nat)
    requires x == a * Pow2(d) + b && b < Pow2(d) && d + k <= w
    ensures ShiftRight(x % Pow2(w), d) % Pow2(k) == a % Pow2(k)
  {
    var hi := w - d;
    ShiftRightIsDiv(x % Pow2(w), d);
    DivModUnique(x, Pow2(d), a, b);
    DivPow2Add(x, d, hi);
    assert d + hi == w;
    DivModDecompose(x / Pow2(d), Pow2(hi));
    DivModUnique(x % Pow2(w), Pow2(d), (x / Pow2(d)) % Pow2(hi), x % Pow2(d));
    ModPow2Nest(a, k, hi);
  }

  // ---------------------------------------------------------------------------
  // How much a call decides and writes

  /** How many chunks have been streamed once `iteration` segments have been received. */
  function Streamed(c: Config, iteration: nat): nat
  {
    if iteration >= c.TracebackLen() then iteration - c.TracebackLen() + 1 else 0
  }

  /**
   * One received segment streams a chunk exactly when the traceback has
   * become deep enough, and the bytes written followed by the carry's pending
   * bits extend the previously pending bits by that chunk.
   */
  lemma DecodeStepPacks(c: Config, st: DecoderState, sym: Byte)
    requires ValidDecoder(c) && WellFormed(c, st)
    ensures var r := DecodeStep(c, st, sym);
            r.state.iteration == st.iteration + 1 &&
            |r.segs| == Streamed(c, r.state.iteration) - Streamed(c, st.iteration) &&
            (forall i :: 0 <= i < |r.segs| ==> r.segs[i] < c.NumEdges()) &&
            MessageBits(r.out) + BigEndianBits(r.state.carry, r.state.carryCount)
              == BigEndianBits(st.carry, st.carryCount) + Chunks(c, r.segs)
  {
    var mid := TrellisStep(c, st, sym);
    assert mid.iteration == st.iteration + 1 && mid.carry == st.carry && mid.carryCount == st.carryCount;
    StreamStepPacks(c, mid);
  }

  /** The streaming half of a step: a chunk exactly when the traceback is deep enough, packed after the pending bits. */
  lemma StreamStepPacks(c: Config, st: DecoderState)
    requires ValidDecoder(c) && WellFormed(c, st) && st.iteration >= 1
    ensures var r := StreamStep(c, st);
            r.state.iteration == st.iteration &&
            |r.segs| == Streamed(c, st.iteration) - Streamed(c, st.iteration - 1) &&
            (forall i :: 0 <= i < |r.segs| ==> r.segs[i] < c.NumEdges()) &&
            MessageBits(r.out) + BigEndianBits(r.state.carry, r.state.carryCount)
              == BigEndianBits(st.carry, st.carryCount) + Chunks(c, r.segs)
  {
    var r := StreamStep(c, st);
    if st.iteration >= c.TracebackLen() {
      var seg := r.segs[0];
      assert r.segs == [seg];
      assert Chunks(c, r.segs) == BigEndianBits(seg, c.k);
      PushSegmentPacks(c, st.carry, st.carryCount, seg);
    } else {
      assert r.segs == [] && r.out == [] && r.state.carry == st.carry && r.state.carryCount == st.carryCount;
    }
  }

  /** DecodeStepPacks over a run of received segments. */
  lemma {:induction false} DecodeSegmentsPacks(c: Config, st: DecoderState, syms: seq<Byte>)
    requires ValidDecoder(c) && WellFormed(c, st)
    ensures var r := DecodeSegments(c, st, syms);
            r.state.iteration == st.iteration + |syms| &&
            |r.segs| == Streamed(c, r.state.iteration) - Streamed(c, st.iteration) &&
            (forall i :: 0 <= i < |r.segs| ==> r.segs[i] < c.NumEdges()) &&
            MessageBits(r.out) + BigEndianBits(r.state.carry, r.state.carryCount)
              == BigEndianBits(st.carry, st.carryCount) + Chunks(c, r.segs)
  {
    if |syms| > 0 {
      var prefix, sym := syms[..|syms| - 1], syms[|syms| - 1];
      var r := DecodeSegments(c, st, prefix);
      DecodeSegmentsPacks(c, st, prefix);
      var r' := DecodeStep(c, r.state, sym);
      DecodeStepPacks(c, r.state, sym);
      ComposeRuns(c, st, r, r', |prefix|);
    } else {
      assert Chunks(c, []) == [];
    }
  }

  /** A run of n segments followed by one more step: the packing equations and the counts compose. */
  lemma ComposeRuns(c: Config, st: DecoderState, r: Stepped, r': Stepped, n: nat)
    requires r.state.iteration == st.iteration + n
    requires |r.segs| == Streamed(c, r.state.iteration) - Streamed(c, st.iteration)
    requires forall i :: 0 <= i < |r.segs| ==> r.segs[i] < c.NumEdges()
    requires MessageBits(r.out) + BigEndianBits(r.state.carry, r.state.carryCount)
               == BigEndianBits(st.carry, st.carryCount) + Chunks(c, r.segs)
    requires r'.state.iteration == r.state.iteration + 1
    requires |r'.segs| == Streamed(c, r'.state.iteration) - Streamed(c, r.state.iteration)
    requires forall i :: 0 <= i < |r'.segs| ==> r'.segs[i] < c.NumEdges()
    requires MessageBits(r'.out) + BigEndianBits(r'.state.carry, r'.state.carryCount)
               == BigEndianBits(r.state.carry, r.state.carryCount) + Chunks(c, r'.segs)
    ensures var segs := r.segs + r'.segs;
            r'.state.iteration == st.iteration + n + 1 &&
            |segs| == Streamed(c, r'.state.iteration) - Streamed(c, st.iteration) &&
            (forall i :: 0 <= i < |segs| ==> segs[i] < c.NumEdges()) &&
            MessageBits(r.out + r'.out) + BigEndianBits(r'.state.carry, r'.state.carryCount)
              == BigEndianBits(st.carry, st.carryCount) + Chunks(c, segs)
  {
    ChunksAppend(c, r.segs, r'.segs);
    ComposePacking(r.out, r'.out, BigEndianBits(st.carry, st.carryCount),
                   BigEndianBits(r.state.carry, r.state.carryCount),
                   BigEndianBits(r'.state.carry, r'.state.carryCount), Chunks(c, r.segs), Chunks(c, r'.segs));
  }

  /** Draining state 0's traceback decides DrainCount chunks and packs them after the pending bits. */
  lemma DrainPacks(c: Config, st: DecoderState)
    requires ValidDecoder(c) && WellFormed(c, st)
    ensures var d := DrainSegments(c, st);
            var p := PushAll(c, st.carry, st.carryCount, d);
            |d| == DrainCount(c, st.iteration) &&
            (forall i :: 0 <= i < |d| ==> d[i] < c.NumEdges()) &&
            MessageBits(p.out) + BigEndianBits(p.carry, p.count)
              == BigEndianBits(st.carry, st.carryCount) + Chunks(c, d) &&
            8 * |p.out| + p.count == st.carryCount + c.k * |d| &&
            p.count < 8 && p.count % c.k == 0
  {
    var d := DrainSegments(c, st);
    var tb, r := ShiftRight(st.tracebacks[0], PaddingBits(c)), DrainCount(c, st.iteration);
    forall j | 0 <= j < |d| ensures d[j] < c.NumEdges() {
      assert d[j] == TracebackChunk(c, tb, r - 1 - j);
    }
    PushAllPacks(c, st.carry, st.carryCount, d);
  }


  /**
   * Finishing a message appends state 0's DrainCount drained chunks to those
   * decided; the bytes written followed by the bits left pending are the
   * bytes and pending bits before followed by the drained chunks; it returns,
   * and resets, exactly when no partial byte is left, and otherwise exits
   * with status 1.
   */
  lemma FinishPacks(c: Config, s: Stepped)
    requires ValidDecoder(c) && WellFormed(c, s.state)
    ensures var r := FinishMessage(c, s);
            var d := DrainSegments(c, s.state);
            r.segs == s.segs + d && |d| == DrainCount(c, s.state.iteration) &&
            (forall i :: 0 <= i < |d| ==> d[i] < c.NumEdges()) &&
            MessageBits(r.out) + BigEndianBits(r.state.carry, r.state.carryCount)
              == MessageBits(s.out) + (BigEndianBits(s.state.carry, s.state.carryCount) + Chunks(c, d))
  {
    var d := DrainSegments(c, s.state);
    var p := PushAll(c, s.state.carry, s.state.carryCount, d);
    DrainPacks(c, s.state);
    MessageBitsAppend(s.out, p.out);
    ConcatAssoc(MessageBits(s.out), MessageBits(p.out), BigEndianBits(p.carry, p.count));
    if p.count == 0 {
      assert BigEndianBits(p.carry, 0) == [] == BigEndianBits(0, 0);
    }
  }

  /**
   * Finishing a message returns the number of bytes written, and resets the
   * decoder, exactly when no partial byte is left, and otherwise exits with
   * status 1, keeping the partial byte.
   */
  lemma FinishOutcome(c: Config, s: Stepped)
    requires ValidDecoder(c) && WellFormed(c, s.state)
    ensures var r := FinishMessage(c, s);
            r.state.carryCount < 8 &&
            (r.outcome == Returned(|r.out|) <==> r.state.carryCount == 0) &&
            (r.outcome.Returned? ==> r.state == Initial(c)) &&
            (!r.outcome.Returned? ==> r.outcome == Exited(1))
  {
    DrainPacks(c, s.state);
  }

  /** The chunks one call to viterbiDecoderHard decides: those streamed and, on `last`, the drained ones. */
  lemma ViterbiDecodeSegs(c: Config, st: DecoderState, syms: seq<Byte>, last: bool)
    requires ValidDecoder(c) && WellFormed(c, st)
    ensures var r := ViterbiDecode(c, st, syms, last);
            var it := st.iteration + |syms|;
            |r.segs| == Streamed(c, it) - Streamed(c, st.iteration) + (if last then DrainCount(c, it) else 0) &&
            (forall i :: 0 <= i < |r.segs| ==> r.segs[i] < c.NumEdges())
  {
    var s := DecodeSegments(c, st, syms);
    DecodeSegmentsPacks(c, st, syms);
    if last {
      FinishPacks(c, s);
      assert forall i :: 0 <= i < |s.segs + DrainSegments(c, s.state)| ==> (s.segs + DrainSegments(c, s.state))[i] < c.NumEdges();
    }
  }


  /**
   * One call to viterbiDecoderHard: the bytes written followed by the bits
   * left pending are the bits pending before followed by every decided
   * chunk.
   */
  lemma ViterbiDecodePacks(c: Config, st: DecoderState, syms: seq<Byte>, last: bool)
    requires ValidDecoder(c) && WellFormed(c, st)
    ensures var r := ViterbiDecode(c, st, syms, last);
            MessageBits(r.out) + BigEndianBits(r.state.carry, r.state.carryCount)
              == BigEndianBits(st.carry, st.carryCount) + Chunks(c, r.segs)
  {
    var s := DecodeSegments(c, st, syms);
    DecodeSegmentsPacks(c, st, syms);
    if last {
      var d := DrainSegments(c, s.state);
      FinishPacks(c, s);
      FinishComposes(c, st, s, FinishMessage(c, s), d);
    }
  }

  /** One call to viterbiDecoderHard writes a byte for every 8 bits pending or decided, and leaves the rest pending. */
  lemma ViterbiDecodeCount(c: Config, st: DecoderState, syms: seq<Byte>, last: bool)
    requires ValidDecoder(c) && WellFormed(c, st)
    ensures var r := ViterbiDecode(c, st, syms, last);
            8 * |r.out| + r.state.carryCount == st.carryCount + c.k * |r.segs|
  {
    var r := ViterbiDecode(c, st, syms, last);
    ViterbiDecodePacks(c, st, syms, last);
    PackedCount(c, r.out, r.state.carry, r.state.carryCount, st.carry, st.carryCount, r.segs);
  }

  /** The bit equation fixes the counts: eight bits per byte written, k per chunk decided. */
  lemma PackedCount(c: Config, out: seq<Byte>, carry: nat, count: nat, carry0: nat, count0: nat, segs: seq<nat>)
    requires MessageBits(out) + BigEndianBits(carry, count) == BigEndianBits(carry0, count0) + Chunks(c, segs)
    ensures 8 * |out| + count == count0 + c.k * |segs|
  {
    ChunksLength(c, segs);
  }

  /** The packing equations of the decoding run and of the finish compose. */
  lemma FinishComposes(c: Config, st: DecoderState, s: Stepped, r: Decoded, d: seq<nat>)
    requires ValidDecoder(c)
    requires MessageBits(s.out) + BigEndianBits(s.state.carry, s.state.carryCount)
               == BigEndianBits(st.carry, st.carryCount) + Chunks(c, s.segs)
    requires r.segs == s.segs + d
    requires MessageBits(r.out) + BigEndianBits(r.state.carry, r.state.carryCount)
               == MessageBits(s.out) + (BigEndianBits(s.state.carry, s.state.carryCount) + Chunks(c, d))
    ensures MessageBits(r.out) + BigEndianBits(r.state.carry, r.state.carryCount)
              == BigEndianBits(st.carry, st.carryCount) + Chunks(c, r.segs)
  {
    ChunksAppend(c, s.segs, d);
    var m, p, ch := MessageBits(s.out), BigEndianBits(s.state.carry, s.state.carryCount), Chunks(c, d);
    ConcatAssoc(m, p, ch);
    ConcatAssoc(BigEndianBits(st.carry, st.carryCount), Chunks(c, s.segs), ch);
  }

  /**
   * How a call to viterbiDecoderHard with `last` ends: it returns the number
   * of bytes written, and resets the decoder, exactly when the decided chunks
   * leave no partial byte, and otherwise exits with status 1.
   */
  lemma ViterbiDecodeOutcome(c: Config, st: DecoderState, syms: seq<Byte>)
    requires ValidDecoder(c) && WellFormed(c, st)
    ensures var r := ViterbiDecode(c, st, syms, true);
            (r.outcome == Returned(|r.out|) <==> (st.carryCount + c.k * |r.segs|) % 8 == 0) &&
            (r.outcome.Returned? ==> r.state == Initial(c)) &&
            (!r.outcome.Returned? ==> r.outcome == Exited(1))
  {
    ViterbiDecodeReturns(c, st, syms);
    FinishOutcome(c, DecodeSegments(c, st, syms));
  }

  lemma ViterbiDecodeReturns(c: Config, st: DecoderState, syms: seq<Byte>)
    requires ValidDecoder(c) && WellFormed(c, st)
    ensures var r := ViterbiDecode(c, st, syms, true);
            r.outcome == Returned(|r.out|) <==> (st.carryCount + c.k * |r.segs|) % 8 == 0
  {
    var s := DecodeSegments(c, st, syms);
    var r := ViterbiDecode(c, st, syms, true);
    assert r == FinishMessage(c, s);
    FinishOutcome(c, s);
    assert r.outcome == Returned(|r.out|) <==> r.state.carryCount == 0;
    ViterbiDecodeCount(c, st, syms, true);
    var total := st.carryCount + c.k * |r.segs|;
    assert 8 * |r.out| + r.state.carryCount == total;
    ByteBoundary(total, |r.out|, r.state.carryCount);
  }

  /** Bits packed into whole bytes leave no partial byte exactly when their number is a multiple of 8. */
  lemma ByteBoundary(total: nat, bytes: nat, count: nat)
    requires 8 * bytes + count == total && count < 8
    ensures count == 0 <==> total % 8 == 0
  {
    DivModUnique(total, 8, bytes, count);
  }

  /** Received segments split into those streamed and those drained: all but the S padding chunks are decided. */
  lemma StreamedAndDrained(c: Config, iteration: nat)
    requires ValidDecoder(c) && iteration >= c.S()
    ensures Streamed(c, iteration) + DrainCount(c, iteration) == iteration - c.S()
  {
  }

  /**
   * A message received in one call from the reset state, with `last`: every
   * received segment but the S padding ones yields a decided chunk.
   */
  lemma DecodeMessageLength(c: Config, syms: seq<Byte>)
    requires ValidDecoder(c) && |syms| >= c.S()
    ensures |ViterbiDecode(c, Initial(c), syms, true).segs| == |syms| - c.S()
  {
    ViterbiDecodeSegs(c, Initial(c), syms, true);
    StreamedAndDrained(c, |syms|);
  }

  /**
   * A message received in one call from the reset state, with `last`: the
   * call returns exactly when its decided chunks fill whole bytes, and then
   * the bytes written are the decided chunks, most significant bit first,
   * and the decoder is reset; otherwise it exits with status 1.
   */
  lemma DecodeMessage(c: Config, syms: seq<Byte>)
    requires ValidDecoder(c) && |syms| >= c.S()
    ensures var r := ViterbiDecode(c, Initial(c), syms, true);
            (r.outcome == Returned(|r.out|) <==> (c.k * (|syms| - c.S())) % 8 == 0) &&
            (r.outcome.Returned? ==> MessageBits(r.out) == Chunks(c, r.segs) && r.state == Initial(c)) &&
            (!r.outcome.Returned? ==> r.outcome == Exited(1))
  {
    DecodeMessageReturns(c, syms);
    DecodeMessageBits(c, syms);
    ViterbiDecodeOutcome(c, Initial(c), syms);
  }

  lemma DecodeMessageReturns(c: Config, syms: seq<Byte>)
    requires ValidDecoder(c) && |syms| >= c.S()
    ensures var r := ViterbiDecode(c, Initial(c), syms, true);
            r.outcome == Returned(|r.out|) <==> (c.k * (|syms| - c.S())) % 8 == 0
  {
    DecodeMessageLength(c, syms);
    ViterbiDecodeOutcome(c, Initial(c), syms);
  }

  lemma DecodeMessageBits(c: Config, syms: seq<Byte>)
    requires ValidDecoder(c) && |syms| >= c.S()
    ensures var r := ViterbiDecode(c, Initial(c), syms, true);
            r.outcome.Returned? ==> MessageBits(r.out) == Chunks(c, r.segs)
  {
    var st := Initial(c);
    var r := ViterbiDecode(c, st, syms, true);
    ViterbiDecodePacks(c, st, syms, true);
    ViterbiDecodeOutcome(c, st, syms);
    assert BigEndianBits(0, 0) == [];
    if r.outcome.Returned? {
      assert MessageBits(r.out) + [] == Chunks(c, r.segs);
    }
  }

  /**
   * A whole message of B bytes, encoded and terminated (B*8/k + S segments),
   * decodes in one call to exactly B bytes and leaves the decoder reset.
   */
  lemma DecodeWholeBytes(c: Config, syms: seq<Byte>, bytes: nat)
    requires ValidDecoder(c) && |syms| >= c.S() && |syms| - c.S() == bytes * (8 / c.k)
    ensures var r := ViterbiDecode(c, Initial(c), syms, true);
            r.outcome == Returned(bytes) && r.state == Initial(c)
  {
    var st := Initial(c);
    var r := ViterbiDecode(c, st, syms, true);
    DecodeMessageLength(c, syms);
    DecodeMessage(c, syms);
    ViterbiDecodeCount(c, st, syms, true);
    var m := |syms| - c.S();
    WholeBytes(c.k, bytes);
    assert c.k * m == 8 * bytes;
    assert r.outcome == Returned(|r.out|);
    assert 8 * |r.out| == 8 * bytes;
  }

  lemma WholeBytes(k: nat, bytes: nat)
    requires 1 <= k && 8 % k == 0
    ensures k * (bytes * (8 / k)) == 8 * bytes && (8 * bytes) % 8 == 0
  {
    DivModDecompose(8, k);
    assert k * (bytes * (8 / k)) == (k * bytes) * (8 / k);
    DivModUnique(8 * bytes, 8, bytes, 0);
  }

  // ---------------------------------------------------------------------------
  // Add-compare-select against the trellis

  /**
   * Add-compare-select keeps the least metric offered into each state: no
   * edge s --x--> dst offers less than dst's new metric, and an edge from a
   * predecessor enumerated before the survivor offers strictly more (ties go
   * to the lowest enumerated predecessor).
   */
  lemma AcsIsMinOverEdges(c: Config, metrics: seq<nat>, sym: Byte, dst: nat, s: nat, x: nat)
    requires ValidDecoder(c) && |metrics| == c.NumStates()
    requires s < c.NumStates() && x < c.NumEdges() && dst < c.NumStates() && NextState(c, s, x) == dst
    ensures NextMetrics(c, metrics, sym)[dst] <= MetricAdd(metrics[s], BranchMetric(c, s, x, sym))
    ensures OldestChunk(c, s) < Survivor(c, metrics, sym, dst) ==>
              NextMetrics(c, metrics, sym)[dst] < MetricAdd(metrics[s], BranchMetric(c, s, x, sym))
  {
    EnumeratedPredecessor(c, s, x, dst);
    var e := OldestChunk(c, s);
    var pm := PathMetrics(c, metrics, sym, dst);
    assert pm[e] == MetricAdd(metrics[s], BranchMetric(c, s, x, sym));
  }

  /**
   * The survivor into dst is an edge of the trellis: its source reaches dst
   * on input dst mod 2^k, dst's new metric is the one it offers and dst's new
   * traceback is the source's with that input appended.
   */
  lemma AcsSurvivorIsEdge(c: Config, metrics: seq<nat>, tracebacks: seq<nat>, sym: Byte, dst: nat)
    requires ValidDecoder(c) && |metrics| == c.NumStates() && |tracebacks| == c.NumStates() && dst < c.NumStates()
    ensures var src := Source(c, dst, Survivor(c, metrics, sym, dst));
            var x := dst % c.NumEdges();
            src < c.NumStates() && NextState(c, src, x) == dst &&
            NextMetrics(c, metrics, sym)[dst] == MetricAdd(metrics[src], BranchMetric(c, src, x, sym)) &&
            NextTracebacks(c, metrics, tracebacks, sym)[dst] == TbAppend(c, tracebacks[src], x)
  {
    var e := Survivor(c, metrics, sym, dst);
    SourceInRange(c, dst, e);
    SourceLeadsTo(c, dst, e);
  }

  /** A traceback that records the inputs es of a path records es + [x] after the path is extended on input x. */
  lemma TracebackExtends(c: Config, es: seq<nat>, x: nat)
    ensures TbAppend(c, TbOf(c, es), x) == TbOf(c, es + [x])
  {
    assert (es + [x])[..|es|] == es;
  }

  // ---------------------------------------------------------------------------
  // Checking the traceback width

  /**
   * viterbiConfigCheck as written: exit(1) when the 64 bits of a traceback
   * are fewer than TRACEBACK_LEN, which counts k-bit segments, not bits.
   */
  function ConfigCheckAsWritten(c: Config): (r: Outcome)
    ensures r == Returned(0) || r == Exited(1)
  {
    if TracebackWidth < c.TracebackLen() then Exited(1) else Returned(0)
  }

  /** viterbiConfigCheck as intended: exit(1) when a traceback cannot hold TRACEBACK_LEN segments of k bits. */
  function ViterbiConfigCheck(c: Config): (r: Outcome)
    ensures r == Returned(0) || r == Exited(1)
  {
    if TracebackWidth < c.TracebackLen() * c.k then Exited(1) else Returned(0)
  }

  /**
   * Whenever the intended check passes, the chunk streamed from a traceback
   * recording the inputs es is the input TRACEBACK_LEN-1 steps before the
   * newest one.
   */
  lemma ConfigCheckGuardsStreaming(c: Config, es: seq<nat>)
    requires ValidDecoder(c) && ViterbiConfigCheck(c) == Returned(0)
    requires |es| >= c.TracebackLen()
    requires forall i :: 0 <= i < |es| ==> es[i] < c.NumEdges()
    ensures StreamSegment(c, TbOf(c, es)) == es[|es| - c.TracebackLen()]
  {
    StreamSegmentOfTb(c, es);
  }

  /**
   * The check as written lets K = 7, k = 2 through although a traceback then
   * needs 70 bits: the chunk 34 steps back lies above bit 64 and is lost.
   * Streaming it shifts the uint64_t by 68, which C leaves undefined; the
   * model's ShiftRight gives 0, here for the inputs 1 followed by 34 zeros.
   */
  lemma ConfigCheckAdmitsLostChunks(g: seq<nat>)
    requires |g| == 2
    ensures var c := Config(7, 2, 2, g);
            var es := [1] + seq(34, _ => 0);
            ValidDecoder(c) && ConfigCheckAsWritten(c) == Returned(0) && ViterbiConfigCheck(c) == Exited(1) &&
            es[|es| - c.TracebackLen()] == 1 && StreamSegment(c, TbOf(c, es)) == 0
  {
    var c := Config(7, 2, 2, g);
    var es: seq<nat> := [1] + seq(34, _ => 0);
    var tb := TbOf(c, es);
    assert es[..|es| - 1] + [es[|es| - 1]] == es;
    assert tb == TbAppend(c, TbOf(c, es[..|es| - 1]), 0);
    ShiftPastWidth(tb, TracebackWidth, (c.TracebackLen() - 1) * c.k);
  }

  /** Shifting a w-bit value right by w or more bits leaves 0. */
  lemma ShiftPastWidth(x: nat, w: nat, d: nat)
    requires x < Pow2(w) && w <= d
    ensures ShiftRight(x, d) == 0
  {
    ShiftRightIsDiv(x, d);
    Pow2Monotone(w, d);
    DivModUnique(x, Pow2(d), 0, x);
  }

  // ---------------------------------------------------------------------------
  // The streamed chunk's mask

  /** The streamed chunk as written at viterbiDecoder.c:134, masked with % k rather than % 2^k. */
  function StreamSegmentAsWritten(c: Config, tb: nat): (r: nat)
    requires c.K >= 1 && c.k >= 1
    ensures r < c.k
  {
    ShiftRight(tb, (c.TracebackLen() - 1) * c.k) % c.k
  }

  /** Shifting 2^b right by b bits leaves 1. */
  lemma {:induction false} ShiftOutPower(b: nat)
    ensures ShiftRight(Pow2(b), b) == 1
  {
    if b > 0 {
      ShiftOutPower(b - 1);
      assert Pow2(b) / 2 == Pow2(b - 1);
    }
  }

  /** With k = 1 the mask as written keeps nothing: every streamed chunk is 0. */
  lemma StreamSegmentAsWrittenIsZero(c: Config, tb: nat)
    requires c.K >= 1 && c.k == 1
    ensures StreamSegmentAsWritten(c, tb) == 0
  {
  }

  /**
   * In the 4-state code (K = 3, k = 1) a traceback 2^14 records input 1
   * fourteen steps back: the intended mask streams it, the mask as written
   * streams 0.
   */
  lemma StreamSegmentMaskCounterexample(g: seq<nat>)
    ensures var c := Config(3, 1, 2, g);
            StreamSegment(c, Pow2(14)) == 1 && StreamSegmentAsWritten(c, Pow2(14)) == 0
  {
    var c := Config(3, 1, 2, g);
    assert (c.TracebackLen() - 1) * c.k == 14;
    ShiftOutPower(14);
    assert c.NumEdges() == 2;
  }

  // ---------------------------------------------------------------------------
  // Prefixes: what a call has done after part of its input

  /** Decoding one more received segment extends the run by one DecodeStep. */
  lemma DecodeSegmentsSnoc(c: Config, st: DecoderState, syms: seq<Byte>, i: nat)
    requires ValidDecoder(c) && WellFormed(c, st) && i < |syms|
    ensures var r := DecodeSegments(c, st, syms[..i]);
            var r' := DecodeStep(c, r.state, syms[i]);
            DecodeSegments(c, st, syms[..i + 1]) == Stepped(r'.state, r.segs + r'.segs, r.out + r'.out)
  {
    assert syms[..i + 1][..i] == syms[..i];
  }

  /** Decoding s1 and then s2 is decoding s1 + s2: the same state, and the chunks and bytes of both in order. */
  lemma {:induction false} DecodeSegmentsAppend(c: Config, st: DecoderState, s1: seq<Byte>, s2: seq<Byte>)
    requires ValidDecoder(c) && WellFormed(c, st)
    ensures var r1 := DecodeSegments(c, st, s1);
            var r2 := DecodeSegments(c, r1.state, s2);
            DecodeSegments(c, st, s1 + s2) == Stepped(r2.state, r1.segs + r2.segs, r1.out + r2.out)
    decreases |s2|
  {
    if |s2| == 0 {
      assert s1 + s2 == s1;
    } else {
      var init, sym := s2[..|s2| - 1], s2[|s2| - 1];
      var r1 := DecodeSegments(c, st, s1);
      var r := DecodeSegments(c, r1.state, init);
      var r' := DecodeStep(c, r.state, sym);
      var whole := DecodeSegments(c, st, s1 + init);
      DecodeSegmentsAppend(c, st, s1, init);
      assert (s1 + s2)[..|s1 + s2| - 1] == s1 + init && (s1 + s2)[|s1 + s2| - 1] == sym;
      DecodeSegmentsLast(c, st, s1 + s2);
      DecodeSegmentsLast(c, r1.state, s2);
      StepAfterBoth(whole, r1, r, r');
    }
  }

  /** DecodeSegments unfolded once. */
  lemma DecodeSegmentsLast(c: Config, st: DecoderState, syms: seq<Byte>)
    requires ValidDecoder(c) && WellFormed(c, st) && |syms| > 0
    ensures var r := DecodeSegments(c, st, syms[..|syms| - 1]);
            var r' := DecodeStep(c, r.state, syms[|syms| - 1]);
            DecodeSegments(c, st, syms) == Stepped(r'.state, r.segs + r'.segs, r.out + r'.out)
  {
  }

  /** One more step after two runs joined together is one more step after the second run, joined to the first. */
  lemma StepAfterBoth(whole: Stepped, r1: Stepped, r: Stepped, r': Stepped)
    requires whole == Stepped(r.state, r1.segs + r.segs, r1.out + r.out)
    ensures Stepped(r'.state, whole.segs + r'.segs, whole.out + r'.out)
         == Stepped(r'.state, r1.segs + (r.segs + r'.segs), r1.out + (r.out + r'.out))
  {
  }

  /**
   * Two calls of viterbiDecoderHard, the first without `last`, behave as one
   * call on the concatenated segments: the same final state, chunks and
   * bytes, and the same outcome, where a normal return of the one call
   * counts the bytes of both.
   */
  lemma ViterbiDecodeStreaming(c: Config, st: DecoderState, s1: seq<Byte>, s2: seq<Byte>, last: bool)
    requires ValidDecoder(c) && WellFormed(c, st)
    ensures var d1 := ViterbiDecode(c, st, s1, false);
            var d2 := ViterbiDecode(c, d1.state, s2, last);
            var d := ViterbiDecode(c, st, s1 + s2, last);
            d1.outcome == Returned(|d1.out|) &&
            d.state == d2.state && d.segs == d1.segs + d2.segs && d.out == d1.out + d2.out &&
            (d2.outcome.Returned? <==> d.outcome.Returned?) &&
            (d2.outcome.Returned? ==> d.outcome == Returned(|d1.out| + |d2.out|)) &&
            (d2.outcome.Exited? ==> d.outcome == d2.outcome)
  {
    var r1 := DecodeSegments(c, st, s1);
    var r2 := DecodeSegments(c, r1.state, s2);
    DecodeSegmentsAppend(c, st, s1, s2);
    if last {
      FinishJoined(c, r1, r2);
    }
  }

  /** Finishing a message after two joined runs is finishing it after the second, joined to the first. */
  lemma FinishJoined(c: Config, r1: Stepped, r2: Stepped)
    requires ValidDecoder(c) && WellFormed(c, r2.state)
    ensures var d := FinishMessage(c, Stepped(r2.state, r1.segs + r2.segs, r1.out + r2.out));
            var d2 := FinishMessage(c, r2);
            d.state == d2.state && d.segs == r1.segs + d2.segs && d.out == r1.out + d2.out &&
            (d2.outcome.Returned? <==> d.outcome.Returned?) &&
            (d2.outcome.Returned? ==> d.outcome == Returned(|r1.out| + |d2.out|)) &&
            (d2.outcome.Exited? ==> d.outcome == d2.outcome)
  {
    var drained := DrainSegments(c, r2.state);
    var p := PushAll(c, r2.state.carry, r2.state.carryCount, drained);
    assert (r1.segs + r2.segs) + drained == r1.segs + (r2.segs + drained);
    assert (r1.out + r2.out) + p.out == r1.out + (r2.out + p.out);
  }

  /** Output written so far never exceeds what the whole run writes. */
  lemma {:induction false} DecodeSegmentsPrefixOut(c: Config, st: DecoderState, syms: seq<Byte>, i: nat)
    requires ValidDecoder(c) && WellFormed(c, st) && i <= |syms|
    ensures |DecodeSegments(c, st, syms[..i]).out| <= |DecodeSegments(c, st, syms).out|
    decreases |syms|
  {
    if i < |syms| {
      var init := syms[..|syms| - 1];
      assert init[..i] == syms[..i];
      DecodeSegmentsPrefixOut(c, st, init, i);
    } else {
      assert syms[..i] == syms;
    }
  }

  /** A whole call writes at least what its received segments write. */
  lemma ViterbiDecodeOutGrows(c: Config, st: DecoderState, syms: seq<Byte>, last: bool)
    requires ValidDecoder(c) && WellFormed(c, st)
    ensures |DecodeSegments(c, st, syms).out| <= |ViterbiDecode(c, st, syms, last).out|
  {
  }

  /** Pushing one more segment extends the packing by one PushSegment. */
  lemma PushAllSnoc(c: Config, carry: nat, count: nat, segs: seq<nat>, j: nat)
    requires j < |segs|
    ensures var p := PushAll(c, carry, count, segs[..j]);
            var p' := PushSegment(c, p.carry, p.count, segs[j]);
            PushAll(c, carry, count, segs[..j + 1]) == Pushed(p'.carry, p'.count, p.out + p'.out)
  {
    assert segs[..j + 1][..j] == segs[..j];
  }

  /** Bytes completed by a prefix of the segments never exceed those of all of them. */
  lemma {:induction false} PushAllPrefixOut(c: Config, carry: nat, count: nat, segs: seq<nat>, j: nat)
    requires j <= |segs|
    ensures |PushAll(c, carry, count, segs[..j]).out| <= |PushAll(c, carry, count, segs).out|
    decreases |segs|
  {
    if j < |segs| {
      var init := segs[..|segs| - 1];
      assert init[..j] == segs[..j];
      PushAllPrefixOut(c, carry, count, init, j);
    } else {
      assert segs[..j] == segs;
    }
  }
}
