/**
 * Decoding without transmission errors. When the generators tell apart the
 * edges leaving every state, and the traceback holds TRACEBACK_LEN chunks,
 * the general decoder gives back exactly the message the encoder sent: along
 * the encoder's walk of the trellis every branch metric is 0, so the walk's
 * end is the only state with metric 0, it is the state streamed from, and
 * its traceback records the inputs of the walk.
 */
module RoundTrip {
  import opened Bits
  import opened CodeParams
  import opened EncoderSpec
  import opened Trellis
  import opened Hamming
  import opened ViterbiSpec
  import HardDecoder

  // ---------------------------------------------------------------------------
  // Walks of the trellis along a sequence of input chunks

  /** The input chunks of a bit stream: every whole k bits, read most significant bit first. */
  function InputChunks(c: Config, bits: seq<Bit>): (es: seq<nat>)
    requires c.k >= 1
    ensures |es| == |bits| / c.k
    ensures forall i :: 0 <= i < |es| ==> es[i] < c.NumEdges()
    decreases |bits|
  {
    if |bits| < c.k then
      DivModUnique(|bits|, c.k, 0, |bits|);
      []
    else
      PackMsbBound(bits[..c.k]);
      DivSubtract(|bits|, c.k);
      [PackMsb(bits[..c.k])] + InputChunks(c, bits[c.k..])
  }

  /** The state the walk of es from s ends in. */
  function StateAfter(c: Config, s: nat, es: seq<nat>): nat
  {
    if |es| == 0 then s else NextState(c, StateAfter(c, s, es[..|es| - 1]), es[|es| - 1])
  }

  /** The segments emitted along the walk of es from s. */
  function Symbols(c: Config, s: nat, es: seq<nat>): (r: seq<nat>)
    ensures |r| == |es|
  {
    if |es| == 0 then []
    else
      var n := |es| - 1;
      Symbols(c, s, es[..n]) + [EdgeSymbol(c, StateAfter(c, s, es[..n]), es[n])]
  }

  /** A walk is its first edge followed by the walk from that edge's end. */
  lemma {:induction false} WalkCons(c: Config, s: nat, e: nat, es: seq<nat>)
    ensures StateAfter(c, s, [e] + es) == StateAfter(c, NextState(c, s, e), es)
    ensures Symbols(c, s, [e] + es) == [EdgeSymbol(c, s, e)] + Symbols(c, NextState(c, s, e), es)
    decreases |es|
  {
    if |es| > 0 {
      var n := |es| - 1;
      assert ([e] + es)[..|es|] == [e] + es[..n];
      WalkCons(c, s, e, es[..n]);
    } else {
      assert ([e] + es)[..0] == [];
    }
  }

  /** Trellis.Walk over a bit stream is the walk of its input chunks. */
  lemma {:induction false} WalkOfChunks(c: Config, s: nat, bits: seq<Bit>)
    requires c.k >= 1
    ensures Walk(c, s, bits) == Walked(Symbols(c, s, InputChunks(c, bits)), StateAfter(c, s, InputChunks(c, bits)))
    decreases |bits|
  {
    if |bits| >= c.k {
      var e := PackMsb(bits[..c.k]);
      WalkOfChunks(c, NextState(c, s, e), bits[c.k..]);
      WalkCons(c, s, e, InputChunks(c, bits[c.k..]));
    }
  }

  /** Input chunks of a whole number of chunks followed by more bits. */
  lemma {:induction false} InputChunksAppend(c: Config, a: seq<Bit>, b: seq<Bit>)
    requires c.k >= 1 && |a| % c.k == 0
    ensures InputChunks(c, a + b) == InputChunks(c, a) + InputChunks(c, b)
    decreases |a|
  {
    if |a| >= c.k {
      DivSubtract(|a|, c.k);
      assert (a + b)[..c.k] == a[..c.k];
      assert (a + b)[c.k..] == a[c.k..] + b;
      InputChunksAppend(c, a[c.k..], b);
    } else {
      DivModUnique(|a|, c.k, 0, |a|);
      assert a + b == b;
    }
  }

  /** Unpacking the input chunks of a whole number of chunks gives the bits back. */
  lemma {:induction false} ChunksOfInputChunks(c: Config, bits: seq<Bit>)
    requires c.k >= 1 && |bits| % c.k == 0
    ensures Chunks(c, InputChunks(c, bits)) == bits
    decreases |bits|
  {
    if |bits| >= c.k {
      var e := PackMsb(bits[..c.k]);
      var rest := InputChunks(c, bits[c.k..]);
      DivSubtract(|bits|, c.k);
      ChunksOfInputChunks(c, bits[c.k..]);
      ChunksAppend(c, [e], rest);
      assert Chunks(c, [e]) == Chunks(c, []) + BigEndianBits(e, c.k);
      BigEndianOfPackMsb(bits[..c.k]);
      assert bits == bits[..c.k] + bits[c.k..];
    } else {
      DivModUnique(|bits|, c.k, 0, |bits|);
    }
  }

  /** The bit stream of a message is its first byte's 8 bits followed by the rest's. */
  lemma MessageBitsHead(a: seq<Byte>)
    requires |a| > 0
    ensures MessageBits(a)[..8] == BigEndianBits(a[0], 8) && MessageBits(a)[8..] == MessageBits(a[1..])
  {
    assert MessageBits(a) == BigEndianBits(a[0], 8) + MessageBits(a[1..]);
  }

  /** A value below 2^len is determined by its len bits. */
  lemma BitsDetermine(x: nat, y: nat, len: nat)
    requires x < Pow2(len) && y < Pow2(len) && BigEndianBits(x, len) == BigEndianBits(y, len)
    ensures x == y
  {
    PackMsbOfBigEndian(x, len);
    PackMsbOfBigEndian(y, len);
  }

  /** Different byte messages have different bit streams. */
  lemma {:induction false} MessageBitsInjective(a: seq<Byte>, b: seq<Byte>)
    requires MessageBits(a) == MessageBits(b)
    ensures a == b
    decreases |a|
  {
    assert |a| == |b|;
    if |a| > 0 {
      MessageBitsHead(a);
      MessageBitsHead(b);
      Pow2Byte();
      BitsDetermine(a[0], b[0], 8);
      MessageBitsInjective(a[1..], b[1..]);
      assert a == [a[0]] + a[1..] && b == [b[0]] + b[1..];
    }
  }

  // ---------------------------------------------------------------------------
  // The decoder along the encoder's walk

  /** The generators tell apart the edges leaving each state: different input chunks give different segments. */
  predicate DistinctEdges(c: Config)
  {
    forall s: nat, e1: nat, e2: nat ::
      s < c.NumStates() && e1 < c.NumEdges() && e2 < c.NumEdges() && e1 != e2 ==>
        EdgeSymbol(c, s, e1) != EdgeSymbol(c, s, e2)
  }

  /**
   * No uint32_t metric wraps within `segments` received segments: metrics
   * start at most NUM_STATES + 1 and a segment adds at most 8.
   */
  predicate MetricsFit(c: Config, segments: nat)
  {
    c.NumStates() + 1 + 8 * segments < MetricModulus
  }

  /**
   * The decoder after receiving, without errors, the segments of the walk of
   * es from the starting state: the walk's end is the only state with metric
   * 0 and its traceback records es; every metric is at most its reset value
   * plus 8 per segment.
   */
  predicate OnPath(c: Config, st: DecoderState, es: seq<nat>)
    requires ValidDecoder(c)
  {
    var s := StateAfter(c, StartingState, es);
    WellFormed(c, st) && st.iteration == |es| && s < c.NumStates() &&
    st.metrics[s] == 0 && st.tracebacks[s] == TbOf(c, es) &&
    (forall x :: 0 <= x < c.NumStates() && x != s ==> 1 <= st.metrics[x]) &&
    (forall x :: 0 <= x < c.NumStates() ==> st.metrics[x] <= c.NumStates() + 1 + 8 * |es|)
  }

  /** The reset decoder is on the empty walk. */
  lemma InitialOnPath(c: Config)
    requires ValidDecoder(c) && MetricsFit(c, 0)
    ensures OnPath(c, Initial(c), [])
  {
    StateCountSplit(c);
    assert ForceNot(c) == c.NumStates() + 1;
  }

  /**
   * The branch metric of an edge leaving s, against the segment of the edge
   * from s on e: 0 exactly for that edge, and at most 8.
   */
  lemma BranchOnWalk(c: Config, s: nat, e: nat, sym: Byte, x: nat)
    requires ValidDecoder(c) && DistinctEdges(c) && s < c.NumStates() && e < c.NumEdges() && x < c.NumEdges()
    requires sym == EdgeSymbol(c, s, e)
    ensures BranchMetric(c, s, x, sym) <= 8
    ensures BranchMetric(c, s, x, sym) == 0 <==> x == e
  {
    HardDecoder.EdgeSymbolBound(c, s, x);
    Pow2Byte();
    DistanceZeroIff(EdgeSymbol(c, s, x), sym, 8);
    assert x != e ==> EdgeSymbol(c, s, x) != EdgeSymbol(c, s, e);
  }

  /** Between values of w bits the distance is at most w, and 0 exactly when they are equal. */
  lemma DistanceZeroIff(a: nat, b: nat, w: nat)
    requires a < Pow2(w) && b < Pow2(w)
    ensures HammingDist(a, b, w) <= w
    ensures HammingDist(a, b, w) == 0 <==> a == b
  {
    HammingBound(a, b, w);
    HammingZeroIff(a, b, w);
    DivModUnique(a, Pow2(w), 0, a);
    DivModUnique(b, Pow2(w), 0, b);
  }

  /**
   * The metric offered into dst by its j-th enumerated predecessor when the
   * segment of the edge from s on e arrives, s being the only state with
   * metric 0: 0 for that edge, at least 1 for every other edge, and at most
   * 8 above the largest metric.
   */
  lemma OfferedMetric(c: Config, m: seq<nat>, s: nat, e: nat, sym: Byte, dst: nat, j: nat, bound: nat)
    requires ValidDecoder(c) && DistinctEdges(c) && |m| == c.NumStates() && s < c.NumStates()
    requires m[s] == 0 && forall x :: 0 <= x < c.NumStates() && x != s ==> 1 <= m[x]
    requires (forall x :: 0 <= x < c.NumStates() ==> m[x] <= bound) && bound + 8 < MetricModulus
    requires e < c.NumEdges() && sym == EdgeSymbol(c, s, e)
    requires dst < c.NumStates() && j < c.NumEdges()
    ensures var pm := PathMetric(c, m, sym, dst, j);
            pm <= bound + 8 &&
            (Source(c, dst, j) == s && dst == NextState(c, s, e) ==> pm == 0) &&
            (Source(c, dst, j) != s || dst != NextState(c, s, e) ==> pm >= 1)
  {
    var q := c.NumEdges();
    var src := Source(c, dst, j);
    var x := dst % q;
    SourceInRange(c, dst, j);
    var b := BranchMetric(c, src, x, sym);
    HammingBound(EdgeSymbol(c, src, x), sym, 8);
    assert m[src] <= bound && b <= 8;
    assert PathMetric(c, m, sym, dst, j) == m[src] + b;
    if src == s {
      SourceLeadsTo(c, dst, j);
      BranchOnWalk(c, s, e, sym, x);
      if dst == NextState(c, s, e) {
        EnumeratedPredecessor(c, s, e, dst);
      }
    }
  }

  /**
   * Add-compare-select on the segment of the edge from s on e, s being the
   * only state with metric 0: that edge survives into its end, which gets
   * metric 0; every other state gets a metric of at least 1; and no metric
   * grows by more than 8.
   */
  lemma NextMetricOnWalk(c: Config, m: seq<nat>, s: nat, e: nat, sym: Byte, dst: nat, bound: nat)
    requires ValidDecoder(c) && DistinctEdges(c) && |m| == c.NumStates() && s < c.NumStates()
    requires m[s] == 0 && forall x :: 0 <= x < c.NumStates() && x != s ==> 1 <= m[x]
    requires (forall x :: 0 <= x < c.NumStates() ==> m[x] <= bound) && bound + 8 < MetricModulus
    requires e < c.NumEdges() && sym == EdgeSymbol(c, s, e) && dst < c.NumStates()
    ensures var r := NextMetrics(c, m, sym)[dst];
            r <= bound + 8 &&
            (dst == NextState(c, s, e) ==> r == 0 && Source(c, dst, Survivor(c, m, sym, dst)) == s) &&
            (dst != NextState(c, s, e) ==> r >= 1)
  {
    var pms := PathMetrics(c, m, sym, dst);
    var j := Survivor(c, m, sym, dst);
    NextMetricsAt(c, m, sym, dst);
    OfferedMetric(c, m, s, e, sym, dst, 0, bound);
    OfferedMetric(c, m, s, e, sym, dst, j, bound);
    assert pms[j] <= pms[0];
    if dst == NextState(c, s, e) {
      EnumeratedPredecessor(c, s, e, dst);
      var j0 := OldestChunk(c, s);
      OfferedMetric(c, m, s, e, sym, dst, j0, bound);
      assert pms[j] <= pms[j0] == 0;
    }
  }

  /** One error-free segment of the walk keeps the decoder on the walk. */
  lemma TrellisStepOnPath(c: Config, st: DecoderState, es: seq<nat>, e: nat, sym: Byte)
    requires ValidDecoder(c) && DistinctEdges(c) && OnPath(c, st, es) && MetricsFit(c, |es| + 1)
    requires e < c.NumEdges() && sym == EdgeSymbol(c, StateAfter(c, StartingState, es), e)
    ensures OnPath(c, TrellisStep(c, st, sym), es + [e])
  {
    var s := StateAfter(c, StartingState, es);
    var s' := NextState(c, s, e);
    var r := TrellisStep(c, st, sym);
    assert (es + [e])[..|es|] == es;
    assert StateAfter(c, StartingState, es + [e]) == s';
    var bound := c.NumStates() + 1 + 8 * |es|;
    forall dst | 0 <= dst < c.NumStates()
      ensures r.metrics[dst] <= bound + 8
      ensures dst != s' ==> 1 <= r.metrics[dst]
    {
      NextMetricOnWalk(c, st.metrics, s, e, sym, dst, bound);
    }
    NextMetricOnWalk(c, st.metrics, s, e, sym, s', bound);
    EnumeratedPredecessor(c, s, e, s');
    NextTracebacksAt(c, st.metrics, st.tracebacks, sym, s', s);
    TracebackExtends(c, es, e);
  }

  /** On the walk, the first least-metric state is the walk's end. */
  lemma LeastIsWalkEnd(c: Config, st: DecoderState, es: seq<nat>)
    requires ValidDecoder(c) && OnPath(c, st, es)
    ensures FirstMin(st.metrics) == StateAfter(c, StartingState, es)
  {
    var s := StateAfter(c, StartingState, es);
    var r := FirstMin(st.metrics);
    assert st.metrics[r] <= st.metrics[s] == 0;
  }

  /**
   * One error-free segment of the walk, streaming included: the decoder stays
   * on the walk, and once the traceback is deep enough the chunk streamed is
   * the walk's input TRACEBACK_LEN - 1 steps before the newest.
   */
  lemma DecodeStepOnPath(c: Config, st: DecoderState, es: seq<nat>, sym: Byte)
    requires ValidDecoder(c) && DistinctEdges(c) && ViterbiConfigCheck(c) == Returned(0)
    requires |es| > 0 && OnPath(c, st, es[..|es| - 1]) && MetricsFit(c, |es|)
    requires forall i :: 0 <= i < |es| ==> es[i] < c.NumEdges()
    requires sym == EdgeSymbol(c, StateAfter(c, StartingState, es[..|es| - 1]), es[|es| - 1])
    ensures var r := DecodeStep(c, st, sym);
            OnPath(c, r.state, es) &&
            r.segs == if |es| >= c.TracebackLen() then [es[|es| - c.TracebackLen()]] else []
  {
    var prefix, e := es[..|es| - 1], es[|es| - 1];
    assert prefix + [e] == es;
    TrellisStepOnPath(c, st, prefix, e, sym);
    var mid := TrellisStep(c, st, sym);
    var r := StreamStep(c, mid);
    assert r.state == mid.(carry := r.state.carry, carryCount := r.state.carryCount);
    OnPathCarry(c, mid, r.state, es);
    if |es| >= c.TracebackLen() {
      LeastIsWalkEnd(c, mid, es);
      assert r.segs == [StreamSegment(c, mid.tracebacks[StateAfter(c, StartingState, es)])];
      StreamSegmentOfTb(c, es);
    }
  }

  /** Being on the walk does not depend on the output carry. */
  lemma OnPathCarry(c: Config, st: DecoderState, st': DecoderState, es: seq<nat>)
    requires ValidDecoder(c) && OnPath(c, st, es) && WellFormed(c, st')
    requires st' == st.(carry := st'.carry, carryCount := st'.carryCount)
    ensures OnPath(c, st', es)
  {
  }

  /**
   * Receiving the segments of the walk of es without errors keeps the decoder
   * on the walk, and the chunks it streams are the walk's inputs, oldest
   * first, one for every segment past TRACEBACK_LEN - 1.
   */
  lemma {:induction false} DecodeOnPath(c: Config, es: seq<nat>, syms: seq<Byte>)
    requires ValidDecoder(c) && DistinctEdges(c) && ViterbiConfigCheck(c) == Returned(0)
    requires MetricsFit(c, |es|) && forall i :: 0 <= i < |es| ==> es[i] < c.NumEdges()
    requires syms == Symbols(c, StartingState, es)
    ensures var r := DecodeSegments(c, Initial(c), syms);
            OnPath(c, r.state, es) && r.segs == es[..Streamed(c, |es|)]
  {
    if |es| == 0 {
      assert es == [] && syms == [];
      InitialOnPath(c);
    } else {
      var n := |es| - 1;
      var prefix, sym := es[..n], syms[n];
      SymbolsSnoc(c, es, syms);
      assert |syms| == n + 1;
      DecodeOnPath(c, prefix, syms[..n]);
      var r := DecodeSegments(c, Initial(c), syms[..n]);
      assert OnPath(c, r.state, es[..n]) && r.segs == es[..n][..Streamed(c, n)];
      DecodeSegmentsLast(c, Initial(c), syms);
      StepOnPath(c, es, r.state, r.segs, sym);
      var r' := DecodeStep(c, r.state, sym);
      assert DecodeSegments(c, Initial(c), syms) == Stepped(r'.state, r.segs + r'.segs, r.out + r'.out);
    }
  }

  /** The inductive step of DecodeOnPath: one more error-free segment keeps the decoder on the walk and streams the next input. */
  lemma StepOnPath(c: Config, es: seq<nat>, st: DecoderState, segs: seq<nat>, sym: Byte)
    requires ValidDecoder(c) && DistinctEdges(c) && ViterbiConfigCheck(c) == Returned(0)
    requires |es| > 0 && MetricsFit(c, |es|) && forall i :: 0 <= i < |es| ==> es[i] < c.NumEdges()
    requires OnPath(c, st, es[..|es| - 1]) && segs == es[..|es| - 1][..Streamed(c, |es| - 1)]
    requires sym == EdgeSymbol(c, StateAfter(c, StartingState, es[..|es| - 1]), es[|es| - 1])
    ensures var r' := DecodeStep(c, st, sym);
            OnPath(c, r'.state, es) && segs + r'.segs == es[..Streamed(c, |es|)]
  {
    var n := |es| - 1;
    DecodeStepOnPath(c, st, es, sym);
    PrefixOfPrefix(es, n, Streamed(c, n));
    StreamedPrefix(es, Streamed(c, n), Streamed(c, |es|), DecodeStep(c, st, sym).segs);
  }

  /** The segments of a walk are those of its prefix followed by the segment of its last edge. */
  lemma SymbolsSnoc(c: Config, es: seq<nat>, syms: seq<Byte>)
    requires |es| > 0 && syms == Symbols(c, StartingState, es)
    ensures var n := |es| - 1;
            syms[..n] == Symbols(c, StartingState, es[..n]) &&
            syms[n] == EdgeSymbol(c, StateAfter(c, StartingState, es[..n]), es[n])
  {
  }

  /** A prefix of a prefix is the shorter prefix. */
  lemma PrefixOfPrefix<T>(s: seq<T>, n: nat, m: nat)
    requires m <= n <= |s|
    ensures s[..n][..m] == s[..m]
  {
  }

  /** One more streamed input extends the streamed prefix. */
  lemma StreamedPrefix(es: seq<nat>, m: nat, m': nat, segs: seq<nat>)
    requires m <= m' <= |es| && (m' == m || (m' == m + 1 && segs == [es[m]])) && (m' == m ==> segs == [])
    ensures es[..m] + segs == es[..m']
  {
  }

  /** x >> a >> b is x >> (a + b). */
  lemma {:induction false} ShiftRightAdd(x: nat, a: nat, b: nat)
    ensures ShiftRight(ShiftRight(x, a), b) == ShiftRight(x, a + b)
  {
    if a > 0 {
      ShiftRightAdd(x / 2, a - 1, b);
    }
  }

  /** The chunk d steps back in the traceback of es is the input d before the newest, while it fits the 64 bits. */
  lemma ChunkOfTb(c: Config, es: seq<nat>, d: nat)
    requires ValidDecoder(c) && d * c.k + c.k <= TracebackWidth && d < |es|
    requires forall i :: 0 <= i < |es| ==> es[i] < c.NumEdges()
    ensures ShiftRight(TbOf(c, es), d * c.k) % c.NumEdges() == es[|es| - 1 - d]
  {
    var j := |es| - d;
    var head := es[..j];
    var x, a, b := PackMsb(Chunks(c, es)), PackMsb(Chunks(c, head)), PackMsb(Chunks(c, es[j..]));
    var dk := d * c.k;
    assert x == a * Pow2(dk) + b && b < Pow2(dk) by {
      ChunksSplitAt(c, es, j);
      assert c.k * (|es| - j) == dk;
    }
    assert TbOf(c, es) == x % TracebackModulus() by {
      TbOfIsLowBits(c, es);
    }
    assert ShiftRight(x % TracebackModulus(), dk) % c.NumEdges() == a % c.NumEdges() by {
      ChunkOfTruncated(x, a, b, dk, c.k);
    }
    assert a % c.NumEdges() == es[j - 1] by {
      assert head[j - 1] == es[j - 1];
      LastChunk(c, head);
    }
  }

  /** TruncatedDigit for the 64-bit traceback. */
  lemma ChunkOfTruncated(x: nat, a: nat, b: nat, d: nat, k: nat)
    requires x == a * Pow2(d) + b && b < Pow2(d) && d + k <= TracebackWidth
    ensures ShiftRight(x % TracebackModulus(), d) % Pow2(k) == a % Pow2(k)
  {
    TruncatedDigit(x, a, b, d, k, TracebackWidth);
  }

  /**
   * At the end of a walk that returns to state 0, draining state 0's
   * traceback gives the walk's inputs not yet streamed, minus the S newest.
   */
  lemma DrainOnPath(c: Config, st: DecoderState, es: seq<nat>)
    requires ValidDecoder(c) && ViterbiConfigCheck(c) == Returned(0) && OnPath(c, st, es)
    requires StateAfter(c, StartingState, es) == 0 && |es| >= c.S()
    requires forall i :: 0 <= i < |es| ==> es[i] < c.NumEdges()
    ensures DrainSegments(c, st) == es[Streamed(c, |es|)..|es| - c.S()]
  {
    assert st.tracebacks[0] == TbOf(c, es) && st.iteration == |es|;
    DrainOfTb(c, es);
  }

  /** The chunks drained from the walk's traceback are the unstreamed inputs before the padding. */
  lemma DrainOfTb(c: Config, es: seq<nat>)
    requires ValidDecoder(c) && ViterbiConfigCheck(c) == Returned(0) && |es| >= c.S()
    requires forall i :: 0 <= i < |es| ==> es[i] < c.NumEdges()
    ensures TracebackSegments(c, ShiftRight(TbOf(c, es), PaddingBits(c)), DrainCount(c, |es|))
            == es[Streamed(c, |es|)..|es| - c.S()]
  {
    var r := DrainCount(c, |es|);
    var m := Streamed(c, |es|);
    StreamedAndDrained(c, |es|);
    var x := ShiftRight(TbOf(c, es), PaddingBits(c));
    var d := TracebackSegments(c, x, r);
    assert c.S() + r <= c.TracebackLen() && m + r + c.S() == |es|;
    forall j | 0 <= j < r
      ensures d[j] == es[m + j]
    {
      DrainIndex(c, es, r, m, j);
    }
    SliceByIndex(d, es, m, r);
  }

  /** The j-th of r drained chunks is the input chunk S + r - 1 - j steps back. */
  lemma DrainIndex(c: Config, es: seq<nat>, r: nat, m: nat, j: nat)
    requires ValidDecoder(c) && ViterbiConfigCheck(c) == Returned(0)
    requires j < r && c.S() + r <= c.TracebackLen() && m + r + c.S() == |es|
    requires forall i :: 0 <= i < |es| ==> es[i] < c.NumEdges()
    ensures TracebackSegments(c, ShiftRight(TbOf(c, es), PaddingBits(c)), r)[j] == es[m + j]
  {
    DrainChunk(c, es, r - 1 - j);
  }

  /** A sequence agreeing index by index with a slice is that slice. */
  lemma SliceByIndex<T>(d: seq<T>, s: seq<T>, m: nat, r: nat)
    requires |d| == r && m + r <= |s|
    requires forall j :: 0 <= j < r ==> d[j] == s[m + j]
    ensures d == s[m..m + r]
  {
  }

  /** The i-th chunk of the traceback below the padding is the input chunk S + i steps back. */
  lemma DrainChunk(c: Config, es: seq<nat>, i: nat)
    requires ValidDecoder(c) && ViterbiConfigCheck(c) == Returned(0)
    requires c.S() + i + 1 <= c.TracebackLen() && c.S() + i < |es|
    requires forall i :: 0 <= i < |es| ==> es[i] < c.NumEdges()
    ensures TracebackChunk(c, ShiftRight(TbOf(c, es), PaddingBits(c)), i) == es[|es| - 1 - c.S() - i]
  {
    var tb := TbOf(c, es);
    DrainArith(c.k, c.S(), i + 1, 0, c.TracebackLen());
    assert c.TracebackLen() * c.k <= TracebackWidth;
    ShiftRightAdd(tb, PaddingBits(c), i * c.k);
    ChunkOfTb(c, es, c.S() + i);
  }

  /** The chunk drained j-th lies S + r - 1 - j chunks deep, within the traceback length. */
  lemma DrainArith(k: nat, s: nat, r: nat, j: nat, tl: nat)
    requires j < r && s + r <= tl
    ensures s * k + (r - 1 - j) * k == (s + r - 1 - j) * k
    ensures (s + r - 1 - j) * k + k <= tl * k
  {
    var back := s + r - 1 - j;
    assert (s + (r - 1 - j)) * k == s * k + (r - 1 - j) * k;
    assert (back + 1) * k == back * k + 1 * k;
    MulMonotone(k, back + 1, tl);
    assert k * (back + 1) == (back + 1) * k;
    assert k * tl == tl * k;
  }

  // ---------------------------------------------------------------------------
  // The round trip

  /**
   * Decoding, in one call with `last`, exactly what the encoder sends for a
   * message gives the message back, returns its length and resets the
   * decoder: whenever the generators tell apart the edges leaving each
   * state, the intended traceback width check passes and no metric wraps.
   */
  lemma ZeroNoiseRoundTrip(c: Config, msg: seq<Byte>, syms: seq<Byte>)
    requires ValidDecoder(c) && ViterbiConfigCheck(c) == Returned(0) && DistinctEdges(c)
    requires syms == EncodeMessage(c, msg) && MetricsFit(c, |syms|)
    ensures var r := ViterbiDecode(c, Initial(c), syms, true);
            r.out == msg && r.outcome == Returned(|msg|) && r.state == Initial(c)
  {
    var bits := MessageBits(msg);
    var es := InputChunks(c, bits + Zeros(PaddingBits(c)));
    MessageWalk(c, msg);
    DecodeWalk(c, es, syms);
    assert es[..|es| - c.S()] == InputChunks(c, bits);
    DecodedLength(c, msg);
    MessageOfChunks(c, msg);
    DecodedBytes(c, msg, syms);
  }

  /** A decode of |msg| * 8/k segments beyond the padding whose decided chunks spell the message writes the message. */
  lemma DecodedBytes(c: Config, msg: seq<Byte>, syms: seq<Byte>)
    requires ValidDecoder(c) && |syms| >= c.S() && |syms| - c.S() == |msg| * (8 / c.k)
    requires Chunks(c, ViterbiDecode(c, Initial(c), syms, true).segs) == MessageBits(msg)
    ensures var r := ViterbiDecode(c, Initial(c), syms, true);
            r.out == msg && r.outcome == Returned(|msg|) && r.state == Initial(c)
  {
    var r := ViterbiDecode(c, Initial(c), syms, true);
    DecodeWholeBytes(c, syms, |msg|);
    DecodeMessageBits(c, syms);
    MessageBitsInjective(r.out, msg);
  }

  /** Reading a message's chunks back, most significant bit first, gives its bits. */
  lemma MessageOfChunks(c: Config, msg: seq<Byte>)
    requires ValidDecoder(c)
    ensures Chunks(c, InputChunks(c, MessageBits(msg))) == MessageBits(msg)
  {
    WholeChunks(c.k, |msg|);
    ChunksOfInputChunks(c, MessageBits(msg));
  }

  /** A message of whole bytes is |msg| * 8/k chunks. */
  lemma DecodedLength(c: Config, msg: seq<Byte>)
    requires ValidDecoder(c)
    ensures |InputChunks(c, MessageBits(msg))| == |msg| * (8 / c.k)
  {
    ChunkCount(c.k, |msg|);
  }

  lemma ChunkCount(k: nat, bytes: nat)
    requires 1 <= k && 8 % k == 0
    ensures (8 * bytes) / k == bytes * (8 / k)
  {
    WholeBytes(k, bytes);
    DivModUnique(8 * bytes, k, bytes * (8 / k), 0);
  }

  /**
   * What the encoder sends for a message is the walk from the starting state
   * along the message's chunks and then S zero chunks, which ends in state 0.
   */
  lemma MessageWalk(c: Config, msg: seq<Byte>)
    requires ValidDecoder(c)
    ensures var bits := MessageBits(msg);
            var tail := InputChunks(c, Zeros(PaddingBits(c)));
            var es := InputChunks(c, bits + Zeros(PaddingBits(c)));
            EncodeMessage(c, msg) == Symbols(c, StartingState, es) && StateAfter(c, StartingState, es) == 0 &&
            es == InputChunks(c, bits) + tail && |tail| == c.S() && |bits| % c.k == 0
  {
    var bits := MessageBits(msg);
    var zeros := Zeros(PaddingBits(c));
    EncodedMessageIsWalk(c, msg);
    WalkOfChunks(c, StartingState, bits + zeros);
    WholeChunks(c.k, |msg|);
    InputChunksAppend(c, bits, zeros);
    assert c.S() * c.k == c.k * c.S();
    DivModUnique(c.S() * c.k, c.k, c.S(), 0);
  }

  /**
   * Decoding a walk that ends in state 0, with `last`, decides every chunk
   * of it but the S padding ones.
   */
  lemma DecodeWalk(c: Config, es: seq<nat>, syms: seq<Byte>)
    requires ValidDecoder(c) && ViterbiConfigCheck(c) == Returned(0) && DistinctEdges(c)
    requires MetricsFit(c, |es|) && forall i :: 0 <= i < |es| ==> es[i] < c.NumEdges()
    requires syms == Symbols(c, StartingState, es) && StateAfter(c, StartingState, es) == 0 && |es| >= c.S()
    ensures ViterbiDecode(c, Initial(c), syms, true).segs == es[..|es| - c.S()]
  {
    DecodeAndDrain(c, es, syms);
    var s := DecodeSegments(c, Initial(c), syms);
    FinishDrained(c, s, es);
    assert ViterbiDecode(c, Initial(c), syms, true) == FinishMessage(c, s);
  }

  /** Finishing after the streamed prefix, with the drained chunks next, decides everything up to the padding. */
  lemma FinishDrained(c: Config, s: Stepped, es: seq<nat>)
    requires ValidDecoder(c) && WellFormed(c, s.state) && s.state.iteration == |es| && |es| >= c.S()
    requires s.segs == es[..Streamed(c, |es|)] && DrainSegments(c, s.state) == es[Streamed(c, |es|)..|es| - c.S()]
    ensures FinishMessage(c, s).segs == es[..|es| - c.S()]
  {
    FinishPacks(c, s);
    StreamedAndDrained(c, |es|);
    assert es[..|es| - c.S()] == es[..Streamed(c, |es|)] + es[Streamed(c, |es|)..|es| - c.S()];
  }

  /** Along such a walk the decoder streams its oldest chunks and drains the rest up to the padding. */
  lemma DecodeAndDrain(c: Config, es: seq<nat>, syms: seq<Byte>)
    requires ValidDecoder(c) && ViterbiConfigCheck(c) == Returned(0) && DistinctEdges(c)
    requires MetricsFit(c, |es|) && forall i :: 0 <= i < |es| ==> es[i] < c.NumEdges()
    requires syms == Symbols(c, StartingState, es) && StateAfter(c, StartingState, es) == 0 && |es| >= c.S()
    ensures var s := DecodeSegments(c, Initial(c), syms);
            WellFormed(c, s.state) && s.state.iteration == |es| && s.segs == es[..Streamed(c, |es|)] &&
            DrainSegments(c, s.state) == es[Streamed(c, |es|)..|es| - c.S()]
  {
    DecodeOnPath(c, es, syms);
    DrainOnPath(c, DecodeSegments(c, Initial(c), syms).state, es);
  }
}
