/**
 * The general hard-decision Viterbi decoder as the C code runs it: a state
 * record holding the edge table, two metric and two traceback arrays whose
 * current/next roles are swapped after every trellis iteration, the
 * iteration counter and the partial output byte. Each method is proved to
 * compute what ViterbiSpec says.
 */
module HardDecoder {
  import opened Bits
  import opened CodeParams
  import opened EncoderSpec
  import opened Trellis
  import opened Hamming
  import opened ViterbiSpec
  import opened ConvEncode

  // ---------------------------------------------------------------------------
  // argminPathMetrics / argminNodeMetrics: a tournament over 2^levels entries

  /** Entry t of `w` indexes the first least element of block t, blocks being `size` entries wide. */
  ghost predicate BlockWinners(xs: seq<nat>, w: seq<nat>, count: nat, size: nat)
  {
    count <= |w| && forall t :: 0 <= t < count ==> IsBlockMin(xs, t * size, t * size + size, w[t])
  }

  /** Two adjacent blocks' winners: the left one wins ties, so the winner is the first least of both. */
  lemma MergeBlocks(xs: seq<nat>, lo: nat, mid: nat, hi: nat, a: nat, b: nat)
    requires IsBlockMin(xs, lo, mid, a) && IsBlockMin(xs, mid, hi, b)
    ensures IsBlockMin(xs, lo, hi, if xs[a] <= xs[b] then a else b)
  {
  }

  /** Block t of width 2 * size is blocks 2t and 2t + 1 of width size. */
  lemma BlockBounds(t: nat, size: nat)
    ensures (2 * t) * size == t * (2 * size)
    ensures (2 * t) * size + size == (2 * t + 1) * size
    ensures (2 * t + 1) * size + size == t * (2 * size) + 2 * size
  {
  }

  /**
   * The tournament of argminPathMetrics (levels = k) and argminNodeMetrics
   * (levels = k*S): neighbours are compared pairwise, the winners pairwise
   * again, until one index is left. Ties go to the lower index, so the
   * result is the first least metric.
   */
  method ArgminTree(metrics: array<nat>, levels: nat) returns (r: nat)
    requires levels >= 1 && metrics.Length == Pow2(levels)
    ensures r < metrics.Length && r == FirstMin(metrics[..])
  {
    ghost var xs := metrics[..];
    var half := Pow2(levels) / 2;
    assert half == Pow2(levels - 1);
    var workingInd := new nat[half];
    FirstRound(metrics, workingInd);
    var level := levels - 1;
    ghost var size := 2;
    assert Pow2(levels - level) == size;
    while level > 0
      invariant 0 <= level < levels && size == Pow2(levels - level)
      invariant workingInd.Length == half && Pow2(level) <= half
      invariant BlockWinners(xs, workingInd[..], Pow2(level), size)
    {
      TournamentRound(metrics, workingInd, level, size);
      level := level - 1;
      size := 2 * size;
      Pow2Monotone(level, level + 1);
    }
    r := workingInd[0];
    assert IsBlockMin(xs, 0, Pow2(levels), r);
    FirstMinUnique(xs, r, FirstMin(xs));
  }

  /** The first round of the tournament: each even-odd pair of neighbours. */
  method FirstRound(metrics: array<nat>, workingInd: array<nat>)
    requires metrics != workingInd && metrics.Length == 2 * workingInd.Length
    modifies workingInd
    ensures BlockWinners(metrics[..], workingInd[..], workingInd.Length, 2)
  {
    ghost var xs := metrics[..];
    var i := 0;
    while i < workingInd.Length
      invariant 0 <= i <= workingInd.Length
      invariant BlockWinners(xs, workingInd[..], i, 2)
    {
      var indA, indB := i * 2, i * 2 + 1;
      if metrics[indA] <= metrics[indB] {
        workingInd[i] := indA;
      } else {
        workingInd[i] := indB;
      }
      i := i + 1;
    }
  }

  /** One round of the tournament: 2^(level-1) comparisons, winners written over the front of workingInd. */
  method TournamentRound(metrics: array<nat>, workingInd: array<nat>, level: nat, ghost size: nat)
    requires metrics != workingInd && level >= 1 && Pow2(level) <= workingInd.Length
    requires BlockWinners(metrics[..], workingInd[..], Pow2(level), size)
    modifies workingInd
    ensures BlockWinners(metrics[..], workingInd[..], Pow2(level - 1), 2 * size)
  {
    ghost var w0 := workingInd[..];
    var numComparisons := Pow2(level - 1);
    assert 2 * numComparisons == Pow2(level);
    var j := 0;
    while j < numComparisons
      invariant 0 <= j <= numComparisons
      invariant RoundProgress(metrics[..], workingInd[..], w0, j, size)
    {
      CompareNeighbours(metrics, workingInd, w0, Pow2(level), j, size);
      j := j + 1;
    }
  }

  /** Comparison j of a round: the winner of blocks 2j and 2j + 1 goes to workingInd[j]. */
  method CompareNeighbours(metrics: array<nat>, workingInd: array<nat>, ghost w0: seq<nat>, ghost count: nat,
                           j: nat, ghost size: nat)
    requires metrics != workingInd && BlockWinners(metrics[..], w0, count, size) && 2 * j + 1 < count
    requires RoundProgress(metrics[..], workingInd[..], w0, j, size)
    modifies workingInd
    ensures RoundProgress(metrics[..], workingInd[..], w0, j + 1, size)
  {
    ghost var w := workingInd[..];
    RoundStepBounds(metrics[..], w, w0, count, j, size);
    var indA, indB := workingInd[j * 2], workingInd[j * 2 + 1];
    if metrics[indA] <= metrics[indB] {
      workingInd[j] := indA;
    } else {
      workingInd[j] := indB;
    }
    RoundStep(metrics[..], w, workingInd[..], w0, count, j, size);
  }

  /** After j comparisons of a round: j merged winners in front, the old winners from index 2j on untouched. */
  ghost predicate RoundProgress(xs: seq<nat>, w: seq<nat>, w0: seq<nat>, j: nat, size: nat)
  {
    |w| == |w0| && BlockWinners(xs, w, j, 2 * size) && forall t :: 2 * j <= t < |w| ==> w[t] == w0[t]
  }

  /** The winners compared at step j of a round index metrics. */
  lemma RoundStepBounds(xs: seq<nat>, w: seq<nat>, w0: seq<nat>, count: nat, j: nat, size: nat)
    requires BlockWinners(xs, w0, count, size) && 2 * j + 1 < count
    requires RoundProgress(xs, w, w0, j, size)
    ensures w[2 * j] < |xs| && w[2 * j + 1] < |xs|
  {
    assert w[2 * j] == w0[2 * j] && w[2 * j + 1] == w0[2 * j + 1];
  }

  /** Comparison j of a round merges the winners of blocks 2j and 2j + 1 into entry j. */
  lemma RoundStep(xs: seq<nat>, w: seq<nat>, w': seq<nat>, w0: seq<nat>, count: nat, j: nat, size: nat)
    requires BlockWinners(xs, w0, count, size) && 2 * j + 1 < count
    requires RoundProgress(xs, w, w0, j, size)
    requires w[2 * j] < |xs| && w[2 * j + 1] < |xs|
    requires var a, b := w[2 * j], w[2 * j + 1];
             w' == w[j := if xs[a] <= xs[b] then a else b]
    ensures RoundProgress(xs, w', w0, j + 1, size)
  {
    var a, b := w[2 * j], w[2 * j + 1];
    BlockBounds(j, size);
    assert IsBlockMin(xs, (2 * j) * size, (2 * j) * size + size, a);
    assert IsBlockMin(xs, (2 * j + 1) * size, (2 * j + 1) * size + size, b);
    MergeBlocks(xs, j * (2 * size), (2 * j + 1) * size, j * (2 * size) + 2 * size, a, b);
  }

  // ---------------------------------------------------------------------------
  // The edge table

  /** An edge's segment fits the n-bit index range of the edge metrics. */
  lemma EdgeSymbolBound(c: Config, s: nat, e: nat)
    requires ValidEncoder(c)
    ensures EdgeSymbol(c, s, e) < c.NumSymbols() <= 256
  {
    var reg := s * c.NumEdges() + e;
    assert EdgeSymbol(c, s, e) == SegmentFor(Taps(c, reg), c.g);
    SegmentForBound(Taps(c, reg), c.g);
    SymbolsFitByte(c);
  }

  /** Setting the encoder to state s and shifting in chunk e emits the segment of the edge s --e-->. */
  lemma EncoderEmitsEdge(c: Config, s: nat, e: nat)
    requires ValidEncoder(c) && e < c.NumEdges()
    ensures SegmentOf(c, ShiftIn(s, BigEndianBits(e, c.k))) == EdgeSymbol(c, s, e)
  {
    ShiftInChunk(s, e, c.k);
    DivModUnique(e, c.NumEdges(), 0, e);
  }

  lemma SymbolsFitByte(c: Config)
    requires ValidEncoder(c)
    ensures c.NumSymbols() <= 256
  {
    Pow2Monotone(c.n, 8);
    assert Pow2(8) == 256;
  }

  lemma EdgesFitByte(c: Config)
    requires ValidEncoder(c)
    ensures c.NumEdges() <= 256
  {
    Pow2Monotone(c.k, 8);
    assert Pow2(8) == 256;
  }

  // ---------------------------------------------------------------------------
  // Progress of a call through its received segments

  /** After received segments `syms` from st: the state reached and the bytes written are DecodeSegments'. */
  ghost predicate Progressed(c: Config, st: DecoderState, syms: seq<Byte>, state: DecoderState, written: seq<Byte>)
    requires ValidDecoder(c) && WellFormed(c, st)
  {
    var s := DecodeSegments(c, st, syms);
    state == s.state && written == s.out
  }

  /** One more received segment extends the progress by one DecodeStep. */
  lemma ProgressedStep(c: Config, st: DecoderState, syms: seq<Byte>, i: nat,
                       state: DecoderState, written: seq<Byte>, state': DecoderState, written': seq<Byte>)
    requires ValidDecoder(c) && WellFormed(c, st) && i < |syms|
    requires Progressed(c, st, syms[..i], state, written)
    requires state' == DecodeStep(c, state, syms[i]).state && written' == written + DecodeStep(c, state, syms[i]).out
    ensures Progressed(c, st, syms[..i + 1], state', written')
  {
    DecodeSegmentsSnoc(c, st, syms, i);
  }

  /** The bytes of one more step still fit where the whole run's bytes fit. */
  lemma RoomForStep(c: Config, st: DecoderState, syms: seq<Byte>, i: nat, state: DecoderState, written: seq<Byte>)
    requires ValidDecoder(c) && WellFormed(c, st) && i < |syms|
    requires Progressed(c, st, syms[..i], state, written)
    ensures WellFormed(c, state)
    ensures |written| + |DecodeStep(c, state, syms[i]).out| <= |DecodeSegments(c, st, syms).out|
  {
    DecodeSegmentsSnoc(c, st, syms, i);
    DecodeSegmentsPrefixOut(c, st, syms, i + 1);
  }

  /** After pushing segs from (carry, count) behind out0: the carry reached and the bytes written are PushAll's. */
  ghost predicate Drained(c: Config, carry: nat, count: nat, segs: seq<nat>, out0: seq<Byte>,
                          carry': nat, count': nat, written: seq<Byte>)
  {
    var p := PushAll(c, carry, count, segs);
    carry' == p.carry && count' == p.count && written == out0 + p.out
  }

  /** One more pushed chunk extends the drain by one PushSegment. */
  lemma DrainedStep(c: Config, carry: nat, count: nat, segs: seq<nat>, j: nat, out0: seq<Byte>,
                    carry1: nat, count1: nat, written: seq<Byte>, carry2: nat, count2: nat, written2: seq<Byte>)
    requires j < |segs| && Drained(c, carry, count, segs[..j], out0, carry1, count1, written)
    requires var p := PushSegment(c, carry1, count1, segs[j]);
             carry2 == p.carry && count2 == p.count && written2 == written + p.out
    ensures Drained(c, carry, count, segs[..j + 1], out0, carry2, count2, written2)
  {
    PushAllSnoc(c, carry, count, segs, j);
  }

  /** Entries kept from `a` on, then again from a later `b` on, are kept from `b` on. */
  lemma KeepSuffix(orig: seq<Byte>, mid: seq<Byte>, after: seq<Byte>, a: nat, b: nat)
    requires a <= b <= |orig| && |mid| == |orig| && |after| == |orig|
    requires mid[a..] == orig[a..] && after[b..] == mid[b..]
    ensures after[b..] == orig[b..]
  {
    assert mid[b..] == mid[a..][b - a..];
    assert orig[b..] == orig[a..][b - a..];
  }

  /** The byte one more chunk may complete still fits where all the drained bytes fit. */
  lemma RoomForPush(c: Config, carry: nat, count: nat, segs: seq<nat>, j: nat, out0: seq<Byte>,
                    carry1: nat, count1: nat, written: seq<Byte>, room: nat)
    requires j < |segs| && Drained(c, carry, count, segs[..j], out0, carry1, count1, written)
    requires |out0| + |PushAll(c, carry, count, segs).out| <= room
    ensures |written| + |PushSegment(c, carry1, count1, segs[j]).out| <= room
  {
    PushAllSnoc(c, carry, count, segs, j);
    PushAllPrefixOut(c, carry, count, segs, j + 1);
  }

  /** One table entry: reset the encoder, set its state, shift in one chunk. */
  method EncodeEdge(c: Config, tmpEncoder: ConvEncoder, stateInd: nat, edgeInd: nat) returns (codedSegment: Byte)
    requires ValidDecoder(c) && edgeInd < c.NumEdges()
    requires tmpEncoder.c == c && tmpEncoder.Valid()
    modifies tmpEncoder, tmpEncoder.tappedDelay
    ensures tmpEncoder.Valid() && codedSegment == EdgeSymbol(c, stateInd, edgeInd)
  {
    EdgesFitByte(c);
    tmpEncoder.ResetConvEncoder();
    tmpEncoder.SetConvEncoderState(stateInd);
    codedSegment := tmpEncoder.ConvEncOneInput(edgeInd);
    EncoderEmitsEdge(c, stateInd, edgeInd);
  }

  // ---------------------------------------------------------------------------
  // The decoder state record

  class ViterbiDecoder {
    /** The code; fixed at compile time in the C code. */
    const c: Config
    /** edgeCodedBits[s, e]: the segment on the edge leaving state s with input chunk e. */
    const edgeCodedBits: array2<Byte>
    const nodeMetricsA: array<nat>
    const traceBackA: array<nat>
    const nodeMetricsB: array<nat>
    const traceBackB: array<nat>
    /** Which of A and B is current: the C struct's four pointers. */
    var nodeMetricsCur: array<nat>
    var traceBackCur: array<nat>
    var nodeMetricsNext: array<nat>
    var traceBackNext: array<nat>
    var iteration: nat
    var decodeCarryOver: nat
    var decodeCarryOverCount: nat

    /** Sizes from the code, four separate arrays, and the pointers naming A and B in one of the two roles. */
    ghost predicate Shape()
      reads this
    {
      ValidDecoder(c) &&
      edgeCodedBits.Length0 == c.NumStates() && edgeCodedBits.Length1 == c.NumEdges() &&
      nodeMetricsCur.Length == c.NumStates() && nodeMetricsNext.Length == c.NumStates() &&
      traceBackCur.Length == c.NumStates() && traceBackNext.Length == c.NumStates() &&
      nodeMetricsCur != nodeMetricsNext && traceBackCur != traceBackNext &&
      nodeMetricsCur != traceBackCur && nodeMetricsCur != traceBackNext &&
      nodeMetricsNext != traceBackCur && nodeMetricsNext != traceBackNext &&
      Roles()
    }

    /** The current and next pointers name A and B, or B and A, for metrics and tracebacks alike. */
    ghost predicate Roles()
      reads this
    {
      (nodeMetricsCur == nodeMetricsA && nodeMetricsNext == nodeMetricsB &&
       traceBackCur == traceBackA && traceBackNext == traceBackB) ||
      (nodeMetricsCur == nodeMetricsB && nodeMetricsNext == nodeMetricsA &&
       traceBackCur == traceBackB && traceBackNext == traceBackA)
    }

    /** The edge table holds every edge's segment. */
    ghost predicate Table()
      reads this, edgeCodedBits
      requires Shape()
    {
      forall s, e :: 0 <= s < c.NumStates() && 0 <= e < c.NumEdges() ==> edgeCodedBits[s, e] == EdgeSymbol(c, s, e)
    }

    /** The decoder state the current arrays and counters hold. */
    ghost function State(): DecoderState
      reads this, nodeMetricsCur, traceBackCur
    {
      DecoderState(nodeMetricsCur[..], traceBackCur[..], iteration, decodeCarryOver, decodeCarryOverCount)
    }

    ghost predicate Valid()
      reads this, edgeCodedBits, nodeMetricsCur, traceBackCur
    {
      Shape() && Table() && WellFormed(c, State())
    }

    /** Allocation of the state record followed by viterbiInit and resetViterbiDecoderHard. */
    constructor (c: Config)
      requires ValidDecoder(c)
      ensures this.c == c && Valid() && State() == Initial(c)
    {
      this.c := c;
      var states, edges := c.NumStates(), c.NumEdges();
      edgeCodedBits := new Byte[states, edges];
      nodeMetricsA := new nat[states];
      traceBackA := new nat[states];
      nodeMetricsB := new nat[states];
      traceBackB := new nat[states];
      nodeMetricsCur := nodeMetricsA;
      traceBackCur := traceBackA;
      nodeMetricsNext := nodeMetricsB;
      traceBackNext := traceBackB;
      iteration := 0;
      decodeCarryOver := 0;
      decodeCarryOverCount := 0;
      new;
      ViterbiInit();
      ResetViterbiDecoderHard();
    }

    /** viterbiInit: fills the edge table by running the encoder from every state on every input chunk. */
    method ViterbiInit()
      requires Shape()
      modifies edgeCodedBits
      ensures Shape() && Table()
    {
      var tmpEncoder := new ConvEncoder(c);
      var stateInd := 0;
      while stateInd < c.NumStates()
        invariant 0 <= stateInd <= c.NumStates()
        invariant tmpEncoder.c == c && tmpEncoder.Valid() && fresh(tmpEncoder.tappedDelay)
        invariant forall s, e :: 0 <= s < stateInd && 0 <= e < c.NumEdges() ==> edgeCodedBits[s, e] == EdgeSymbol(c, s, e)
      {
        FillEdgeRow(tmpEncoder, stateInd);
        stateInd := stateInd + 1;
      }
    }

    /** The inner loop of viterbiInit: row stateInd of the table. */
    method FillEdgeRow(tmpEncoder: ConvEncoder, stateInd: nat)
      requires Shape() && stateInd < c.NumStates()
      requires tmpEncoder.c == c && tmpEncoder.Valid()
      modifies edgeCodedBits, tmpEncoder, tmpEncoder.tappedDelay
      ensures tmpEncoder.Valid()
      ensures forall e :: 0 <= e < c.NumEdges() ==> edgeCodedBits[stateInd, e] == EdgeSymbol(c, stateInd, e)
      ensures forall s, e :: 0 <= s < c.NumStates() && s != stateInd && 0 <= e < c.NumEdges() ==>
                edgeCodedBits[s, e] == old(edgeCodedBits[s, e])
    {
      var edgeInd := 0;
      while edgeInd < c.NumEdges()
        invariant 0 <= edgeInd <= c.NumEdges()
        invariant tmpEncoder.Valid()
        invariant forall e :: 0 <= e < edgeInd ==> edgeCodedBits[stateInd, e] == EdgeSymbol(c, stateInd, e)
        invariant forall s, e :: 0 <= s < c.NumStates() && s != stateInd && 0 <= e < c.NumEdges() ==>
                    edgeCodedBits[s, e] == old(edgeCodedBits[s, e])
      {
        var codedSegment := EncodeEdge(c, tmpEncoder, stateInd, edgeInd);
        edgeCodedBits[stateInd, edgeInd] := codedSegment;
        edgeInd := edgeInd + 1;
      }
    }

    /** resetViterbiDecoderHard: A becomes current, only the starting state has metric 0, tracebacks and counters clear. */
    method ResetViterbiDecoderHard()
      requires Shape()
      modifies this`nodeMetricsCur, this`traceBackCur, this`nodeMetricsNext, this`traceBackNext
      modifies this`iteration, this`decodeCarryOver, this`decodeCarryOverCount, nodeMetricsA, traceBackA
      ensures Shape() && nodeMetricsCur == nodeMetricsA && traceBackCur == traceBackA
      ensures State() == Initial(c)
    {
      nodeMetricsCur := nodeMetricsA;
      nodeMetricsNext := nodeMetricsB;
      traceBackCur := traceBackA;
      traceBackNext := traceBackB;
      ResetArrays(nodeMetricsCur, traceBackCur);
      iteration := 0;
      decodeCarryOver := 0;
      decodeCarryOverCount := 0;
    }

    /** The loop of resetViterbiDecoderHard: metric NUM_STATES+1 everywhere but the starting state, empty tracebacks. */
    method ResetArrays(nodeMetrics: array<nat>, traceBack: array<nat>)
      requires ValidDecoder(c) && nodeMetrics != traceBack
      requires nodeMetrics.Length == c.NumStates() && traceBack.Length == c.NumStates()
      modifies nodeMetrics, traceBack
      ensures nodeMetrics[..] == Initial(c).metrics && traceBack[..] == Initial(c).tracebacks
    {
      nodeMetrics[StartingState] := 0;
      var forceNot := (c.NumStates() + 1) % MetricModulus;
      var i := 0;
      while i < c.NumStates()
        invariant 0 <= i <= c.NumStates()
        invariant nodeMetrics[StartingState] == 0
        invariant forall j :: 0 <= j < i ==> nodeMetrics[j] == InitialMetric(c, j) && traceBack[j] == 0
      {
        if i != StartingState {
          nodeMetrics[i] := forceNot;
        }
        traceBack[i] := 0;
        i := i + 1;
      }
      assert nodeMetrics[..] == Initial(c).metrics;
      assert traceBack[..] == Initial(c).tracebacks;
    }

    /** swapViterbiArrays: the next arrays become current and the current ones are reused as next. */
    method SwapViterbiArrays()
      requires Shape()
      modifies this`nodeMetricsCur, this`traceBackCur, this`nodeMetricsNext, this`traceBackNext
      ensures Shape()
      ensures nodeMetricsCur == old(nodeMetricsNext) && nodeMetricsNext == old(nodeMetricsCur)
      ensures traceBackCur == old(traceBackNext) && traceBackNext == old(traceBackCur)
    {
      var tmpMetric := nodeMetricsCur;
      nodeMetricsCur := nodeMetricsNext;
      nodeMetricsNext := tmpMetric;
      var tmpTraceback := traceBackCur;
      traceBackCur := traceBackNext;
      traceBackNext := tmpTraceback;
    }
  
    // -------------------------------------------------------------------------
    // One trellis iteration

    /**
     * The add-compare-select of one destination state: the metric of each
     * path in through the 2^k enumerated predecessors, the first least of
     * them, and the winner's traceback shifted by k with the edge's chunk
     * (the k low bits of dstState) appended.
     */
    method AddCompareSelect(dstState: nat, edgeMetrics: array<nat>, ghost sym: Byte)
      requires Valid() && dstState < c.NumStates() && edgeMetrics.Length == c.NumSymbols()
      requires forall j :: 0 <= j < c.NumSymbols() ==> edgeMetrics[j] == HammingDist(j, sym, 8)
      modifies nodeMetricsNext, traceBackNext
      ensures nodeMetricsNext[dstState] == NextMetrics(c, nodeMetricsCur[..], sym)[dstState]
      ensures traceBackNext[dstState] == NextTracebacks(c, nodeMetricsCur[..], traceBackCur[..], sym)[dstState]
      ensures forall d :: 0 <= d < c.NumStates() && d != dstState ==>
                nodeMetricsNext[d] == old(nodeMetricsNext[d]) && traceBackNext[d] == old(traceBackNext[d])
    {
      var newMetric, newTB := SelectSurvivor(dstState, edgeMetrics, sym);
      nodeMetricsNext[dstState] := newMetric;
      traceBackNext[dstState] := newTB;
    }

    /** The survivor into dstState: its path metric, and its source's traceback with dstState's chunk appended. */
    method SelectSurvivor(dstState: nat, edgeMetrics: array<nat>, ghost sym: Byte) returns (newMetric: nat, newTB: nat)
      requires Valid() && dstState < c.NumStates() && edgeMetrics.Length == c.NumSymbols()
      requires forall j :: 0 <= j < c.NumSymbols() ==> edgeMetrics[j] == HammingDist(j, sym, 8)
      ensures newMetric == NextMetrics(c, nodeMetricsCur[..], sym)[dstState]
      ensures newTB == NextTracebacks(c, nodeMetricsCur[..], traceBackCur[..], sym)[dstState]
    {
      ghost var metrics := nodeMetricsCur[..];
      var q := Pow2(c.k);
      var edgeOut := dstState % q;
      var pathMetrics := PathMetricsOf(dstState, edgeMetrics, sym);
      var minPathEdgeInIdx := ArgminTree(pathMetrics, c.k);
      // dstState / 2^k + minPathEdgeInIdx * 2^((S-1)k)
      var minPathSrcNodeIdx := Source(c, dstState, minPathEdgeInIdx);
      SourceInRange(c, dstState, minPathEdgeInIdx);
      newMetric := pathMetrics[minPathEdgeInIdx];
      NextMetricsAt(c, metrics, sym, dstState);
      newTB := traceBackCur[minPathSrcNodeIdx];
      // The shift leaves k zero low bits below edgeOut < 2^k, so the or adds.
      newTB := (newTB * q) % TracebackModulus();
      newTB := newTB + edgeOut;
      NextTracebacksAt(c, metrics, traceBackCur[..], sym, dstState, minPathSrcNodeIdx);
    }

    /** The inner loop of the add-compare-select: pathMetrics[e] for every enumerated predecessor e. */
    method PathMetricsOf(dstState: nat, edgeMetrics: array<nat>, ghost sym: Byte) returns (pathMetrics: array<nat>)
      requires Valid() && dstState < c.NumStates() && edgeMetrics.Length == c.NumSymbols()
      requires forall j :: 0 <= j < c.NumSymbols() ==> edgeMetrics[j] == HammingDist(j, sym, 8)
      ensures fresh(pathMetrics) && pathMetrics[..] == PathMetrics(c, nodeMetricsCur[..], sym, dstState)
      ensures pathMetrics.Length == Pow2(c.k)
    {
      ghost var metrics := nodeMetricsCur[..];
      var q := Pow2(c.k);
      pathMetrics := new nat[q];
      var edgeIn := 0;
      while edgeIn < q
        invariant 0 <= edgeIn <= q
        invariant forall e :: 0 <= e < edgeIn ==> pathMetrics[e] == PathMetric(c, metrics, sym, dstState, e)
      {
        pathMetrics[edgeIn] := PathMetricOf(dstState, edgeIn, edgeMetrics, sym);
        edgeIn := edgeIn + 1;
      }
      assert pathMetrics[..] == PathMetrics(c, metrics, sym, dstState);
    }

    /** The metric of the path into dstState from its predecessor number edgeIn, in uint32_t arithmetic. */
    method PathMetricOf(dstState: nat, edgeIn: nat, edgeMetrics: array<nat>, ghost sym: Byte) returns (m: nat)
      requires Valid() && dstState < c.NumStates() && edgeIn < c.NumEdges() && edgeMetrics.Length == c.NumSymbols()
      requires forall j :: 0 <= j < c.NumSymbols() ==> edgeMetrics[j] == HammingDist(j, sym, 8)
      ensures m == PathMetric(c, nodeMetricsCur[..], sym, dstState, edgeIn)
    {
      var edgeOut := dstState % Pow2(c.k);
      // dstState / 2^k + edgeIn * 2^((S-1)k)
      var srcNodeIdx := Source(c, dstState, edgeIn);
      SourceInRange(c, dstState, edgeIn);
      var srcMetric := nodeMetricsCur[srcNodeIdx];
      var edgeMetricIdx := edgeCodedBits[srcNodeIdx, edgeOut];
      EdgeSymbolBound(c, srcNodeIdx, edgeOut);
      m := (srcMetric + edgeMetrics[edgeMetricIdx]) % MetricModulus;
    }

    /** The edge metrics of one received segment: its distance to every n-bit segment, indexed by that segment. */
    method ComputeEdgeMetrics(codedBits: Byte) returns (edgeMetrics: array<nat>)
      requires ValidEncoder(c)
      ensures fresh(edgeMetrics) && edgeMetrics.Length == c.NumSymbols()
      ensures forall j :: 0 <= j < c.NumSymbols() ==> edgeMetrics[j] == HammingDist(j, codedBits, 8)
    {
      SymbolsFitByte(c);
      edgeMetrics := new nat[Pow2(c.n)];
      var j := 0;
      while j < Pow2(c.n)
        invariant 0 <= j <= Pow2(c.n)
        invariant forall i :: 0 <= i < j ==> edgeMetrics[i] == HammingDist(i, codedBits, 8)
      {
        edgeMetrics[j] := CalcHammingDist(j, codedBits);
        j := j + 1;
      }
    }

    /** The trellis iteration of one received segment: every state's add-compare-select, into the next arrays. */
    method UpdateTrellis(codedBits: Byte)
      requires Valid()
      modifies nodeMetricsNext, traceBackNext
      ensures Valid()
      ensures nodeMetricsNext[..] == NextMetrics(c, nodeMetricsCur[..], codedBits)
      ensures traceBackNext[..] == NextTracebacks(c, nodeMetricsCur[..], traceBackCur[..], codedBits)
    {
      ghost var metrics, tracebacks := nodeMetricsCur[..], traceBackCur[..];
      ghost var newMetrics := NextMetrics(c, metrics, codedBits);
      ghost var newTracebacks := NextTracebacks(c, metrics, tracebacks, codedBits);
      var edgeMetrics := ComputeEdgeMetrics(codedBits);
      var dstState := 0;
      while dstState < c.NumStates()
        invariant 0 <= dstState <= c.NumStates()
        invariant Valid() && nodeMetricsCur[..] == metrics && traceBackCur[..] == tracebacks
        invariant edgeMetrics.Length == c.NumSymbols()
        invariant forall j :: 0 <= j < c.NumSymbols() ==> edgeMetrics[j] == HammingDist(j, codedBits, 8)
        invariant forall d :: 0 <= d < dstState ==> nodeMetricsNext[d] == newMetrics[d] && traceBackNext[d] == newTracebacks[d]
      {
        AddCompareSelect(dstState, edgeMetrics, codedBits);
        dstState := dstState + 1;
      }
      assert nodeMetricsNext[..] == newMetrics;
      assert traceBackNext[..] == newTracebacks;
    }

    /**
     * The packing for k dividing 8: the chunk is shifted into the uint8_t
     * carry, and a full carry is written to uncoded[segmentsOut].
     */
    method PushSegmentOut(tracebackSeg: nat, uncoded: array<Byte>, segmentsOut: nat) returns (segmentsOut': nat)
      requires Valid() && segmentsOut <= uncoded.Length
      requires decodeCarryOverCount + c.k == 8 ==> segmentsOut < uncoded.Length
      modifies this`decodeCarryOver, this`decodeCarryOverCount, uncoded
      ensures Valid()
      ensures var p := PushSegment(c, old(decodeCarryOver), old(decodeCarryOverCount), tracebackSeg);
              decodeCarryOver == p.carry && decodeCarryOverCount == p.count &&
              segmentsOut' == segmentsOut + |p.out| && uncoded[..segmentsOut'] == old(uncoded[..segmentsOut]) + p.out
      ensures uncoded[segmentsOut'..] == old(uncoded[segmentsOut'..])
    {
      PushWellFormed(c, decodeCarryOver, decodeCarryOverCount, tracebackSeg);
      decodeCarryOver := (decodeCarryOver * Pow2(c.k) + tracebackSeg) % 256;
      decodeCarryOverCount := decodeCarryOverCount + c.k;
      segmentsOut' := segmentsOut;
      if decodeCarryOverCount == 8 {
        uncoded[segmentsOut] := decodeCarryOver;
        decodeCarryOverCount := 0;
        segmentsOut' := segmentsOut + 1;
      }
    }

    /**
     * The traceback decision, once TRACEBACK_LEN segments have been seen: the
     * chunk TRACEBACK_LEN - 1 steps back on the traceback of the first state
     * with the least metric, pushed into the output.
     */
    method StreamDecision(uncoded: array<Byte>, segmentsOut: nat) returns (segmentsOut': nat)
      requires Valid() && segmentsOut + |StreamStep(c, State()).out| <= uncoded.Length
      modifies this`decodeCarryOver, this`decodeCarryOverCount, uncoded
      ensures var r := StreamStep(c, old(State()));
              Valid() && State() == r.state &&
              segmentsOut' == segmentsOut + |r.out| && uncoded[..segmentsOut'] == old(uncoded[..segmentsOut]) + r.out
      ensures uncoded[segmentsOut'..] == old(uncoded[segmentsOut'..])
    {
      segmentsOut' := segmentsOut;
      if iteration >= c.TracebackLen() {
        PushWellFormed(c, decodeCarryOver, decodeCarryOverCount, 0);
        var minNodeIdx := ArgminTree(nodeMetricsCur, c.k * c.S());
        var nodeTB := traceBackCur[minNodeIdx];
        // (nodeTB >> ((TRACEBACK_LEN-1)*k)) % 2^k; the C code reduces modulo k (see StreamSegmentAsWritten)
        var tracebackSeg := StreamSegment(c, nodeTB);
        segmentsOut' := PushSegmentOut(tracebackSeg, uncoded, segmentsOut);
      }
    }

    /** The trellis iteration of one received segment, the swap, and the iteration count. */
    method TrellisIteration(codedBits: Byte)
      requires Valid()
      modifies this`nodeMetricsCur, this`traceBackCur, this`nodeMetricsNext, this`traceBackNext, this`iteration
      modifies nodeMetricsA, nodeMetricsB, traceBackA, traceBackB
      ensures Valid() && State() == TrellisStep(c, old(State()), codedBits)
    {
      UpdateTrellis(codedBits);
      SwapViterbiArrays();
      iteration := iteration + 1;
    }

    /** One received segment: trellis iteration, swap, iteration count, and a decision once the traceback is deep enough. */
    method DecodeSymbol(codedBits: Byte, uncoded: array<Byte>, segmentsOut: nat) returns (segmentsOut': nat)
      requires Valid() && segmentsOut + |DecodeStep(c, State(), codedBits).out| <= uncoded.Length
      modifies this`nodeMetricsCur, this`traceBackCur, this`nodeMetricsNext, this`traceBackNext
      modifies this`iteration, this`decodeCarryOver, this`decodeCarryOverCount
      modifies nodeMetricsA, nodeMetricsB, traceBackA, traceBackB, uncoded
      ensures var r := DecodeStep(c, old(State()), codedBits);
              Valid() && State() == r.state &&
              segmentsOut' == segmentsOut + |r.out| && uncoded[..segmentsOut'] == old(uncoded[..segmentsOut]) + r.out
      ensures uncoded[segmentsOut'..] == old(uncoded[segmentsOut'..])
    {
      TrellisIteration(codedBits);
      segmentsOut' := StreamDecision(uncoded, segmentsOut);
    }

    // -------------------------------------------------------------------------
    // A whole call

    /**
     * viterbiDecoderHard: decodes segmentsIn received segments, writing the
     * completed bytes to uncoded; with `last`, also drains the traceback of
     * state 0 and resets, or exits with status 1 if a partial byte is left.
     */
    method ViterbiDecoderHard(codedSegments: array<Byte>, uncoded: array<Byte>, segmentsIn: nat, last: bool)
      returns (r: Outcome)
      requires Valid() && codedSegments != uncoded && segmentsIn <= codedSegments.Length
      requires |ViterbiDecode(c, State(), codedSegments[..segmentsIn], last).out| <= uncoded.Length
      modifies this`nodeMetricsCur, this`traceBackCur, this`nodeMetricsNext, this`traceBackNext
      modifies this`iteration, this`decodeCarryOver, this`decodeCarryOverCount
      modifies nodeMetricsA, nodeMetricsB, traceBackA, traceBackB, uncoded
      ensures var d := ViterbiDecode(c, old(State()), old(codedSegments[..segmentsIn]), last);
              Valid() && State() == d.state && r == d.outcome && uncoded[..|d.out|] == d.out
              && uncoded[|d.out|..] == old(uncoded[|d.out|..])
    {
      ghost var st := State();
      ghost var syms := codedSegments[..segmentsIn];
      ViterbiDecodeOutGrows(c, st, syms, last);
      ghost var orig := uncoded[..];
      var segmentsOut := DecodeSegmentsOut(codedSegments, uncoded, segmentsIn, st);
      assert syms[..segmentsIn] == syms;
      if last {
        ghost var mid := uncoded[..];
        r := FinishMessageOut(uncoded, segmentsOut, DecodeSegments(c, st, syms));
        KeepSuffix(orig, mid, uncoded[..], segmentsOut, |ViterbiDecode(c, st, syms, last).out|);
      } else {
        r := Returned(segmentsOut);
      }
    }

    /** The per-segment loop of viterbiDecoderHard. */
    method DecodeSegmentsOut(codedSegments: array<Byte>, uncoded: array<Byte>, segmentsIn: nat, ghost st: DecoderState)
      returns (segmentsOut: nat)
      requires Valid() && State() == st && codedSegments != uncoded && segmentsIn <= codedSegments.Length
      requires |DecodeSegments(c, st, codedSegments[..segmentsIn]).out| <= uncoded.Length
      modifies this`nodeMetricsCur, this`traceBackCur, this`nodeMetricsNext, this`traceBackNext
      modifies this`iteration, this`decodeCarryOver, this`decodeCarryOverCount
      modifies nodeMetricsA, nodeMetricsB, traceBackA, traceBackB, uncoded
      ensures var s := DecodeSegments(c, st, old(codedSegments[..segmentsIn]));
              Valid() && State() == s.state && segmentsOut == |s.out| && uncoded[..segmentsOut] == s.out
      ensures uncoded[segmentsOut..] == old(uncoded[segmentsOut..])
    {
      ghost var syms := codedSegments[..segmentsIn];
      ghost var orig := uncoded[..];
      segmentsOut := 0;
      var i := 0;
      assert syms[..0] == [] && uncoded[..0] == [];
      assert Progressed(c, st, syms[..0], State(), uncoded[..0]);
      while i < segmentsIn
        invariant 0 <= i <= segmentsIn && codedSegments[..segmentsIn] == syms
        invariant Valid() && segmentsOut <= uncoded.Length
        invariant Progressed(c, st, syms[..i], State(), uncoded[..segmentsOut])
        invariant |orig| == uncoded.Length && uncoded[segmentsOut..] == orig[segmentsOut..]
      {
        segmentsOut := DecodeNext(codedSegments[i], uncoded, segmentsOut, st, syms, i, orig);
        i := i + 1;
      }
      assert syms[..segmentsIn] == syms;
      assert Progressed(c, st, syms, State(), uncoded[..segmentsOut]);
    }

    /** The body of the segment loop: one more received segment extends the progress of the call. */
    method DecodeNext(codedBits: Byte, uncoded: array<Byte>, segmentsOut: nat, ghost st: DecoderState,
                      ghost syms: seq<Byte>, ghost i: nat, ghost orig: seq<Byte>)
      returns (segmentsOut': nat)
      requires Valid() && WellFormed(c, st) && i < |syms| && codedBits == syms[i]
      requires |DecodeSegments(c, st, syms).out| <= uncoded.Length && segmentsOut <= uncoded.Length
      requires Progressed(c, st, syms[..i], State(), uncoded[..segmentsOut])
      requires |orig| == uncoded.Length && uncoded[segmentsOut..] == orig[segmentsOut..]
      modifies this`nodeMetricsCur, this`traceBackCur, this`nodeMetricsNext, this`traceBackNext
      modifies this`iteration, this`decodeCarryOver, this`decodeCarryOverCount
      modifies nodeMetricsA, nodeMetricsB, traceBackA, traceBackB, uncoded
      ensures Valid() && segmentsOut' <= uncoded.Length
      ensures Progressed(c, st, syms[..i + 1], State(), uncoded[..segmentsOut'])
      ensures |orig| == uncoded.Length && segmentsOut <= segmentsOut' && uncoded[segmentsOut'..] == orig[segmentsOut'..]
    {
      ghost var state, written := State(), uncoded[..segmentsOut];
      ghost var mid := uncoded[..];
      RoomForStep(c, st, syms, i, state, written);
      segmentsOut' := DecodeSymbol(codedBits, uncoded, segmentsOut);
      ProgressedStep(c, st, syms, i, state, written, State(), uncoded[..segmentsOut']);
      KeepSuffix(orig, mid, uncoded[..], segmentsOut, segmentsOut');
    }

    /**
     * The end of a message: the chunks of state 0's traceback not yet
     * streamed, minus the S padding chunks, are pushed into the output; a
     * partial byte left over ends the process with exit(1), else the decoder
     * is reset.
     */
    method FinishMessageOut(uncoded: array<Byte>, segmentsOut: nat, ghost s: Stepped) returns (r: Outcome)
      requires Valid() && State() == s.state && segmentsOut == |s.out| && segmentsOut <= uncoded.Length
      requires uncoded[..segmentsOut] == s.out && |FinishMessage(c, s).out| <= uncoded.Length
      modifies this`nodeMetricsCur, this`traceBackCur, this`nodeMetricsNext, this`traceBackNext
      modifies this`iteration, this`decodeCarryOver, this`decodeCarryOverCount
      modifies nodeMetricsA, traceBackA, uncoded
      ensures var d := FinishMessage(c, s);
              Valid() && State() == d.state && r == d.outcome && uncoded[..|d.out|] == d.out
              && uncoded[|d.out|..] == old(uncoded[|d.out|..])
    {
      ghost var drained := DrainSegments(c, State());
      var remainingTraceback: int := if iteration < c.TracebackLen() - 1 then iteration else c.TracebackLen() - 1;
      var tb := traceBackCur[0];
      // tb >> (S*k): the S newest chunks are termination padding
      tb := ShiftRight(tb, PaddingBits(c));
      remainingTraceback := remainingTraceback - c.S();
      var segmentsOut' := DrainTraceback(tb, remainingTraceback, uncoded, segmentsOut, s);
      if decodeCarryOverCount != 0 {
        r := Exited(1);
        return;
      }
      ResetViterbiDecoderHard();
      r := Returned(segmentsOut');
    }

    /** One pass of the end-of-message loop: chunk i of tb, the j-th drained chunk, pushed. */
    method DrainChunk(tb: nat, i: nat, uncoded: array<Byte>, segmentsOut: nat, ghost carry: nat, ghost count: nat,
                      ghost drained: seq<nat>, ghost j: nat, ghost out0: seq<Byte>, ghost room: nat,
                      ghost orig: seq<Byte>)
      returns (segmentsOut': nat)
      requires Valid() && segmentsOut <= uncoded.Length && room <= uncoded.Length
      requires j < |drained| && drained[j] == TracebackChunk(c, tb, i)
      requires |out0| + |PushAll(c, carry, count, drained).out| <= room
      requires Drained(c, carry, count, drained[..j], out0, decodeCarryOver, decodeCarryOverCount, uncoded[..segmentsOut])
      requires |orig| == uncoded.Length && uncoded[segmentsOut..] == orig[segmentsOut..]
      modifies this`decodeCarryOver, this`decodeCarryOverCount, uncoded
      ensures Valid() && segmentsOut' <= uncoded.Length
      ensures Drained(c, carry, count, drained[..j + 1], out0, decodeCarryOver, decodeCarryOverCount, uncoded[..segmentsOut'])
      ensures |orig| == uncoded.Length && uncoded[segmentsOut'..] == orig[segmentsOut'..]
    {
      ghost var carry0, count0, written := decodeCarryOver, decodeCarryOverCount, uncoded[..segmentsOut];
      ghost var mid := uncoded[..];
      RoomForPush(c, carry, count, drained, j, out0, carry0, count0, written, room);
      var seg := TracebackChunk(c, tb, i);
      segmentsOut' := PushSegmentOut(seg, uncoded, segmentsOut);
      DrainedStep(c, carry, count, drained, j, out0, carry0, count0, written,
                  decodeCarryOver, decodeCarryOverCount, uncoded[..segmentsOut']);
      KeepSuffix(orig, mid, uncoded[..], segmentsOut, segmentsOut');
    }

    /** The loop of the end of a message: chunks remainingTraceback - 1 down to 0 of tb pushed, oldest first. */
    method DrainTraceback(tb: nat, remainingTraceback: int, uncoded: array<Byte>, segmentsOut: nat, ghost s: Stepped)
      returns (segmentsOut': nat)
      requires Valid() && State() == s.state && segmentsOut == |s.out| && segmentsOut <= uncoded.Length
      requires uncoded[..segmentsOut] == s.out
      requires |s.out| + |PushAll(c, s.state.carry, s.state.carryCount, DrainSegments(c, s.state)).out| <= uncoded.Length
      requires tb == ShiftRight(s.state.tracebacks[0], PaddingBits(c))
      requires |DrainSegments(c, s.state)| == if remainingTraceback < 0 then 0 else remainingTraceback
      modifies this`decodeCarryOver, this`decodeCarryOverCount, uncoded
      ensures var p := PushAll(c, s.state.carry, s.state.carryCount, DrainSegments(c, s.state));
              Valid() && decodeCarryOver == p.carry && decodeCarryOverCount == p.count &&
              segmentsOut' == segmentsOut + |p.out| && uncoded[..segmentsOut'] == s.out + p.out
      ensures uncoded[segmentsOut'..] == old(uncoded[segmentsOut'..])
    {
      ghost var drained := DrainSegments(c, s.state);
      ghost var orig := uncoded[..];
      ghost var n := |drained|;
      ghost var carry, count := s.state.carry, s.state.carryCount;
      segmentsOut' := segmentsOut;
      var i := remainingTraceback - 1;
      ghost var j: nat := 0;
      ghost var room := |s.out| + |PushAll(c, carry, count, drained).out|;
      while i >= 0
        invariant j <= n && (i + j == n - 1 || (n == 0 && i < 0)) && Valid()
        invariant segmentsOut' <= uncoded.Length && room <= uncoded.Length
        invariant Drained(c, carry, count, drained[..j], s.out, decodeCarryOver, decodeCarryOverCount, uncoded[..segmentsOut'])
        invariant uncoded[segmentsOut'..] == orig[segmentsOut'..]
      {
        segmentsOut' := DrainChunk(tb, i, uncoded, segmentsOut', carry, count, drained, j, s.out, room, orig);
        i := i - 1;
        j := j + 1;
      }
      assert drained[..j] == drained;
    }
  }
}
