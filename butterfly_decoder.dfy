/**
 * The k = 1 butterfly decoder as the C code runs it (the USE_POLY_SYMMETRY
 * variant): a state record holding the symmetric edge table, one metric
 * array that every segment overwrites, a buffer with one row of decision
 * bits per received segment, and the iteration counter. Each method is
 * proved to compute what ButterflySpec says.
 */
module ButterflyDecoding {
  import opened Bits
  import opened CodeParams
  import opened Trellis
  import opened Hamming
  import opened ConvEncode
  import opened HardDecoder
  import opened ButterflySpec

  /** minMetricGeneric: start from entry 0 and keep any strictly smaller entry. */
  method MinMetricGeneric(metrics: array<nat>) returns (minPathMetric: nat)
    requires metrics.Length > 0
    ensures minPathMetric == MinOf(metrics[..])
  {
    minPathMetric := metrics[0];
    assert metrics[..1] == [metrics[0]];
    var idx := 1;
    while idx < metrics.Length
      invariant 1 <= idx <= metrics.Length
      invariant minPathMetric == MinOf(metrics[..idx])
    {
      assert metrics[..idx + 1][..idx] == metrics[..idx];
      if metrics[idx] < minPathMetric {
        minPathMetric := metrics[idx];
      }
      idx := idx + 1;
    }
    assert metrics[..idx] == metrics[..];
  }

  /**
   * The renormalisation: the least metric (found by the loop of
   * minMetricGeneric, written out inline) is subtracted from every metric.
   */
  method Renormalize(newMetrics: array<nat>)
    requires newMetrics.Length > 0
    modifies newMetrics
    ensures newMetrics[..] == Lowered(old(newMetrics[..]), MinOf(old(newMetrics[..])))
  {
    ghost var before := newMetrics[..];
    var minPathMetric := MinMetricGeneric(newMetrics);
    ghost var lowered := Lowered(before, minPathMetric);
    var idx := 0;
    while idx < newMetrics.Length
      invariant 0 <= idx <= newMetrics.Length
      invariant forall i :: 0 <= i < idx ==> newMetrics[i] == lowered[i]
      invariant forall i :: idx <= i < newMetrics.Length ==> newMetrics[i] == before[i]
    {
      assert minPathMetric <= before[idx];
      newMetrics[idx] := newMetrics[idx] - minPathMetric;
      idx := idx + 1;
    }
    assert newMetrics[..] == lowered;
  }

  /** The candidates into butterfly b's destinations, in terms of its two sources and the distance d. */
  lemma ButterflyCandidates(c: Config, metrics: seq<nat>, sym: Byte, b: nat)
    requires ValidButterfly(c) && |metrics| == c.NumStates() && b < Half(c)
    ensures var d, m, m' := Dist(c, b, sym), metrics[b], metrics[b + Half(c)];
            FromLower(c, metrics, sym, 2 * b) == m + d && FromUpper(c, metrics, sym, 2 * b) == m' + (c.n - d) &&
            FromLower(c, metrics, sym, 2 * b + 1) == m + (c.n - d) && FromUpper(c, metrics, sym, 2 * b + 1) == m' + d
  {
    ButterflyShape(c);
    assert (2 * b) / 2 == b && (2 * b + 1) / 2 == b && (2 * b) % 2 == 0 && (2 * b + 1) % 2 == 1;
  }

  /** The first `count` entries of nm and tb are the step's new metrics and decisions. */
  ghost predicate Selected(c: Config, metrics: seq<nat>, sym: Byte, nm: seq<nat>, tb: seq<Bit>, count: nat)
    requires ValidButterfly(c) && |metrics| == c.NumStates()
  {
    count <= |nm| == |tb| == c.NumStates() &&
    forall d :: 0 <= d < count ==> nm[d] == NewMetric(c, metrics, sym, d) && tb[d] == Decision(c, metrics, sym, d)
  }

  /** Storing butterfly b's two results extends the selected prefix by its two destinations. */
  lemma SelectedStep(c: Config, metrics: seq<nat>, sym: Byte, nm: seq<nat>, tb: seq<Bit>, b: nat,
                     am: nat, at: Bit, bm: nat, bt: Bit)
    requires ValidButterfly(c) && |metrics| == c.NumStates() && 2 * b + 1 < c.NumStates()
    requires Selected(c, metrics, sym, nm, tb, 2 * b)
    requires am == NewMetric(c, metrics, sym, 2 * b) && at == Decision(c, metrics, sym, 2 * b)
    requires bm == NewMetric(c, metrics, sym, 2 * b + 1) && bt == Decision(c, metrics, sym, 2 * b + 1)
    ensures Selected(c, metrics, sym, nm[2 * b := am][2 * b + 1 := bm], tb[2 * b := at][2 * b + 1 := bt], 2 * b + 2)
  {
  }

  /** All entries selected: the arrays hold the step's metrics and decisions. */
  lemma SelectedAll(c: Config, metrics: seq<nat>, sym: Byte, nm: seq<nat>, tb: seq<Bit>)
    requires ValidButterfly(c) && |metrics| == c.NumStates()
    requires Selected(c, metrics, sym, nm, tb, c.NumStates())
    ensures nm == StepMetrics(c, metrics, sym) && tb == StepDecisions(c, metrics, sym)
  {
  }

  /** The stores of one butterfly loop iteration: its two results into states 2b and 2b + 1. */
  method Place(newMetrics: array<nat>, tracebackBuf2: array<Bit>, b: nat, am: nat, at: Bit, bm: nat, bt: Bit,
               ghost c: Config, ghost metrics: seq<nat>, ghost sym: Byte)
    requires ValidButterfly(c) && |metrics| == c.NumStates() && 2 * b + 1 < c.NumStates()
    requires Selected(c, metrics, sym, newMetrics[..], tracebackBuf2[..], 2 * b)
    requires am == NewMetric(c, metrics, sym, 2 * b) && at == Decision(c, metrics, sym, 2 * b)
    requires bm == NewMetric(c, metrics, sym, 2 * b + 1) && bt == Decision(c, metrics, sym, 2 * b + 1)
    modifies newMetrics, tracebackBuf2
    ensures Selected(c, metrics, sym, newMetrics[..], tracebackBuf2[..], 2 * b + 2)
  {
    ghost var nm, tb := newMetrics[..], tracebackBuf2[..];
    newMetrics[2 * b] := am;
    newMetrics[2 * b + 1] := bm;
    tracebackBuf2[2 * b] := at;
    tracebackBuf2[2 * b + 1] := bt;
    SelectedStep(c, metrics, sym, nm, tb, b, am, at, bm, bt);
  }

  class ButterflyDecoder {
    /** The code; fixed at compile time in the C code. */
    const c: Config
    /** edgeCodedBitsSymm[b]: the segment on butterfly b's edge from state b with input 0. */
    const edgeCodedBitsSymm: array<Byte>
    const nodeMetricsA: array<nat>
    /** tracebackBufs[t, s]: the decision bit of state s after segment t. */
    const tracebackBufs: array2<Bit>
    var iteration: nat
    var decodeCarryOver: nat
    var decodeCarryOverCount: nat
    /** The decision rows written since the last reset, one per segment. */
    ghost var rows: seq<seq<Bit>>

    /** Sizes from the code: one table entry per butterfly, one metric and one decision per state. */
    ghost predicate Shape()
      reads this
    {
      ValidButterfly(c) &&
      edgeCodedBitsSymm.Length == Half(c) && nodeMetricsA.Length == c.NumStates() &&
      tracebackBufs.Length1 == c.NumStates()
    }

    /** The symmetric table holds every butterfly's input-0 edge from its lower source. */
    ghost predicate Table()
      reads this, edgeCodedBitsSymm
      requires Shape()
    {
      forall b :: 0 <= b < Half(c) ==> edgeCodedBitsSymm[b] == SymmEntry(c, b)
    }

    /** The first `iteration` rows of the buffer hold the decision rows. */
    ghost predicate Stored()
      reads this, tracebackBufs
      requires Shape()
    {
      |rows| == iteration <= tracebackBufs.Length0 && RowsWellFormed(c, rows) &&
      forall t, s :: 0 <= t < |rows| && 0 <= s < c.NumStates() ==> tracebackBufs[t, s] == rows[t][s]
    }

    /** The decoder state the arrays and counters hold. */
    ghost function State(): BflyState
      reads this, nodeMetricsA
    {
      BflyState(nodeMetricsA[..], rows, decodeCarryOver, decodeCarryOverCount)
    }

    ghost predicate Valid()
      reads this, edgeCodedBitsSymm, nodeMetricsA, tracebackBufs
    {
      Shape() && Table() && Stored() && BflyWellFormed(c, State())
    }

    /**
     * Allocation of the state record, with room for `capacity` decision
     * rows, followed by viterbiInitButterflyk1 and
     * resetViterbiDecoderHardButterflyk1.
     */
    constructor (c: Config, capacity: nat)
      requires ValidButterfly(c)
      ensures this.c == c && Valid() && State() == BflyInitial(c) && tracebackBufs.Length0 == capacity
    {
      this.c := c;
      ButterflyShape(c);
      var states := c.NumStates();
      edgeCodedBitsSymm := new Byte[Half(c)];
      nodeMetricsA := new nat[states];
      tracebackBufs := new Bit[capacity, states];
      iteration := 0;
      decodeCarryOver := 0;
      decodeCarryOverCount := 0;
      rows := [];
      new;
      ViterbiInitButterflyk1();
      ResetViterbiDecoderHardButterflyk1();
    }

    /**
     * viterbiInitButterflyk1: for each butterfly b, reset the encoder, put it
     * in state b and shift in a 0.
     */
    method ViterbiInitButterflyk1()
      requires Shape()
      modifies edgeCodedBitsSymm
      ensures Table()
    {
      var tmpEncoder := new ConvEncoder(c);
      var half := Half(c);
      var i := 0;
      while i < half
        invariant 0 <= i <= half
        invariant tmpEncoder.c == c && tmpEncoder.Valid() && fresh(tmpEncoder.tappedDelay)
        invariant forall b :: 0 <= b < i ==> edgeCodedBitsSymm[b] == SymmEntry(c, b)
      {
        ButterflyShape(c);
        edgeCodedBitsSymm[i] := EncodeEdge(c, tmpEncoder, i, 0);
        i := i + 1;
      }
    }

    /** resetViterbiDecoderHardButterflyk1: metric 0 for state 0, NUM_STATES+1 for the others, no rows, counters cleared. */
    method ResetViterbiDecoderHardButterflyk1()
      requires Shape()
      modifies this`iteration, this`decodeCarryOver, this`decodeCarryOverCount, this`rows, nodeMetricsA
      ensures Stored() && State() == BflyInitial(c)
    {
      nodeMetricsA[StartingState] := 0;
      var forceNot := c.NumStates() + 1;
      var i := 1;
      while i < c.NumStates()
        invariant 1 <= i <= c.NumStates()
        invariant forall j :: 0 <= j < i ==> nodeMetricsA[j] == BflyInitialMetric(c, j)
      {
        nodeMetricsA[i] := forceNot;
        i := i + 1;
      }
      assert nodeMetricsA[..] == BflyInitial(c).metrics;
      iteration := 0;
      decodeCarryOver := 0;
      decodeCarryOverCount := 0;
      rows := [];
    }

    // -------------------------------------------------------------------------
    // One received segment

    /**
     * The four candidates of butterfly b: with d the distance of the received
     * segment from the table entry, d from below and n - d from above into 2b,
     * n - d from below and d from above into 2b + 1.
     */
    method Candidates(butterfly: nat, codedBits: Byte) returns (a0: nat, a1: nat, b0: nat, b1: nat)
      requires Shape() && Table() && butterfly < Half(c)
      ensures a0 == FromLower(c, nodeMetricsA[..], codedBits, 2 * butterfly)
      ensures a1 == FromUpper(c, nodeMetricsA[..], codedBits, 2 * butterfly)
      ensures b0 == FromLower(c, nodeMetricsA[..], codedBits, 2 * butterfly + 1)
      ensures b1 == FromUpper(c, nodeMetricsA[..], codedBits, 2 * butterfly + 1)
    {
      ButterflyShape(c);
      var half := Half(c);
      var edgeMetric := CalcHammingDistWidth(edgeCodedBitsSymm[butterfly], codedBits, c.n);
      var edgeMetricComplement := c.n - edgeMetric;
      a0 := nodeMetricsA[butterfly] + edgeMetric;
      a1 := nodeMetricsA[half + butterfly] + edgeMetricComplement;
      b0 := nodeMetricsA[butterfly] + edgeMetricComplement;
      b1 := nodeMetricsA[half + butterfly] + edgeMetric;
      ButterflyCandidates(c, nodeMetricsA[..], codedBits, butterfly);
    }

    /** Butterfly b: each decision is 1 when the upper candidate is strictly smaller, and the metric is the one it picks. */
    method Butterfly(butterfly: nat, codedBits: Byte) returns (aMetric: nat, aTraceback: Bit, bMetric: nat, bTraceback: Bit)
      requires Shape() && Table() && butterfly < Half(c)
      ensures aMetric == NewMetric(c, nodeMetricsA[..], codedBits, 2 * butterfly)
      ensures aTraceback == Decision(c, nodeMetricsA[..], codedBits, 2 * butterfly)
      ensures bMetric == NewMetric(c, nodeMetricsA[..], codedBits, 2 * butterfly + 1)
      ensures bTraceback == Decision(c, nodeMetricsA[..], codedBits, 2 * butterfly + 1)
    {
      ButterflyShape(c);
      var a0, a1, b0, b1 := Candidates(butterfly, codedBits);
      var aDecision := a0 > a1;
      var bDecision := b0 > b1;
      aMetric := a0;
      bMetric := b0;
      if aDecision {
        aMetric := a1;
      }
      if bDecision {
        bMetric := b1;
      }
      aTraceback := if aDecision then 1 else 0;
      bTraceback := if bDecision then 1 else 0;
    }

    /** The butterfly loop: every state's new metric and decision, into fresh arrays. */
    method Butterflies(codedBits: Byte) returns (newMetrics: array<nat>, tracebackBuf2: array<Bit>)
      requires Shape() && Table()
      ensures fresh(newMetrics) && fresh(tracebackBuf2)
      ensures newMetrics[..] == StepMetrics(c, nodeMetricsA[..], codedBits)
      ensures tracebackBuf2[..] == StepDecisions(c, nodeMetricsA[..], codedBits)
    {
      ButterflyShape(c);
      ghost var metrics := nodeMetricsA[..];
      newMetrics := new nat[c.NumStates()];
      tracebackBuf2 := new Bit[c.NumStates()];
      var half := Half(c);
      var butterfly := 0;
      while butterfly < half
        invariant 0 <= butterfly <= half && nodeMetricsA[..] == metrics
        invariant Selected(c, metrics, codedBits, newMetrics[..], tracebackBuf2[..], 2 * butterfly)
      {
        var aMetric, aTraceback, bMetric, bTraceback := Butterfly(butterfly, codedBits);
        Place(newMetrics, tracebackBuf2, butterfly, aMetric, aTraceback, bMetric, bTraceback, c, metrics, codedBits);
        butterfly := butterfly + 1;
      }
      SelectedAll(c, metrics, codedBits, newMetrics[..], tracebackBuf2[..]);
    }

    /** Copies the decisions into buffer row `iteration`, leaving every other row alone. */
    method StoreRow(tracebackBuf2: array<Bit>)
      requires Shape() && iteration < tracebackBufs.Length0 && tracebackBuf2.Length == c.NumStates()
      modifies tracebackBufs
      ensures forall t, s :: 0 <= t < tracebackBufs.Length0 && 0 <= s < c.NumStates() ==>
                tracebackBufs[t, s] == if t == iteration then tracebackBuf2[s] else old(tracebackBufs[t, s])
    {
      var idx := 0;
      while idx < c.NumStates()
        invariant 0 <= idx <= c.NumStates()
        invariant forall t, s :: 0 <= t < tracebackBufs.Length0 && 0 <= s < c.NumStates() ==>
                    tracebackBufs[t, s] == if t == iteration && s < idx then tracebackBuf2[s] else old(tracebackBufs[t, s])
      {
        tracebackBufs[iteration, idx] := tracebackBuf2[idx];
        idx := idx + 1;
      }
    }

    /** Copies the new metrics over the current ones. */
    method StoreMetrics(newMetrics: array<nat>)
      requires Shape() && newMetrics.Length == c.NumStates() && newMetrics != nodeMetricsA
      modifies nodeMetricsA
      ensures nodeMetricsA[..] == newMetrics[..]
    {
      var idx := 0;
      while idx < c.NumStates()
        invariant 0 <= idx <= c.NumStates()
        invariant forall i :: 0 <= i < idx ==> nodeMetricsA[i] == newMetrics[i]
      {
        nodeMetricsA[idx] := newMetrics[idx];
        idx := idx + 1;
      }
      assert nodeMetricsA[..] == newMetrics[..];
    }

    /**
     * The body of the decoding loop: the butterflies and renormalisation on
     * every 64th iteration, then the decision row and the metrics stored.
     */
    method DecodeSegment(codedBits: Byte)
      requires Valid() && iteration < tracebackBufs.Length0
      modifies this`iteration, this`rows, nodeMetricsA, tracebackBufs
      ensures Valid() && State() == BflyStep(c, old(State()), codedBits)
    {
      var newMetrics, tracebackBuf2 := TrellisIteration(codedBits, State());
      Commit(newMetrics, tracebackBuf2);
    }

    /** The new metrics, renormalised on every 64th iteration, and the new decision row, in fresh arrays. */
    method TrellisIteration(codedBits: Byte, ghost st: BflyState) returns (newMetrics: array<nat>, tracebackBuf2: array<Bit>)
      requires Shape() && Table() && BflyWellFormed(c, st) && st.metrics == nodeMetricsA[..] && |st.rows| == iteration
      ensures fresh(newMetrics) && fresh(tracebackBuf2)
      ensures newMetrics[..] == BflyStep(c, st, codedBits).metrics
      ensures tracebackBuf2[..] == StepDecisions(c, st.metrics, codedBits)
    {
      newMetrics, tracebackBuf2 := Butterflies(codedBits);
      if iteration % 64 == 0 {
        Renormalize(newMetrics);
      }
    }

    /** Row `iteration` of the buffer takes the decisions, the metrics take the new ones, and the counter advances. */
    method Commit(newMetrics: array<nat>, tracebackBuf2: array<Bit>)
      requires Valid() && iteration < tracebackBufs.Length0 && newMetrics != nodeMetricsA
      requires newMetrics.Length == c.NumStates() == tracebackBuf2.Length
      modifies this`iteration, this`rows, nodeMetricsA, tracebackBufs
      ensures Valid()
      ensures State() == BflyState(newMetrics[..], old(rows) + [tracebackBuf2[..]], decodeCarryOver, decodeCarryOverCount)
    {
      StoreRow(tracebackBuf2);
      StoreMetrics(newMetrics);
      rows := rows + [tracebackBuf2[..]];
      iteration := iteration + 1;
    }

    // -------------------------------------------------------------------------
    // A call

    /**
     * viterbiDecoderHardButterflyk1: decode segmentsIn received segments;
     * on the last call trace back from state 0, write the message bytes to
     * the front of uncoded, return their number and reset.
     */
    method ViterbiDecoderHardButterflyk1(codedSegments: array<Byte>, uncoded: array<Byte>, segmentsIn: nat, last: bool)
      returns (segmentsOut: nat)
      requires Valid() && segmentsIn <= codedSegments.Length && uncoded != edgeCodedBitsSymm
      requires iteration + segmentsIn <= tracebackBufs.Length0
      requires last ==> c.NumStates() <= 256 && OutputCount(c, iteration + segmentsIn) <= uncoded.Length
      modifies this`iteration, this`decodeCarryOver, this`decodeCarryOverCount, this`rows
      modifies nodeMetricsA, tracebackBufs, uncoded
      ensures Valid()
      ensures var r := ButterflyDecode(c, old(State()), old(codedSegments[..segmentsIn]), last);
              State() == r.state && segmentsOut == |r.out| && uncoded[..] == r.out + old(uncoded[..])[|r.out|..]
    {
      ghost var st0 := State();
      ghost var syms := codedSegments[..segmentsIn];
      DecodeSegments(codedSegments, segmentsIn);
      ghost var s := State();
      ghost var r := ButterflyDecode(c, st0, syms, last);
      segmentsOut := 0;
      if last {
        segmentsOut := Traceback(uncoded);
        ResetViterbiDecoderHardButterflyk1();
        assert r == BflyResult(BflyInitial(c), PackBits(TracedBits(c, s.rows)));
      } else {
        assert r == BflyResult(s, []);
      }
    }

    /** The decoding loop: one trellis iteration per received segment. */
    method DecodeSegments(codedSegments: array<Byte>, segmentsIn: nat)
      requires Valid() && segmentsIn <= codedSegments.Length && iteration + segmentsIn <= tracebackBufs.Length0
      modifies this`iteration, this`rows, nodeMetricsA, tracebackBufs
      ensures Valid() && State() == BflySegments(c, old(State()), codedSegments[..segmentsIn])
    {
      ghost var st0 := State();
      ghost var syms := codedSegments[..segmentsIn];
      var i := 0;
      while i < segmentsIn
        invariant 0 <= i <= segmentsIn && Valid() && iteration == |st0.rows| + i
        invariant State() == BflySegments(c, st0, syms[..i])
      {
        DecodeSegment(codedSegments[i]);
        assert syms[..i + 1] == syms[..i] + [syms[i]];
        assert (syms[..i] + [syms[i]])[..i] == syms[..i];
        i := i + 1;
      }
      assert syms[..i] == syms;
    }

    /**
     * The traceback of the last call. From state 0, S steps back over the
     * padding segments; then each earlier segment's bit (the low bit of the
     * state it led to) is shifted into the top of its output byte, the byte
     * holding the last message bit having been zeroed first.
     */
    method Traceback(uncoded: array<Byte>) returns (segmentsOut: nat)
      requires Shape() && Stored() && c.NumStates() <= 256 && OutputCount(c, iteration) <= uncoded.Length
      modifies uncoded
      ensures var out := PackBits(TracedBits(c, rows));
              segmentsOut == |out| && uncoded[..] == out + old(uncoded[..])[|out|..]
    {
      OutputCountIsPacked(c, rows);
      if iteration <= c.S() {
        // No segment precedes the padding: there is no message byte.
        assert old(uncoded[..])[0..] == old(uncoded[..]);
        return 0;
      }
      ghost var bits := TracedBits(c, rows);
      var decodedLastState := PaddingTraceback();
      // TRACEBACK_BITS is taken as 8, the bits of an output byte; k = 1.
      var lastDecodedWordIdx := (iteration - c.S() - 1) / 8;
      uncoded[lastDecodedWordIdx] := 0;
      ghost var out0 := uncoded[..];
      OutputLoop(uncoded, decodedLastState, out0);
      DepositPacks(out0, bits);
      assert out0[|PackBits(bits)|..] == old(uncoded[..])[|PackBits(bits)|..];
      segmentsOut := (iteration - c.S() - 1) / 8 + 1;
    }

    /** The output loop: from the state after the last message bit back to the first segment, each bit into its byte. */
    method OutputLoop(uncoded: array<Byte>, decodedLastState: nat, ghost out0: seq<Byte>)
      requires Shape() && Stored() && c.S() < iteration
      requires uncoded[..] == out0 && OutputCount(c, iteration) <= |out0|
      requires decodedLastState == TracedStates(c, rows, 0)[iteration - c.S()]
      modifies uncoded
      ensures uncoded[..] == Deposit(out0, TracedBits(c, rows), 0)
    {
      ghost var bits := TracedBits(c, rows);
      assert |bits| == iteration - c.S();
      var state := decodedLastState;
      var i := c.S();
      while i < iteration
        invariant c.S() <= i <= iteration && state == TracedStates(c, rows, 0)[iteration - i]
        invariant uncoded[..] == Deposit(out0, bits, iteration - i)
      {
        state := OutputStep(uncoded, state, i, out0);
        i := i + 1;
      }
    }

    /** The padding loop: from state 0 back over the S padding segments, to the state after the last message bit. */
    method PaddingTraceback() returns (decodedLastState: nat)
      requires Shape() && Stored() && c.S() < iteration
      ensures decodedLastState == TracedStates(c, rows, 0)[iteration - c.S()]
    {
      ghost var states := TracedStates(c, rows, 0);
      decodedLastState := 0;
      var i := 0;
      while i < c.S()
        invariant 0 <= i <= c.S() && decodedLastState == states[iteration - i]
      {
        decodedLastState := StepBack(decodedLastState, iteration - 1 - i);
        i := i + 1;
      }
    }

    /** (state >> 1) | (decision << (S-1)): the state before segment wordIdx, from the decision row it wrote. */
    method StepBack(decodedLastState: nat, wordIdx: nat) returns (prev: nat)
      requires Shape() && Stored() && wordIdx < iteration && decodedLastState == TracedStates(c, rows, 0)[wordIdx + 1]
      ensures prev == TracedStates(c, rows, 0)[wordIdx]
    {
      ButterflyShape(c);
      var decision := tracebackBufs[wordIdx, decodedLastState];
      TracedStep(c, rows, 0, wordIdx + 1);
      prev := decodedLastState / 2 + decision * Half(c);
    }

    /** One iteration of the output loop: shift segment iteration-1-i's bit into its byte and step back. */
    method OutputStep(uncoded: array<Byte>, decodedLastState: nat, i: nat, ghost out0: seq<Byte>) returns (prev: nat)
      requires Shape() && Stored() && c.S() <= i < iteration && |out0| == uncoded.Length && OutputCount(c, iteration) <= |out0|
      requires decodedLastState == TracedStates(c, rows, 0)[iteration - i]
      requires uncoded[..] == Deposit(out0, TracedBits(c, rows), iteration - i)
      modifies uncoded
      ensures prev == TracedStates(c, rows, 0)[iteration - i - 1]
      ensures uncoded[..] == Deposit(out0, TracedBits(c, rows), iteration - i - 1)
    {
      ghost var bits := TracedBits(c, rows);
      var decodedSegmentIdx := iteration - 1 - i;
      var decodedByteIdx := decodedSegmentIdx / 8;
      var decodedBits := decodedLastState % 2;
      assert decodedBits == bits[decodedSegmentIdx];
      uncoded[decodedByteIdx] := ShiftInTop(uncoded[decodedByteIdx], decodedBits);
      prev := StepBack(decodedLastState, decodedSegmentIdx);
    }
  }
}
