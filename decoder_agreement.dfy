/**
 * The two decoders over whole runs. For k = 1 and generators that tap both
 * ends of the register, the butterfly decoder's decision row for every
 * received segment holds the general decoder's survivor edges at that step,
 * and its metrics are the general decoder's lowered by what renormalisation
 * subtracted, as long as no uint32_t metric of the general decoder wraps.
 * Each general traceback then records the inputs along the path the
 * butterfly's rows trace back from that state, so on a message too short for
 * the general decoder to stream anything before its end, both decoders
 * return the same bytes.
 */
module DecoderAgreement {
  import opened Bits
  import opened CodeParams
  import opened EncoderSpec
  import opened Trellis
  import opened ViterbiSpec
  import opened ButterflySpec
  import opened RoundTrip

  /** The general decoder's metrics after each received segment; tracebacks and output do not feed back into them. */
  function MetricsRun(c: Config, m: seq<nat>, syms: seq<Byte>): (r: seq<nat>)
    requires ValidDecoder(c) && |m| == c.NumStates()
    ensures |r| == c.NumStates()
  {
    if |syms| == 0 then m else NextMetrics(c, MetricsRun(c, m, syms[..|syms| - 1]), syms[|syms| - 1])
  }

  /** The metrics DecodeSegments leaves are those of the metric run. */
  lemma {:induction false} DecodeMetrics(c: Config, st: DecoderState, syms: seq<Byte>)
    requires ValidDecoder(c) && WellFormed(c, st)
    ensures DecodeSegments(c, st, syms).state.metrics == MetricsRun(c, st.metrics, syms)
  {
    if |syms| > 0 {
      var init := syms[..|syms| - 1];
      DecodeMetrics(c, st, init);
      DecodeSegmentsLast(c, st, syms);
    }
  }

  predicate AllAtMost(m: seq<nat>, b: nat)
  {
    forall i :: 0 <= i < |m| ==> m[i] <= b
  }

  predicate AllInAlphabet(c: Config, syms: seq<Byte>)
  {
    forall i :: 0 <= i < |syms| ==> InAlphabet(c, syms[i])
  }

  /**
   * One segment: the butterflies compute the general decoder's next metrics,
   * each decision bit is the general decoder's survivor edge, and no metric
   * grows by more than n.
   */
  lemma StepAgrees(c: Config, m: seq<nat>, sym: Byte, b: nat)
    requires ValidButterfly(c) && Symmetric(c) && |m| == c.NumStates() && InAlphabet(c, sym)
    requires AllAtMost(m, b) && b + c.n < MetricModulus
    ensures StepMetrics(c, m, sym) == NextMetrics(c, m, sym)
    ensures AllAtMost(StepMetrics(c, m, sym), b + c.n)
    ensures forall dst :: 0 <= dst < c.NumStates() ==> StepDecisions(c, m, sym)[dst] == Survivor(c, m, sym, dst)
  {
    ButterflyShape(c);
    forall dst | 0 <= dst < c.NumStates()
      ensures StepMetrics(c, m, sym)[dst] == NextMetrics(c, m, sym)[dst]
      ensures StepMetrics(c, m, sym)[dst] <= b + c.n
      ensures StepDecisions(c, m, sym)[dst] == Survivor(c, m, sym, dst)
    {
      ButterflyIsAddCompareSelect(c, m, sym, dst);
      NewMetricIsMin(c, m, sym, dst);
      assert dst / 2 < c.NumStates();
    }
  }

  /**
   * A whole run of the butterfly decoder without renormalisation, from
   * metrics m0 and no rows: its metrics are the general decoder's, and row t
   * holds the general decoder's survivor edges for segment t.
   */
  lemma {:induction false} RawRunAgrees(c: Config, m0: seq<nat>, syms: seq<Byte>, b: nat)
    requires ValidButterfly(c) && Symmetric(c) && |m0| == c.NumStates() && AllInAlphabet(c, syms)
    requires AllAtMost(m0, b) && b + c.n * |syms| < MetricModulus
    ensures var r := RawSegments(c, BflyState(m0, [], 0, 0), syms);
            r.metrics == MetricsRun(c, m0, syms) && AllAtMost(r.metrics, b + c.n * |syms|) &&
            forall t, dst :: 0 <= t < |syms| && 0 <= dst < c.NumStates() ==>
              r.rows[t][dst] == Survivor(c, MetricsRun(c, m0, syms[..t]), syms[t], dst)
    decreases |syms|
  {
    if |syms| > 0 {
      assert c.n * |syms| == c.n * (|syms| - 1) + c.n;
      var init, sym := syms[..|syms| - 1], syms[|syms| - 1];
      var st0 := BflyState(m0, [], 0, 0);
      assert AllInAlphabet(c, init) by {
        forall i | 0 <= i < |init| ensures InAlphabet(c, init[i]) {
          assert init[i] == syms[i];
        }
      }
      RawRunAgrees(c, m0, init, b);
      var r0 := RawSegments(c, st0, init);
      assert InAlphabet(c, sym);
      StepAgrees(c, r0.metrics, sym, b + c.n * |init|);
      var r := RawSegments(c, st0, syms);
      assert r == RawStep(c, r0, sym);
      forall t, dst | 0 <= t < |syms| && 0 <= dst < c.NumStates()
        ensures r.rows[t][dst] == Survivor(c, MetricsRun(c, m0, syms[..t]), syms[t], dst)
      {
        if t < |init| {
          PrefixOfPrefix(syms, |init|, t);
          assert r.rows[t] == r0.rows[t] && syms[t] == init[t];
        } else {
          assert r.rows[t] == StepDecisions(c, r0.metrics, sym);
          assert syms[..t] == init;
        }
      }
    }
  }

  /** Both decoders reset to metric 0 for state 0 and NUM_STATES + 1 elsewhere. */
  lemma SameReset(c: Config)
    requires ValidButterfly(c) && c.NumStates() + 1 < MetricModulus
    ensures Initial(c).metrics == BflyInitial(c).metrics
    ensures AllAtMost(BflyInitial(c).metrics, c.NumStates() + 1)
  {
  }

  /**
   * From a reset, over received segments in the n-bit alphabet and while no
   * general metric can wrap: the butterfly decoder's decision for state dst
   * after segment t is the general decoder's survivor edge into dst, and its
   * metrics are the general decoder's lowered by what renormalisation
   * subtracted.
   */
  lemma ButterflyRunIsGeneralRun(c: Config, syms: seq<Byte>)
    requires ValidButterfly(c) && Symmetric(c) && AllInAlphabet(c, syms)
    requires c.NumStates() + 1 + c.n * |syms| < MetricModulus
    ensures var bf := BflySegments(c, BflyInitial(c), syms);
            LoweredBy(bf.metrics, DecodeSegments(c, Initial(c), syms).state.metrics, Subtracted(c, BflyInitial(c), syms)) &&
            forall t, dst :: 0 <= t < |syms| && 0 <= dst < c.NumStates() ==>
              bf.rows[t][dst] == Survivor(c, DecodeSegments(c, Initial(c), syms[..t]).state.metrics, syms[t], dst)
  {
    var st := BflyInitial(c);
    SameReset(c);
    RenormalizationInvisible(c, st, syms);
    RawRunAgrees(c, st.metrics, syms, c.NumStates() + 1);
    DecodeMetrics(c, Initial(c), syms);
    forall t | 0 <= t < |syms|
      ensures DecodeSegments(c, Initial(c), syms[..t]).state.metrics == MetricsRun(c, st.metrics, syms[..t])
    {
      DecodeMetrics(c, Initial(c), syms[..t]);
    }
  }

  // ---------------------------------------------------------------------------
  // Tracebacks and outputs

  /** The input chunk each step of a state sequence enters on: for k = 1, the newest bit of the state entered. */
  function Inputs(states: seq<nat>): (es: seq<nat>)
    requires |states| >= 1
    ensures |es| == |states| - 1
  {
    seq(|states| - 1, i requires 0 <= i < |states| - 1 => states[i + 1] % 2)
  }

  lemma InputsSnoc(states: seq<nat>, s: nat)
    requires |states| >= 1
    ensures Inputs(states + [s]) == Inputs(states) + [s % 2]
  {
  }

  lemma TbOfSnoc(c: Config, es: seq<nat>, e: nat)
    ensures TbOf(c, es + [e]) == TbAppend(c, TbOf(c, es), e)
  {
    assert (es + [e])[..|es|] == es;
  }

  /** One received segment: the general decoder's new metrics and tracebacks are its add-compare-select. */
  lemma DecodeSegmentsTrellis(c: Config, st: DecoderState, syms: seq<Byte>, t: nat)
    requires ValidDecoder(c) && WellFormed(c, st) && t < |syms|
    ensures var g := DecodeSegments(c, st, syms[..t]).state;
            var g' := DecodeSegments(c, st, syms[..t + 1]).state;
            g'.metrics == NextMetrics(c, g.metrics, syms[t]) &&
            g'.tracebacks == NextTracebacks(c, g.metrics, g.tracebacks, syms[t])
  {
    DecodeSegmentsLast(c, st, syms[..t + 1]);
    assert syms[..t + 1][..t] == syms[..t];
  }

  /** Rows taken from a well-formed run are well formed. */
  lemma RowsPrefix(c: Config, rows: seq<seq<Bit>>, t: nat)
    requires RowsWellFormed(c, rows) && t <= |rows|
    ensures RowsWellFormed(c, rows[..t])
  {
    forall i | 0 <= i < t ensures |rows[..t][i]| == c.NumStates() {
      assert rows[..t][i] == rows[i];
    }
  }

  /** The state the rows name before s at step t, and the survivor edge the general decoder picks there. */
  lemma TracedOneStep(c: Config, rows: seq<seq<Bit>>, t: nat, s: nat)
    requires ValidButterfly(c) && RowsWellFormed(c, rows) && t < |rows| && s < c.NumStates()
    ensures RowsWellFormed(c, rows[..t]) && RowsWellFormed(c, rows[..t + 1])
    ensures Source(c, s, rows[t][s]) < c.NumStates()
    ensures TracedStates(c, rows[..t + 1], s) == TracedStates(c, rows[..t], Source(c, s, rows[t][s])) + [s]
  {
    RowsPrefix(c, rows, t);
    RowsPrefix(c, rows, t + 1);
    assert rows[..t + 1][..t] == rows[..t] && rows[..t + 1][t] == rows[t];
    SourceInRange(c, s, rows[t][s]);
  }

  /**
   * After t segments from a reset, the general decoder's traceback for state
   * s records the inputs along the path the butterfly's rows trace back from s.
   */
  lemma {:induction false} TracebacksFollowRows(c: Config, syms: seq<Byte>, t: nat, s: nat)
    requires ValidButterfly(c) && Symmetric(c) && AllInAlphabet(c, syms)
    requires c.NumStates() + 1 + c.n * |syms| < MetricModulus && t <= |syms| && s < c.NumStates()
    ensures var rows := BflySegments(c, BflyInitial(c), syms).rows;
            RowsWellFormed(c, rows[..t]) &&
            DecodeSegments(c, Initial(c), syms[..t]).state.tracebacks[s]
              == TbOf(c, Inputs(TracedStates(c, rows[..t], s)))
    decreases t
  {
    var rows := BflySegments(c, BflyInitial(c), syms).rows;
    RowsPrefix(c, rows, t);
    if t == 0 {
      assert syms[..0] == [];
    } else {
      var u := t - 1;
      var g := DecodeSegments(c, Initial(c), syms[..u]).state;
      var d := rows[u][s];
      ButterflyRunIsGeneralRun(c, syms);
      assert d == Survivor(c, g.metrics, syms[u], s);
      var src := Source(c, s, d);
      TracedOneStep(c, rows, u, s);
      TracebacksFollowRows(c, syms, u, src);
      DecodeSegmentsTrellis(c, Initial(c), syms, u);
      var before := TracedStates(c, rows[..u], src);
      InputsSnoc(before, s);
      ButterflyShape(c);
      TbOfSnoc(c, Inputs(before), s % 2);
    }
  }

  /** For k = 1 the chunks of single-bit inputs are the inputs themselves. */
  lemma {:induction false} SingleBitChunks(c: Config, es: seq<nat>)
    requires c.k == 1 && forall i :: 0 <= i < |es| ==> es[i] < 2
    ensures Chunks(c, es) == es
  {
    if |es| > 0 {
      SingleBitChunks(c, es[..|es| - 1]);
      assert BigEndianBits(es[|es| - 1], 1) == [es[|es| - 1]];
      assert es[..|es| - 1] + [es[|es| - 1]] == es;
    }
  }

  /** A run that has streamed nothing finishes on exactly the chunks its state 0 traceback holds, less the padding. */
  lemma FinishFromTraceback(c: Config, r: Stepped, es: seq<nat>)
    requires ValidDecoder(c) && ViterbiConfigCheck(c) == Returned(0) && WellFormed(c, r.state)
    requires c.S() <= |es| < c.TracebackLen() && forall i :: 0 <= i < |es| ==> es[i] < c.NumEdges()
    requires r.segs == [] && r.state.iteration == |es| && r.state.tracebacks[0] == TbOf(c, es)
    ensures FinishMessage(c, r).segs == es[..|es| - c.S()]
  {
    assert Streamed(c, |es|) == 0 && es[..0] == [];
    DrainOfTb(c, es);
    FinishDrained(c, r, es);
  }

  /** The butterfly's traced bits are the inputs along the path traced back from state 0, less the padding. */
  lemma TracedBitsAreInputs(c: Config, rows: seq<seq<Bit>>)
    requires ValidButterfly(c) && RowsWellFormed(c, rows) && |rows| >= c.S()
    ensures var es := Inputs(TracedStates(c, rows, 0));
            |es| == |rows| && TracedBits(c, rows) == es[..|es| - c.S()]
  {
  }

  /** The inputs along a traced path are single bits. */
  lemma InputsAreEdges(c: Config, states: seq<nat>)
    requires ValidButterfly(c) && |states| >= 1
    ensures forall i :: 0 <= i < |states| - 1 ==> Inputs(states)[i] < c.NumEdges()
  {
    ButterflyShape(c);
  }

  /** The chunks the general decoder decides, given as a finished run, are the butterfly's traced bits. */
  lemma FinishedIsTraced(c: Config, r: Stepped, rows: seq<seq<Bit>>)
    requires ValidButterfly(c) && ViterbiConfigCheck(c) == Returned(0) && WellFormed(c, r.state)
    requires RowsWellFormed(c, rows) && c.S() <= |rows| < c.TracebackLen()
    requires r.segs == [] && r.state.iteration == |rows|
    requires r.state.tracebacks[0] == TbOf(c, Inputs(TracedStates(c, rows, 0)))
    ensures FinishMessage(c, r).segs == TracedBits(c, rows)
  {
    TracedBitsAreInputs(c, rows);
    InputsAreEdges(c, TracedStates(c, rows, 0));
    FinishFromTraceback(c, r, Inputs(TracedStates(c, rows, 0)));
  }

  /**
   * A run of fewer than TRACEBACK_LEN segments from a reset streams nothing,
   * and its state 0 traceback records the inputs along the path the
   * butterfly's rows trace back from state 0.
   */
  lemma ShortRun(c: Config, syms: seq<Byte>)
    requires ValidButterfly(c) && Symmetric(c) && ViterbiConfigCheck(c) == Returned(0) && AllInAlphabet(c, syms)
    requires c.NumStates() + 1 + c.n * |syms| < MetricModulus && |syms| < c.TracebackLen()
    ensures var rows := BflySegments(c, BflyInitial(c), syms).rows;
            var r := DecodeSegments(c, Initial(c), syms);
            RowsWellFormed(c, rows) && |rows| == |syms| && WellFormed(c, r.state) &&
            r.segs == [] && r.state.iteration == |syms| &&
            r.state.tracebacks[0] == TbOf(c, Inputs(TracedStates(c, rows, 0)))
  {
    var rows := BflySegments(c, BflyInitial(c), syms).rows;
    var m := |syms|;
    TracebacksFollowRows(c, syms, m, 0);
    assert syms[..m] == syms && rows[..m] == rows;
    DecodeSegmentsPacks(c, Initial(c), syms);
  }

  /**
   * A message of fewer than TRACEBACK_LEN segments, decoded in one call with
   * `last`: the general decoder streams nothing and drains state 0's
   * traceback, so the chunks it decides are exactly the bits the butterfly
   * decoder traces back from state 0.
   */
  lemma ShortMessageSegments(c: Config, syms: seq<Byte>)
    requires ValidButterfly(c) && Symmetric(c) && ViterbiConfigCheck(c) == Returned(0) && AllInAlphabet(c, syms)
    requires c.NumStates() + 1 + c.n * |syms| < MetricModulus && c.S() <= |syms| < c.TracebackLen()
    ensures ViterbiDecode(c, Initial(c), syms, true).segs == TracedBits(c, BflySegments(c, BflyInitial(c), syms).rows)
  {
    ShortRun(c, syms);
    FinishedIsTraced(c, DecodeSegments(c, Initial(c), syms), BflySegments(c, BflyInitial(c), syms).rows);
  }

  /** Bytes whose message bits are the single-bit chunks segs are what packing segs gives. */
  lemma PackedChunks(c: Config, segs: seq<nat>, bits: seq<Bit>, out: seq<Byte>)
    requires c.k == 1 && segs == bits && MessageBits(out) == Chunks(c, segs)
    ensures PackBits(bits) == out
  {
    SingleBitChunks(c, segs);
    PackMessageBits(out);
  }

  /**
   * On such a message the general decoder returns exactly when the traced
   * bits fill whole bytes, and then both decoders return the same bytes.
   */
  lemma ShortMessagesAgree(c: Config, syms: seq<Byte>)
    requires ValidButterfly(c) && Symmetric(c) && ViterbiConfigCheck(c) == Returned(0) && AllInAlphabet(c, syms)
    requires c.NumStates() + 1 + c.n * |syms| < MetricModulus && c.S() <= |syms| < c.TracebackLen()
    ensures var g := ViterbiDecode(c, Initial(c), syms, true);
            var bf := ButterflyDecode(c, BflyInitial(c), syms, true);
            (g.outcome.Returned? <==> (|syms| - c.S()) % 8 == 0) &&
            (g.outcome.Returned? ==> bf.out == g.out)
  {
    var g := ViterbiDecode(c, Initial(c), syms, true);
    var rows := BflySegments(c, BflyInitial(c), syms).rows;
    ShortMessageSegments(c, syms);
    DecodeMessage(c, syms);
    ButterflyShape(c);
    if g.outcome.Returned? {
      PackedChunks(c, g.segs, TracedBits(c, rows), g.out);
    }
  }
}
