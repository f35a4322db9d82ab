/**
 * Parameters of a convolutional code, named after Proakis' conventions:
 * K is the constraint length in k-bit chunks, k the number of bits shifted
 * into the encoder per step, n the number of coded bits per step, and g the
 * n generator polynomials. The C code fixes these at compile time; here they
 * are the fields of a value that every operation receives.
 */
module CodeParams {
  import opened Bits

  datatype Config = Config(K: nat, k: nat, n: nat, g: seq<nat>)
  {
    /** Number of k-bit chunks held as state (the current input is not yet state). */
    function S(): nat
    {
      if K == 0 then 0 else K - 1
    }

    /** Length of the tapped delay line in bits. */
    function L(): nat
    {
      k * K
    }

    /** Number of trellis states, 2^(k*S). */
    function NumStates(): nat
    {
      Pow2(k * S())
    }

    /** Number of edges leaving each trellis state, 2^k. */
    function NumEdges(): nat
    {
      Pow2(k)
    }

    /** Number of distinct n-bit coded segments, 2^n. */
    function NumSymbols(): nat
    {
      Pow2(n)
    }

    /** Traceback depth of the general decoder, 5K. */
    function TracebackLen(): nat
    {
      5 * K
    }
  }

  /** What a C entry point does: return a count, or end the process with exit(status). */
  datatype Outcome = Returned(count: nat) | Exited(status: int)

  /** The encoder starts (and is reset) in state 0. */
  const StartingState: nat := 0

  /**
   * The encoder handles k <= 8 (a chunk never spans more than the one carried
   * byte) and a delay line of at most 64 bits; n <= 8 so that a coded segment
   * fits in one byte.
   */
  predicate ValidEncoder(c: Config)
  {
    c.K >= 2 && 1 <= c.k <= 8 && c.k * c.K <= 64 && 1 <= c.n <= 8 && |c.g| == c.n
  }

  /** The decoders additionally assume that k divides 8 (whole chunks per byte). */
  predicate ValidDecoder(c: Config)
  {
    ValidEncoder(c) && 8 % c.k == 0
  }

  lemma LSplit(c: Config)
    requires ValidEncoder(c)
    ensures c.L() == c.k * c.S() + c.k
  {
  }

  lemma StateCountSplit(c: Config)
    requires ValidEncoder(c)
    ensures c.NumStates() >= 2
    ensures Pow2(c.L()) == c.NumStates() * c.NumEdges()
  {
    LSplit(c);
    Pow2Add(c.k * c.S(), c.k);
    Pow2Monotone(1, c.k * c.S());
  }
}
