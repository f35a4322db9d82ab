/**
 * The streaming convolutional encoder (src/convEncode.c).
 *
 * The delay line is an array of 2*L single bits (L = k*K) written twice, at
 * i and i + L, so that the L cells starting at the cursor are always a
 * contiguous window holding the delay line newest bit first. The ghost field
 * `reg` is the register number of EncoderSpec; the class invariant ties the
 * array and cursor to it.
 */
module ConvEncode {
  import opened Bits
  import opened CodeParams
  import opened EncoderSpec
  import opened ConvHelpers

  /** Cell i and cell i + len hold the same bit. */
  ghost predicate Mirrored(td: seq<Bit>, len: nat)
    requires |td| == 2 * len
  {
    forall i, j {:trigger td[i], td[j]} :: 0 <= i < len && j == i + len ==> td[i] == td[j]
  }

  /**
   * The buffer is mirrored and the len cells above the cursor hold the len
   * low bits of x, bit 0 (the newest) first.
   */
  ghost predicate HoldsRegister(td: seq<Bit>, len: nat, cursor: nat, x: nat)
  {
    |td| == 2 * len && cursor < len && Mirrored(td, len)
    && td[cursor + 1..cursor + 1 + len] == LittleEndianBits(x, len)
  }

  /** tappedDelayStep: the cursor moves down one cell, wrapping from 0 to len - 1. */
  function StepCursor(cursor: nat, len: nat): (r: nat)
    requires cursor < len
    ensures r < len
  {
    if cursor == 0 then len - 1 else cursor - 1
  }

  /** The step is a decrement modulo len. */
  lemma StepCursorIsDecrement(cursor: nat, len: nat)
    requires cursor < len
    ensures StepCursor(cursor, len) == (cursor + len - 1) % len
  {
    if cursor == 0 {
      DivModUnique(len - 1, len, 0, len - 1);
    } else {
      DivModUnique(cursor + len - 1, len, 1, cursor - 1);
    }
  }

  /**
   * Writing a bit at the cursor (both copies) makes the window at the cursor
   * the new bit followed by all but the oldest bit of the window just above.
   */
  lemma InsertShifts(td: seq<Bit>, len: nat, cursor: nat, b: Bit)
    requires |td| == 2 * len && cursor < len && Mirrored(td, len)
    ensures var td' := td[cursor := b][cursor + len := b];
            Mirrored(td', len) &&
            td'[cursor..cursor + len] == [b] + td[cursor + 1..cursor + 1 + len][..len - 1]
  {
    var td' := td[cursor := b][cursor + len := b];
    var w := td'[cursor..cursor + len];
    var h := td[cursor + 1..cursor + 1 + len];
    assert w[0] == b;
    assert forall i :: 1 <= i < len ==> w[i] == h[i - 1];
  }

  /** After a step, the window above the new cursor is the window that was at the old cursor. */
  lemma StepShifts(td: seq<Bit>, len: nat, cursor: nat)
    requires |td| == 2 * len && cursor < len && Mirrored(td, len)
    ensures var c' := StepCursor(cursor, len);
            td[c' + 1..c' + 1 + len] == td[cursor..cursor + len]
  {
    if cursor == 0 {
      assert forall i :: 0 <= i < len ==> td[len..2 * len][i] == td[0..len][i];
    }
  }

  /**
   * Inserting bit b at the cursor and stepping the cursor shifts b into the
   * register the cells above the cursor held.
   */
  lemma InsertAndStep(td: seq<Bit>, len: nat, cursor: nat, x: nat, b: Bit)
    requires HoldsRegister(td, len, cursor, x)
    ensures var td' := td[cursor := b][cursor + len := b];
            td'[cursor..cursor + len] == LittleEndianBits(2 * x + b, len)
            && HoldsRegister(td', len, StepCursor(cursor, len), 2 * x + b)
  {
    var td' := td[cursor := b][cursor + len := b];
    InsertShifts(td, len, cursor, b);
    ShiftInBit(x, b, len);
    StepShifts(td', len, cursor);
  }

  /**
   * Writing v at pos extends the prefix before pos by v, and keeps the
   * entries after pos as they were in `orig` when those from pos on were.
   */
  lemma WriteExtendsPrefix(orig: seq<Byte>, before: seq<Byte>, after: seq<Byte>, pos: nat, v: Byte)
    requires pos < |before| == |orig| && after == before[pos := v] && before[pos..] == orig[pos..]
    ensures after[..pos + 1] == before[..pos] + [v]
    ensures after[pos + 1..] == orig[pos + 1..]
  {
    assert before[pos + 1..] == before[pos..][1..];
    assert orig[pos + 1..] == orig[pos..][1..];
  }

  /** Writing v just after head + out, ahead of the untouched rest of `orig`, appends v to out. */
  lemma WriteAppends(orig: seq<Byte>, before: seq<Byte>, pos: nat, v: Byte, head: seq<nat>, out: seq<nat>)
    requires pos < |orig| && |head| + |out| == pos && before == head + out + orig[pos..]
    ensures before[pos := v] == head + (out + [v]) + orig[pos + 1..]
  {
    assert orig[pos..] == [orig[pos]] + orig[pos + 1..];
  }

  /** A buffer made of a written prefix and the untouched rest splits back into the two. */
  lemma SplitWritten(orig: seq<Byte>, buf: seq<Byte>, pos: nat, written: seq<nat>)
    requires pos <= |orig| && |written| == pos && buf == written + orig[pos..]
    ensures buf[..pos] == written && buf[pos..] == orig[pos..]
  {
  }

  /** One step of setConvEncoderState's loop moves the lowest bit of `requested` into the prefix. */
  lemma LoadStep(prefix: seq<Bit>, requested: nat, m: nat)
    requires m >= 1
    ensures prefix + LittleEndianBits(requested, m)
            == (prefix + [requested % 2]) + LittleEndianBits(requested / 2, m - 1)
  {
    ConcatAssoc(prefix, [requested % 2], LittleEndianBits(requested / 2, m - 1));
  }

  /** After setConvEncoderState's loop, cursor len - 1 sits just below the loaded bits. */
  lemma LoadedState(td: seq<Bit>, len: nat, x: nat)
    requires len >= 1 && |td| == 2 * len && td[..len] == LittleEndianBits(x, len)
    requires forall j :: 0 <= j < len ==> td[j + len] == td[j]
    ensures HoldsRegister(td, len, StepCursor(0, len), x)
  {
    assert forall j :: 0 <= j < len ==> td[len..2 * len][j] == td[..len][j];
  }

  /** A coded segment fits in the byte the C code returns it in. */
  lemma SegmentFitsByte(c: Config, window: seq<Bit>)
    requires ValidEncoder(c) && |window| == c.L()
    ensures Segment(c, window) < 256
  {
    SegmentForBound(window, c.g);
    Pow2Monotone(c.n, 8);
    assert Pow2(8) == 256;
  }

  /**
   * Reads the next message bit the way convEnc does: when the working byte is
   * exhausted, the next input byte is loaded; then the most significant unread
   * bit of the working byte is taken. `stream` is what is still to be read.
   */
  method ReadBit(uncoded: array<Byte>, bytesIn: nat, workingBits: Byte, remainingBits: nat,
                 nextByteInd: nat, ghost stream: seq<Bit>)
    returns (bit: Bit, workingBits': Byte, remainingBits': nat, nextByteInd': nat)
    requires bytesIn <= uncoded.Length && nextByteInd <= bytesIn && remainingBits <= 8
    requires stream == BigEndianBits(workingBits, remainingBits) + MessageBits(uncoded[nextByteInd..bytesIn])
    requires |stream| > 0
    ensures bit == stream[0]
    ensures remainingBits' < 8 && nextByteInd <= nextByteInd' <= bytesIn
    ensures stream[1..] == BigEndianBits(workingBits', remainingBits') + MessageBits(uncoded[nextByteInd'..bytesIn])
  {
    workingBits', remainingBits', nextByteInd' := workingBits, remainingBits, nextByteInd;
    if remainingBits' == 0 {
      assert nextByteInd' < bytesIn;
      var rest := uncoded[nextByteInd'..bytesIn];
      assert rest[0] == uncoded[nextByteInd'] && rest[1..] == uncoded[nextByteInd' + 1..bytesIn];
      workingBits' := uncoded[nextByteInd'];
      nextByteInd' := nextByteInd' + 1;
      remainingBits' := 8;
    }
    BigEndianBitsHead(workingBits', remainingBits');
    bit := (workingBits' / Pow2(remainingBits' - 1)) % 2;
    remainingBits' := remainingBits' - 1;
  }

  /** Bit i is count i modulo 2. */
  function ParityBits(counts: seq<nat>): (r: seq<Bit>)
    ensures |r| == |counts| && forall i :: 0 <= i < |counts| ==> r[i] == counts[i] % 2
  {
    seq(|counts|, i requires 0 <= i < |counts| => counts[i] % 2)
  }

  /** Packing the parities of the generators' dot products with a window gives the window's segment. */
  lemma {:induction false} PackedParitiesAreSegment(counts: seq<nat>, window: seq<Bit>, gs: seq<nat>)
    requires |counts| == |gs|
    requires forall i :: 0 <= i < |gs| ==> counts[i] == Dot(window, BigEndianBits(gs[i], |window|))
    ensures PackLsb(ParityBits(counts)) == SegmentFor(window, gs)
  {
    if |gs| > 0 {
      assert ParityBits(counts)[1..] == ParityBits(counts[1..]);
      forall i | 0 <= i < |gs| - 1
        ensures counts[1..][i] == Dot(window, BigEndianBits(gs[1..][i], |window|))
      {
        assert counts[1..][i] == counts[i + 1] && gs[1..][i] == gs[i + 1];
      }
      PackedParitiesAreSegment(counts[1..], window, gs[1..]);
    }
  }

  /** Dot products with the unpacked generators, packed as parities, give the window's segment. */
  lemma CountsGiveSegment(c: Config, counts: seq<nat>, window: seq<Bit>)
    requires |window| == c.L() && |counts| == |c.g|
    requires forall i :: 0 <= i < |c.g| ==> counts[i] == Dot(window, Polynomials(c)[i])
    ensures PackLsb(ParityBits(counts)) == Segment(c, window)
  {
    PackedParitiesAreSegment(counts, window, c.g);
  }

  /**
   * The packing at the end of computeEncOutputSegment: starting from the last
   * generator, shift left and or in the next parity, so that generator 0
   * lands in the least significant bit.
   */
  method PackParities(codedBits: array<nat>) returns (codedSegment: Byte)
    requires 1 <= codedBits.Length <= 8
    ensures codedSegment == PackLsb(ParityBits(codedBits[..]))
  {
    var n := codedBits.Length;
    ghost var parities := ParityBits(codedBits[..]);
    var segment := codedBits[n - 1] % 2;
    assert parities[n - 1..][1..] == [];
    var j := n - 2;
    while j >= 0
      invariant -1 <= j <= n - 2
      invariant segment == PackLsb(parities[j + 1..])
    {
      assert parities[j..][1..] == parities[j + 1..];
      segment := 2 * segment + codedBits[j] % 2;
      j := j - 1;
    }
    assert parities[0..] == parities;
    PackLsbBound(parities);
    Pow2Monotone(n, 8);
    assert Pow2(8) == 256;
    codedSegment := segment;
  }

  class ConvEncoder {
    /** The code; fixed at compile time in the C code. */
    const c: Config
    const tappedDelay: array<Bit>
    var tappedDelayCursor: nat
    var polynomials: seq<seq<Bit>>
    /** Message bits carried over to the next call, in the low remainingUncodedCount bits. */
    var remainingUncoded: Byte
    var remainingUncodedCount: nat
    /** Every bit shifted in since the last state set, newest least significant. */
    ghost var reg: nat

    ghost predicate Shape()
      reads this
    {
      ValidEncoder(c) && tappedDelay.Length == 2 * c.L()
    }

    /** The L cells from the cursor: the delay line once a bit has been written at the cursor. */
    ghost function Window(): seq<Bit>
      reads this, tappedDelay
      requires Shape() && tappedDelayCursor < c.L()
    {
      tappedDelay[tappedDelayCursor..tappedDelayCursor + c.L()]
    }

    /** The array and cursor hold the register `reg`. */
    ghost predicate Synced()
      reads this, tappedDelay
    {
      Shape() && HoldsRegister(tappedDelay[..], c.L(), tappedDelayCursor, reg)
    }

    /** The carried-over message bits, in the order they will be encoded. */
    ghost function Pending(): seq<Bit>
      reads this
    {
      BigEndianBits(remainingUncoded, remainingUncodedCount)
    }

    ghost predicate Valid()
      reads this, tappedDelay
    {
      Synced() && polynomials == Polynomials(c) && remainingUncodedCount < c.k
    }

    /** Allocation followed by initConvEncoder and resetConvEncoder, as every caller does. */
    constructor (c: Config)
      requires ValidEncoder(c)
      ensures this.c == c && Valid() && reg == StartingState && Pending() == []
      ensures fresh(tappedDelay)
    {
      this.c := c;
      tappedDelay := new Bit[2 * c.L()];
      tappedDelayCursor := 0;
      polynomials := [];
      remainingUncoded := 0;
      remainingUncodedCount := 0;
      reg := 0;
      new;
      InitConvEncoder();
      ResetConvEncoder();
    }

    /** tappedDelayInsert: writes a bit into both copies of a cell. */
    method TappedDelayInsert(pos: nat, b: Bit)
      requires Shape() && pos < c.L()
      modifies tappedDelay
      ensures tappedDelay[..] == old(tappedDelay[..])[pos := b][pos + c.L() := b]
    {
      tappedDelay[pos] := b;
      tappedDelay[pos + c.L()] := b;
    }

    method TappedDelayStep()
      requires Shape() && tappedDelayCursor < c.L()
      modifies this`tappedDelayCursor
      ensures tappedDelayCursor == StepCursor(old(tappedDelayCursor), c.L())
    {
      if tappedDelayCursor == 0 {
        tappedDelayCursor := c.L() - 1;
      } else {
        tappedDelayCursor := tappedDelayCursor - 1;
      }
    }

    /** setConvEncoderState: loads the L low bits of `state`, bit 0 as the newest. */
    method SetConvEncoderState(state: nat)
      requires Shape()
      modifies this`tappedDelayCursor, this`reg, tappedDelay
      ensures Synced() && reg == state
    {
      LoadBits(state);
      LoadedState(tappedDelay[..], c.L(), state);
      tappedDelayCursor := 0;
      TappedDelayStep();
      reg := state;
    }

    /** The loop of setConvEncoderState: cell i (and its copy) gets bit i of `state`. */
    method LoadBits(state: nat)
      requires Shape()
      modifies tappedDelay
      ensures tappedDelay[..][..c.L()] == LittleEndianBits(state, c.L())
      ensures forall j :: 0 <= j < c.L() ==> tappedDelay[j + c.L()] == tappedDelay[j]
    {
      var L := c.L();
      var requested := state;
      var i := 0;
      while i < L
        invariant 0 <= i <= L
        invariant LittleEndianBits(state, L) == tappedDelay[..i] + LittleEndianBits(requested, L - i)
        invariant forall j :: 0 <= j < i ==> tappedDelay[j + L] == tappedDelay[j]
      {
        ghost var prefix := tappedDelay[..i];
        LoadStep(prefix, requested, L - i);
        TappedDelayInsert(i, requested % 2);
        assert tappedDelay[..i + 1] == prefix + [requested % 2];
        requested := requested / 2;
        i := i + 1;
      }
      assert tappedDelay[..][..L] == tappedDelay[..L];
    }

    method ResetConvEncoder()
      requires Shape()
      modifies this`tappedDelayCursor, this`reg, this`remainingUncoded, this`remainingUncodedCount, tappedDelay
      ensures Synced() && reg == StartingState && Pending() == []
      ensures remainingUncoded == 0 && remainingUncodedCount == 0
    {
      SetConvEncoderState(StartingState);
      remainingUncoded := 0;
      remainingUncodedCount := 0;
    }

    /** initConvEncoder: unpacks every generator most significant bit first. */
    method InitConvEncoder()
      requires Shape()
      modifies this`polynomials
      ensures polynomials == Polynomials(c)
    {
      var L := c.L();
      var polys: seq<seq<Bit>> := [];
      var unpacked := new Bit[L];
      var i := 0;
      while i < c.n
        invariant 0 <= i <= c.n
        invariant polys == Polynomials(c)[..i]
      {
        UnpackBigToLittleEndian(unpacked, L, c.g[i]);
        assert unpacked[..] == unpacked[..L];
        polys := polys + [unpacked[..]];
        i := i + 1;
      }
      polynomials := polys;
    }

    /** The inner loop of computeEncOutputSegment: generator genIdx against the window at the cursor. */
    method GeneratorDot(genIdx: nat) returns (count: nat)
      requires Shape() && tappedDelayCursor < c.L() && polynomials == Polynomials(c) && genIdx < c.n
      ensures count == Dot(Window(), Polynomials(c)[genIdx])
    {
      var L := c.L();
      ghost var window := Window();
      var poly := polynomials[genIdx];
      count := 0;
      var j := 0;
      while j < L
        invariant 0 <= j <= L
        invariant count == Dot(window[..j], poly[..j])
      {
        DotSnoc(window, poly, j);
        count := count + tappedDelay[tappedDelayCursor + j] * poly[j];
        j := j + 1;
      }
      assert window[..L] == window && poly[..L] == poly;
    }

    /**
     * computeEncOutputSegment: generator i's dot product with the window at
     * the cursor, modulo 2, becomes bit i of the segment.
     */
    method ComputeEncOutputSegment() returns (codedSegment: Byte)
      requires Shape() && tappedDelayCursor < c.L() && polynomials == Polynomials(c)
      ensures codedSegment == Segment(c, Window())
    {
      var codedBits := new nat[c.n](_ => 0);
      FillCodedBits(codedBits);
      CountsGiveSegment(c, codedBits[..], Window());
      codedSegment := PackParities(codedBits);
    }

    /** The outer loop of computeEncOutputSegment: one dot product per generator. */
    method FillCodedBits(codedBits: array<nat>)
      requires Shape() && tappedDelayCursor < c.L() && polynomials == Polynomials(c)
      requires codedBits.Length == c.n
      modifies codedBits
      ensures forall i :: 0 <= i < c.n ==> codedBits[i] == Dot(Window(), Polynomials(c)[i])
    {
      ghost var window := Window();
      ghost var polys := Polynomials(c);
      var genIdx := 0;
      while genIdx < c.n
        invariant 0 <= genIdx <= c.n
        invariant forall i :: 0 <= i < genIdx ==> codedBits[i] == Dot(window, polys[i])
      {
        codedBits[genIdx] := GeneratorDot(genIdx);
        genIdx := genIdx + 1;
      }
    }

    /**
     * The state between tappedDelayInsert and tappedDelayStep: the window at
     * the cursor holds the register x, and so will the cells above the cursor
     * once it has stepped.
     */
    ghost predicate Inserted(x: nat)
      reads this, tappedDelay
    {
      Shape() && tappedDelayCursor < c.L()
      && HoldsRegister(tappedDelay[..], c.L(), StepCursor(tappedDelayCursor, c.L()), x)
      && Window() == Taps(c, x)
    }

    /** tappedDelayInsert at the cursor: the register with `b` shifted in is now in the window. */
    method InsertAtCursor(b: Bit)
      requires Synced()
      modifies tappedDelay
      ensures Inserted(2 * reg + b)
    {
      ghost var td: seq<Bit>, L: nat, cursor: nat := tappedDelay[..], c.L(), tappedDelayCursor;
      InsertAndStep(td, L, cursor, reg, b);
      TappedDelayInsert(tappedDelayCursor, b);
      assert tappedDelay[..] == td[cursor := b][cursor + L := b];
    }

    /** tappedDelayStep after an insert: the cells above the new cursor hold the register. */
    method StepAfterInsert(ghost x: nat)
      requires Inserted(x)
      modifies this`tappedDelayCursor, this`reg
      ensures Synced() && reg == x
    {
      ghost var td: seq<Bit>, L: nat := tappedDelay[..], c.L();
      TappedDelayStep();
      reg := x;
      assert HoldsRegister(td, L, tappedDelayCursor, reg);
    }

    /** A bit shifted in with tappedDelayInsert at the cursor and tappedDelayStep. */
    method ShiftBitIn(b: Bit)
      requires Synced()
      modifies this`tappedDelayCursor, this`reg, tappedDelay
      ensures Synced() && reg == 2 * old(reg) + b
    {
      InsertAtCursor(b);
      StepAfterInsert(2 * reg + b);
    }

    /**
     * The last bit of a chunk: inserted at the cursor, the output segment
     * computed from the window, then the cursor stepped.
     */
    method ShiftLastBitIn(b: Bit) returns (codedSegment: Byte)
      requires Synced() && polynomials == Polynomials(c)
      modifies this`tappedDelayCursor, this`reg, tappedDelay
      ensures Synced() && reg == 2 * old(reg) + b
      ensures codedSegment == SegmentOf(c, reg)
    {
      ghost var x := 2 * reg + b;
      InsertAtCursor(b);
      codedSegment := ComputeEncOutputSegment();
      StepAfterInsert(x);
    }

    /**
     * convEncOneInput: shifts in the k low bits of `bitsToShiftIn`, most
     * significant first, and returns the segment of the last step.
     */
    method ConvEncOneInput(bitsToShiftIn: Byte) returns (codedSegment: Byte)
      requires Valid()
      modifies this`tappedDelayCursor, this`reg, tappedDelay
      ensures Valid()
      ensures reg == ShiftIn(old(reg), BigEndianBits(bitsToShiftIn, c.k))
      ensures codedSegment == SegmentOf(c, reg)
    {
      ghost var reg0 := reg;
      ghost var chunk := BigEndianBits(bitsToShiftIn, c.k);
      BigEndianBitsAt(bitsToShiftIn, c.k);
      var remainingBits := c.k;
      var j := 0;
      while j < c.k - 1
        invariant 0 <= j <= c.k - 1 && remainingBits == c.k - j
        invariant Valid() && reg == ShiftIn(reg0, chunk[..j])
      {
        var bitToShiftIn := (bitsToShiftIn / Pow2(remainingBits - 1)) % 2;
        remainingBits := remainingBits - 1;
        ShiftInSnoc(reg0, chunk, j);
        ShiftBitIn(bitToShiftIn);
        j := j + 1;
      }
      var bitToShiftIn := bitsToShiftIn % 2;
      ShiftInSnoc(reg0, chunk, c.k - 1);
      assert chunk[..c.k] == chunk;
      codedSegment := ShiftLastBitIn(bitToShiftIn);
    }

    /** One chunk of convEnc's main loop: k bits read from the stream and shifted in. */
    method EncodeChunk(uncoded: array<Byte>, bytesIn: nat, workingBits: Byte, remainingBits: nat,
                       nextByteInd: nat, ghost stream: seq<Bit>)
      returns (codedSegment: Byte, workingBits': Byte, remainingBits': nat, nextByteInd': nat)
      requires Valid()
      requires bytesIn <= uncoded.Length && nextByteInd <= bytesIn && remainingBits <= 8
      requires stream == BigEndianBits(workingBits, remainingBits) + MessageBits(uncoded[nextByteInd..bytesIn])
      requires |stream| >= c.k
      modifies this`tappedDelayCursor, this`reg, tappedDelay
      ensures Valid()
      ensures reg == ShiftIn(old(reg), stream[..c.k]) && codedSegment == SegmentOf(c, reg)
      ensures remainingBits' <= 8 && nextByteInd' <= bytesIn
      ensures stream[c.k..] == BigEndianBits(workingBits', remainingBits') + MessageBits(uncoded[nextByteInd'..bytesIn])
    {
      ghost var reg0 := reg;
      workingBits', remainingBits', nextByteInd' := workingBits, remainingBits, nextByteInd;
      var j := 0;
      while j < c.k - 1
        invariant 0 <= j <= c.k - 1
        invariant Valid() && reg == ShiftIn(reg0, stream[..j])
        invariant remainingBits' <= 8 && nextByteInd' <= bytesIn
        invariant stream[j..] == BigEndianBits(workingBits', remainingBits') + MessageBits(uncoded[nextByteInd'..bytesIn])
      {
        var bitToShiftIn;
        bitToShiftIn, workingBits', remainingBits', nextByteInd' :=
          ReadBit(uncoded, bytesIn, workingBits', remainingBits', nextByteInd', stream[j..]);
        assert stream[j..][1..] == stream[j + 1..];
        ShiftInSnoc(reg0, stream, j);
        ShiftBitIn(bitToShiftIn);
        j := j + 1;
      }
      var bitToShiftIn;
      bitToShiftIn, workingBits', remainingBits', nextByteInd' :=
        ReadBit(uncoded, bytesIn, workingBits', remainingBits', nextByteInd', stream[c.k - 1..]);
      assert stream[c.k - 1..][1..] == stream[c.k..];
      ShiftInSnoc(reg0, stream, c.k - 1);
      codedSegment := ShiftLastBitIn(bitToShiftIn);
    }

    /**
     * One pass of convEnc's padding loop: k zero bits shifted in and the
     * segment of the last step written at `pos`.
     */
    method EncodeZeroChunk(codedSegments: array<Byte>, pos: nat)
      requires Valid() && pos < codedSegments.Length
      modifies this`tappedDelayCursor, this`reg, tappedDelay, codedSegments
      ensures Valid() && reg == ShiftIn(old(reg), Zeros(c.k))
      ensures codedSegments[..] == old(codedSegments[..])[pos := SegmentOf(c, reg)]
    {
      ghost var reg0 := reg;
      ghost var zeros := Zeros(c.k);
      var j := 0;
      while j < c.k - 1
        invariant 0 <= j <= c.k - 1
        invariant Valid() && reg == ShiftIn(reg0, zeros[..j])
        invariant unchanged(codedSegments)
      {
        ShiftInSnoc(reg0, zeros, j);
        ShiftBitIn(0);
        j := j + 1;
      }
      ShiftInSnoc(reg0, zeros, c.k - 1);
      assert zeros[..c.k] == zeros;
      var codedSegment := ShiftLastBitIn(0);
      codedSegments[pos] := codedSegment;
    }

    /**
     * The chunk loop of convEnc: `chunks` whole k-bit chunks read from the
     * working byte and the input bytes, one segment written per chunk.
     */
    method EncodeChunks(uncoded: array<Byte>, codedSegments: array<Byte>, bytesIn: nat, chunks: nat,
                        workingBits: Byte, remainingBits: nat, ghost stream: seq<Bit>)
      returns (workingBits': Byte, remainingBits': nat, nextByteInd': nat)
      requires Valid() && codedSegments != uncoded && bytesIn <= uncoded.Length && remainingBits <= 8
      requires stream == BigEndianBits(workingBits, remainingBits) + MessageBits(uncoded[..bytesIn])
      requires |Feed(c, reg, stream).segments| == chunks <= codedSegments.Length
      modifies this`tappedDelayCursor, this`reg, tappedDelay, codedSegments
      ensures Valid() && remainingBits' <= 8 && nextByteInd' <= bytesIn
      ensures var f := Feed(c, old(reg), stream);
              codedSegments[..chunks] == f.segments && reg == f.reg
              && f.rest == BigEndianBits(workingBits', remainingBits') + MessageBits(uncoded[nextByteInd'..bytesIn])
    ensures codedSegments[chunks..] == old(codedSegments[chunks..])
    {
      ghost var total := Feed(c, reg, stream);
      ghost var rest := stream;
      ghost var orig := codedSegments[..];
      assert uncoded[0..bytesIn] == uncoded[..bytesIn];
      workingBits', remainingBits', nextByteInd' := workingBits, remainingBits, 0;
      var segmentsOut: nat := 0;
      var i := 0;
      while i < chunks
        invariant 0 <= i <= chunks && segmentsOut == i
        invariant Valid() && remainingBits' <= 8 && nextByteInd' <= bytesIn
        invariant rest == BigEndianBits(workingBits', remainingBits') + MessageBits(uncoded[nextByteInd'..bytesIn])
        invariant var f := Feed(c, reg, rest);
                  total == Fed(codedSegments[..i] + f.segments, f.reg, f.rest)
                  && |f.segments| == chunks - i
        invariant codedSegments[i..] == orig[i..]
      {
        FeedChunk(c, reg, rest);
        ghost var before := codedSegments[..];
        var codedSegment;
        codedSegment, workingBits', remainingBits', nextByteInd' :=
          EncodeChunk(uncoded, bytesIn, workingBits', remainingBits', nextByteInd', rest);
        codedSegments[segmentsOut] := codedSegment;
        WriteExtendsPrefix(orig, before, codedSegments[..], segmentsOut, codedSegment);
        segmentsOut := segmentsOut + 1;
        ConcatAssoc(before[..i], [codedSegment], Feed(c, reg, rest[c.k..]).segments);
        rest := rest[c.k..];
        i := i + 1;
      }
      assert Feed(c, reg, rest) == Fed([], reg, rest);
      assert codedSegments[..i] + [] == codedSegments[..i];
    }

    /** The padding loop of convEnc: S chunks of zeros, one segment written per chunk from `start`. */
    method EncodeTail(codedSegments: array<Byte>, start: nat) returns (segmentsOut: nat)
      requires Valid() && start + c.S() <= codedSegments.Length
      modifies this`tappedDelayCursor, this`reg, tappedDelay, codedSegments
      ensures Valid() && segmentsOut == start + c.S()
      ensures codedSegments[..segmentsOut] == old(codedSegments[..start]) + Flush(c, old(reg), c.S()).segments
      ensures reg == Flush(c, old(reg), c.S()).reg
      ensures codedSegments[segmentsOut..] == old(codedSegments[segmentsOut..])
    {
      ghost var reg0 := reg;
      ghost var orig := codedSegments[..];
      ghost var head := codedSegments[..start];
      ghost var out: seq<nat> := [];
      segmentsOut := start;
      var p := 0;
      while p < c.S()
        invariant 0 <= p <= c.S() && segmentsOut == start + p && |out| == p
        invariant Valid()
        invariant codedSegments[..] == head + out + orig[segmentsOut..]
        invariant Flush(c, reg0, p) == Fed(out, reg, [])
      {
        FlushSnoc(c, reg0, p);
        ghost var before := codedSegments[..];
        EncodeZeroChunk(codedSegments, segmentsOut);
        ghost var segment := codedSegments[segmentsOut];
        WriteAppends(orig, before, segmentsOut, segment, head, out);
        out := out + [segment];
        segmentsOut := segmentsOut + 1;
        p := p + 1;
      }
      SplitWritten(orig, codedSegments[..], segmentsOut, head + out);
    }

    /**
     * convEnc: encodes the carried-over bits followed by bytesIn message
     * bytes, one segment per whole k-bit chunk. Without `last` the bits that
     * do not fill a chunk are carried to the next call; with `last` they must
     * not exist (the C code exits with status 1), the S-chunk zero tail is
     * appended and the encoder is reset.
     */
    method ConvEnc(uncoded: array<Byte>, codedSegments: array<Byte>, bytesIn: nat, last: bool)
      returns (r: Outcome)
      requires Valid() && codedSegments != uncoded && bytesIn <= uncoded.Length
      requires codedSegments.Length >= (remainingUncodedCount + 8 * bytesIn) / c.k + (if last then c.S() else 0)
      modifies this`tappedDelayCursor, this`reg, this`remainingUncoded, this`remainingUncodedCount
      modifies tappedDelay, codedSegments
      ensures var f := Feed(c, old(reg), old(Pending() + MessageBits(uncoded[..bytesIn])));
              if last && f.rest != [] then r == Exited(1)
              else if last then
                r == Returned(|f.segments| + c.S()) && Valid() && reg == StartingState && Pending() == []
                && r.count <= codedSegments.Length && codedSegments[..r.count] == f.segments + Flush(c, f.reg, c.S()).segments
              else
                r == Returned(|f.segments|) && Valid() && reg == f.reg && Pending() == f.rest
                && r.count <= codedSegments.Length && codedSegments[..r.count] == f.segments
      ensures r.Returned? ==> codedSegments[r.count..] == old(codedSegments[r.count..])
    {
      var segmentsOut, workingBits, remainingBits :=
        EncodeAvailable(uncoded, codedSegments, bytesIn, if last then c.S() else 0);
      if last {
        r := Terminate(codedSegments, segmentsOut, remainingBits);
      } else {
        remainingUncodedCount := remainingBits;
        remainingUncoded := workingBits;
        r := Returned(segmentsOut);
      }
    }

    /**
     * The chunk loop of convEnc: every whole chunk of the carried-over bits
     * followed by the new bytes is encoded; the bits left over are returned.
     * `reserve` is the room the caller needs after the chunks.
     */
    method EncodeAvailable(uncoded: array<Byte>, codedSegments: array<Byte>, bytesIn: nat, reserve: nat)
      returns (segmentsOut: nat, workingBits: Byte, remainingBits: nat)
      requires Valid() && codedSegments != uncoded && bytesIn <= uncoded.Length
      requires codedSegments.Length >= (remainingUncodedCount + 8 * bytesIn) / c.k + reserve
      modifies this`tappedDelayCursor, this`reg, tappedDelay, codedSegments
      ensures var f := Feed(c, old(reg), old(Pending() + MessageBits(uncoded[..bytesIn])));
              Valid() && reg == f.reg && f.rest == BigEndianBits(workingBits, remainingBits)
              && remainingBits < c.k && segmentsOut == |f.segments|
              && segmentsOut + reserve <= codedSegments.Length && codedSegments[..segmentsOut] == f.segments
      ensures codedSegments[segmentsOut..] == old(codedSegments[segmentsOut..])
    {
      ghost var bits := Pending() + MessageBits(uncoded[..bytesIn]);
      ghost var total := Feed(c, reg, bits);
      FeedCount(c, reg, bits);
      remainingBits := remainingUncodedCount;
      var newBits := bytesIn * 8;
      var bitsToEncode := remainingBits + newBits;
      var chunksToEncode := bitsToEncode / c.k;
      assert chunksToEncode == |total.segments|;
      workingBits := remainingUncoded;
      var nextByteInd;
      workingBits, remainingBits, nextByteInd :=
        EncodeChunks(uncoded, codedSegments, bytesIn, chunksToEncode, workingBits, remainingBits, bits);
      segmentsOut := chunksToEncode;
      assert |MessageBits(uncoded[nextByteInd..bytesIn])| < 8;
      assert nextByteInd == bytesIn;
      assert total.rest == BigEndianBits(workingBits, remainingBits) + [];
    }

    /**
     * The `last` branch of convEnc: exit with status 1 if message bits are
     * left over; otherwise append the S-chunk zero tail after `start` and
     * reset the encoder.
     */
    method Terminate(codedSegments: array<Byte>, start: nat, remainingBits: nat) returns (r: Outcome)
      requires Valid() && start + c.S() <= codedSegments.Length
      modifies this`tappedDelayCursor, this`reg, this`remainingUncoded, this`remainingUncodedCount
      modifies tappedDelay, codedSegments
      ensures remainingBits > 0 ==> r == Exited(1)
      ensures remainingBits == 0 ==>
                r == Returned(start + c.S()) && Valid() && reg == StartingState && Pending() == []
                && r.count <= codedSegments.Length
                && codedSegments[..r.count] == old(codedSegments[..start]) + Flush(c, old(reg), c.S()).segments
      ensures r.Returned? ==> codedSegments[r.count..] == old(codedSegments[r.count..])
    {
      if remainingBits > 0 {
        return Exited(1);
      }
      var segmentsOut := EncodeTail(codedSegments, start);
      ResetConvEncoder();
      return Returned(segmentsOut);
    }
  }
}
