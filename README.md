# Convolutional encoder and hard-decision Viterbi decoders, in Dafny

This project models the core of ConvolutionalEncDec, a C implementation of
a convolutional-code encoder and two hard-decision Viterbi decoders:

- **Encoder** (`src/convEncode.c`, module `ConvEncode`). The encoder is a
  class over the C code's mirrored circular `tappedDelay` bit array and its
  cursor. A ghost number `reg` records every bit shifted in, newest bit
  least significant, and the invariant ties the array to it. `convEnc` is a
  method with the C loop structure: `workingBits`, `remainingBits` and
  `nextByteInd`, the carried bits between calls, and S zero chunks of
  termination on `last`. It is proved against `EncoderSpec`, where `Feed`
  consumes the message bits MSB-first, k bits per chunk, and `Flush`
  appends the padding. `Trellis` proves that the encoded message is a walk
  of the trellis that ends in state 0.
- **General decoder** (`src/viterbiDecoder.c`, module `HardDecoder`). The
  decoder is a class with the A/B metric and traceback arrays and the four
  pointers that the swap exchanges. It also holds the edge table, the
  iteration counter and the output carry byte. Each operation is proved
  against `ViterbiSpec`, a functional model of one received segment:
  add-compare-select over the 2^k incoming edges, with `uint32_t` metric
  addition and `uint64_t` traceback truncation written out. Then, once
  TRACEBACK_LEN segments have arrived, the chunk at depth TRACEBACK_LEN-1
  of the least-metric state's traceback is streamed out. At the end of a
  message, state 0's traceback is drained, its S padding chunks are
  dropped, and the decoder resets or exits. The argmin trees are one
  in-place tournament method, proved to return the first minimum.
- **Butterfly decoder for k = 1** (`src/viterbiDecoderButterflyk1.c`,
  `USE_POLY_SYMMETRY` variant, module `ButterflyDecoding`). This decoder
  is a class with the symmetric edge table, one metric array that each
  segment overwrites, a two-dimensional buffer of one decision row per
  segment, and the iteration counter. It is proved against `ButterflySpec`.
  `ButterflySpec` also shows three things:
  - when every generator taps both ends of the register, the butterfly's d
    and n - d distances are the general decoder's add-compare-select;
  - the renormalisation at every 64th segment changes no decision;
  - the final traceback from state 0 follows a trellis path, and its bits
    are packed MSB-first into the returned bytes.
- **Helpers** (`src/convHelpers.c`, module `ConvHelpers`): the two
  bit-unpacking loops, and the fact that their results are reverses of
  each other.
- **Round trip** (module `RoundTrip`). Along the encoder's walk of the
  trellis every branch metric is 0. The walk's end is then the only state
  with metric 0, it is the state streamed from, and its traceback records
  the walk's inputs. So the general decoder returns exactly the message the
  encoder sent, under four conditions:
  - the generators give distinct segments to the edges leaving every state;
  - no metric wraps;
  - the streamed chunk is masked with `% 2^k`, the corrected line 134 of
    src/viterbiDecoder.c (see Findings);
  - the traceback width check is the corrected TRACEBACK_LEN * k <= 64,
    not line 10 as written (see Findings).

  As written, with k = 1 every streamed chunk is 0, so a message of
  TRACEBACK_LEN segments or more comes back only if its streamed bits are 0.
- **The two decoders compared** (module `DecoderAgreement`). For k = 1 and
  generators that tap both ends of the register, the butterfly decoder's
  decision rows are the general decoder's survivor edges at every step of a
  run. Its metrics are the general decoder's, lowered by renormalisation.
  On a message shorter than TRACEBACK_LEN segments both decoders return the
  same bytes.
- **The hand-traced test** (`handTracedTest/handTraced.c`, module
  `HandTraced`). Its literal vectors for the 4-state code (K = 3, k = 1,
  n = 2, generators 7 and 6) are lemmas:
  - the encoding of 0b01101000;
  - the reset state;
  - the metrics and tracebacks after each received segment;
  - the decode of the corrupted sequence back to 0b01101000.
  For this one code the encoder and the add-compare-select are also written
  as small reference functions, proved equal to the general definitions.

The code parameters (K, k, n, generators) are compile-time constants in C.
Here they are the fields of a `Config` value that every operation receives.
The generators `g` are defined in a file that is not part of this model,
so they are a parameter. `ValidEncoder` and `ValidDecoder` state the ranges
the code relies on:
- K >= 2;
- 1 <= k <= 8, and k divides 8 for the decoders;
- n <= 8;
- k*K <= 64.

The C `exit(1)` paths are an `Outcome` value (`Returned(count)` or
`Exited(status)`).

## Model

| member | source | states |
|---|---|---|
| ConvEncode.ConvEncoder.constructor | src/convEncode.c:28-39 | A fresh encoder for the configuration is in the starting state 0 with no carried bits and the mirrored delay line in sync |
| ConvEncode.ConvEncoder.TappedDelayInsert | src/convEncode.c:5-8 | The bit is written at the cursor and at its mirror k*K places above; nothing else changes |
| ConvEncode.ConvEncoder.TappedDelayStep | src/convEncode.c:10-17 | The cursor moves down by one, wrapping from 0 to k*K-1 |
| ConvEncode.StepCursorIsDecrement | src/convEncode.c:10-17 | The cursor step is decrement modulo k*K |
| ConvEncode.InsertAndStep | src/convEncode.c:5-17 | Writing bit b at the cursor and stepping turns a delay line holding register x into one holding (x << 1) \| b; the window above the cursor is the new register, LSB first |
| ConvEncode.ConvEncoder.SetConvEncoderState | src/convEncode.c:19-26 | After the call the delay line holds the requested state as its register, LSB at the newest position, with the cursor at the next insertion point |
| ConvEncode.ConvEncoder.LoadBits | src/convEncode.c:20-23 | The first k*K cells hold the requested value LSB first and the upper half mirrors them |
| ConvEncode.LoadedState | src/convEncode.c:24-25 | A loaded, mirrored line with the cursor stepped back from 0 holds the requested register |
| ConvEncode.ConvEncoder.ResetConvEncoder | src/convEncode.c:28-33 | The register is STARTING_STATE and the carried bits and their count are 0 |
| ConvEncode.ConvEncoder.InitConvEncoder | src/convEncode.c:35-39 | Each polynomial row is generator i unpacked MSB first over k*K bits |
| ConvEncode.ConvEncoder.GeneratorDot | src/convEncode.c:167-171 | The count for a generator is the dot product of the register window with its polynomial |
| ConvEncode.ConvEncoder.FillCodedBits | src/convEncode.c:164-171 | codedBits[i] is the dot product of the window with polynomial i for every generator (the array is zeroed first) |
| ConvEncode.PackParities | src/convEncode.c:173-179 | The segment packs the parities of the counts with generator 0 as the LSB |
| ConvEncode.PackedParitiesAreSegment | src/convEncode.c:167-179 | Packing the parities of the n dot products gives the coded segment of the window |
| ConvEncode.CountsGiveSegment | src/convEncode.c:167-179 | Counts equal to the window's dot products with the polynomials pack to the segment of that window |
| ConvEncode.ConvEncoder.ComputeEncOutputSegment | src/convEncode.c:161-180 | The returned byte is the coded segment of the current window: bit i is the parity of the window ANDed with generator i |
| ConvEncode.SegmentFitsByte | src/convEncode.c:173-179 | Every coded segment is below 2^n and fits a byte |
| EncoderSpec.SegmentBits | src/convEncode.c:167-179 | Bit i of a segment is the mod-2 dot product of the register with generator i |
| EncoderSpec.SegmentForBound | src/convEncode.c:173-179 | A segment of n generators is below 2^n |
| ConvEncode.ConvEncoder.ShiftBitIn | src/convEncode.c:46-52 | Shifting in one bit and stepping the cursor makes the register (reg << 1) \| b |
| ConvEncode.ConvEncoder.ShiftLastBitIn | src/convEncode.c:55-65 | The last bit of a chunk is shifted in, the segment is computed before the final cursor step, and it is the segment of the new register |
| ConvEncode.ConvEncoder.ConvEncOneInput | src/convEncode.c:41-68 | The k input bits are shifted in MSB first, so the register becomes (reg << k) \| in; the result is that register's segment |
| EncoderSpec.ShiftInValue | src/convEncode.c:41-60 | Shifting bits in MSB first gives reg * 2^len + the bits' value |
| EncoderSpec.ShiftInChunk | src/convEncode.c:41-60 | Shifting in a k-bit chunk big-endian is (reg << k) \| (in mod 2^k) |
| ConvEncode.ReadBit | src/convEncode.c:89-98 | The next bit is the first bit of the pending stream, refilling from the next input byte when the working byte is empty; the rest of the stream is what remains |
| ConvEncode.ConvEncoder.EncodeChunk | src/convEncode.c:85-122 | One chunk consumes the next k stream bits, emits the segment of the new register and leaves the rest of the stream |
| ConvEncode.ConvEncoder.EncodeChunks | src/convEncode.c:83-123 | The loop writes exactly the segments Feed produces from the carried and new bits, in order, and leaves Feed's register and leftover bits |
| ConvEncode.ConvEncoder.EncodeZeroChunk | src/convEncode.c:134-147 | One padding step shifts in k zeros and writes that register's segment at the next position |
| ConvEncode.ConvEncoder.EncodeTail | src/convEncode.c:133-148 | The padding writes S segments after the message ones: those of Flush, k zeros each |
| ConvEncode.ConvEncoder.Terminate | src/convEncode.c:126-151 | With bits left over `last` exits with status 1; otherwise S padding segments follow and the encoder is reset |
| ConvEncode.ConvEncoder.EncodeAvailable | src/convEncode.c:72-123 | All whole chunks of carry plus new bytes are encoded; fewer than k bits remain |
| ConvEncode.ConvEncoder.ConvEnc | src/convEncode.c:70-159 | Returns and writes Feed's segments of the carried and new bits. Without `last`, the leftover bits and register persist. With `last`, S padding segments follow and the encoder resets; leftover bits on `last` are exit(1) |
| EncoderSpec.FeedCount | src/convEncode.c:72-76 | (carry + 8*bytes)/k segments are emitted and the remainder mod k is carried |
| EncoderSpec.FeedAppend | src/convEncode.c:153-155 | Encoding M1 then M2, carrying the leftover bits, gives the same segments as encoding M1 and M2 in one call |
| EncoderSpec.MessageBitsAppend | src/convEncode.c:89-94 | Bytes are consumed in ascending index order |
| EncoderSpec.ShiftInAppend | src/convEncode.c:83-122 | Shifting in a then b is shifting in a followed by b |
| EncoderSpec.FlushIsZeroFeed | src/convEncode.c:133-148 | The padding is encoding S*k zero bits |
| EncoderSpec.FlushRegister | src/convEncode.c:133-148 | After S padding chunks the register is reg << (k*S) |
| EncoderSpec.FlushEndsInStateZero | src/convEncode.c:133-148 | The S zero chunks drive the k*S state bits to all zero |
| Trellis.FeedWalksTrellis | src/convEncode.c:83-123 | The segments the encoder emits are the symbols on the trellis walk from the register's state, and its final state is the walk's |
| Trellis.EncodedMessageIsWalk | src/convEncode.c:70-159 | A whole encoded message is the symbol sequence of a trellis walk from state 0 on the message bits and S zero chunks, and it ends in state 0 |
| Trellis.EncoderStepIsEdge | src/convEncode.c:41-68 | The segment the encoder emits on input e from register reg is the edge symbol of state reg mod NUM_STATES and edge e; the next state is NextState |
| Trellis.PredecessorsOf | src/viterbiDecoder.c:85-90 | State s reaches dst on input x exactly when x = dst mod 2^k and s = dst/2^k + e*2^((S-1)k), with e the oldest chunk of s |
| Trellis.SourceLeadsTo | src/viterbiDecoder.c:85-90 | Source dst/2^k + e*2^((S-1)k) enters dst on input dst mod 2^k |
| Trellis.SourceInRange | src/viterbiDecoder.c:89-91 | Every source index is a valid state |
| Trellis.EnumeratedPredecessor | src/viterbiDecoder.c:88-91 | Every predecessor of dst is enumerated by some edgeIn |
| ConvHelpers.UnpackBigToLittleEndian | src/convHelpers.c:3-8 | arr[i] is bit len-1-i of packed for i < len; nothing else is written |
| ConvHelpers.UnpackLittleToLittleEndian | src/convHelpers.c:10-15 | arr[i] is bit i of packed for i < len; nothing else is written |
| ConvHelpers.BigEndianIsReversedLittleEndian | src/convHelpers.c:3-15 | The two unpackings of the same value are reverses of each other |
| Bits.PackMsbOfBigEndian | src/convHelpers.c:3-8 | Repacking the big-endian array MSB first gives packed mod 2^len |
| Bits.PackLsbOfLittleEndian | src/convHelpers.c:10-15 | Repacking the little-endian array LSB first gives packed mod 2^len |
| Bits.BigEndianOfPackMsb | src/convHelpers.c:3-8 | Unpacking a packed bit sequence big-endian gives it back |
| Hamming.CalcHammingDist | src/viterbiDecoder.c:246-270 | The distance is popcount(a xor b) over 8 bits, at most 8, and 0 exactly when a == b |
| Hamming.CalcHammingDistWidth | src/viterbiDecoderButterflyk1.c:103 | The n-bit distance is popcount of the low n bits of a xor b, at most n |
| Hamming.HammingSymmetric | src/viterbiDecoder.c:246-270 | The distance is symmetric |
| Hamming.HammingBound | src/viterbiDecoder.c:246-270 | The distance is at most the width |
| Hamming.HammingZeroIff | src/viterbiDecoder.c:246-270 | The distance is 0 exactly when the low bits agree |
| Hamming.HammingComplement | src/viterbiDecoderButterflyk1.c:106 | The distance from the complemented segment is n minus the distance |
| HardDecoder.ArgminTree | src/viterbiDecoder.c:272-348 | The tournament returns an in-range index of a minimum, the lowest one on ties (argminPathMetrics with k levels, argminNodeMetrics with k*S) |
| HardDecoder.FirstRound | src/viterbiDecoder.c:281-291 | After the first pairwise round each working index is the first minimum of its pair |
| HardDecoder.TournamentRound | src/viterbiDecoder.c:294-306 | Each later round halves the blocks; every winner is the first minimum of its doubled block |
| HardDecoder.MergeBlocks | src/viterbiDecoder.c:300-304 | Picking the left winner on `<=` gives the first minimum of the merged block |
| ViterbiSpec.FirstMinUnique | src/viterbiDecoder.c:272-348 | The first minimum is unique, so the tree's answer is determined |
| HardDecoder.EncodeEdge | src/viterbiDecoder.c:30-32 | Reset, set to state s and one convEncOneInput(e) yield the edge symbol of (s, e) |
| HardDecoder.EncoderEmitsEdge | src/viterbiDecoder.c:30-32 | The symbol for (s, e) is what the streaming encoder emits from register s on the k bits e |
| HardDecoder.ViterbiDecoder.FillEdgeRow | src/viterbiDecoder.c:28-34 | Row s of the table holds the edge symbols of state s for every edge; the other rows are unchanged |
| HardDecoder.ViterbiDecoder.ViterbiInit | src/viterbiDecoder.c:18-36 | edgeCodedBits[s][e] is the one-step encoder output from state s on input e for every s < NUM_STATES, e < 2^k |
| HardDecoder.EdgeSymbolBound | src/viterbiDecoder.c:32 | Every table entry is a symbol below 2^n and fits the uint8_t index type |
| HardDecoder.ViterbiDecoder.constructor | src/viterbiDecoder.c:222-244 | A new decoder is in the reset state with A current and B next |
| HardDecoder.ViterbiDecoder.ResetViterbiDecoderHard | src/viterbiDecoder.c:222-244 | A is current again; the starting state's metric is 0, the others NUM_STATES+1, every traceback 0, the iteration counter and carry 0 |
| HardDecoder.ViterbiDecoder.ResetArrays | src/viterbiDecoder.c:229-239 | The metric and traceback arrays hold the reset values |
| HardDecoder.ViterbiDecoder.SwapViterbiArrays | src/viterbiDecoder.c:350-358 | The current and next roles exchange for metrics and tracebacks |
| HardDecoder.ViterbiDecoder.ComputeEdgeMetrics | src/viterbiDecoder.c:72-76 | edgeMetrics[j] is the Hamming distance of symbol j from the received segment, for all 2^n symbols |
| HardDecoder.ViterbiDecoder.PathMetricOf | src/viterbiDecoder.c:89-95 | The path metric over edgeIn is the source's metric plus the branch distance, in uint32_t |
| HardDecoder.ViterbiDecoder.PathMetricsOf | src/viterbiDecoder.c:87-98 | The array holds the path metric of every incoming edge |
| HardDecoder.ViterbiDecoder.SelectSurvivor | src/viterbiDecoder.c:100-111 | The new metric is the first minimal path metric and the new traceback is the winner's shifted left by k with dst mod 2^k appended |
| HardDecoder.ViterbiDecoder.AddCompareSelect | src/viterbiDecoder.c:81-111 | Destination dst gets its add-compare-select metric and traceback; other destinations are unchanged |
| HardDecoder.ViterbiDecoder.UpdateTrellis | src/viterbiDecoder.c:79-114 | The next arrays hold the add-compare-select results for every destination |
| HardDecoder.ViterbiDecoder.TrellisIteration | src/viterbiDecoder.c:79-119 | After the swap the current arrays hold the add-compare-select metrics and tracebacks, the iteration counter is one higher and the output carry is untouched |
| ViterbiSpec.MetricAdd | src/viterbiDecoder.c:95 | uint32_t addition: the sum when it fits, always below 2^32 |
| ViterbiSpec.AcsIsMinOverEdges | src/viterbiDecoder.c:81-103 | The new metric is at most the metric through any edge into dst, and strictly less through any edge enumerated before the survivor |
| ViterbiSpec.AcsSurvivorIsEdge | src/viterbiDecoder.c:100-111 | The survivor is a trellis edge into dst and the metric and traceback are those through it |
| ViterbiSpec.TbOfIsLowBits | src/viterbiDecoder.c:108-111 | A uint64_t traceback holds the low 64 bits of the chunk sequence |
| ViterbiSpec.StreamSegmentOfTb | src/viterbiDecoder.c:126-134 | When TRACEBACK_LEN chunks fit in 64 bits, the streamed chunk is the input TRACEBACK_LEN-1 steps back |
| ViterbiSpec.PushWellFormed | src/viterbiDecoder.c:140-147 | The carry stays a byte, its count stays a multiple of k below 8, and a byte is emitted exactly when the count reaches 8 |
| ViterbiSpec.PushSegmentPacks | src/viterbiDecoder.c:140-147 | Emitted bytes followed by the carry bits are the old carry bits followed by the chunk, MSB first |
| ViterbiSpec.PushAllPacks | src/viterbiDecoder.c:198-207 | Pushing chunks in order packs their bits MSB first into bytes plus the carry; 8 bits per byte are accounted for |
| HardDecoder.ViterbiDecoder.PushSegmentOut | src/viterbiDecoder.c:138-147 | The chunk is shifted into the carry; a completed byte is written at segmentsOut and counted |
| HardDecoder.ViterbiDecoder.StreamDecision | src/viterbiDecoder.c:126-147 | From the TRACEBACK_LEN-th segment on, the chunk at depth TRACEBACK_LEN-1 of the first least-metric state's traceback is packed into the carry and output; before that nothing changes |
| HardDecoder.ViterbiDecoder.DecodeSymbol | src/viterbiDecoder.c:66-176 | One received segment leaves the state and output that DecodeStep gives |
| HardDecoder.ViterbiDecoder.DecodeSegmentsOut | src/viterbiDecoder.c:66-177 | The loop leaves the state and writes the bytes that DecodeSegments gives |
| HardDecoder.ViterbiDecoder.DrainChunk | src/viterbiDecoder.c:198-207 | One drained chunk is packed into the output |
| HardDecoder.ViterbiDecoder.DrainTraceback | src/viterbiDecoder.c:183-207 | The remaining chunks of state 0's traceback, less the S padding chunks, are packed into the output oldest first |
| HardDecoder.ViterbiDecoder.FinishMessageOut | src/viterbiDecoder.c:180-217 | The drain, then exit(1) on a partial byte, else reset |
| HardDecoder.ViterbiDecoder.ViterbiDecoderHard | src/viterbiDecoder.c:38-220 | The new state, the outcome and the bytes written are those of ViterbiDecode on the received segments |
| ViterbiSpec.DecodeStepPacks | src/viterbiDecoder.c:121-176 | One step counts one iteration and streams a chunk only from TRACEBACK_LEN on; bytes plus carry are the old carry plus the chunk |
| ViterbiSpec.StreamStepPacks | src/viterbiDecoder.c:126-147 | The decision streams one chunk when the iteration count is at least TRACEBACK_LEN and none before, and packs it after the pending bits |
| ViterbiSpec.DecodeSegmentsPacks | src/viterbiDecoder.c:66-177 | Over a call the streamed chunks are packed MSB first into bytes and carry, and there are as many as iterations past TRACEBACK_LEN-1 |
| ViterbiSpec.DrainPacks | src/viterbiDecoder.c:183-207 | The drain emits min(iteration, TRACEBACK_LEN-1) - S chunks (none if negative), packed after the carry |
| ViterbiSpec.FinishOutcome | src/viterbiDecoder.c:209-216 | The end of a message returns the byte count and resets exactly when no partial byte remains; otherwise exit(1) |
| ViterbiSpec.ViterbiDecodePacks | src/viterbiDecoder.c:38-220 | The bytes written plus the carry are the old carry followed by every decided chunk, MSB first |
| ViterbiSpec.ViterbiDecodeCount | src/viterbiDecoder.c:38-220 | 8 bits per byte written plus the carry count equal the old count plus k per decided chunk |
| ViterbiSpec.ViterbiDecodeOutcome | src/viterbiDecoder.c:180-216 | A `last` call returns its byte count exactly when the carried and decided bits fill whole bytes, then resets; else exit(1) |
| ViterbiSpec.StreamedAndDrained | src/viterbiDecoder.c:183-196 | Streamed and drained chunks together are one per segment, less the S padding ones |
| ViterbiSpec.DecodeMessageLength | src/viterbiDecoder.c:180-196 | Decoding a message of m segments from reset decides m - S chunks |
| ViterbiSpec.DecodeMessage | src/viterbiDecoder.c:38-220 | A whole message from reset returns exactly when k*(m-S) is a multiple of 8, outputs the decided chunks' bits and leaves the decoder reset; otherwise exit(1) |
| ViterbiSpec.DecodeMessageReturns | src/viterbiDecoder.c:209-216 | A whole message returns normally exactly when its message bits fill whole bytes |
| ViterbiSpec.DecodeMessageBits | src/viterbiDecoder.c:38-220 | On a normal return the output bytes are the decided chunks, MSB first |
| ViterbiSpec.DecodeWholeBytes | src/viterbiDecoder.c:180-216 | A message of 8B/k + S segments returns exactly B bytes and leaves the decoder reset |
| ViterbiSpec.ViterbiConfigCheck | src/viterbiDecoder.c:9-16 | Returns 0 or exits with status 1 (intended check: a traceback must hold TRACEBACK_LEN chunks of k bits) |
| ViterbiSpec.ConfigCheckAsWritten | src/viterbiDecoder.c:9-16 | Returns 0 or exits with status 1 (as written: 64 compared with TRACEBACK_LEN) |
| ViterbiSpec.ConfigCheckGuardsStreaming | src/viterbiDecoder.c:9-16 | Whenever the intended check passes, the streamed chunk is the input TRACEBACK_LEN-1 steps back |
| ViterbiSpec.ConfigCheckAdmitsLostChunks | src/viterbiDecoder.c:10 | K=7, k=2 passes the check as written and fails the intended one; the chunk to stream lies above bit 64, where the model's shift gives 0 and the C shift by 68 is undefined |
| ViterbiSpec.StreamSegmentAsWritten | src/viterbiDecoder.c:134 | The chunk masked with `% k` is below k |
| ViterbiSpec.StreamSegmentAsWrittenIsZero | src/viterbiDecoder.c:134 | With k = 1 the mask as written streams 0 whatever the traceback |
| ViterbiSpec.StreamSegmentMaskCounterexample | src/viterbiDecoder.c:134 | For K=3, k=1 and the traceback 2^14 the intended mask streams 1 and the mask as written streams 0 |
| ButterflySpec.FlipNewest | src/viterbiDecoderButterflyk1.c:18-19 | When every generator taps the newest bit, flipping it complements the segment |
| ButterflySpec.FlipOldest | src/viterbiDecoderButterflyk1.c:18-19 | When every generator taps the oldest bit, flipping it complements the segment |
| ButterflySpec.SegmentForFlip | src/viterbiDecoderButterflyk1.c:106 | Flipping a register bit that every generator taps complements all n segment bits |
| ButterflySpec.SymmetricTaps | src/viterbiDecoderButterflyk1.c:18-19 | Generators with both end bits set tap the newest and the oldest register bit |
| ButterflySpec.ButterflyEdges | src/viterbiDecoderButterflyk1.c:103-114 | For symmetric generators the four edges of butterfly b carry the table entry, its complement, its complement and the entry |
| ButterflySpec.EdgeDistances | src/viterbiDecoderButterflyk1.c:103-114 | The four branch metrics of butterfly b are d, n-d, n-d and d |
| ButterflySpec.EdgeRegister | src/viterbiDecoderButterflyk1.c:27-28 | The edge symbol of (s, e) is the segment of register 2s + e |
| ButterflySpec.WidthAgrees | src/viterbiDecoderButterflyk1.c:103 | For n-bit segments the n-bit distance equals the 8-bit one |
| ButterflySpec.Dist | src/viterbiDecoderButterflyk1.c:103-106 | The butterfly's distance is at most n, so n - d is a distance too |
| ButterflySpec.ButterflySources | src/viterbiDecoderButterflyk1.c:108-114 | The sources of 2b and 2b+1 are b and b + NUM_STATES/2, the general decoder's dst/2 + e*2^(S-1) |
| ButterflySpec.LowerPath | src/viterbiDecoderButterflyk1.c:108-113 | The butterfly's candidate from the lower source is the general decoder's path metric for edge 0 |
| ButterflySpec.UpperPath | src/viterbiDecoderButterflyk1.c:108-114 | The butterfly's candidate from the upper source is the general decoder's path metric for edge 1 |
| ButterflySpec.NewMetricIsMin | src/viterbiDecoderButterflyk1.c:128-139 | The new metric is at most both candidates and the decision is 1 exactly when the upper candidate is strictly smaller |
| ButterflySpec.ButterflyIsAddCompareSelect | src/viterbiDecoderButterflyk1.c:100-151 | For symmetric generators, symbols in the n-bit alphabet and metrics that do not wrap, the butterfly's metric and decision equal the general decoder's metric and survivor edge (ties to the lower source) |
| ButterflySpec.MinOf | src/viterbiDecoderButterflyk1.c:168-173 | The minimum is one of the metrics and at most each of them |
| ButterflySpec.RenormalizeKeepsDifferences | src/viterbiDecoderButterflyk1.c:158-178 | After subtracting the minimum, the minimum is 0 and every pairwise difference is unchanged |
| ButterflySpec.StepShiftInvariant | src/viterbiDecoderButterflyk1.c:100-151 | Metrics lowered by a constant give the same decisions and new metrics lowered by the same constant |
| ButterflySpec.ShiftedRenormalize | src/viterbiDecoderButterflyk1.c:175-177 | Renormalising metrics that track raw ones adds the minimum to the offset |
| ButterflySpec.TracksStep | src/viterbiDecoderButterflyk1.c:84-188 | A step with renormalisation and one without keep the same rows and metrics differing by a constant |
| ButterflySpec.RenormalizationInvisible | src/viterbiDecoderButterflyk1.c:158-178 | Over any segments the renormalised decoder writes the same decision rows as one that never renormalises, and its metrics are the raw ones minus what was subtracted |
| ButterflySpec.BflyStep | src/viterbiDecoderButterflyk1.c:180-188 | Each segment appends exactly one decision row of NUM_STATES bits |
| ButterflySpec.BflySegments | src/viterbiDecoderButterflyk1.c:84-191 | A call appends one decision row per received segment |
| ButterflySpec.TracedStates | src/viterbiDecoderButterflyk1.c:200-250 | The traced states, one per iteration, end in the starting state of the traceback and are all valid states |
| ButterflySpec.TracedStep | src/viterbiDecoderButterflyk1.c:212-217 | The state before segment t is (s >> 1) \| (decision << (S-1)) for the decision stored for s in row t-1 |
| ButterflySpec.TracedIsPath | src/viterbiDecoderButterflyk1.c:200-249 | The traced states form a trellis path, each entered on its own low bit |
| ButterflySpec.TracedBits | src/viterbiDecoderButterflyk1.c:227-250 | One decoded bit per segment, less the S padding segments |
| ButterflySpec.PackBits | src/viterbiDecoderButterflyk1.c:239-245 | Packing bits into bytes MSB first takes one byte per started eight bits |
| ButterflySpec.PackMessageBits | src/viterbiDecoderButterflyk1.c:239-245 | Packing the bits of a byte message gives the message back |
| ButterflySpec.FillBits | src/viterbiDecoderButterflyk1.c:245 | Shifting bits into a byte from the MSB side leaves them at the top in order |
| ButterflySpec.ShiftInTopBits | src/viterbiDecoderButterflyk1.c:245 | (x >> 1) \| (b << 7) puts b on top of x's upper seven bits |
| ButterflySpec.DepositPacks | src/viterbiDecoderButterflyk1.c:221-250 | With the last byte zeroed, shifting the traced bits into the output from the back leaves exactly the packed bits at the front and the rest untouched |
| ButterflySpec.OutputCount | src/viterbiDecoderButterflyk1.c:252 | The count is 0 when no message bit precedes the padding, else the number of bytes the message bits start |
| ButterflySpec.OutputCountIsPacked | src/viterbiDecoderButterflyk1.c:252 | The count is the length of the packed traced bits |
| ButterflySpec.OutputCountOfMessage | src/viterbiDecoderButterflyk1.c:252 | A message of B bytes with its S flushing segments decodes to B bytes |
| ButterflySpec.OutputCountAsWrittenAgrees | src/viterbiDecoderButterflyk1.c:252 | Whenever a message bit precedes the padding the unsigned count as written is the intended one |
| ButterflySpec.PaddingOnlyCountWraps | src/viterbiDecoderButterflyk1.c:221-252 | After exactly S segments the unsigned count as written is 2^29 where no byte was decoded |
| ButterflySpec.ButterflyDecode | src/viterbiDecoderButterflyk1.c:81-259 | Without `last` nothing is returned and one row is added per segment; with `last` the count is OutputCount and the decoder is reset |
| ButterflyDecoding.MinMetricGeneric | src/viterbiDecoderButterflyk1.c:371-387 | The result is the minimum of the metrics |
| ButterflyDecoding.Renormalize | src/viterbiDecoderButterflyk1.c:168-177 | Every metric has the minimum subtracted in place |
| ButterflyDecoding.ButterflyCandidates | src/viterbiDecoderButterflyk1.c:106-114 | a0 = M[b]+d, a1 = M[b+N/2]+(n-d), b0 = M[b]+(n-d), b1 = M[b+N/2]+d |
| ButterflyDecoding.SelectedAll | src/viterbiDecoderButterflyk1.c:100-151 | Once every butterfly has stored its pair, the arrays are the step's metrics and decisions |
| ButterflyDecoding.ButterflyDecoder.constructor | src/viterbiDecoderButterflyk1.c:46-79 | A new decoder has the reset metrics, no decision rows and a buffer of the given row count |
| ButterflyDecoding.ButterflyDecoder.ViterbiInitButterflyk1 | src/viterbiDecoderButterflyk1.c:24-29 | edgeCodedBitsSymm[i] is the encoder output from state i on input 0, for each i < NUM_STATES/2 |
| ButterflyDecoding.ButterflyDecoder.ResetViterbiDecoderHardButterflyk1 | src/viterbiDecoderButterflyk1.c:46-79 | metric[0] is 0, every other metric NUM_STATES+1, and the iteration counter and carry are 0 |
| ButterflyDecoding.ButterflyDecoder.Candidates | src/viterbiDecoderButterflyk1.c:103-114 | The four candidates are the lower and upper path metrics into 2b and 2b+1 |
| ButterflyDecoding.ButterflyDecoder.Butterfly | src/viterbiDecoderButterflyk1.c:100-142 | The pair's new metrics and decisions are the step's at 2b and 2b+1 |
| ButterflyDecoding.ButterflyDecoder.Butterflies | src/viterbiDecoderButterflyk1.c:100-151 | newMetrics and tracebackBuf2 hold the step's metrics and decisions for every state |
| ButterflyDecoding.ButterflyDecoder.TrellisIteration | src/viterbiDecoderButterflyk1.c:99-178 | The new metrics are the step's, renormalised on every 64th iteration, with the step's decisions |
| ButterflyDecoding.ButterflyDecoder.StoreRow | src/viterbiDecoderButterflyk1.c:180-182 | Row `iteration` of the buffer gets the decisions; the other rows are unchanged |
| ButterflyDecoding.ButterflyDecoder.StoreMetrics | src/viterbiDecoderButterflyk1.c:184-186 | nodeMetricsA holds the new metrics |
| ButterflyDecoding.ButterflyDecoder.Commit | src/viterbiDecoderButterflyk1.c:180-188 | The metrics are replaced, one decision row is appended and the counter is one higher |
| ButterflyDecoding.ButterflyDecoder.DecodeSegment | src/viterbiDecoderButterflyk1.c:84-191 | One received segment moves the state to BflyStep's |
| ButterflyDecoding.ButterflyDecoder.DecodeSegments | src/viterbiDecoderButterflyk1.c:84-191 | The loop moves the state to BflySegments' over the received segments |
| ButterflyDecoding.ButterflyDecoder.PaddingTraceback | src/viterbiDecoderButterflyk1.c:197-218 | The S padding steps back from state 0 reach the traced state after the last message segment |
| ButterflyDecoding.ButterflyDecoder.StepBack | src/viterbiDecoderButterflyk1.c:212-217 | One step back gives the traced state before the segment |
| ButterflyDecoding.ButterflyDecoder.OutputStep | src/viterbiDecoderButterflyk1.c:229-249 | One output step shifts the decoded bit into its byte and steps back |
| ButterflyDecoding.ButterflyDecoder.OutputLoop | src/viterbiDecoderButterflyk1.c:227-250 | The loop deposits every traced message bit into its byte |
| ButterflyDecoding.ButterflyDecoder.Traceback | src/viterbiDecoderButterflyk1.c:195-253 | The front of uncoded holds the traced message bits packed MSB first, the rest is unchanged, and their byte count is returned |
| ButterflyDecoding.ButterflyDecoder.ViterbiDecoderHardButterflyk1 | src/viterbiDecoderButterflyk1.c:81-259 | The state, the return value and uncoded are those ButterflyDecode gives: rows appended without `last`, packed traceback and reset with it |
| ViterbiSpec.DecodeSegmentsAppend | src/viterbiDecoder.c:66-177 | Receiving s1 and then s2 leaves the state that receiving s1 + s2 leaves, with the chunks and bytes of both in order |
| ViterbiSpec.ViterbiDecodeStreaming | src/viterbiDecoder.c:38-220 | Two calls, the first without `last`, behave as one call on the concatenated segments: same state, chunks and bytes, and the same outcome, with a normal return counting the bytes of both |
| ViterbiSpec.FinishJoined | src/viterbiDecoder.c:180-217 | Ending a message after output already written appends the drained bytes to it and counts them all in the return value |
| ButterflySpec.BflySegmentsAppend | src/viterbiDecoderButterflyk1.c:84-191 | Receiving s1 and then s2 leaves the state that receiving s1 + s2 leaves |
| ButterflySpec.ButterflyDecodeStreaming | src/viterbiDecoderButterflyk1.c:81-259 | A first call without `last` returns nothing, and the second call then gives exactly the result of one call on the concatenated segments |
| RoundTrip.InputChunks | src/convEncode.c:83-123 | A bit stream splits into |bits| / k chunks, each below 2^k |
| RoundTrip.WalkCons | src/convEncode.c:41-68 | A walk of the trellis is its first edge followed by the walk from that edge's end |
| RoundTrip.WalkOfChunks | src/convEncode.c:83-123 | Feeding bits to the encoder walks the trellis along their input chunks |
| RoundTrip.ChunksOfInputChunks | src/convEncode.c:89-98 | Reading the chunks back MSB-first gives the bits that made them |
| RoundTrip.MessageBitsInjective | src/convHelpers.c:3-8 | Different byte messages have different bit streams |
| RoundTrip.InitialOnPath | src/viterbiDecoder.c:222-244 | The reset decoder is on the empty walk: state 0 alone has metric 0 |
| RoundTrip.TrellisStepOnPath | src/viterbiDecoder.c:79-119 | An error-free segment of the walk keeps the walk's end the only zero-metric state and appends the input to its traceback |
| RoundTrip.LeastIsWalkEnd | src/viterbiDecoder.c:126-130 | On the walk the first least-metric state is the walk's end |
| RoundTrip.DecodeStepOnPath | src/viterbiDecoder.c:121-147 | One error-free segment keeps the decoder on the walk and streams the input TRACEBACK_LEN-1 steps back once the traceback is deep enough |
| RoundTrip.DecodeOnPath | src/viterbiDecoder.c:66-177 | After error-free segments the decoder is on the walk and has streamed the walk's oldest inputs, one per segment past TRACEBACK_LEN-1 |
| RoundTrip.ChunkOfTb | src/viterbiDecoder.c:131-134 | The chunk d steps back in a traceback is the input d steps before the newest, while it fits the 64 bits |
| RoundTrip.DrainOfTb | src/viterbiDecoder.c:183-207 | Draining a walk's traceback past the padding gives the walk's unstreamed inputs before the S newest |
| RoundTrip.DrainOnPath | src/viterbiDecoder.c:183-207 | At the end of a walk into state 0, draining state 0's traceback gives the unstreamed inputs before the padding |
| RoundTrip.MessageWalk | src/convEncode.c:70-159 | What the encoder sends for a message is the walk along its chunks and S zero chunks, which ends in state 0 |
| RoundTrip.DecodeAndDrain | src/viterbiDecoder.c:38-207 | Along such a walk the decoder streams the oldest inputs and drains the rest up to the padding |
| RoundTrip.DecodeWalk | src/viterbiDecoder.c:38-220 | Decoding a walk into state 0 with `last` decides every input but the S padding ones |
| RoundTrip.DecodedBytes | src/viterbiDecoder.c:209-216 | When the decided chunks spell the message, the call writes the message, returns its length and resets |
| RoundTrip.ZeroNoiseRoundTrip | src/viterbiDecoder.c:38-220 | The encoder's output for a message, decoded with no errors in one call, gives the message back, returns its length and resets the decoder |
| DecoderAgreement.MetricsRun | src/viterbiDecoder.c:79-119 | The metric vector keeps one entry per state along a run |
| DecoderAgreement.DecodeMetrics | src/viterbiDecoder.c:79-119 | The general decoder's metrics depend only on the metrics and the received segments, not on tracebacks or output |
| DecoderAgreement.StepAgrees | src/viterbiDecoderButterflyk1.c:100-151 | One segment: the butterflies compute the general next metrics, every decision bit is the general survivor edge, and no metric grows by more than n |
| DecoderAgreement.RawRunAgrees | src/viterbiDecoderButterflyk1.c:84-191 | Without renormalisation a butterfly run has the general metrics and row t holds the general survivor edges for segment t |
| DecoderAgreement.SameReset | src/viterbiDecoderButterflyk1.c:46-79 | Both decoders reset to metric 0 for state 0 and NUM_STATES + 1 elsewhere |
| DecoderAgreement.ButterflyRunIsGeneralRun | src/viterbiDecoderButterflyk1.c:84-191 | From a reset, the butterfly's decision for state s after segment t is the general decoder's survivor edge into s, and its metrics are the general ones lowered by renormalisation |
| DecoderAgreement.TracebacksFollowRows | src/viterbiDecoder.c:100-111 | After t segments the general traceback of each state records the inputs along the path the butterfly's rows trace back from it |
| DecoderAgreement.SingleBitChunks | src/viterbiDecoder.c:140-147 | For k = 1 the chunks of single-bit inputs are the inputs themselves |
| DecoderAgreement.FinishFromTraceback | src/viterbiDecoder.c:183-207 | A run that has streamed nothing finishes on exactly the chunks of state 0's traceback before the padding |
| DecoderAgreement.FinishedIsTraced | src/viterbiDecoder.c:180-207 | Finishing such a run decides exactly the butterfly's traced bits |
| DecoderAgreement.ShortRun | src/viterbiDecoder.c:66-177 | A run shorter than TRACEBACK_LEN segments from a reset streams nothing, and its state 0 traceback records the inputs along the path the butterfly traces back from state 0 |
| DecoderAgreement.ShortMessageSegments | src/viterbiDecoderButterflyk1.c:195-253 | For a message shorter than TRACEBACK_LEN segments, the general decoder decides exactly the bits the butterfly traces back from state 0 |
| DecoderAgreement.PackedChunks | src/viterbiDecoderButterflyk1.c:239-245 | Bytes whose bits are the single-bit chunks are what the butterfly's packing gives |
| DecoderAgreement.ShortMessagesAgree | src/viterbiDecoderButterflyk1.c:81-259 | On such a message the general decoder returns exactly when the traced bits fill whole bytes, and then both decoders return the same bytes |
| HandTraced.FeedIsExampleFeed | src/convEncode.c:83-123 | For the 4-state code the general encoder is the reference encoder |
| HandTraced.EncodeExampleByte | handTracedTest/handTraced.c:29-38 | Any one-byte message 0b01101000 encodes, with termination, to {00,11,00,10,10,11,01,00,00,00} |
| HandTraced.EncoderVector | handTracedTest/handTraced.c:25-47 | convEnc on the byte 0b01101000 with `last` emits {00,11,00,10,10,11,01,00,00,00} |
| HandTraced.ExampleStep | src/viterbiDecoder.c:79-119 | For the 4-state code the general add-compare-select is the reference one |
| HandTraced.ResetVector | handTracedTest/handTraced.c:71-79 | After a reset the metrics are {0,5,5,5}, the tracebacks are 0, and the counter and carry are 0 |
| HandTraced.NoStepVector | handTracedTest/handTraced.c:71-79 | Before any segment the decoder is in the reset state |
| HandTraced.Advance | src/viterbiDecoder.c:66-177 | While the traceback is too short to stream, one more segment moves the state by the reference add-compare-select and decides nothing |
| HandTraced.FirstStepVector | handTracedTest/handTraced.c:80-88 | After segment {01}: metrics {1,1,6,5}, tracebacks {0,1,0,1} |
| HandTraced.SecondStepVector | handTracedTest/handTraced.c:89-97 | After segment {11}: metrics {3,1,1,3}, tracebacks {00,01,10,11} |
| HandTraced.ThirdStepVector | handTracedTest/handTraced.c:98-106 | After segment {01}: metrics {1,3,2,2}, tracebacks {100,101,010,011} |
| HandTraced.FourthStepVector | handTracedTest/handTraced.c:107-115 | After segment {10}: metrics {2,2,2,4}, tracebacks {1000,1001,0110,1011} |
| HandTraced.FifthStepVector | handTracedTest/handTraced.c:55-57 | After the fifth segment {10} of the corrupted sequence: metrics {3,2,3,3}, tracebacks {16,13,18,19} |
| HandTraced.SixthStepVector | handTracedTest/handTraced.c:55-57 | After segment {11}: metrics {4,3,2,4}, tracebacks {36,33,26,27} |
| HandTraced.SeventhStepVector | handTracedTest/handTraced.c:55-57 | After segment {01}: metrics {2,4,4,4}, tracebacks {52,53,66,67} |
| HandTraced.EighthStepVector | handTracedTest/handTraced.c:55-57 | After segment {00}: metrics {2,4,5,4}, tracebacks {104,105,134,107} |
| HandTraced.NinthStepVector | handTracedTest/handTraced.c:55-57 | After the first padding segment {00}: metrics {2,4,5,4}, tracebacks {208,209,214,211} |
| HandTraced.LastStepVector | handTracedTest/handTraced.c:55-57 | After all ten segments state 0 has metric 2 and traceback 0b110100000 |
| HandTraced.PushExampleByte | src/viterbiDecoder.c:140-147 | Pushing the bits of 0b01101000 into an empty carry writes that byte and leaves nothing pending |
| HandTraced.DrainVector | src/viterbiDecoder.c:183-207 | Draining traceback 0b110100000 past the two padding bits gives the bits of 0b01101000 |
| HandTraced.CorruptedDecodeVector | handTracedTest/handTraced.c:55-68 | The corrupted sequence, decoded in one call, gives 0b01101000; the call returns 1 and resets the decoder |

## Left out

- `printf` output, including the per-segment dump (src/viterbiDecoder.c:121-123, 190) and the banner of viterbiInitButterflyk1.
- The process ending in `exit(1)`: it is the `Exited(1)` outcome, after which the model says nothing more about the state.
- The k ∤ 8 spill-over branch of viterbiDecoderHard (src/viterbiDecoder.c:148-175): the decoders require 8 % k == 0.
- The non-symmetric butterfly branch (src/viterbiDecoderButterflyk1.c:31-42, 116-122) and the commented-out tree-minimum reductions; alignment attributes and `restrict` are performance only.
- The speed and BER drivers: they time and count, and their random input and noise are not modelled.
- The hand-traced test feeds the decoder one segment per call; the vectors are stated for one call on the first i segments, which ViterbiSpec.ViterbiDecodeStreaming shows to be the same state.
- For messages of TRACEBACK_LEN segments or more the two decoders are not claimed to return the same bytes: the general decoder streams each chunk from the least-metric state at depth TRACEBACK_LEN-1, while the butterfly decoder traces back the whole message from state 0, so with transmission errors their outputs can differ. DecoderAgreement proves their decisions agree at every step and their outputs agree on shorter messages.
- RoundTrip.ZeroNoiseRoundTrip: holds for generators that give distinct segments to the edges leaving each state (all-zero generators do not), while no uint32_t metric can wrap, and for the decoder with the two corrections under Findings: the `% 2^k` mask at src/viterbiDecoder.c:134 and the TRACEBACK_LEN * k <= 64 check at src/viterbiDecoder.c:10. With the code as written and k = 1, every chunk streamed from TRACEBACK_LEN segments on is 0 (ViterbiSpec.StreamSegmentAsWrittenIsZero). So a message of TRACEBACK_LEN or more segments (4 bytes or more for K = 7, k = 1) comes back only when those bits happen to be 0.
- ButterflyDecoding.ButterflyDecoder.ViterbiDecoderHardButterflyk1: metrics are unbounded naturals, so the uint32_t METRIC_TYPE wrap is not modelled for this decoder; the claim that all metrics stay below UINT8_MAX (src/viterbiDecoderButterflyk1.c:374-378) is not proved.
- ButterflyDecoding.ButterflyDecoder.ViterbiDecoderHardButterflyk1: on `last` it requires NUM_STATES <= 256, because decodedLastState is a uint8_t.
- ButterflyDecoding.ButterflyDecoder.ViterbiDecoderHardButterflyk1: it requires the decision buffer to have a row for every segment since the last reset, and uncoded to hold OutputCount bytes; the C code does not check either.
- ButterflyDecoding.ButterflyDecoder.Traceback: returns 0 and writes nothing when iteration <= S, the intended behaviour; the code as written wraps (see Findings).
- ButterflySpec.ButterflyIsAddCompareSelect: holds only for generators that tap both the newest and the oldest register bit, and for received symbols below 2^n; the C code assumes both without checking.
- The struct fields `tracebackBufs` and `edgeCodedBitsSymm`, the three-argument `calcHammingDist`, and the constant `TRACEBACK_BITS` (src/viterbiDecoderButterflyk1.c:221) are not defined in any source file of this model. The model gives them the shapes and values their uses imply:
  - a row count set at construction;
  - one entry per butterfly;
  - a distance over the low n bits;
  - `TRACEBACK_BITS` = 8, the bits of one output byte, which is what that line's comment ("zero out the last byte") says. Any other value would pick a different byte to zero, and a partial last byte would keep stale bits.
- viterbiInitButterflyk1 assigns `tmpEncoder.tappedDelay = stateInd`, which fits src/convEncode.h's scalar register, not the array layout of src/convEncode.c. The model sets the state through SetConvEncoderState.
- ConvEncode.ConvEncoder.ComputeEncOutputSegment: models the evident intent, with the counts zeroed and the segment returned. As written, `codedBits` is read uninitialised and the function has no `return`.
- The reset of the butterfly decoder sets metric[0] to 0 and loops from 1, which is right only because STARTING_STATE is 0; the model fixes STARTING_STATE = 0.
- ConvEncode.ConvEncoder.ConvEnc and HardDecoder.ViterbiDecoder.ViterbiDecoderHard: they require the output arrays to be large enough and distinct from the inputs; the C code leaves buffer sizing to its callers.
- The `int` iteration counters and the integer widths of the loop indices are unbounded here.
- No optimality claim is proved: the decoders are shown to compute the add-compare-select recursion and the traceback, not that the decoded message is a maximum-likelihood one.

## Findings

| source | as written | input that shows it | evidently intended | confidence | as-written member | corrected member |
|---|---|---|---|---|---|---|
| src/viterbiDecoder.c:134 | The streamed chunk is masked with `% k`, so for k = 1 every streamed bit is 0 | K=3, k=1, traceback 2^14 (input 1 fourteen segments back): streams 0 instead of 1 | Mask with `% POW2(k)` | not executed | ViterbiSpec.StreamSegmentMaskCounterexample | ViterbiSpec.StreamSegmentOfTb |
| src/viterbiDecoder.c:10 | The 64 bits of a traceback are compared with TRACEBACK_LEN, a count of k-bit chunks | K=7, k=2: 35 <= 64 passes, but 70 bits are needed; after input 1 and 34 zeros the chunk to stream lies above bit 64, so the shift by 68 is undefined in C (the model's ShiftRight gives 0) | Compare 64 with TRACEBACK_LEN * k | not executed | ViterbiSpec.ConfigCheckAdmitsLostChunks | ViterbiSpec.ConfigCheckGuardsStreaming |
| src/viterbiDecoderButterflyk1.c:252 | `(iteration - S - 1)*k/8 + 1` in unsigned arithmetic wraps when iteration <= S, and line 222 zeroes a byte far past the buffer | A final call after exactly S segments (an empty message): the count is 2^29 and uncoded[2^29 - 1] is written | Return 0 and write nothing when no message bit precedes the padding | not executed | ButterflySpec.PaddingOnlyCountWraps | ButterflyDecoding.ButterflyDecoder.Traceback |
