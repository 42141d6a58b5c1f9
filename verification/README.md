# RyFi coding and framing

RyFi carries IP packets over a radio link. This project models its path from packets to QPSK symbols and back, and the
parts of libcorrect that it uses, and proves what the path promises.

- **Reed-Solomon codec** (`Bits`, `Gf256`, `Poly`, `FieldTables`, `Convolution`, `PolyOps`, `PolyDivision`, `Lfsr`,
  `BerlekampMassey`, `ErrorTheory`, `RsDecode`, `RsTheorems`, `RsDecoder`, `RsOverrun`, `ReedSolomon`): table arithmetic
  in GF(2^8) refines a table-free definition; the systematic encoder produces code words; the decoder (syndromes,
  Berlekamp-Massey, Chien search, Forney) undoes every pattern of at most half as many byte errors as there are generator
  roots, and whatever it decodes is a code word.
- **Convolutional codec** (`ConvCode`, `MetricBounds`, `Survivors`, `FreeDistance`, `NoiseMargin`, `CodeWords`,
  `MarginTight`, `ErrorBursts`, `BitIo`, `ErrorBuffers`, `PairLookups`, `HistoryBuffers`, `ViterbiSlices`,
  `ViterbiMetrics`, `ConvEncode`, `ConvDecode`): the 16-bit metrics of the Viterbi decoder are exact minimum costs up to
  what renormalisation has subtracted and never wrap around; survivors are optimal through warm-up, renormalisation, burst
  traceback and tail; every bit written is that of one canonical minimum-cost path, ties included, so that the soft symbols
  determine the output; messages within the noise margin are recovered. The margin follows from the weight of the code,
  at least nine ones for every difference of two paths. It is a condition on every window of two decision depths that
  covers symbols all on the right side, small total deviations, and separate groups of up to three wrong bits. One unit
  more and some message is lost. Beyond the margin, a burst of arbitrary symbols spoils only the bytes near it: an error
  event cannot win more in the burst than the burst is long, and loses outside in proportion to its length.
- **Packets over lossy frames** (`Packets`, `Frames`, `Transmitters`, `Receivers`, `Delivery`, `Link`): for any arrivals and
  any losses the receiver hands on exactly the packets all of whose frames arrived, with the exact condition under which
  this can fail.
- **Interleaver, framing, pipeline** (`RsCodec`, `Framing`, `SyncWord`, `SyncSearch`, `SoftSymbols`, `Pipeline`, `Channels`,
  `EndToEnd`): burst tolerance, resolution of the constellation's rotation, exactly when the deframer delivers a frame, and
  the composition of all layers for any number of frames. The channel acts on every symbol that is sent, those of the sync
  words included. `Channels.LoopbackFading` needs no hypothesis about the sync words: gain, noise and fades are enough.
  `EndToEnd.Deliver` runs everything from packets to packets.

Objects that the program updates in place are classes over arrays; each method is proved against a function or a predicate
on values, and the theorems are about these. `dafny verify dfyconfig.toml` checks everything.

## Conventions

- Bytes are integers below 256; 16-bit metrics are integers below 2^16 with explicit wrap-around (`AddWord`, `SubWord`);
  the 64-bit registers are reduced modulo 2^64.
- A packet that is being sent by another thread is modelled by a function from the number of queue accesses to the packets
  that arrive before it; the theorems hold for every such function.
- Noise that fills up a frame is arbitrary: the transmitter writes bytes about which nothing is known.
- The slice of history that the decoder writes next is a row of a two-dimensional array.
- The eight-lane forms are separate methods with the contracts of the scalar ones; a flag of the decoder chooses.
- A failed decode is a value of `Result`; the interleaved codec passes it on where the program returns 0.
- A channel is any function of a transmission's number and symbols; the rotation, which the deframer has to find, is applied
  to what the channel makes of them.
- Of equally cheap paths the decoder takes the low predecessor before the last six slices and the high one in them.
  `Favoured` says what this means for a whole path, `Canonical` adds the search's lowest state.
- Words of the Reed-Solomon code are compared by the number of differing bytes; `WithinBound` says that a code word is
  within half the number of roots, `FewErrors` the same for the four interleaved blocks.

## Findings

- The Chien search's tables of powers have one entry too few for a locator whose order equals the number of roots. This
  happens if and only if all syndromes but the last are zero; the model returns `TableOverrun` there. `OverrunWord` gives
  such words of every length, and `OverrunFar` that nothing could be decoded from them.
- A run of lost frames whose length is a positive multiple of 65536 is not noticed by the receiver, which then hands on a
  packet spliced from two. `DeliveryCondition` gives both directions.
- Flushing an unfinished byte shifts it one place too far and leaves it behind as the current byte. `FlushPads`: it is
  padded correctly if and only if its bits are zeros. The encoder always ends on a whole byte, so its output is not
  affected.
- The first exchange of the metric buffers after a reset exchanges nothing, so the metric of the first slice is discarded;
  minimum costs are over the slices after it. `FirstSliceMatters`: the discarded metric never matters if and only if the
  first two soft symbols sum to 255. `SpoiledLost` gives symbols that are decoded as another message although they are
  closer to the message's code word.
- The deframer's register is not initialised. `DeliversExactly`: the first frame is delivered whatever it holds if and only
  if the register does not match before the sync word ends, and `EarlyRegisterLoses` gives a register with which it does.
  The register that a delivered frame leaves does not match before the next sync word ends.
- A frame whose first offset is above 884, but not 0xFFFF, makes the receiver look for a length header past the end of the
  content. `OverreadExactly` says when: the frame must be the next one, and the packet in progress must leave room. After a
  gap such frames are skipped. No frame of the transmitter is of this kind (`FrameHeader`).
- Inputs of fewer than twelve slices are decoded with a tail that overlaps the warm-up; no whole byte is written then.

## Model

| member | source | states |
|---|---|---|
| FieldTables.CreateField | libcorrect/include/correct/reed-solomon/field.h:26-62 | repeated doubling fills the tables so that exp[i] is the i-th power of alpha for all 512 entries and log is its inverse with values 1..255 on nonzero elements |
| Gf256.AlphaOrder | libcorrect/include/correct/reed-solomon/field.h:26-62 | alpha has order 255: no smaller positive power of it is 1 |
| Gf256.Reduction | libcorrect/include/correct/reed-solomon/field.h:26-62 | doubling is a shift below 128, and 128 doubled is 0x87: the field is that of x^8 + x^7 + x^2 + x + 1 |
| Gf256.PowersCover | libcorrect/include/correct/reed-solomon/field.h:26-62 | every nonzero element is a power of alpha, so every nonzero element gets a logarithm |
| Gf256.LogExp | libcorrect/include/correct/reed-solomon/field.h:26-62 | the logarithm in 1..255 is the inverse of exponentiation |
| Gf256.MulAssoc | libcorrect/include/correct/reed-solomon/field.h:94-110 | multiplication, defined by shifts and reductions without tables, is associative |
| Gf256.MulComm | libcorrect/include/correct/reed-solomon/field.h:94-110 | multiplication is commutative |
| Gf256.MulAdd | libcorrect/include/correct/reed-solomon/field.h:94-110 | multiplication distributes over exclusive or, from the linearity of multiplying by alpha |
| Gf256.MulInv | libcorrect/include/correct/reed-solomon/field.h:112-129 | every nonzero element has an inverse |
| FieldTables.FieldSumRepeats | libcorrect/include/correct/reed-solomon/field.h:77-92 | the parity test computes the n-fold sum of an element |
| FieldTables.FieldMulProduct | libcorrect/include/correct/reed-solomon/field.h:94-110 | adding logarithms in the tables is multiplication in the field, zeros included |
| FieldTables.FieldDivQuotient | libcorrect/include/correct/reed-solomon/field.h:112-129 | subtracting logarithms is division: times the divisor it gives the dividend, and a zero divisor gives zero |
| FieldTables.FieldMulLogElementProduct | libcorrect/include/correct/reed-solomon/field.h:19-24 | the sum of two logarithms looks up the product without reduction |
| FieldTables.FieldMulLogProduct | libcorrect/include/correct/reed-solomon/field.h:131-144 | the reduced sum of two logarithms is a logarithm of the product and is 0 only for two fillers |
| FieldTables.FieldDivLogQuotient | libcorrect/include/correct/reed-solomon/field.h:146-153 | the reduced difference of two logarithms is a logarithm of the quotient |
| FieldTables.FieldPowPower | libcorrect/include/correct/reed-solomon/field.h:155-166 | the power of a nonzero element, for a negative exponent that of its inverse, and 1 for every power of zero |
| PolyOps.PolynomialMul | libcorrect/src/reed-solomon/polynomial.c:17-30 | every coefficient kept is the convolution of the factors' coefficients, orders above the buffer cut off |
| PolyOps.EvalProduct | libcorrect/src/reed-solomon/polynomial.c:17-30 | evaluating an untruncated product multiplies the values |
| PolyOps.PolynomialFormalDerivative | libcorrect/src/reed-solomon/polynomial.c:74-87 | the odd coefficients moved down, zeros between them |
| Poly.DerivativeEval | libcorrect/src/reed-solomon/polynomial.c:74-87 | at a root the derivative's value is that of the quotient by the root's factor |
| PolyOps.PolynomialBuildExpLut | libcorrect/src/reed-solomon/polynomial.c:159-171 | the table of logarithms of the powers of an element, fillers for zero |
| PolyOps.PolynomialEvalLut | libcorrect/src/reed-solomon/polynomial.c:113-132 | evaluation through a table of powers is Horner evaluation in the field |
| PolyOps.PolynomialEvalLogLut | libcorrect/src/reed-solomon/polynomial.c:134-157 | so is evaluation of a polynomial given by logarithms |
| PolyDivision.PolynomialMod | libcorrect/src/reed-solomon/polynomial.c:32-72 | dividend = divisor times quotient + remainder at every point, and no coefficient at or above the divisor's order is left |
| PolyDivision.ReduceStep | libcorrect/src/reed-solomon/polynomial.c:48-71 | one step of long division clears the leading coefficient and keeps the value at every point up to a multiple of the divisor |
| PolyDivision.PolynomialCreateFromRoots | libcorrect/src/reed-solomon/polynomial.c:213-255 | a monic polynomial whose value everywhere is the product of the differences to the roots |
| PolyDivision.RootProductZero | libcorrect/src/reed-solomon/polynomial.c:213-255 | the product of the differences is zero at each root |
| ReedSolomon.BuildGenerator | libcorrect/src/reed-solomon/reed-solomon.c:5-12 | roots are the consecutive powers of alpha from the first on, and the generator is their monic polynomial |
| ReedSolomon.ReedSolomon.constructor | libcorrect/src/reed-solomon/reed-solomon.c:14-35 | a codec with this many roots, ready to encode, its decoder not yet set up |
| ReedSolomon.ReedSolomon.Encode | libcorrect/src/reed-solomon/encode.c:3-34 | -1 if message and parity are longer than 255 bytes; else 255 is returned, the message is the prefix and the whole word, padding included, vanishes at every generator root |
| ReedSolomon.EncodedVanishes | libcorrect/src/reed-solomon/encode.c:22-22 | adding the remainder of the division makes the message polynomial vanish at all generator roots |
| ReedSolomon.EmittedWord | libcorrect/src/reed-solomon/encode.c:24-31 | message and remainder written highest order first are the bytes of the sum |
| RsDecoder.CodewordSent | libcorrect/src/reed-solomon/encode.c:3-34 | a word is a code word if and only if Horner's rule over its bytes, in the order in which they are sent, gives zero at the powers 1 to n of alpha |
| RsDecoder.SmallCodeword | libcorrect/src/reed-solomon/reed-solomon.c:5-12 | with two roots the bytes 1, 6, 8 are a code word |
| RsDecode.FindSyndromes | libcorrect/src/reed-solomon/decode.c:12-28 | the syndromes are the values at the generator roots, and the flag says that all are zero, that is, the word is a code word |
| BerlekampMassey.FindErrorLocator | libcorrect/src/reed-solomon/decode.c:32-118 | the locator generates all syndromes as a shift register of the returned length, no shorter register does, its order is the length, and the length is the number of syndromes only if all but the last are zero |
| BerlekampMassey.Discrepancy | libcorrect/src/reed-solomon/decode.c:49-53 | the discrepancy is the register's error at the next syndrome |
| BerlekampMassey.Lengthen | libcorrect/src/reed-solomon/decode.c:63-99 | a discrepancy with room makes the register grow, and the state of the iteration is kept |
| BerlekampMassey.Adjust | libcorrect/src/reed-solomon/decode.c:101-116 | a discrepancy without room corrects the register and keeps its length |
| Lfsr.MasseyBound | libcorrect/src/reed-solomon/decode.c:32-118 | a register that fails at syndrome n and one that does not have together at least n + 1 cells |
| Lfsr.MasseyGrow | libcorrect/src/reed-solomon/decode.c:63-99 | the grown register produces one syndrome more and is shortest |
| Lfsr.MasseyAdjust | libcorrect/src/reed-solomon/decode.c:101-116 | the corrected register produces one syndrome more and is still shortest |
| Lfsr.OnlyLastLength | libcorrect/src/reed-solomon/decode.c:32-118 | syndromes that are zero but for the last need a register as long as there are syndromes |
| RsDecode.LocatorToLog | libcorrect/src/reed-solomon/decode.c:348-356 | the locator's coefficients as logarithms, zeros as fillers |
| RsDecode.FactorizeErrorLocator | libcorrect/src/reed-solomon/decode.c:122-145 | the search over all 256 elements finds exactly the locator's roots in order, never more than its order, and succeeds if there are as many as its order |
| RsDecode.FindErrorEvaluator | libcorrect/src/reed-solomon/decode.c:148-158 | locator times syndromes cut to the syndromes' order |
| RsDecode.FindErrorValues | libcorrect/src/reed-solomon/decode.c:165-196 | evaluator over derivative at every root |
| RsDecode.FindErrorLocations | libcorrect/src/reed-solomon/decode.c:198-222 | the location of a root is the logarithm of its reciprocal, below 255 |
| RsDecode.LocationFound | libcorrect/src/reed-solomon/decode.c:214-220 | the scan finds the location of every nonzero point; that a power of zero comes out as 1 is what maps the point 1 to location 0 |
| ErrorTheory.PowerSumsGenerated | libcorrect/src/reed-solomon/decode.c:32-118 | every polynomial with the errors' reciprocals as roots generates their syndromes |
| ErrorTheory.LocatorRoots | libcorrect/src/reed-solomon/decode.c:122-145 | a register that generates the syndromes and is short enough has every error's reciprocal as a root |
| ErrorTheory.ForneyReproduces | libcorrect/src/reed-solomon/decode.c:165-196 | the values found at the roots of a locator that splits reproduce every syndrome, however many errors there were |
| ErrorTheory.MinimumDistance | libcorrect/src/reed-solomon/decode.c:299-379 | a nonzero word of the code has more nonzero bytes than the code has roots |
| RsTheorems.DecodeSound | libcorrect/src/reed-solomon/decode.c:344-372 | the corrected word vanishes at every generator root whenever the locator splits |
| RsTheorems.LocatorComplete | libcorrect/src/reed-solomon/decode.c:32-118 | within half the roots' number of errors the locator is no longer than the number of errors and splits |
| RsTheorems.UniqueCodeword | libcorrect/src/reed-solomon/decode.c:299-379 | two code words whose distances to a word sum to no more than the number of roots are equal |
| RsTheorems.CorrectedWeight | libcorrect/src/reed-solomon/decode.c:369-372 | a correction moves the word by no more bytes than there are locations |
| RsDecode.CorrectErrors | libcorrect/src/reed-solomon/decode.c:369-372 | every value is subtracted at its location |
| RsDecode.ExtractMessage | libcorrect/src/reed-solomon/decode.c:374-376 | the upper coefficients in byte order |
| RsDecoder.Decoder.constructor | libcorrect/src/reed-solomon/decode.c:259-297 | the decoder's buffers, and tables of the powers of the generator roots and of all elements |
| RsDecoder.Decoder.Locate | libcorrect/src/reed-solomon/decode.c:344-362 | the locator of the syndromes and whether it splits; its order exceeds the tables of powers exactly if all syndromes but the last are zero |
| RsDecoder.Decoder.Repair | libcorrect/src/reed-solomon/decode.c:364-372 | the corrected polynomial vanishes at every generator root and differs in no more places than the locator's order |
| RsDecoder.Decoder.Decode | libcorrect/src/reed-solomon/decode.c:299-379 | bounded-distance decoding: if some code word is within half the number of roots, its message is returned; soundness: whatever is decoded is the message of a code word that differs in fewer places than the code has roots; it fails on too long a word, and else only if a shortest register for the syndromes has fewer roots than cells; the tables of powers are overrun if and only if all syndromes but the last are zero |
| RsOverrun.OverrunWord | libcorrect/src/reed-solomon/decode.c:289-293 | for every number of roots and every length there is a word all of whose syndromes but the last are zero |
| RsOverrun.OverrunFar | libcorrect/src/reed-solomon/decode.c:289-293 | such a word differs from every code word in at least as many bytes as the code has roots, so nothing could be decoded from it |
| ReedSolomon.ReedSolomon.Decode | libcorrect/src/reed-solomon/decode.c:299-379 | bounded-distance decoding, soundness, the reason for a failure and the overrun condition through the codec, which sets up the decoder the first time |
| BitIo.BitWriter.Write1 | libcorrect/src/convolutional/bit.c:33-46 | appends one bit |
| BitIo.BitWriter.Write | libcorrect/src/convolutional/bit.c:26-31 | appends n bits, least significant first |
| BitIo.ByteValue | libcorrect/src/convolutional/bit.c:33-46 | the first of eight bits written is worth 128 in the byte, the last 1 |
| BitIo.BitWriter.WriteBitlistReversed | libcorrect/src/convolutional/bit.c:101-155 | appends the list back to front from any unfinished byte and for any length |
| BitIo.ContentsDetermine | libcorrect/src/convolutional/bit.c:101-155 | the bits written determine bytes, index and unfinished byte, so the list form leaves the same state as single bits written back to front |
| BitIo.BitWriter.FlushByte | libcorrect/src/convolutional/bit.c:157-164 | between bytes nothing changes; else the byte written lacks the first unfinished bit, because it is shifted one place too far, and it stays behind as the current byte |
| BitIo.FlushPads | libcorrect/src/convolutional/bit.c:157-164 | flushing pads an unfinished byte with zeros if and only if its bits are all zeros |
| BitIo.BitWriter.Length | libcorrect/src/convolutional/bit.c:166-168 | the number of whole bytes written |
| BitIo.BitReader.constructor | libcorrect/src/convolutional/bit.c:201-208 | all bits of a buffer that is not empty are to be read |
| BitIo.BitReader.Read | libcorrect/src/convolutional/bit.c:214-232 | the next n bits, the first in the low place, across byte boundaries |
| BitIo.ReverseByteBits | libcorrect/src/convolutional/bit.c:170-174 | the eight bits back to front |
| BitIo.WriteThenRead | libcorrect/src/convolutional/bit.c:214-232 | for any values and any widths up to 8 that fill whole bytes, reading what the writer wrote returns each value cut to its width |
| ConvCode.FillTable | libcorrect/src/convolutional/lookup.c:7-20 | entry r holds the parities of r under both polynomials, the first in the low place |
| ConvCode.SiblingOutputs | libcorrect/src/convolutional/lookup.c:7-20 | registers that differ in the newest bit have complementary outputs |
| ConvCode.MetricSoftDistanceLinear | libcorrect/include/correct/convolutional/metric.h:9-18 | the sum of the distances of two soft symbols to 0 or 255, the first symbol belonging to the low output bit |
| PairLookups.AssignKeys | libcorrect/src/convolutional/lookup.c:31-51 | every register pair gets the key of its outputs, keys stay below five, so the output table is not overrun |
| PairLookups.PairLookup.FillDistance | libcorrect/src/convolutional/lookup.c:65-74 | the word at a pair's key holds the metrics of both its registers |
| ErrorBuffers.ErrorBuffer.Reset | libcorrect/src/convolutional/error_buffer.c:31-37 | both buffers are zero and the index one behind |
| ErrorBuffers.ErrorBuffer.Swap | libcorrect/src/convolutional/error_buffer.c:39-43 | the buffers change places, except the first time after a reset |
| ConvCode.BestLower | libcorrect/src/convolutional/decode.c:30-62 | no path is cheaper than the dynamic program's minimum of its last state |
| ConvCode.BestAttained | libcorrect/src/convolutional/decode.c:30-62 | the minimum of every state is attained by a path |
| MetricBounds.MinimumGrows | libcorrect/src/convolutional/decode.c:112-137 | the minimum over all states grows by at most 255 in a slice |
| MetricBounds.Spread | libcorrect/src/convolutional/decode.c:112-137 | after the warm-up the minimum costs of two states differ by at most six slices' metrics |
| ViterbiSlices.FillDistances | libcorrect/src/convolutional/decode.c:147-152 | the metric of each of the four outputs for a slice |
| ViterbiSlices.WarmupSlice | libcorrect/src/convolutional/decode.c:41-59 | every register reached has the metric of its one predecessor plus the branch's, modulo 2^16 |
| ConvDecode.WarmupExact | libcorrect/src/convolutional/decode.c:30-62 | warm-up metrics are the minimum costs; the first slice's metric is dropped with the first exchange |
| ViterbiSlices.AddCompareSelect | libcorrect/src/convolutional/decode.c:112-137 | for every state the smaller 16-bit sum and the history bit of its predecessor, that of the low one when the sums are equal; other history rows unchanged |
| ViterbiSlices.AddCompareSelectLanes | libcorrect/src/convolutional/decode.c:74-110 | the eight-lane form computes the same sums and history bits for all inputs, ties included |
| ViterbiSlices.TailSelect | libcorrect/src/convolutional/decode.c:227-258 | in the tail the same for every skip-th state, but the history bit of the high predecessor when the sums are equal |
| HistoryBuffers.Search | libcorrect/src/convolutional/history_buffer.c:85-94 | the lowest state of least error among the multiples of the step |
| HistoryBuffers.SearchLanes | libcorrect/src/convolutional/history_buffer.c:59-83 | the eight-lane form finds the same state |
| HistoryBuffers.HistoryBuffer.Renormalize | libcorrect/src/convolutional/history_buffer.c:97-103 | one state's error subtracted from all, modulo 2^16 |
| HistoryBuffers.HistoryBuffer.Reset | libcorrect/src/convolutional/history_buffer.c:43-46 | the ring is empty and the renormalisation counter goes on |
| HistoryBuffers.HistoryBuffer.StepBack | libcorrect/src/convolutional/history_buffer.c:111-125 | one step back in the ring reads the history bit of that slice and goes to the trellis predecessor |
| HistoryBuffers.HistoryBuffer.Traceback | libcorrect/src/convolutional/history_buffer.c:105-154 | the bits of a state's survivor from the oldest slice kept up to the given age are written in time order, and as many slices leave the ring |
| HistoryBuffers.HistoryBuffer.ProcessSkip | libcorrect/src/convolutional/history_buffer.c:156-187 | the slice joins the ring; every 128th time the cheapest state's error is subtracted; a full ring writes a burst of 105 bits along the cheapest state's survivor and keeps 35 slices |
| HistoryBuffers.HistoryBuffer.Flush | libcorrect/src/convolutional/history_buffer.c:193-195 | the rest of the survivor of state 0 is written and the ring is empty |
| Survivors.FlushedLive | libcorrect/src/convolutional/decode.c:227-258 | a path is in a live state exactly if it has only zeros in the tail |
| Survivors.LivePred | libcorrect/src/convolutional/decode.c:227-258 | live states come from live states, so stale entries are never used |
| Survivors.TraceOptimal | libcorrect/src/convolutional/history_buffer.c:105-154 | survivor bits trace a path that attains the state's minimum, and of all such paths the favoured one: where another last differs from it, it has a zero, or a one if the slice that loses that bit is among the last six |
| Survivors.CheapestMinimal | libcorrect/src/convolutional/history_buffer.c:50-95 | a path that attains the minimum of the cheapest live state is cheapest of all flushed paths of its length |
| Survivors.CanonicalUnique | libcorrect/src/convolutional/decode.c:112-258 | there is only one canonical path of each length: of the minimum-cost paths those to the lowest state, and of these the favoured one |
| ViterbiMetrics.SelectionSurvives | libcorrect/src/convolutional/decode.c:112-258 | the 16-bit selection takes the predecessor that attains the exact minimum, and the preferred one if both do |
| ViterbiMetrics.NoWrap | libcorrect/src/convolutional/history_buffer.c:97-103 | no live metric exceeds 40035, far below 2^16, for any input, length and phase of the counter |
| ViterbiMetrics.SumExact | libcorrect/src/convolutional/decode.c:112-137 | the 16-bit sum for a live state, plus what has been subtracted, is the exact cost |
| ViterbiMetrics.InnerComputed | libcorrect/src/convolutional/decode.c:140-189 | an inner slice's metrics are the minimum costs less the offset, its history bits those of the surviving predecessors, and the bounds are kept |
| ViterbiMetrics.TailComputed | libcorrect/src/convolutional/decode.c:191-263 | so are those of the live states in a tail slice |
| ViterbiMetrics.RenormalizedProgress | libcorrect/src/convolutional/history_buffer.c:174-177 | renormalisation moves what it subtracts to the offset and keeps exactness and bounds |
| ViterbiMetrics.FullRingDecided | libcorrect/src/convolutional/history_buffer.c:178-186 | a burst writes 105 bits of the canonical path over the slices so far, which are 146 more than the bits written before |
| ViterbiMetrics.FlushDecided | libcorrect/src/convolutional/history_buffer.c:193-195 | the flush writes the bits of the canonical path over all slices, all of them if nothing was written before |
| ViterbiMetrics.WrittenUnique | libcorrect/src/convolutional/decode.c:281-306 | the soft symbols alone determine every bit written |
| ConvDecode.Decoder.SelectInner | libcorrect/src/convolutional/decode.c:143-184 | one inner slice up to the ring |
| ConvDecode.Decoder.SelectTail | libcorrect/src/convolutional/decode.c:196-258 | one tail slice up to the ring, with the step between the states entered |
| ConvDecode.Decoder.Finish | libcorrect/src/convolutional/decode.c:186-187 | the ring takes the slice in: exactness, bounds, optimal survivors, and bits written plus bits kept = slices processed |
| ConvDecode.Decoder.Begin | libcorrect/src/convolutional/decode.c:293-299 | resets, from any phase of the counter, and warm-up |
| ConvDecode.Decoder.DecodeSoft | libcorrect/src/convolutional/decode.c:281-337 | -1 for an odd number of symbols; else sets - 6 bits are written, in time order, bit k being that of the one canonical path over 146 + 105 (k / 105) slices, or over all if there are fewer; the final metric and offset are the minimum cost; whole bytes are returned; and a message whose code word the soft symbols are within the margin of is returned exactly |
| ConvDecode.OutputUnique | libcorrect/src/convolutional/decode.c:281-306 | bits and bytes of the output are a function of the soft symbols: neither the phase of the renormalisation counter nor the choice between the scalar and the eight-lane forms matters |
| FreeDistance.RegisterDifference | libcorrect/src/convolutional/lookup.c:7-20 | the register along the difference of two paths is the difference of their registers: the code is linear |
| FreeDistance.DifferenceWeight | libcorrect/src/convolutional/lookup.c:7-20 | wherever in two paths their difference begins, up to its end, or up to a point at least 42 slices on, it has at least nine ones among its output bits, and seven more for every further 84 slices |
| FreeDistance.OverAlike | libcorrect/src/convolutional/lookup.c:7-20 | when the difference of two paths is over they are in the same state |
| NoiseMargin.CostGain | libcorrect/src/convolutional/decode.c:30-263 | whatever is received, a path costs more than another over any stretch of slices by 255 less twice the cut for every output bit in which they differ there, two bits for the discarded slice excepted, less twice what the deviations exceed the cut by; for every cut up to 127 |
| NoiseMargin.DistanceCost | libcorrect/src/convolutional/error_buffer.c:39-43 | the decoder's cost of a path and the metric of its first slice make up the distance of the soft symbols from the path's code word |
| NoiseMargin.WrongEvent | libcorrect/src/convolutional/decode.c:112-137 | a wrong bit of a minimum-cost path belongs to an error event, a stretch in which the path leaves the right one and comes back or stays off for 42 slices, and over which it costs no more than the right path |
| NoiseMargin.MinimalTrue | libcorrect/src/convolutional/decode.c:281-306 | if in every window of 168 soft symbols after the first slice what the deviations exceed some cut by, and seven times the cut, is at most 892, every minimum-cost path has the true bits wherever it is complete or goes on for 42 slices |
| MarginTight.MarginExact | libcorrect/src/convolutional/decode.c:281-306 | for every message there are soft symbols at distance 893 from its code word and 1402 from that of another message |
| MarginTight.SpoiledLost | libcorrect/src/convolutional/decode.c:281-306 | whatever the decoder makes of them is not the message, so the margin cannot be widened |
| MarginTight.DecodeSpoiled | libcorrect/src/convolutional/decode.c:281-337 | decode_soft returns as many bytes as the message has, but other ones |
| MarginTight.FirstSliceMatters | libcorrect/src/convolutional/error_buffer.c:39-43 | whatever comes later, minimum-cost paths are those closest to the soft symbols if and only if the first two symbols sum to 255 |
| CodeWords.CloseWithin | libcorrect/src/convolutional/decode.c:281-306 | a total deviation of at most 892, the first slice not counted, is within the margin |
| CodeWords.SidesWithin | libcorrect/src/convolutional/decode.c:281-306 | soft symbols that are all on the right side, the first slice excepted, are within the margin at any total deviation |
| CodeWords.ThreeWrongBits | libcorrect/src/convolutional/decode.c:281-306 | any number of wrong bits is within the margin as long as no 168 consecutive soft symbols after the first slice have more than three, if every symbol is within the same cut of the right bit or the wrong one: 0 for hard decisions, 38 for symbols of unit amplitude |
| CodeWords.MarginDecodes | libcorrect/src/convolutional/decode.c:281-306 | decided bits within the margin are the message |
| ErrorBursts.BurstConfined | libcorrect/src/convolutional/decode.c:281-306 | when arbitrary soft symbols come in a burst and all others deviate by no more than a cut, a minimum-cost path is wrong only within a distance of the burst that grows with the burst's length and with the cut |
| ErrorBursts.BurstBytes | libcorrect/src/convolutional/decode.c:281-337 | a burst short enough for the cut spoils at most 64 bytes in a row, whatever it holds |
| ErrorBursts.ShortBursts | libcorrect/src/convolutional/decode.c:281-337 | twelve slices are short enough for symbols of unit amplitude, seventeen for hard decisions |
| ConvEncode.Encoder.Encode | libcorrect/src/convolutional/encode.c:14-61 | the code bits of the message followed by eight zeros, packed into 2n + 2 whole bytes: with the register empty at first, the first of every two output bits is the parity of the newest and the three oldest of seven input bits, the second that of the newest, the two before it, the fifth newest and the oldest; returns the number of bits |
| CodeWords.InputEnds | libcorrect/src/convolutional/encode.c:47-55 | eight zeros follow the message |
| CodeWords.CodeBitsTaps | libcorrect/src/convolutional/encode.c:34-55 | the two output bits of a slice by the seven input bits up to it |
| ConvEncode.Encoder.Push | libcorrect/src/convolutional/encode.c:36-44 | one bit shifted in and two bits written |
| RsCodec.RSEncoder.Encode | src/ryfi/rs_codec.cpp:17-40 | descrambled and deinterleaved, the output is four code words that begin with the quarters of the frame: byte 4 k + i of the output, less that of the sequence, is byte 223 i + k of the frame |
| RsCodec.EncodesExactly | src/ryfi/rs_codec.cpp:17-40 | a word encodes a frame if and only if for each i its bytes 4 k + i, less those of the sequence, are a code word that begins with the frame's bytes from 223 i on |
| RsCodec.InterleaveBlock | src/ryfi/rs_codec.cpp:28-31 | byte k of the block becomes byte 4 k + i of the word, the other bytes are unchanged |
| RsCodec.Scramble | src/ryfi/rs_codec.cpp:34-37 | every byte changes by just that of the sequence |
| RsCodec.ScrambledTwice | src/ryfi/rs_codec.cpp:70-73 | scrambling twice changes nothing |
| RsCodec.BurstSpread | src/ryfi/rs_codec.cpp:17-90 | a burst of 64 consecutive bytes leaves at most 16 errors in each block |
| RsCodec.RSDecoder.Decode | src/ryfi/rs_codec.cpp:66-90 | a frame is returned whenever no block has more than 16 errors; whatever is returned consists of the messages of code words that differ from their blocks in fewer than 32 places; it fails only if a shortest register for some block's syndromes has fewer roots than cells; the tables are overrun only if some block's syndromes are zero but for the last, and no frame is returned then |
| Framing.Distance | src/ryfi/framing.h:58-66 | the number of differing bits of two 64-bit words |
| Framing.Framer.constructor | src/ryfi/framing.cpp:11-21 | the symbols of the sync word, uppermost first |
| Framing.Framer.Encode | src/ryfi/framing.cpp:23-37 | sync symbols, then the bits of the input two by two |
| Framing.Deframer.constructor | src/ryfi/framing.cpp:50-83 | the four rotations of the sync word, whatever the quadrature's initial memory |
| Framing.RotationsApart | src/ryfi/framing.cpp:50-83 | two rotations of any word differ in one bit of every symbol or in both, so rotated sync words are 32 or 64 bits apart |
| Framing.MatchUnique | src/ryfi/framing.cpp:115-130 | no register is within five bits of the sync word in two rotations |
| Framing.Deframer.FindRotation | src/ryfi/framing.cpp:115-130 | the search that updates the last known rotation finds the one matching rotation wherever it starts, or none |
| Framing.Deframer.Sample | src/ryfi/framing.cpp:91-131 | one sample is one step of the deframer as a function of its state |
| Framing.Deframer.Run | src/ryfi/framing.cpp:85-136 | a read of any length is the steps of its samples |
| Framing.DeframeSplit | src/ryfi/framing.cpp:85-136 | the result does not depend on how the samples are split into reads |
| Framing.Deframer.RunTwice | src/ryfi/framing.cpp:85-136 | two reads leave the deframer in the state of one read of both |
| Framing.DeframeWhole | src/ryfi/framing.cpp:92-103 | every frame passed on has 8168 symbols |
| Framing.DecideTurned | src/ryfi/framing.cpp:109-109 | deciding a rotated sample that is on neither axis rotates the decision as the sync word is rotated, whatever its amplitude |
| Framing.SyncTolerance | src/ryfi/framing.cpp:121-121 | the last 32 symbols match a rotation if and only if at most five of their bits are wrong |
| Framing.FrameRecovered | src/ryfi/framing.cpp:85-136 | a sync word found where it ends delivers the following 8168 symbols turned back exactly, whatever rotation was known before, and leaves its symbols in the register |
| SyncWord.SyncWordSymbols | src/ryfi/framing.h:7-7 | the symbols of the sync word |
| SyncSearch.Unlike | src/ryfi/framing.cpp:115-130 | the sync word shifted by one to sixteen symbols differs from itself in at least eleven bits, in any two rotations |
| SyncSearch.NoMatchBetween | src/ryfi/framing.cpp:111-130 | the register that a sync word with up to five wrong bits leaves matches no rotation before the next one ends, whatever the rotations |
| SyncSearch.NoMatchFromZero | src/ryfi/framing.cpp:111-130 | neither does a cleared register |
| SyncSearch.DeliversExactly | src/ryfi/framing.cpp:85-136 | a frame after a sync word with at most five wrong bits is delivered whatever it holds if and only if the register does not match before the sync word's end |
| SyncSearch.EarlyRegisterLoses | src/ryfi/framing.h:84-84 | with the sync word all but its last symbol in the register, some frame is lost |
| SyncSearch.BackToBack | src/ryfi/framing.cpp:85-136 | frames sent one after the other are delivered in order, each turned back exactly, whatever their rotations and with up to five wrong bits in each sync word, if the register does not match within the first |
| SyncSearch.CleanSync | src/ryfi/framing.cpp:11-21 | the sync symbols as the framer sends them, rotated by the channel and decided by the deframer, are the sync word in that rotation |
| Packets.Serialize | src/ryfi/packet.cpp:103-113 | length, high byte first, then content; the rest of the buffer unchanged |
| Packets.ParseSerialized | src/ryfi/packet.cpp:103-113 | the packets can be read back from their concatenated serialised forms |
| Frames.Frame.Serialize | src/ryfi/frame.cpp:4-22 | counter and offsets, high bytes first, then content |
| Frames.Frame.Deserialize | src/ryfi/frame.cpp:24-36 | the frame whose serialised form was given |
| Frames.FrameBytesInjective | src/ryfi/frame.cpp:24-36 | the bytes determine the frame, so deserialising undoes serialising |
| Frames.FrameHeader | src/ryfi/transmitter.cpp:102-106 | frame i is numbered i modulo 65536; a frame that starts no packet has the offsets 0xFFFF, every other one offsets of at most 884 in order |
| Transmitters.Transmitter.Send | src/ryfi/transmitter.cpp:61-71 | a packet is accepted exactly if fewer than 32 wait, and goes to the end of the queue |
| Transmitters.Transmitter.PopPacket | src/ryfi/transmitter.cpp:81-92 | after the arrivals since the last access, the oldest packet leaves the queue, none if it is empty; the queue is the one the arrivals determine |
| Transmitters.QueueFifo | src/ryfi/transmitter.cpp:61-92 | for any arrivals and any number of accesses, accepted packets leave in order and at most 32 wait |
| Transmitters.AdmittedFirst | src/ryfi/transmitter.h:55-55 | of a batch that arrives while some packets wait, just the first are accepted that bring the queue to 32 |
| Transmitters.BatchLeaves | src/ryfi/transmitter.cpp:81-92 | when a batch arrives at an empty queue its first 32 packets leave in order, one each time the worker looks, whatever arrives later |
| Transmitters.BatchSent | src/ryfi/transmitter.cpp:94-170 | a first batch of at most 32 packets is all started, in order and before anything else, in as many frames as it takes at 885 bytes each |
| Transmitters.Transmitter.TxFrame | src/ryfi/transmitter.cpp:73-79 | the serialised frame goes out |
| Transmitters.Transmitter.BeginFrame | src/ryfi/transmitter.cpp:102-106 | the frame takes the counter, which wraps around from 65535 to 0, and the offsets 0xFFFF |
| Transmitters.Transmitter.FillFrame | src/ryfi/transmitter.cpp:94-170 | a frame continues with the bytes carried into it, starts packets with whole headers, and records the offsets of the first and the last one started, or none |
| Transmitters.Transmitter.Worker | src/ryfi/transmitter.cpp:94-170 | for every sequence of arrivals, the frames sent are numbered from 0, carry the stream of the non-empty packets taken from the queue in order, and start just the packets that the arrivals determine: a frame ends early only for lack of a packet or of room for a length header |
| Frames.StreamContents | src/ryfi/transmitter.cpp:94-170 | frame contents without noise, and what is unsent, concatenate to the serialised packets |
| Receivers.Receiver.ProcessFrame | src/ryfi/receiver.cpp:72-193 | one turn of the worker on any frame is one step of the receiver as a function of its state |
| Receivers.Receiver.ExtractPackets | src/ryfi/receiver.cpp:124-189 | the inner loop reads the same packets as the recursive reading of the content |
| Receivers.OverreadExactly | src/ryfi/receiver.cpp:173-187 | a length header is read past the end of the content exactly if the frame is the next one, its first offset is above 884 but not 0xFFFF, and what is left of the packet in progress ends with room for a header |
| Receivers.NothingAfterGap | src/ryfi/receiver.cpp:98-121 | after a gap a frame whose first offset is above 884 gives nothing and ends the packet in progress |
| Delivery.ArrivingStep | src/ryfi/receiver.cpp:72-193 | the packets that arrive with a frame are those that end in it and whose frames all arrived |
| Delivery.RxRunInvariant | src/ryfi/receiver.cpp:72-193 | after every frame the receiver has delivered exactly the packets arrived and holds the packet in progress if it is whole so far |
| Delivery.ExactDelivery | src/ryfi/receiver.cpp:72-193 | packets delivered are those all of whose frames arrived, complete, in order, byte for byte, unless an undetected gap falls into a packet |
| Delivery.SplicedPacket | src/ryfi/receiver.cpp:92-107 | a gap of a positive multiple of 65536 frames makes the receiver deliver a spliced packet of every transmission that starts its two packets just before the gap and just before its end, whatever the noise |
| Link.TransferSpliced | src/ryfi/receiver.cpp:92-107 | for every such gap there are arrivals for which worker and receiver run together deliver something else than the packets whose frames all arrived |
| Delivery.DeliveryCondition | src/ryfi/receiver.cpp:72-193 | delivery is exact for every transmission if and only if no run of lost frames between received ones has such a length |
| Link.Transfer | src/ryfi/receiver.cpp:72-193 | worker, lossy channel and receiver run together deliver exactly the packets whose frames arrived |
| SoftSymbols.Soften | src/ryfi/conv_codec.cpp:52-58 | every part of every sample times 127 plus 128, cut to an integer and to a byte |
| SoftSymbols.SoftFirm | src/ryfi/conv_codec.cpp:56-58 | for every cut up to 127, a soft symbol deviates from a bit by no more than the cut if and only if the sample's part has the bit's sign and reaches far enough; for the cut 127 the sign is enough |
| Pipeline.Sizes | src/ryfi/framing.cpp:127-127 | 892, 1020, 16336 bits and 8168 symbols agree with the hard-coded frame length |
| Pipeline.TxChain.Modulate | src/ryfi/transmitter.cpp:16-23 | the sync symbols followed by the points of the code bits of a word that is the scrambled, interleaved, encoded frame |
| Pipeline.RxChain.Demodulate | src/ryfi/receiver.cpp:17-28 | the frame comes out if the word that the inner decoder returns has at most 16 wrong bytes a block; whatever comes out is the frame of code words near that word, and nothing only if one of its blocks cannot be decoded |
| Pipeline.InnerUnique | src/ryfi/receiver.cpp:17-28 | the soft symbols determine the word that the inner decoder returns |
| Pipeline.MarginReadable | src/ryfi/receiver.cpp:17-28 | within the inner code's margin the word is read without errors |
| Pipeline.BurstReadable | src/ryfi/receiver.cpp:17-28 | both codes together stand a burst of arbitrary symbols that the inner code alone cannot: what it spoils is at most 64 bytes in a row, which the interleaver spreads over the blocks |
| Pipeline.Hear | src/ryfi/framing.cpp:85-136 | the deframer, given the samples of all transmissions on the air, sync symbols included, delivers their data turned back, in order |
| Pipeline.Loopback | src/ryfi/receiver.cpp:17-28 | frames sent through all layers one after the other: those that both codes together can read come out in order, and no others, whatever the channel makes of the transmissions' symbols, those of the sync words included, as long as every sync word that is heard has at most five wrong bits, whatever rotation each arrives in, and from every register that does not match within the first sync word |
| Channels.QuietSteady | src/ryfi/conv_codec.cpp:56-58 | for the greatest cut, the condition on the noise is that both of its parts stay below the amplitude received |
| Channels.UnitSteady | src/ryfi/conv_codec.cpp:56-58 | a symbol of unit amplitude without noise meets the condition for the cut 38 |
| Channels.NoisySync | src/ryfi/framing.cpp:109-130 | with any gain and noise below the amplitude received the sync symbols sent are decided as the sync word in the rotation received |
| Channels.FadingCarried | src/ryfi/receiver.cpp:17-28 | with any gain, noise below the amplitude on the sync symbols and steady for a cut on the data symbols, and a fade of arbitrary samples that is short enough for the cut, every word is carried |
| Channels.LoopbackFading | src/ryfi/receiver.cpp:17-28 | over such a channel, from a cleared register, all frames come back, in order, byte for byte, in any rotations |
| Channels.JammedLost | src/ryfi/rs_codec.cpp:76-90 | there are channels that lose a frame whose sync word is heard: nothing is decoded from it |
| EndToEnd.Deliver | src/ryfi/receiver.cpp:72-193 | transmitter, both encoders, the air, the deframer, both decoders and the receiver run together: for any arrivals the receiver delivers exactly the packets all of whose frames reach it, unless an undetected gap falls into a packet; a frame is lost if nothing of its transmission arrives or if it cannot be decoded |
| EndToEnd.AllArrive | src/ryfi/receiver.cpp:72-193 | if all frames arrive and nothing is left to be sent, all packets that were started arrive |
| EndToEnd.DeliverFading | src/ryfi/receiver.cpp:72-193 | over a channel with gain, noise and a short fade in each transmission, from a cleared register, all packets are delivered whose frames were all sent, for any arrivals |

## Left out

- SDR backends, the TUN device, command line, driver registry: I/O and foreign libraries.
- Signal processing (AGC, matched filters, demodulator, resampler, streams): floating point, and its sources are not part of
  this model. Streams are sequences of samples.
- SoftSymbols.Soften: samples are pairs of real numbers, so the rounding of floating-point numbers is not modelled.
- Threads and locks: sends by other threads are arrivals between two accesses of the worker to the queue.
- Erasure decoding, the hard-decision decoder with its Hamming metric, the quadratic metric, the SSE decoder, other code
  parameters and the compatibility shim: not used by RyFi.
- Allocation, destruction, debug printing, benchmarks, tools and tests.
- polynomial_eval and polynomial_init_from_roots, which the codec's encoding and decoding without erasures do not call.
- Frames that no transmitter sent, duplicated or reordered frames: `Receivers.RxFrame` is defined on them, the delivery
  theorems are not about them.
- The values of the scrambling sequence: any 1020 bytes do.
- Failure of an output stream that is being closed.
- The memory of tables that are never changed after construction (logarithms, powers, outputs) is sequences of values.
- RsDecoder.Decoder.Decode: words shorter than the parity are excluded; `libcorrect/include/correct.h:220-221` asks for a
  block of payload and parity, and the program's unsigned subtraction wraps around on shorter ones.
- ConvDecode.Decoder.DecodeSoft: fewer than six slices are excluded, because the program's loop bound wraps around and it
  reads past its input; the buffers are set up with the decoder rather than on first use.
- ConvEncode.Encoder.Encode: an empty message is excluded, because the program fetches its first byte.
- ViterbiMetrics.FullRingDecided: a burst is decided by the paths up to the slice at which it is written, as the program
  does; the whole output need not be one path, except for outputs that fit the ring.
- Pipeline.Loopback: registers that match within the first sync word are excluded; `SyncSearch.DeliversExactly` says that
  the first frame can be lost with any of them. Transmissions on the air with more than five wrong bits in the
  sync word are excluded too: the deframer would go on searching in their data.
- Pipeline.RxChain.Demodulate: a block on which the tables of powers are overrun counts as not decoded.
- ErrorBursts.BurstBytes: the length of the burst depends on how good the other symbols are; with a cut near 127 a wrong path
  loses next to nothing outside the burst, so there is no length that holds for all cuts.
