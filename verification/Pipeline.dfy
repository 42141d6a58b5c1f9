/** From a frame's bytes to symbols and back: all the coding layers in line. */
module Pipeline {
  import opened Bits
  import opened BitIo
  import opened CodeWords
  import opened NoiseMargin
  import opened ErrorBursts
  import opened Frames
  import opened Framing
  import opened RsCodec
  import opened SoftSymbols
  import opened Survivors
  import opened SyncSearch
  import opened RsDecoder
  import ConvEncode
  import ConvDecode

  /** The sizes that the hard-coded frame length of the deframer rests on. */
  const ENCODED_BITS: nat := 2 * (8 * ENCODED_SIZE + FLUSH)

  lemma Sizes()
    ensures FRAME_SIZE == DECODED_SIZE == 892 && ENCODED_SIZE == 1020
    ensures ENCODED_BITS == 16336 && ENCODED_BITS / 2 == FRAME_SYMS == 8168
  {
  }

  /** The data symbols of an interleaved word. */
  function DataSymbols(word: seq<byte>): seq<Complex> {
    Points(BitPairs(CodeBits(Input(word))))
  }

  lemma SymbolCount(word: seq<byte>)
    ensures |word| == ENCODED_SIZE ==> |DataSymbols(word)| == FRAME_SYMS
  {
    hide CodeBits, ToBits;
  }

  /** A word's transmission: the sync word and the data. */
  function Transmission(word: seq<byte>): (symbols: seq<Complex>)
    ensures |symbols| >= SYNC_SYMS && symbols[..SYNC_SYMS] == Points(Symbols(SYNC_WORD, SYNC_SYMS))
    ensures symbols[SYNC_SYMS..] == DataSymbols(word)
  {
    Points(Symbols(SYNC_WORD, SYNC_SYMS)) + DataSymbols(word)
  }

  // ----- what the decoders make of soft symbols

  /** The inner decoder can return this word. */
  ghost predicate InnerDecodes(soft: seq<byte>, word: seq<byte>) {
    |word| == ENCODED_SIZE && exists bits: seq<bit> :: ConvDecode.Output(soft, ENCODED_BITS / 2, bits, word)
  }

  /** Whatever the inner decoder returns, the outer code can correct it. */
  ghost predicate Readable(soft: seq<byte>, word: seq<byte>) {
    forall out: seq<byte> :: InnerDecodes(soft, out) ==> FewErrors(out, word)
  }

  /** Whatever the inner decoder returns, no frame's code words are near it. */
  ghost predicate Destroyed(soft: seq<byte>, scrambler: seq<byte>) {
    forall out: seq<byte>, frame: seq<byte> :: InnerDecodes(soft, out) ==> !CorrectsFrame(out, frame, scrambler)
  }

  /** What decoding an interleaved word gives: the frame if there are few errors; whatever comes out is near the word, and
      nothing only because a block fails or overruns the tables. */
  ghost predicate Outcome(word: seq<byte>, scrambler: seq<byte>, res: Result) {
    && |word| == |scrambler| == ENCODED_SIZE
    && (forall frame: seq<byte>, sent: seq<byte> ::
          EncodesFrame(sent, frame, scrambler) && FewErrors(word, sent) ==> res == Decoded(frame))
    && (res.Decoded? ==> CorrectsFrame(word, res.msg, scrambler))
    && (res == Failed ==> exists i :: 0 <= i < BLOCK_COUNT && BlockFails(word, scrambler, i))
    && (res == TableOverrun ==> exists i :: 0 <= i < BLOCK_COUNT && BlockOverruns(word, scrambler, i))
  }

  lemma OutcomeForetold(soft: seq<byte>, word: seq<byte>, scrambler: seq<byte>, res: Result)
    requires InnerDecodes(soft, word) && Outcome(word, scrambler, res)
    ensures forall frame: seq<byte>, sent: seq<byte> :: EncodesFrame(sent, frame, scrambler) && Readable(soft, sent) ==>
      res == Decoded(frame)
    ensures Destroyed(soft, scrambler) ==> !res.Decoded?
  {
    hide EncodesFrame, FewErrors, CorrectsFrame, InnerDecodes, BlockFails, BlockOverruns;
  }

  lemma OutputSize(soft: seq<byte>, bits: seq<bit>, out: seq<byte>)
    requires ConvDecode.Output(soft, ENCODED_BITS / 2, bits, out)
    ensures |out| == ENCODED_SIZE && |bits| + 6 == ENCODED_BITS / 2
    ensures |out| == |bits| / 8 && ToBits(out) == bits[..8 * |out|]
    ensures forall k :: 0 <= k < |bits| ==> Decided(soft, ENCODED_BITS / 2, k, bits[k])
  {
    hide ToBits, Decided, Minimal;
  }

  lemma InnerSize(soft: seq<byte>, word: seq<byte>)
    requires InnerDecodes(soft, word)
    ensures |word| == ENCODED_SIZE
  {
  }

  /** The inner decoder returns only one word. */
  lemma InnerUnique(soft: seq<byte>, word: seq<byte>, other: seq<byte>)
    requires InnerDecodes(soft, word) && InnerDecodes(soft, other)
    ensures word == other
  {
    hide ConvDecode.Output;
    var bits: seq<bit> :| ConvDecode.Output(soft, ENCODED_BITS / 2, bits, word);
    var bits1: seq<bit> :| ConvDecode.Output(soft, ENCODED_BITS / 2, bits1, other);
    ConvDecode.OutputUnique(soft, ENCODED_BITS / 2, bits, word, bits1, other);
  }

  /** A word without errors has few. */
  lemma NoErrors(word: seq<byte>)
    requires |word| == ENCODED_SIZE
    ensures FewErrors(word, word)
  {
    BurstSpread(word, word, 0);
  }

  /** Within the inner code's margin the word itself is returned. */
  lemma MarginReadable(soft: seq<byte>, word: seq<byte>)
    requires |word| == ENCODED_SIZE && WithinMargin(soft, word)
    ensures Readable(soft, word)
  {
    hide WithinMargin, Decided, FewErrors, ToBits, ConvDecode.Output;
    forall out: seq<byte> | InnerDecodes(soft, out) ensures FewErrors(out, word) {
      var bits: seq<bit> :| ConvDecode.Output(soft, ENCODED_BITS / 2, bits, out);
      OutputSize(soft, bits, out);
      MarginDecodes(soft, ENCODED_BITS / 2, word, bits, out);
      NoErrors(word);
    }
  }

  /** A short burst of arbitrary symbols is more than the inner code can stand, but not more than both codes can. */
  lemma BurstReadable(soft: seq<byte>, word: seq<byte>, cut: nat, lo: nat, hi: nat)
    requires |word| == ENCODED_SIZE && |soft| == ENCODED_BITS && lo <= hi && Short(hi - lo, cut)
    requires SpoiledOnly(soft, CodeBits(Input(word)), cut, lo, hi)
    ensures Readable(soft, word)
  {
    hide SpoiledOnly, CodeBits, Decided, FewErrors, ToBits, ConvDecode.Output, Extent, FirstWrong;
    forall out: seq<byte> | InnerDecodes(soft, out) ensures FewErrors(out, word) {
      var bits: seq<bit> :| ConvDecode.Output(soft, ENCODED_BITS / 2, bits, out);
      OutputSize(soft, bits, out);
      BurstBytes(soft, ENCODED_BITS / 2, word, bits, out, cut, lo, hi);
      BurstSpread(out, word, FirstWrong(lo, Extent(hi - lo, cut)));
    }
  }

  // ----- the chains

  class TxChain {
    const rs: RSEncoder
    const conv: ConvEncode.Encoder
    const framer: Framer

    ghost predicate Valid()
      reads rs.rs, rs.rs.EncoderObjects(), rs.rs.repr
    {
      && rs.Valid() && conv.Valid() && framer.Valid()
      && conv.bitWriter !in rs.rs.EncoderObjects() && conv.bitWriter !in rs.rs.repr
    }

    constructor (scrambler: seq<byte>)
      requires |scrambler| == ENCODED_SIZE
      ensures Valid() && rs.scrambler == scrambler
      ensures fresh(rs.rs) && fresh(rs.rs.EncoderObjects()) && fresh(conv.bitWriter)
    {
      conv := new ConvEncode.Encoder();
      framer := new Framer();
      rs := new RSEncoder(scrambler);
    }

    /** Encode, interleave, scramble. */
    method EncodeFrame(frame: seq<byte>) returns (word: seq<byte>)
      requires Valid() && |frame| == FRAME_SIZE
      modifies rs.rs.encodedPolynomial.coeff, rs.rs.encodedRemainder.coeff
      ensures Valid() && EncodesFrame(word, frame, rs.scrambler)
    {
      hide Codec.ReedSolomon.Valid, EncodesFrame;
      var encoded := new byte[ENCODED_SIZE];
      var count := rs.Encode(frame, encoded);
      word := encoded[..count];
    }

    /** Encode again, and map to symbols. */
    method MapWord(word: seq<byte>) returns (symbols: seq<Complex>)
      requires conv.Valid() && framer.Valid() && |word| == ENCODED_SIZE
      modifies conv.bitWriter
      ensures symbols == Transmission(word)
    {
      hide CodeBits, Symbols, ToBits, BitPairs, Point;
      var coded := new byte[2 * ENCODED_SIZE + 2];
      var bits := conv.Encode(word, coded);
      assert coded[..2 * |word| + 2] == coded[..];
      var out := new Complex[SYNC_SYMS + FRAME_SYMS];
      var n := framer.Encode(coded[..], out, bits);
      symbols := out[..n];
    }

    /** From a frame's bytes to symbols. */
    method Modulate(frame: seq<byte>) returns (symbols: seq<Complex>, ghost word: seq<byte>)
      requires Valid() && |frame| == FRAME_SIZE
      modifies rs.rs.encodedPolynomial.coeff, rs.rs.encodedRemainder.coeff, conv.bitWriter
      ensures Valid() && |word| == ENCODED_SIZE && EncodesFrame(word, frame, rs.scrambler)
      ensures symbols == Transmission(word)
    {
      hide Codec.ReedSolomon.Valid, BlockEncodes, DataSymbols, Points, Symbols;
      var w := EncodeFrame(frame);
      word := w;
      symbols := MapWord(w);
    }
  }

  class RxChain {
    const conv: ConvDecode.Decoder
    const rs: RSDecoder

    ghost function ConvObjects(): set<object> {
      conv.Objects() + {conv.pairLookup.keys, conv.pairLookup.outputs}
    }

    ghost predicate Valid()
      reads ConvObjects(), rs.rs, rs.rs.EncoderObjects(), rs.rs.repr
    {
      && rs.Valid() && conv.Valid()
      && ConvObjects() !! rs.rs.EncoderObjects() && ConvObjects() !! rs.rs.repr && rs.rs !in ConvObjects()
    }

    constructor (scrambler: seq<byte>, useLanes: bool)
      requires |scrambler| == ENCODED_SIZE
      ensures Valid() && rs.scrambler == scrambler
      ensures fresh(rs.rs) && fresh(rs.rs.EncoderObjects()) && fresh(rs.rs.repr) && fresh(conv.Objects())
    {
      hide Codec.ReedSolomon.Valid, ConvDecode.Decoder.Valid;
      conv := new ConvDecode.Decoder(useLanes);
      rs := new RSDecoder(scrambler);
    }

    /** Viterbi decoding of a frame's soft symbols. */
    method DecodeWord(soft: seq<byte>) returns (word: seq<byte>)
      requires conv.Valid() && |soft| == ENCODED_BITS
      modifies conv.Objects()
      ensures conv.Valid() && InnerDecodes(soft, word)
    {
      hide ConvDecode.Decoder.Valid, WithinMargin, ConvDecode.Output;
      var msg := new byte[ENCODED_SIZE];
      var len, bits, off := conv.DecodeSoft(soft, |soft|, msg);
      word := msg[..len];
      OutputSize(soft, bits, word);
    }

    /** Deinterleave and decode. */
    method DecodeFrame(word: seq<byte>) returns (res: Result)
      requires rs.Valid() && |word| == ENCODED_SIZE
      modifies rs.rs, rs.rs.repr
      ensures rs.Valid() && fresh(rs.rs.repr - old(rs.rs.repr))
      ensures Outcome(word, rs.scrambler, res)
    {
      hide EncodesFrame, FewErrors, CorrectsFrame, BlockOverruns, BlockFails;
      var input := new byte[ENCODED_SIZE](i requires 0 <= i < |word| => word[i]);
      assert input[..] == word;
      var out := new byte[DECODED_SIZE];
      res := rs.Decode(input, out);
    }

    /** The inner code's part. */
    method DecodeSamples(samples: seq<Complex>) returns (word: seq<byte>)
      requires Valid() && |samples| == FRAME_SYMS
      modifies conv.Objects()
      ensures Valid() && |word| == ENCODED_SIZE && InnerDecodes(SoftAll(samples), word)
    {
      hide Codec.ReedSolomon.Valid, ConvDecode.Decoder.Valid, InnerDecodes, SoftAll;
      var soft := Soften(samples);
      word := DecodeWord(soft);
      InnerSize(soft, word);
    }

    /** From samples to a frame's bytes. */
    method Demodulate(samples: seq<Complex>) returns (res: Result, ghost word: seq<byte>)
      requires Valid() && |samples| == FRAME_SYMS
      modifies conv.Objects(), rs.rs, rs.rs.repr
      ensures Valid() && fresh(rs.rs.repr - old(rs.rs.repr))
      ensures InnerDecodes(SoftAll(samples), word) && Outcome(word, rs.scrambler, res)
      // what the inner code leaves is the outer code's
      ensures forall frame: seq<byte>, sent: seq<byte> ::
        EncodesFrame(sent, frame, rs.scrambler) && Readable(SoftAll(samples), sent) ==> res == Decoded(frame)
      // whatever comes out is the frame of a word near one that the inner code can make of the samples
      ensures Destroyed(SoftAll(samples), rs.scrambler) ==> !res.Decoded?
    {
      hide Codec.ReedSolomon.Valid, ConvDecode.Decoder.Valid, EncodesFrame, InnerDecodes, SoftAll, Outcome, Readable,
           Destroyed;
      var decoded := DecodeSamples(samples);
      word := decoded;
      res := DecodeFrame(decoded);
      OutcomeForetold(SoftAll(samples), word, rs.scrambler, res);
    }
  }

  // ----- the air

  /** What becomes of the symbols of transmission i on the air, before the constellation's rotation. */
  type Channel = (nat, seq<Complex>) -> seq<Complex>

  /** Which transmissions reach the receiver at all, in which rotations, and what the channel makes of them. */
  datatype Air = Air(onAir: seq<bool>, rots: seq<rotation>, channel: Channel)

  /** The samples of a transmission. */
  function AirSamples(air: Air, i: nat, symbols: seq<Complex>): seq<Complex>
    requires i < |air.rots|
  {
    TurnedAll(air.channel(i, symbols), air.rots[i])
  }

  /** Those of the sync word, and those of the data before the rotation. */
  function Received(air: Air, i: nat, symbols: seq<Complex>): Burst
    requires i < |air.rots| && |air.channel(i, symbols)| >= SYNC_SYMS
  {
    var y := air.channel(i, symbols);
    Burst(TurnedAll(y[..SYNC_SYMS], air.rots[i]), y[SYNC_SYMS..], air.rots[i])
  }

  lemma ReceivedSamples(air: Air, i: nat, symbols: seq<Complex>)
    requires i < |air.rots| && |air.channel(i, symbols)| >= SYNC_SYMS
    ensures Samples(Received(air, i, symbols)) == AirSamples(air, i, symbols)
  {
    hide Turned;
  }

  /** No sample is lost, and at most five bits of the sync word are wrong. */
  ghost predicate Whole(air: Air, i: nat, word: seq<byte>)
    requires i < |air.rots|
  {
    && |air.channel(i, Transmission(word))| == SYNC_SYMS + FRAME_SYMS
    && Heard(Received(air, i, Transmission(word)))
  }

  /** The data samples of a word's transmission as soft symbols. */
  function SoftData(air: Air, i: nat, word: seq<byte>): seq<byte>
    requires i < |air.rots| && |air.channel(i, Transmission(word))| >= SYNC_SYMS
  {
    SoftAll(Received(air, i, Transmission(word)).data)
  }

  ghost predicate Carried(air: Air, i: nat, word: seq<byte>)
    requires i < |air.rots|
  {
    Whole(air, i, word) && Readable(SoftData(air, i, word), word)
  }

  /** A frame is lost if nothing of its transmission arrives, or nothing that can be decoded. */
  ghost predicate Lost(air: Air, i: nat, word: seq<byte>, scrambler: seq<byte>)
    requires i < |air.rots| == |air.onAir|
  {
    air.onAir[i] ==> Whole(air, i, word) && Destroyed(SoftData(air, i, word), scrambler)
  }

  ghost predicate FirstOnAir(onAir: seq<bool>, i: nat) {
    i < |onAir| && onAir[i] && forall k :: 0 <= k < i ==> !onAir[k]
  }

  /** A frame's word arrives, or is lost, as foretold; the deframer's register does not match within the first sync word on
      the air. */
  ghost predicate Fate(air: Air, i: nat, arrives: bool, word: seq<byte>, scrambler: seq<byte>, shift0: nat)
    requires i < |air.rots| == |air.onAir|
  {
    && (if arrives then air.onAir[i] && Carried(air, i, word) else Lost(air, i, word, scrambler))
    && (FirstOnAir(air.onAir, i) ==> NoEarlyMatch(shift0, DecideAll(Received(air, i, Transmission(word)).sync)))
  }

  /** The fates of all frames' words. */
  ghost predicate Fates(air: Air, received: seq<bool>, frames: seq<seq<byte>>, scrambler: seq<byte>, shift0: nat) {
    && |air.rots| == |air.onAir| == |received| == |frames|
    && forall i, word: seq<byte> ::
        0 <= i < |frames| && |word| == ENCODED_SIZE && EncodesFrame(word, frames[i], scrambler) ==>
        Fate(air, i, received[i], word, scrambler, shift0)
  }

  // ----- frames through all the layers

  /** The words sent for the frames. */
  ghost predicate Sent(words: seq<seq<byte>>, frames: seq<seq<byte>>, scrambler: seq<byte>) {
    && |words| == |frames|
    && forall i :: 0 <= i < |words| ==> |words[i]| == ENCODED_SIZE && EncodesFrame(words[i], frames[i], scrambler)
  }

  /** The indices of the flags set. */
  function Indices(flags: seq<bool>): (idx: seq<nat>)
    ensures |idx| <= |flags| && forall m :: 0 <= m < |idx| ==> idx[m] < |flags| && flags[idx[m]]
  {
    if flags == [] then []
    else
      var n := |flags| - 1;
      Indices(flags[..n]) + if flags[n] then [n] else []
  }

  /** Those of the frames at the indices that are received. */
  function KeptAt(frames: seq<seq<byte>>, received: seq<bool>, idx: seq<nat>): seq<seq<byte>>
    requires |frames| == |received| && forall m :: 0 <= m < |idx| ==> idx[m] < |frames|
  {
    if idx == [] then []
    else
      var n := |idx| - 1;
      KeptAt(frames, received, idx[..n]) + if received[idx[n]] then [frames[idx[n]]] else []
  }

  /** The frames received. */
  function Kept(frames: seq<seq<byte>>, received: seq<bool>): (kept: seq<seq<byte>>)
    requires |frames| == |received|
  {
    if frames == [] then []
    else
      var n := |frames| - 1;
      Kept(frames[..n], received[..n]) + if received[n] then [frames[n]] else []
  }

  /** Modulate one frame after the other. */
  method Transmit(scrambler: seq<byte>, frames: seq<seq<byte>>)
    returns (transmissions: seq<seq<Complex>>, ghost words: seq<seq<byte>>)
    requires |scrambler| == ENCODED_SIZE && forall i :: 0 <= i < |frames| ==> |frames[i]| == FRAME_SIZE
    ensures Sent(words, frames, scrambler)
    ensures |transmissions| == |words| && forall i :: 0 <= i < |words| ==> transmissions[i] == Transmission(words[i])
  {
    hide TxChain.Valid, EncodesFrame, Transmission;
    var tx := new TxChain(scrambler);
    transmissions, words := [], [];
    for i := 0 to |frames|
      invariant tx.Valid() && tx.rs.scrambler == scrambler
      invariant fresh(tx.rs.rs) && fresh(tx.rs.rs.EncoderObjects()) && fresh(tx.conv.bitWriter)
      invariant Sent(words, frames[..i], scrambler)
      invariant |transmissions| == |words| && forall k :: 0 <= k < i ==> transmissions[k] == Transmission(words[k])
    {
      var symbols, word := tx.Modulate(frames[i]);
      transmissions, words := transmissions + [symbols], words + [word];
    }
    assert frames[..|frames|] == frames;
  }

  /** What is on the air can be received as bursts, the first of which is not mistaken. */
  ghost predicate Hearable(air: Air, transmissions: seq<seq<Complex>>, shift0: nat) {
    && |transmissions| == |air.rots| == |air.onAir|
    && forall i :: 0 <= i < |transmissions| && air.onAir[i] ==>
        && |air.channel(i, transmissions[i])| >= SYNC_SYMS && Heard(Received(air, i, transmissions[i]))
        && (FirstOnAir(air.onAir, i) ==> NoEarlyMatch(shift0, DecideAll(Received(air, i, transmissions[i]).sync)))
  }

  /** The bursts heard so far. */
  ghost predicate HeardSoFar(air: Air, transmissions: seq<seq<Complex>>, shift0: nat, i: nat, bursts: seq<Burst>)
    requires Hearable(air, transmissions, shift0) && i <= |transmissions|
  {
    var idx := Indices(air.onAir[..i]);
    && |bursts| == |idx|
    && forall m :: 0 <= m < |idx| ==> air.onAir[idx[m]] && bursts[m] == Received(air, idx[m], transmissions[idx[m]])
  }

  /** Run the deframer on the samples of all transmissions on the air. */
  method Hear(transmissions: seq<seq<Complex>>, air: Air, quad0: nat, shift0: nat) returns (heard: seq<seq<Complex>>)
    requires quad0 < WORD_RANGE && shift0 < WORD_RANGE && Hearable(air, transmissions, shift0)
    ensures |heard| == |Indices(air.onAir)|
    ensures forall m :: 0 <= m < |heard| ==>
      var i := Indices(air.onAir)[m];
      |air.channel(i, transmissions[i])| >= SYNC_SYMS && heard[m] == Received(air, i, transmissions[i]).data
  {
    hide Deframe, Samples, AirSamples, Received, Heard, NoEarlyMatch, Deframer.Valid, HeardSoFar, Indices, Hearable;
    var deframer := new Deframer(quad0, shift0);
    ghost var start := deframer.State();
    ghost var bursts: seq<Burst> := [];
    DeframeNothing(start);
    HearableSize(air, transmissions, shift0);
    NothingHeard(air, transmissions, shift0);
    for i := 0 to |transmissions|
      invariant deframer.Valid() && fresh(deframer) && fresh(deframer.writeBuf)
      invariant HeardSoFar(air, transmissions, shift0, i, bursts)
      invariant deframer.State() == Deframe(start, AllSamples(bursts))
    {
      if air.onAir[i] {
        deframer.Run(AirSamples(air, i, transmissions[i]));
        ghost var burst := HearNext(air, transmissions, shift0, i, bursts);
        DeframeSplit(start, AllSamples(bursts), Samples(burst));
        assert (bursts + [burst])[..|bursts|] == bursts;
        bursts := bursts + [burst];
      } else {
        HearNothing(air, transmissions, shift0, i, bursts);
      }
    }
    AllHeard(air, transmissions, shift0, bursts);
    BackToBack(start, bursts);
    heard := deframer.frames;
    HeardData(air, transmissions, shift0, bursts);
  }

  lemma HearableSize(air: Air, transmissions: seq<seq<Complex>>, shift0: nat)
    requires Hearable(air, transmissions, shift0)
    ensures |transmissions| == |air.rots| == |air.onAir|
  {
  }

  lemma NothingHeard(air: Air, transmissions: seq<seq<Complex>>, shift0: nat)
    requires Hearable(air, transmissions, shift0)
    ensures HeardSoFar(air, transmissions, shift0, 0, [])
  {
  }

  lemma IndicesStep(flags: seq<bool>, i: nat)
    requires i < |flags|
    ensures Indices(flags[..i + 1]) == Indices(flags[..i]) + if flags[i] then [i] else []
  {
    assert flags[..i + 1][..i] == flags[..i];
  }

  lemma HearNext(air: Air, transmissions: seq<seq<Complex>>, shift0: nat, i: nat, bursts: seq<Burst>)
    returns (burst: Burst)
    requires Hearable(air, transmissions, shift0) && i < |transmissions| && air.onAir[i]
    requires HeardSoFar(air, transmissions, shift0, i, bursts)
    ensures Samples(burst) == AirSamples(air, i, transmissions[i])
    ensures HeardSoFar(air, transmissions, shift0, i + 1, bursts + [burst])
  {
    hide Received, Samples, AirSamples, Heard, NoEarlyMatch, Indices;
    burst := Received(air, i, transmissions[i]);
    ReceivedSamples(air, i, transmissions[i]);
    IndicesStep(air.onAir, i);
  }

  lemma HearNothing(air: Air, transmissions: seq<seq<Complex>>, shift0: nat, i: nat, bursts: seq<Burst>)
    requires Hearable(air, transmissions, shift0) && i < |transmissions| && !air.onAir[i]
    requires HeardSoFar(air, transmissions, shift0, i, bursts)
    ensures HeardSoFar(air, transmissions, shift0, i + 1, bursts)
  {
    hide Received, Heard, NoEarlyMatch, Indices;
    IndicesStep(air.onAir, i);
  }

  lemma {:induction false} NoIndex(flags: seq<bool>, k: nat)
    requires Indices(flags) == [] && k < |flags|
    ensures !flags[k]
    decreases |flags|
  {
    var n := |flags| - 1;
    if k < n {
      NoIndex(flags[..n], k);
      assert flags[..n][k] == flags[k];
    }
  }

  /** No flag is set before the first index. */
  lemma {:induction false} BeforeFirst(flags: seq<bool>, k: nat)
    requires Indices(flags) != [] && k < Indices(flags)[0]
    ensures !flags[k]
    decreases |flags|
  {
    var n := |flags| - 1;
    var before := Indices(flags[..n]);
    if k < n {
      if before == [] {
        NoIndex(flags[..n], k);
      } else {
        assert Indices(flags)[0] == before[0];
        BeforeFirst(flags[..n], k);
      }
      assert flags[..n][k] == flags[k];
    }
  }

  /** The first index is that of the first transmission on the air. */
  lemma FirstIndex(onAir: seq<bool>)
    ensures Indices(onAir) != [] ==> FirstOnAir(onAir, Indices(onAir)[0])
  {
    hide Indices;
    if Indices(onAir) != [] {
      forall k | 0 <= k < Indices(onAir)[0] ensures !onAir[k] {
        BeforeFirst(onAir, k);
      }
    }
  }

  lemma AllHeard(air: Air, transmissions: seq<seq<Complex>>, shift0: nat, bursts: seq<Burst>)
    requires Hearable(air, transmissions, shift0) && HeardSoFar(air, transmissions, shift0, |transmissions|, bursts)
    ensures forall m :: 0 <= m < |bursts| ==> Heard(bursts[m])
    ensures bursts != [] ==> NoEarlyMatch(shift0, DecideAll(bursts[0].sync))
  {
    hide Heard, NoEarlyMatch, Received;
    assert air.onAir[..|transmissions|] == air.onAir;
    FirstIndex(air.onAir);
  }

  lemma HeardData(air: Air, transmissions: seq<seq<Complex>>, shift0: nat, bursts: seq<Burst>)
    requires Hearable(air, transmissions, shift0) && HeardSoFar(air, transmissions, shift0, |transmissions|, bursts)
    ensures |bursts| == |Indices(air.onAir)|
    ensures forall m :: 0 <= m < |bursts| ==>
      var i := Indices(air.onAir)[m];
      |air.channel(i, transmissions[i])| >= SYNC_SYMS && AllData(bursts)[m] == Received(air, i, transmissions[i]).data
  {
    hide Heard, NoEarlyMatch, Received;
    assert air.onAir[..|transmissions|] == air.onAir;
  }

  /** What demodulating the samples of a frame gives, as foretold. */
  ghost predicate Foretold(samples: seq<Complex>, arrives: bool, frame: seq<byte>, word: seq<byte>,
                           scrambler: seq<byte>) {
    && |samples| == FRAME_SYMS && EncodesFrame(word, frame, scrambler)
    && if arrives then Readable(SoftAll(samples), word) else Destroyed(SoftAll(samples), scrambler)
  }

  /** Demodulate one frame after the other, and pass on those that can be decoded. */
  method Receive(scrambler: seq<byte>, useLanes: bool, heard: seq<seq<Complex>>, ghost idx: seq<nat>,
                 ghost received: seq<bool>, ghost frames: seq<seq<byte>>, ghost words: seq<seq<byte>>)
    returns (out: seq<seq<byte>>)
    requires |scrambler| == ENCODED_SIZE && |frames| == |received| == |words| && |idx| == |heard|
    requires forall m :: 0 <= m < |heard| ==>
      idx[m] < |frames| && Foretold(heard[m], received[idx[m]], frames[idx[m]], words[idx[m]], scrambler)
    ensures out == KeptAt(frames, received, idx)
  {
    hide RxChain.Valid, EncodesFrame, Readable, Destroyed, SoftAll;
    var rx := new RxChain(scrambler, useLanes);
    out := [];
    assert idx[..0] == [];
    for m := 0 to |heard|
      invariant rx.Valid() && rx.rs.scrambler == scrambler
      invariant fresh(rx.rs.rs) && fresh(rx.rs.rs.repr) && fresh(rx.conv.Objects())
      invariant out == KeptAt(frames, received, idx[..m])
    {
      ghost var word;
      var res;
      res, word := rx.Demodulate(heard[m]);
      assert idx[..m + 1][..m] == idx[..m];
      assert Foretold(heard[m], received[idx[m]], frames[idx[m]], words[idx[m]], scrambler);
      if res.Decoded? {
        out := out + [res.msg];
      }
    }
    assert idx[..|heard|] == idx;
  }

  /** Frames sent through all layers one after the other: those arrive that both codes together can read, in order,
      whatever rotation each is in; the others are not passed on. */
  method Loopback(scrambler: seq<byte>, useLanes: bool, quad0: nat, shift0: nat, air: Air, frames: seq<seq<byte>>,
                  ghost received: seq<bool>)
    returns (out: seq<seq<byte>>)
    requires |scrambler| == ENCODED_SIZE && quad0 < WORD_RANGE && shift0 < WORD_RANGE
    requires forall i :: 0 <= i < |frames| ==> |frames[i]| == FRAME_SIZE
    requires Fates(air, received, frames, scrambler, shift0)
    ensures |received| == |frames| && out == Kept(frames, received)
  {
    hide Fates, Sent, Hearable, Received, Indices, Foretold, Transmission;
    var transmissions, words := Transmit(scrambler, frames);
    FatesHearable(air, received, frames, scrambler, shift0, words, transmissions);
    var heard := Hear(transmissions, air, quad0, shift0);
    ghost var idx := Indices(air.onAir);
    FatesForetold(air, received, frames, scrambler, shift0, words, transmissions, heard);
    out := Receive(scrambler, useLanes, heard, idx, received, frames, words);
    KeptOnAir(frames, received, air.onAir);
  }

  lemma FatesHearable(air: Air, received: seq<bool>, frames: seq<seq<byte>>, scrambler: seq<byte>, shift0: nat,
                      words: seq<seq<byte>>, transmissions: seq<seq<Complex>>)
    requires Fates(air, received, frames, scrambler, shift0) && Sent(words, frames, scrambler)
    requires |transmissions| == |words| && forall i :: 0 <= i < |words| ==> transmissions[i] == Transmission(words[i])
    ensures Hearable(air, transmissions, shift0) && |received| == |frames| == |words| == |air.onAir| == |air.rots|
  {
    hide Heard, NoEarlyMatch, Received, Readable, Destroyed, EncodesFrame, Transmission, SoftData;
    forall i | 0 <= i < |transmissions| && air.onAir[i]
      ensures |air.channel(i, transmissions[i])| >= SYNC_SYMS && Heard(Received(air, i, transmissions[i]))
      ensures FirstOnAir(air.onAir, i) ==> NoEarlyMatch(shift0, DecideAll(Received(air, i, transmissions[i]).sync))
    {
      assert Fate(air, i, received[i], words[i], scrambler, shift0);
    }
  }

  lemma FatesForetold(air: Air, received: seq<bool>, frames: seq<seq<byte>>, scrambler: seq<byte>, shift0: nat,
                      words: seq<seq<byte>>, transmissions: seq<seq<Complex>>, heard: seq<seq<Complex>>)
    requires Fates(air, received, frames, scrambler, shift0) && Sent(words, frames, scrambler)
    requires |transmissions| == |words| && forall i :: 0 <= i < |words| ==> transmissions[i] == Transmission(words[i])
    requires |frames| == |received| == |words| == |air.rots| == |air.onAir| && |heard| == |Indices(air.onAir)|
    requires forall m :: 0 <= m < |heard| ==>
      var i := Indices(air.onAir)[m];
      |air.channel(i, transmissions[i])| >= SYNC_SYMS && heard[m] == Received(air, i, transmissions[i]).data
    ensures forall m :: 0 <= m < |heard| ==>
      var i := Indices(air.onAir)[m];
      Foretold(heard[m], received[i], frames[i], words[i], scrambler)
    ensures forall i :: 0 <= i < |received| && received[i] ==> air.onAir[i]
  {
    hide NoEarlyMatch, Close, Received, Readable, Destroyed, EncodesFrame, Transmission, Indices, SoftAll, DecideAll;
    forall i | 0 <= i < |received| && received[i] ensures air.onAir[i] {
      assert Fate(air, i, received[i], words[i], scrambler, shift0);
    }
    forall m | 0 <= m < |heard|
      ensures var i := Indices(air.onAir)[m]; Foretold(heard[m], received[i], frames[i], words[i], scrambler)
    {
      var i := Indices(air.onAir)[m];
      assert Fate(air, i, received[i], words[i], scrambler, shift0);
    }
  }

  lemma {:induction false} KeptAtPrefix(frames: seq<seq<byte>>, received: seq<bool>, idx: seq<nat>, n: nat)
    requires |frames| == |received| && n <= |frames| && forall m :: 0 <= m < |idx| ==> idx[m] < n
    ensures KeptAt(frames, received, idx) == KeptAt(frames[..n], received[..n], idx)
    decreases |idx|
  {
    if idx != [] {
      KeptAtPrefix(frames, received, idx[..|idx| - 1], n);
    }
  }

  lemma KeptAtSnoc(frames: seq<seq<byte>>, received: seq<bool>, idx: seq<nat>, i: nat)
    requires |frames| == |received| && i < |frames| && forall m :: 0 <= m < |idx| ==> idx[m] < |frames|
    ensures KeptAt(frames, received, idx + [i]) == KeptAt(frames, received, idx) + if received[i] then [frames[i]] else []
  {
    assert (idx + [i])[..|idx|] == idx;
  }

  /** Frames that are not on the air are not received. */
  lemma {:induction false} KeptOnAir(frames: seq<seq<byte>>, received: seq<bool>, onAir: seq<bool>)
    requires |frames| == |received| == |onAir| && forall i :: 0 <= i < |received| && received[i] ==> onAir[i]
    ensures KeptAt(frames, received, Indices(onAir)) == Kept(frames, received)
    decreases |frames|
  {
    if frames != [] {
      var n := |frames| - 1;
      var before := Indices(onAir[..n]);
      KeptOnAir(frames[..n], received[..n], onAir[..n]);
      KeptAtPrefix(frames, received, before, n);
      if onAir[n] {
        assert Indices(onAir) == before + [n];
        KeptAtSnoc(frames, received, before, n);
      } else {
        assert Indices(onAir) == before;
      }
    }
  }
}
