/** Channels with a gain, additive noise, and fades: both codes together deliver every frame. */
module Channels {
  import opened Bits
  import opened CodeWords
  import opened ErrorBursts
  import opened Framing
  import opened NoiseMargin
  import opened Pipeline
  import opened RsCodec
  import opened RsDecoder
  import opened RsOverrun
  import opened SoftSymbols
  import opened SyncSearch
  import ConvDecode

  /** Sample j of transmission i is amplified and has some noise added. */
  function Noisy(gain: real, noise: (nat, nat) -> Complex): Channel {
    (i: nat, symbols: seq<Complex>) =>
      seq(|symbols|, j requires 0 <= j < |symbols| => Add(gain, symbols[j], noise(i, j)))
  }

  function Add(gain: real, x: Complex, noise: Complex): Complex {
    Complex(gain * x.re + noise.re, gain * x.im + noise.im)
  }

  /** The noise leaves a part of a symbol with this amplitude far enough from the middle for the cut. */
  predicate SteadyPart(amplitude: real, cut: nat, noise: real) {
    127.0 * (amplitude - noise) > 127.0 - cut as real && 127.0 * (amplitude + noise) > 127.0 - cut as real
  }

  predicate Steady(gain: real, cut: nat, noise: Complex) {
    SteadyPart(gain * AMPLITUDE, cut, noise.re) && SteadyPart(gain * AMPLITUDE, cut, noise.im)
  }

  /** For the greatest cut, noise below the amplitude will do. */
  lemma QuietSteady(gain: real, noise: Complex)
    ensures Steady(gain, 127, noise) <==>
      -(gain * AMPLITUDE) < noise.re < gain * AMPLITUDE && -(gain * AMPLITUDE) < noise.im < gain * AMPLITUDE
  {
  }

  /** Unit amplitude without noise will do for the cut 38. */
  lemma UnitSteady()
    ensures 10.0 * AMPLITUDE == 0.70710678118 && Steady(10.0, 38, Complex(0.0, 0.0))
  {
    CleanLevels();
  }

  lemma PartSteady(amplitude: real, cut: nat, noise: real, b: bit)
    requires cut <= 127 && SteadyPart(amplitude, cut, noise)
    ensures Firm((if b == 1 then amplitude else -amplitude) + noise, b, cut)
    ensures var y := (if b == 1 then amplitude else -amplitude) + noise; y != 0.0 && (y > 0.0 <==> b == 1)
  {
  }

  /** The parts of a symbol received, and its decision. */
  lemma SymbolSteady(gain: real, cut: nat, noise: Complex, a: bit, b: bit)
    requires cut <= 127 && Steady(gain, cut, noise)
    ensures var y := Add(gain, Point(2 * a as int + b as int), noise);
      && Firm(y.re, a, cut) && Firm(y.im, b, cut)
      && y.re != 0.0 && y.im != 0.0 && Decide(y) == 2 * a as int + b as int
  {
    hide Firm, SteadyPart;
    var x := Point(2 * a as int + b as int);
    GainPart(gain, a);
    GainPart(gain, b);
    PartSteady(gain * AMPLITUDE, cut, noise.re, a);
    PartSteady(gain * AMPLITUDE, cut, noise.im, b);
  }

  lemma GainPart(gain: real, b: bit)
    ensures gain * (if b == 1 then AMPLITUDE else -AMPLITUDE)
         == if b == 1 then gain * AMPLITUDE else -(gain * AMPLITUDE)
  {
    assert gain * -AMPLITUDE == -(gain * AMPLITUDE);
  }

  /** Transmission i has noise that is steady for the greatest cut on the sync word, and for the given cut on the data
      except in a fade that is short enough for it. */
  ghost predicate Fading(gain: real, noise: (nat, nat) -> Complex, cut: nat, fade: nat, length: nat, i: nat) {
    && Short(length, cut)
    && (forall j :: 0 <= j < SYNC_SYMS ==> Steady(gain, 127, noise(i, j)))
    && forall j: nat :: j >= SYNC_SYMS && !(fade <= j - SYNC_SYMS < fade + length) ==> Steady(gain, cut, noise(i, j))
  }

  /** The sync word is decided rightly in spite of the noise. */
  lemma NoisySync(gain: real, noise: (nat, nat) -> Complex, i: nat, r: rotation)
    requires forall j :: 0 <= j < SYNC_SYMS ==> Steady(gain, 127, noise(i, j))
    ensures Close(DecideAll(TurnedAll(Noisy(gain, noise)(i, Points(Symbols(SYNC_WORD, SYNC_SYMS))), r)), r)
  {
    hide Symbols, Steady, Decide, Point, Close, Add;
    var s := Symbols(SYNC_WORD, SYNC_SYMS);
    var y := Noisy(gain, noise)(i, Points(s));
    forall j | 0 <= j < SYNC_SYMS ensures y[j].re != 0.0 && y[j].im != 0.0 && Decide(y[j]) == s[j] {
      assert y[j] == Add(gain, Point(s[j]), noise(i, j));
      SymbolSteady(gain, 127, noise(i, j), s[j] / 2, s[j] % 2);
    }
    DecidedClose(y, r);
  }

  /** A data symbol stands for two code bits. */
  lemma DataSymbolAt(word: seq<byte>, t: nat)
    requires t < |DataSymbols(word)|
    ensures var bits := CodeBits(Input(word));
      2 * t + 1 < |bits| && DataSymbols(word)[t] == Point(2 * bits[2 * t] as int + bits[2 * t + 1] as int)
  {
    hide CodeBits, Input, Point;
  }

  /** Its two soft symbols deviate by no more than the cut. */
  lemma SteadySoft(gain: real, cut: nat, noise: Complex, a: bit, b: bit, data: seq<Complex>, t: nat)
    requires cut <= 127 && Steady(gain, cut, noise) && t < |data|
    requires data[t] == Add(gain, Point(2 * a as int + b as int), noise)
    ensures Deviation(SoftAll(data)[2 * t], a) <= cut && Deviation(SoftAll(data)[2 * t + 1], b) <= cut
  {
    hide Steady, Point, Add, Firm, Deviation, SoftSymbol;
    SymbolSteady(gain, cut, noise, a, b);
    SoftFirm(data[t].re, a, cut);
    SoftFirm(data[t].im, b, cut);
    SoftPair(data, t);
  }

  lemma SoftPair(data: seq<Complex>, t: nat)
    requires t < |data|
    ensures SoftAll(data)[2 * t] == SoftSymbol(data[t].re) && SoftAll(data)[2 * t + 1] == SoftSymbol(data[t].im)
  {
    hide SoftSymbol;
    assert 2 * t / 2 == t && (2 * t + 1) / 2 == t && 2 * t % 2 == 0 && (2 * t + 1) % 2 == 1;
  }

  /** Outside the fade no soft symbol deviates by more than the cut. */
  lemma FadingSpoils(gain: real, noise: (nat, nat) -> Complex, cut: nat, fade: nat, length: nat, i: nat,
                     word: seq<byte>, data: seq<Complex>)
    requires Fading(gain, noise, cut, fade, length, i)
    requires |data| == |DataSymbols(word)|
    requires forall t :: 0 <= t < |data| ==> data[t] == Add(gain, DataSymbols(word)[t], noise(i, SYNC_SYMS + t))
    ensures SpoiledOnly(SoftAll(data), CodeBits(Input(word)), cut, fade, fade + length)
  {
    hide Steady, Point, Add, Deviation, DataSymbols, SoftAll, CodeBits, Input, Extent;
    var bits, soft := CodeBits(Input(word)), SoftAll(data);
    SymbolBits(word);
    forall k | 2 <= k < |bits| && !(2 * fade <= k < 2 * (fade + length)) ensures Deviation(soft[k], bits[k]) <= cut {
      var t := k / 2;
      assert k == 2 * t || k == 2 * t + 1;
      DataSymbolAt(word, t);
      assert Steady(gain, cut, noise(i, SYNC_SYMS + t));
      SteadySoft(gain, cut, noise(i, SYNC_SYMS + t), bits[2 * t], bits[2 * t + 1], data, t);
    }
  }

  lemma SymbolBits(word: seq<byte>)
    ensures |CodeBits(Input(word))| == 2 * |DataSymbols(word)|
  {
    hide CodeBits, Input;
  }

  /** Every word is carried: the inner code stands the noise, the outer code what the inner makes of the fade. */
  lemma FadingCarried(air: Air, gain: real, noise: (nat, nat) -> Complex, cut: nat, fade: nat, length: nat, i: nat,
                      word: seq<byte>)
    requires i < |air.rots| && air.channel == Noisy(gain, noise) && |word| == ENCODED_SIZE
    requires Fading(gain, noise, cut, fade, length, i)
    ensures Carried(air, i, word)
  {
    hide Steady, Add, Close, DataSymbols, Points, Symbols, Readable, SpoiledOnly, SoftAll, CodeBits, Extent,
         Transmission;
    var symbols := Transmission(word);
    var y, s := air.channel(i, symbols), Points(Symbols(SYNC_WORD, SYNC_SYMS));
    SymbolCount(word);
    assert |symbols| == SYNC_SYMS + |DataSymbols(word)|;
    assert y[..SYNC_SYMS] == Noisy(gain, noise)(i, s) by {
      assert forall j :: 0 <= j < SYNC_SYMS ==> symbols[j] == symbols[..SYNC_SYMS][j];
    }
    NoisySync(gain, noise, i, air.rots[i]);
    var data := y[SYNC_SYMS..];
    forall t | 0 <= t < |data| ensures data[t] == Add(gain, DataSymbols(word)[t], noise(i, SYNC_SYMS + t)) {
      assert symbols[SYNC_SYMS + t] == symbols[SYNC_SYMS..][t];
    }
    FadingSpoils(gain, noise, cut, fade, length, i, word, data);
    BurstReadable(SoftAll(data), word, cut, fade, fade + length);
  }

  function Always(n: nat): (flags: seq<bool>)
    ensures |flags| == n
  {
    seq(n, _ => true)
  }

  /** All of n transmissions are on the air, and each may have its own fade. */
  ghost predicate AllFading(air: Air, gain: real, noise: (nat, nat) -> Complex, cut: nat, fades: seq<nat>,
                            length: nat) {
    && air.onAir == Always(|fades|) && |air.rots| == |fades| && air.channel == Noisy(gain, noise)
    && forall i :: 0 <= i < |fades| ==> Fading(gain, noise, cut, fades[i], length, i)
  }

  /** Whatever the words, all arrive at a receiver whose register is cleared. */
  lemma FadingFate(air: Air, gain: real, noise: (nat, nat) -> Complex, cut: nat, fades: seq<nat>, length: nat,
                   scrambler: seq<byte>, i: nat, word: seq<byte>)
    requires AllFading(air, gain, noise, cut, fades, length) && i < |fades| && |word| == ENCODED_SIZE
    ensures Fate(air, i, true, word, scrambler, 0)
  {
    hide Fading, Readable, SoftData, Transmission, DecideAll, NoEarlyMatch, Received, Close;
    FadingCarried(air, gain, noise, cut, fades[i], length, i, word);
    NoMatchFromZero(DecideAll(Received(air, i, Transmission(word)).sync), Received(air, i, Transmission(word)).rot);
  }

  lemma {:induction false} AllKept(frames: seq<seq<byte>>)
    ensures Kept(frames, Always(|frames|)) == frames
  {
    if frames != [] {
      var n := |frames| - 1;
      AllKept(frames[..n]);
      assert Always(|frames|)[..n] == Always(n);
    }
  }

  /** With any gain, any noise below the amplitude on the sync words, noise steady for a cut on the data, a fade of
      arbitrary samples in each transmission that is short enough for the cut, any rotations and a cleared register, all
      frames come back. */
  method LoopbackFading(scrambler: seq<byte>, useLanes: bool, quad0: nat, air: Air, frames: seq<seq<byte>>,
                        ghost gain: real, ghost noise: (nat, nat) -> Complex, ghost cut: nat, ghost fades: seq<nat>,
                        ghost length: nat)
    returns (out: seq<seq<byte>>)
    requires |scrambler| == ENCODED_SIZE && quad0 < WORD_RANGE && |fades| == |frames|
    requires forall i :: 0 <= i < |frames| ==> |frames[i]| == DECODED_SIZE
    requires AllFading(air, gain, noise, cut, fades, length)
    ensures out == frames
  {
    hide Fate, EncodesFrame, Fading;
    ghost var received := Always(|frames|);
    forall i, word: seq<byte> | 0 <= i < |frames| && |word| == ENCODED_SIZE && EncodesFrame(word, frames[i], scrambler)
      ensures Fate(air, i, received[i], word, scrambler, 0)
    {
      FadingFate(air, gain, noise, cut, fades, length, scrambler, i, word);
    }
    out := Loopback(scrambler, useLanes, quad0, 0, air, frames, received);
    AllKept(frames);
  }

  /** With noise below the amplitude on every symbol no fade is needed to say so. */
  lemma QuietFading(gain: real, noise: (nat, nat) -> Complex, i: nat)
    requires forall j: nat :: Steady(gain, 127, noise(i, j))
    ensures Fading(gain, noise, 127, 0, 0, i)
  {
    hide Steady;
  }

  // ----- transmissions lost on the air

  /** No frame's code words are near the word. */
  ghost predicate Hopeless(word: seq<byte>, scrambler: seq<byte>) {
    |word| == ENCODED_SIZE && forall frame: seq<byte> :: !CorrectsFrame(word, frame, scrambler)
  }

  /** The word all of whose blocks are the same. */
  function Repeated(block: seq<byte>): (word: seq<byte>)
    requires |block| == BLOCK_ENC_SIZE
    ensures |word| == ENCODED_SIZE && Block(word, 0) == block
  {
    var word := seq(ENCODED_SIZE, k requires 0 <= k < ENCODED_SIZE => block[k / BLOCK_COUNT]);
    assert Block(word, 0) == block;
    word
  }

  /** For every scrambling sequence there are such words. */
  lemma HopelessWord(scrambler: seq<byte>) returns (word: seq<byte>)
    requires |scrambler| == ENCODED_SIZE
    ensures Hopeless(word, scrambler)
  {
    hide Corrects, Overruns, Scrambled, Block, Repeated;
    var bad := OverrunBlock();
    word := Scrambled(Repeated(bad), scrambler);
    ScrambledTwice(Repeated(bad), scrambler);
    forall frame: seq<byte> ensures !CorrectsFrame(word, frame, scrambler) {
      if CorrectsFrame(word, frame, scrambler) {
        OverrunFar(bad, FramePart(frame, 0), NUM_ROOTS);
        assert false;
      }
    }
  }

  lemma OverrunBlock() returns (block: seq<byte>)
    ensures |block| == BLOCK_ENC_SIZE && Overruns(block, NUM_ROOTS)
  {
    block := OverrunWord(NUM_ROOTS, BLOCK_ENC_SIZE);
  }

  /** The sync word comes through, but the data is that of another word. */
  function Jamming(jam: seq<byte>): Channel {
    (i: nat, symbols: seq<Complex>) =>
      (if |symbols| < SYNC_SYMS then symbols else symbols[..SYNC_SYMS]) + DataSymbols(jam)
  }

  /** Symbols received as they were sent are within the inner code's margin. */
  lemma SentWithin(word: seq<byte>)
    ensures WithinMargin(SoftAll(DataSymbols(word)), word)
  {
    hide DataSymbols, SoftAll, CodeBits, Input, Deviation, Extent;
    var data := DataSymbols(word);
    var none := (i: nat, j: nat) => Complex(0.0, 0.0);
    QuietSteady(1.0, Complex(0.0, 0.0));
    QuietFading(1.0, none, 0);
    FadingSpoils(1.0, none, 127, 0, 0, 0, word, data);
    SymbolBits(word);
    SidesWithin(SoftAll(data), word);
  }

  /** A frame that is on the air can be lost: whatever was sent, nothing is decoded. */
  lemma JammedLost(air: Air, i: nat, word: seq<byte>, jam: seq<byte>, scrambler: seq<byte>)
    requires i < |air.rots| == |air.onAir| && air.channel == Jamming(jam) && Hopeless(jam, scrambler)
    ensures Whole(air, i, word) && Lost(air, i, word, scrambler)
  {
    hide DataSymbols, Points, Symbols, SoftAll, WithinMargin, Close, CorrectsFrame, ConvDecode.Output, Transmission;
    SymbolCount(jam);
    CleanSync(air.rots[i]);
    var y := air.channel(i, Transmission(word));
    assert y[..SYNC_SYMS] == Points(Symbols(SYNC_WORD, SYNC_SYMS)) && y[SYNC_SYMS..] == DataSymbols(jam);
    SentWithin(jam);
    forall out: seq<byte> | InnerDecodes(SoftAll(DataSymbols(jam)), out) ensures out == jam {
      var bits: seq<bit> :| ConvDecode.Output(SoftAll(DataSymbols(jam)), ENCODED_BITS / 2, bits, out);
      OutputSize(SoftAll(DataSymbols(jam)), bits, out);
      MarginDecodes(SoftAll(DataSymbols(jam)), ENCODED_BITS / 2, jam, bits, out);
    }
  }
}
