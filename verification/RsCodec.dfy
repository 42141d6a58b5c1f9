/** Four interleaved Reed-Solomon blocks, scrambled. */
module RsCodec {
  import opened Bits
  import opened RsTheorems
  import opened RsDecoder
  import Codec = ReedSolomon

  const BLOCK_ENC_SIZE: nat := 255
  const BLOCK_DEC_SIZE: nat := 223
  const BLOCK_COUNT: nat := 4
  const NUM_ROOTS: nat := 32
  const ENCODED_SIZE: nat := BLOCK_COUNT * BLOCK_ENC_SIZE
  const DECODED_SIZE: nat := BLOCK_COUNT * BLOCK_DEC_SIZE

  // ----- interleaving and scrambling

  /** Byte k of block i. */
  function At(k: nat, i: nat): nat {
    BLOCK_COUNT * k + i
  }

  /** The bytes of block i, every fourth of the word. */
  function Block(word: seq<byte>, i: nat): (block: seq<byte>)
    requires |word| == ENCODED_SIZE && i < BLOCK_COUNT
    ensures |block| == BLOCK_ENC_SIZE
  {
    seq(BLOCK_ENC_SIZE, k requires 0 <= k < BLOCK_ENC_SIZE => word[At(k, i)])
  }

  function Scrambled(word: seq<byte>, scrambler: seq<byte>): (s: seq<byte>)
    requires |word| == |scrambler|
    ensures |s| == |word|
  {
    seq(|word|, j requires 0 <= j < |word| => Add(word[j], scrambler[j]))
  }

  lemma ScrambledTwice(word: seq<byte>, scrambler: seq<byte>)
    requires |word| == |scrambler|
    ensures Scrambled(Scrambled(word, scrambler), scrambler) == word
  {
    hide Add;
    AddLaws();
  }

  /** The frame bytes of block i. */
  function FramePart(frame: seq<byte>, i: nat): seq<byte>
    requires |frame| == DECODED_SIZE && i < BLOCK_COUNT
  {
    frame[BLOCK_DEC_SIZE * i..BLOCK_DEC_SIZE * (i + 1)]
  }

  /** Block i of a descrambled word is the code word of the frame's part i. */
  ghost predicate BlockEncodes(word: seq<byte>, frame: seq<byte>, i: nat)
    requires |word| == ENCODED_SIZE && |frame| == DECODED_SIZE && i < BLOCK_COUNT
  {
    IsCodeword(Block(word, i), NUM_ROOTS) && Block(word, i)[..BLOCK_DEC_SIZE] == FramePart(frame, i)
  }

  /** Descrambled and deinterleaved, the word is four code words that begin with the frame's parts. */
  ghost predicate EncodesFrame(word: seq<byte>, frame: seq<byte>, scrambler: seq<byte>) {
    && |word| == |scrambler| == ENCODED_SIZE && |frame| == DECODED_SIZE
    && forall i :: 0 <= i < BLOCK_COUNT ==> BlockEncodes(Scrambled(word, scrambler), frame, i)
  }

  /** Every part of the frame is that of a code word that differs from its block in fewer than 32 places. */
  ghost predicate CorrectsFrame(received: seq<byte>, frame: seq<byte>, scrambler: seq<byte>) {
    && |received| == |scrambler| == ENCODED_SIZE && |frame| == DECODED_SIZE
    && forall i :: 0 <= i < BLOCK_COUNT ==>
        Corrects(Block(Scrambled(received, scrambler), i), FramePart(frame, i), NUM_ROOTS)
  }

  /** Decoding block i would overrun the tables. */
  ghost predicate BlockOverruns(received: seq<byte>, scrambler: seq<byte>, i: nat)
    requires |received| == |scrambler| == ENCODED_SIZE && i < BLOCK_COUNT
  {
    Overruns(Block(Scrambled(received, scrambler), i), NUM_ROOTS)
  }

  /** Decoding block i fails. */
  ghost predicate BlockFails(received: seq<byte>, scrambler: seq<byte>, i: nat)
    requires |received| == |scrambler| == ENCODED_SIZE && i < BLOCK_COUNT
  {
    Unsplit(Block(Scrambled(received, scrambler), i), NUM_ROOTS)
  }

  /** No block has more errors than its code corrects. */
  ghost predicate FewErrors(received: seq<byte>, word: seq<byte>) {
    && |received| == |word| == ENCODED_SIZE
    && forall i :: 0 <= i < BLOCK_COUNT ==> 2 * Distance(Block(received, i), Block(word, i)) <= NUM_ROOTS
  }

  /** A word encodes a frame if and only if every fourth byte from i, descrambled, is a code word that begins with the
      frame's bytes from 223 i on. */
  lemma EncodesExactly(word: seq<byte>, frame: seq<byte>, scrambler: seq<byte>, blocks: seq<seq<byte>>)
    requires |word| == |scrambler| == 1020 && |frame| == 892
    requires |blocks| == 4 && forall i :: 0 <= i < 4 ==> |blocks[i]| == 255
    requires forall i, k :: 0 <= i < 4 && 0 <= k < 255 ==> blocks[i][k] == Add(word[4 * k + i], scrambler[4 * k + i])
    ensures EncodesFrame(word, frame, scrambler) <==>
      forall i :: 0 <= i < 4 ==> IsCodeword(blocks[i], 32) && blocks[i][..223] == frame[223 * i..223 * i + 223]
  {
    hide Add, IsCodeword;
    forall i | 0 <= i < 4
      ensures blocks[i] == Block(Scrambled(word, scrambler), i) && FramePart(frame, i) == frame[223 * i..223 * i + 223]
    {
      forall k | 0 <= k < 255 ensures At(k, i) == 4 * k + i {
      }
    }
    if EncodesFrame(word, frame, scrambler) {
      forall i | 0 <= i < 4 ensures IsCodeword(blocks[i], 32) && blocks[i][..223] == frame[223 * i..223 * i + 223] {
        assert BlockEncodes(Scrambled(word, scrambler), frame, i);
      }
    }
  }

  /** Where the bytes of the frame are in its word. */
  lemma FrameBytesAt(word: seq<byte>, frame: seq<byte>, scrambler: seq<byte>)
    requires EncodesFrame(word, frame, scrambler)
    ensures forall i, k :: 0 <= i < 4 && 0 <= k < 223 ==>
      Add(word[4 * k + i], scrambler[4 * k + i]) == frame[223 * i + k]
  {
    hide Add, IsCodeword;
    forall i, k | 0 <= i < 4 && 0 <= k < 223 ensures Add(word[4 * k + i], scrambler[4 * k + i]) == frame[223 * i + k] {
      var block := Block(Scrambled(word, scrambler), i);
      assert BlockEncodes(Scrambled(word, scrambler), frame, i);
      assert block[k] == block[..BLOCK_DEC_SIZE][k] == FramePart(frame, i)[k];
      assert At(k, i) == 4 * k + i;
    }
  }

  // ----- bursts

  lemma {:induction false} DistanceWithin(a: seq<byte>, b: seq<byte>, lo: nat, n: nat)
    requires |a| == |b|
    requires forall k :: 0 <= k < |a| && !(lo <= k < lo + n) ==> a[k] == b[k]
    ensures Distance(a, b) <= n
    decreases |a|
  {
    if a != [] {
      if lo > 0 {
        DistanceWithin(a[1..], b[1..], lo - 1, n);
      } else if n > 0 {
        DistanceWithin(a[1..], b[1..], 0, n - 1);
      } else {
        DistanceWithin(a[1..], b[1..], 0, 0);
      }
    }
  }

  /** Interleaving spreads a burst of 64 bytes evenly: sixteen errors in each block at most. */
  lemma BurstSpread(received: seq<byte>, word: seq<byte>, start: nat)
    requires |received| == |word| == ENCODED_SIZE
    requires forall j :: 0 <= j < ENCODED_SIZE && !(start <= j < start + 64) ==> received[j] == word[j]
    ensures FewErrors(received, word)
  {
    hide Distance;
    forall i | 0 <= i < BLOCK_COUNT ensures 2 * Distance(Block(received, i), Block(word, i)) <= NUM_ROOTS {
      var lo := if start <= i then 0 else (start - i + 3) / 4;
      forall k | 0 <= k < BLOCK_ENC_SIZE && !(lo <= k < lo + 16) ensures Block(received, i)[k] == Block(word, i)[k] {
        assert !(start <= At(k, i) < start + 64);
      }
      DistanceWithin(Block(received, i), Block(word, i), lo, 16);
    }
  }

  lemma {:induction false} DistanceSame(a: seq<byte>, b: seq<byte>, c: seq<byte>, d: seq<byte>)
    requires |a| == |b| == |c| == |d|
    requires forall k :: 0 <= k < |a| ==> (a[k] == b[k] <==> c[k] == d[k])
    ensures Distance(a, b) == Distance(c, d)
    decreases |a|
  {
    if a != [] {
      DistanceSame(a[1..], b[1..], c[1..], d[1..]);
    }
  }

  /** Scrambling both words alike leaves their distances. */
  lemma ScrambledErrors(received: seq<byte>, word: seq<byte>, scrambler: seq<byte>, i: nat)
    requires |received| == |word| == |scrambler| == ENCODED_SIZE && i < BLOCK_COUNT
    ensures Distance(Block(Scrambled(received, scrambler), i), Block(Scrambled(word, scrambler), i))
         == Distance(Block(received, i), Block(word, i))
  {
    hide Add, Distance;
    var a, b := Block(received, i), Block(word, i);
    var c, d := Block(Scrambled(received, scrambler), i), Block(Scrambled(word, scrambler), i);
    forall k | 0 <= k < BLOCK_ENC_SIZE ensures a[k] == b[k] <==> c[k] == d[k] {
      var j := At(k, i);
      AddComm(received[j], scrambler[j]);
      AddComm(word[j], scrambler[j]);
      if c[k] == d[k] {
        AddCancel(scrambler[j], received[j], word[j]);
      }
    }
    DistanceSame(a, b, c, d);
  }

  // ----- loops over the interleaved buffer

  /** Spread a block over every fourth byte from i. */
  method InterleaveBlock(block: seq<byte>, i: nat, out: array<byte>)
    requires |block| == BLOCK_ENC_SIZE && i < BLOCK_COUNT && out.Length >= ENCODED_SIZE
    modifies out
    ensures Block(out[..ENCODED_SIZE], i) == block
    ensures forall b :: 0 <= b < BLOCK_COUNT && b != i ==> Block(out[..ENCODED_SIZE], b) == Block(old(out[..ENCODED_SIZE]), b)
    // byte k of the block is byte 4 k + i
    ensures forall k :: 0 <= k < 255 ==> out[4 * k + i] == block[k]
  {
    var k: nat, j: nat := 0, i;
    ghost var before := out[..ENCODED_SIZE];
    while j < ENCODED_SIZE
      invariant j == At(k, i) && k <= BLOCK_ENC_SIZE
      invariant forall m :: 0 <= m < k ==> out[At(m, i)] == block[m]
      invariant forall b, m :: 0 <= b < BLOCK_COUNT && b != i && 0 <= m < BLOCK_ENC_SIZE ==> out[At(m, b)] == before[At(m, b)]
    {
      out[j] := block[k];
      k := k + 1;
      j := j + BLOCK_COUNT;
    }
    forall m | 0 <= m < 255 ensures out[4 * m + i] == block[m] {
      assert At(m, i) == 4 * m + i;
    }
    forall b | 0 <= b < BLOCK_COUNT && b != i ensures Block(out[..ENCODED_SIZE], b) == Block(before, b) {
      assert forall m :: 0 <= m < BLOCK_ENC_SIZE ==> out[At(m, b)] == before[At(m, b)];
    }
  }

  method Scramble(buffer: array<byte>, scrambler: seq<byte>)
    requires |scrambler| == ENCODED_SIZE <= buffer.Length
    modifies buffer
    ensures buffer[..ENCODED_SIZE] == Scrambled(old(buffer[..ENCODED_SIZE]), scrambler)
    // every byte differs from what it was by that of the sequence
    ensures forall j :: 0 <= j < 1020 ==> Add(buffer[j], old(buffer[j])) == scrambler[j]
  {
    hide Add;
    AddLaws();
    for j := 0 to ENCODED_SIZE
      invariant forall m :: 0 <= m < j ==> buffer[m] == Add(old(buffer[m]), scrambler[m])
      invariant forall m :: j <= m < ENCODED_SIZE ==> buffer[m] == old(buffer[m])
    {
      buffer[j] := Add(buffer[j], scrambler[j]);
    }
  }

  // ----- the codec

  /** A block with few errors decodes to its part of the frame. */
  lemma BlockDecodes(received: seq<byte>, scrambler: seq<byte>, i: nat, block: seq<byte>, r: Result)
    requires |received| == |scrambler| == ENCODED_SIZE && i < BLOCK_COUNT
    requires block == Block(Scrambled(received, scrambler), i)
    requires forall sent: seq<byte> :: WithinBound(block, sent, NUM_ROOTS) ==> r == Decoded(sent[..|sent| - NUM_ROOTS])
    ensures forall word: seq<byte>, frame: seq<byte> :: EncodesFrame(word, frame, scrambler) && FewErrors(received, word) ==>
      r == Decoded(FramePart(frame, i))
  {
    hide Block, Scrambled, IsCodeword, Distance;
    forall word: seq<byte>, frame: seq<byte> | EncodesFrame(word, frame, scrambler) && FewErrors(received, word)
      ensures r == Decoded(FramePart(frame, i))
    {
      var sent := Block(Scrambled(word, scrambler), i);
      ScrambledErrors(received, word, scrambler, i);
      assert BlockEncodes(Scrambled(word, scrambler), frame, i);
      assert WithinBound(block, sent, NUM_ROOTS);
    }
  }

  method StoreBlock(msg: seq<byte>, i: nat, out: array<byte>)
    requires |msg| == BLOCK_DEC_SIZE && i < BLOCK_COUNT && out.Length >= DECODED_SIZE
    modifies out
    ensures out[..BLOCK_DEC_SIZE * (i + 1)] == old(out[..BLOCK_DEC_SIZE * i]) + msg
  {
    for j := 0 to BLOCK_DEC_SIZE
      invariant out[..BLOCK_DEC_SIZE * i] == old(out[..BLOCK_DEC_SIZE * i])
      invariant out[BLOCK_DEC_SIZE * i..BLOCK_DEC_SIZE * i + j] == msg[..j]
    {
      out[BLOCK_DEC_SIZE * i + j] := msg[j];
    }
  }

  lemma ExtendFrame(i: nat)
    requires i < BLOCK_COUNT
    ensures forall frame: seq<byte> :: |frame| == DECODED_SIZE ==>
      frame[..BLOCK_DEC_SIZE * i] + FramePart(frame, i) == frame[..BLOCK_DEC_SIZE * (i + 1)]
  {
  }

  /** The first n parts are those of code words near their blocks. */
  ghost predicate PartsCorrected(received: seq<byte>, scrambler: seq<byte>, frame: seq<byte>, n: nat) {
    && |received| == |scrambler| == ENCODED_SIZE && |frame| == DECODED_SIZE && n <= BLOCK_COUNT
    && forall i :: 0 <= i < n ==> Corrects(Block(Scrambled(received, scrambler), i), FramePart(frame, i), NUM_ROOTS)
  }

  lemma CorrectsSize(block: seq<byte>, msg: seq<byte>)
    requires Corrects(block, msg, NUM_ROOTS) && |block| == BLOCK_ENC_SIZE
    ensures |msg| == BLOCK_DEC_SIZE
  {
  }

  lemma SlicePrefix(s: seq<byte>, lo: nat, hi: nat, h: nat)
    requires lo <= hi <= h <= |s|
    ensures s[lo..hi] == s[..h][lo..hi]
  {
  }

  lemma PartBounds(b: nat, i: nat)
    requires b < i <= BLOCK_COUNT
    ensures BLOCK_DEC_SIZE * b <= BLOCK_DEC_SIZE * (b + 1) <= BLOCK_DEC_SIZE * i <= DECODED_SIZE
  {
  }

  lemma PartStored(received: seq<byte>, scrambler: seq<byte>, before: seq<byte>, frame: seq<byte>, msg: seq<byte>, i: nat)
    requires i < BLOCK_COUNT && |msg| == BLOCK_DEC_SIZE && |frame| == DECODED_SIZE
    requires PartsCorrected(received, scrambler, before, i)
    requires Corrects(Block(Scrambled(received, scrambler), i), msg, NUM_ROOTS)
    requires frame[..BLOCK_DEC_SIZE * (i + 1)] == before[..BLOCK_DEC_SIZE * i] + msg
    ensures PartsCorrected(received, scrambler, frame, i + 1)
  {
    hide Corrects, Block, Scrambled;
    var h, k := BLOCK_DEC_SIZE * (i + 1), BLOCK_DEC_SIZE * i;
    forall b | 0 <= b <= i ensures FramePart(frame, b) == if b < i then FramePart(before, b) else msg {
      var lo, hi := BLOCK_DEC_SIZE * b, BLOCK_DEC_SIZE * (b + 1);
      PartBounds(b, i + 1);
      SlicePrefix(frame, lo, hi, h);
      if b < i {
        PartBounds(b, i);
        SlicePrefix(before, lo, hi, k);
        assert (before[..k] + msg)[lo..hi] == before[..k][lo..hi];
      } else {
        assert (before[..k] + msg)[k..h] == msg;
      }
    }
  }

  /** The first n parts are decoded: each is that of a code word near its block, no block overruns the tables, and where
      there are few errors they are the parts sent. */
  ghost predicate PartsDecoded(received: seq<byte>, scrambler: seq<byte>, frame: seq<byte>, n: nat) {
    && PartsCorrected(received, scrambler, frame, n)
    && (forall b :: 0 <= b < n ==> !BlockOverruns(received, scrambler, b))
    && forall word: seq<byte>, sent: seq<byte> :: EncodesFrame(word, sent, scrambler) && FewErrors(received, word) ==>
        frame[..BLOCK_DEC_SIZE * n] == sent[..BLOCK_DEC_SIZE * n]
  }

  lemma NothingDecoded(received: seq<byte>, scrambler: seq<byte>, frame: seq<byte>)
    requires |received| == |scrambler| == ENCODED_SIZE && |frame| == DECODED_SIZE
    ensures PartsDecoded(received, scrambler, frame, 0)
  {
    hide EncodesFrame, FewErrors;
    FrameSize(scrambler);
  }

  lemma AllDecoded(received: seq<byte>, scrambler: seq<byte>, frame: seq<byte>)
    requires PartsDecoded(received, scrambler, frame, BLOCK_COUNT)
    ensures CorrectsFrame(received, frame, scrambler)
    ensures forall b :: 0 <= b < BLOCK_COUNT ==> !BlockOverruns(received, scrambler, b)
    ensures forall word: seq<byte>, sent: seq<byte> :: EncodesFrame(word, sent, scrambler) && FewErrors(received, word) ==>
      frame == sent
  {
    hide Corrects, EncodesFrame, FewErrors, BlockOverruns;
    FrameSize(scrambler);
    forall word: seq<byte>, sent: seq<byte> | EncodesFrame(word, sent, scrambler) && FewErrors(received, word)
      ensures frame == sent
    {
      assert frame == frame[..BLOCK_DEC_SIZE * BLOCK_COUNT] && sent == sent[..BLOCK_DEC_SIZE * BLOCK_COUNT];
    }
  }

  /** Place a part of the frame, keeping the parts before. */
  method StorePart(msg: seq<byte>, i: nat, out: array<byte>, ghost received: seq<byte>, ghost scrambler: seq<byte>)
    requires |msg| == BLOCK_DEC_SIZE && i < BLOCK_COUNT && out.Length >= DECODED_SIZE
    requires PartsDecoded(received, scrambler, out[..DECODED_SIZE], i)
    requires Corrects(Block(Scrambled(received, scrambler), i), msg, NUM_ROOTS) && !BlockOverruns(received, scrambler, i)
    requires forall word: seq<byte>, frame: seq<byte> :: EncodesFrame(word, frame, scrambler) && FewErrors(received, word) ==>
      msg == FramePart(frame, i)
    modifies out
    ensures PartsDecoded(received, scrambler, out[..DECODED_SIZE], i + 1)
  {
    hide Corrects, Block, Scrambled, PartsCorrected, BlockOverruns, EncodesFrame, FewErrors, FramePart;
    ghost var before := out[..DECODED_SIZE];
    assert before[..BLOCK_DEC_SIZE * i] == out[..BLOCK_DEC_SIZE * i];
    StoreBlock(msg, i, out);
    assert out[..DECODED_SIZE][..BLOCK_DEC_SIZE * (i + 1)] == out[..BLOCK_DEC_SIZE * (i + 1)];
    PartStored(received, scrambler, before, out[..DECODED_SIZE], msg, i);
    ExtendFrame(i);
    FrameSize(scrambler);
  }

  lemma Capacity(rs: Codec.ReedSolomon)
    requires rs.Valid()
    ensures rs.messageLength == rs.blockLength - rs.minDistance && rs.blockLength == BLOCK_ENC_SIZE
  {
  }

  /** Place the code word of part i, keeping those of the parts before. */
  method PlaceBlock(block: seq<byte>, i: nat, out: array<byte>, ghost frame: seq<byte>)
    requires |block| == BLOCK_ENC_SIZE && i < BLOCK_COUNT && out.Length >= ENCODED_SIZE && |frame| == DECODED_SIZE
    requires IsCodeword(block, NUM_ROOTS) && block[..BLOCK_DEC_SIZE] == FramePart(frame, i)
    requires forall b :: 0 <= b < i ==> BlockEncodes(out[..ENCODED_SIZE], frame, b)
    modifies out
    ensures forall b :: 0 <= b < i + 1 ==> BlockEncodes(out[..ENCODED_SIZE], frame, b)
  {
    hide IsCodeword, Block;
    ghost var before := out[..ENCODED_SIZE];
    InterleaveBlock(block, i, out);
    forall b | 0 <= b < i ensures BlockEncodes(out[..ENCODED_SIZE], frame, b) {
      assert BlockEncodes(before, frame, b);
    }
  }

  class RSEncoder {
    const rs: Codec.ReedSolomon
    const scrambler: seq<byte>

    ghost predicate Valid()
      reads rs, rs.EncoderObjects(), rs.repr
    {
      rs.Valid() && rs.minDistance == NUM_ROOTS && |scrambler| == ENCODED_SIZE
    }

    constructor (scrambler: seq<byte>)
      requires |scrambler| == ENCODED_SIZE
      ensures Valid() && fresh(rs) && fresh(rs.EncoderObjects()) && rs.repr == {} && this.scrambler == scrambler
    {
      rs := new Codec.ReedSolomon(0x187, 1, 1, NUM_ROOTS);
      this.scrambler := scrambler;
    }

    /** Encode and interleave part i. */
    method EncodeBlock(input: seq<byte>, i: nat, out: array<byte>)
      requires Valid() && |input| == DECODED_SIZE && out.Length >= ENCODED_SIZE && i < BLOCK_COUNT
      requires out !in rs.EncoderObjects() && out !in rs.repr
      requires forall b :: 0 <= b < i ==> BlockEncodes(out[..ENCODED_SIZE], input, b)
      modifies out, rs.encodedPolynomial.coeff, rs.encodedRemainder.coeff
      ensures Valid() && forall b :: 0 <= b < i + 1 ==> BlockEncodes(out[..ENCODED_SIZE], input, b)
    {
      hide Codec.ReedSolomon.Valid, IsCodeword, BlockEncodes;
      Capacity(rs);
      var ret, block := rs.Encode(FramePart(input, i));
      PlaceBlock(block, i, out, input);
    }

    method Encode(input: seq<byte>, out: array<byte>) returns (count: nat)
      requires Valid() && |input| == DECODED_SIZE && out.Length >= ENCODED_SIZE
      requires out !in rs.EncoderObjects() && out !in rs.repr
      modifies out, rs.encodedPolynomial.coeff, rs.encodedRemainder.coeff
      ensures Valid() && count == ENCODED_SIZE
      ensures EncodesFrame(out[..ENCODED_SIZE], input, scrambler)
      // byte k of the frame's part i is byte 4 k + i of the output, scrambled
      ensures forall i, k :: 0 <= i < 4 && 0 <= k < 223 ==>
        Add(out[4 * k + i], scrambler[4 * k + i]) == input[223 * i + k]
    {
      hide Codec.ReedSolomon.Valid, IsCodeword, Scrambled, BlockEncodes;
      for i := 0 to BLOCK_COUNT
        invariant Valid()
        invariant forall b :: 0 <= b < i ==> BlockEncodes(out[..ENCODED_SIZE], input, b)
      {
        EncodeBlock(input, i, out);
      }
      ghost var word := out[..ENCODED_SIZE];
      Scramble(out, scrambler);
      ScrambledTwice(word, scrambler);
      FrameBytesAt(out[..ENCODED_SIZE], input, scrambler);
      count := ENCODED_SIZE;
    }
  }

  class RSDecoder {
    const rs: Codec.ReedSolomon
    const scrambler: seq<byte>

    ghost predicate Valid()
      reads rs, rs.EncoderObjects(), rs.repr
    {
      rs.Valid() && rs.minDistance == NUM_ROOTS && |scrambler| == ENCODED_SIZE
    }

    constructor (scrambler: seq<byte>)
      requires |scrambler| == ENCODED_SIZE
      ensures Valid() && fresh(rs) && fresh(rs.EncoderObjects()) && rs.repr == {} && this.scrambler == scrambler
    {
      rs := new Codec.ReedSolomon(0x187, 1, 1, NUM_ROOTS);
      this.scrambler := scrambler;
    }

    /** Deinterleave and decode block i. */
    method DecodeBlock(input: array<byte>, i: nat, ghost received: seq<byte>) returns (r: Result)
      requires Valid() && input.Length == ENCODED_SIZE && i < BLOCK_COUNT && |received| == ENCODED_SIZE
      requires input[..] == Scrambled(received, scrambler)
      modifies rs, rs.repr
      ensures Valid() && fresh(rs.repr - old(rs.repr))
      ensures r == TableOverrun <==> BlockOverruns(received, scrambler, i)
      ensures r == Failed ==> Unsplit(Block(Scrambled(received, scrambler), i), NUM_ROOTS)
      ensures r.Decoded? ==> |r.msg| == BLOCK_DEC_SIZE
      ensures r.Decoded? ==> Corrects(Block(Scrambled(received, scrambler), i), r.msg, NUM_ROOTS)
      ensures forall word: seq<byte>, frame: seq<byte> :: EncodesFrame(word, frame, scrambler) && FewErrors(received, word) ==>
        r == Decoded(FramePart(frame, i))
    {
      hide Codec.ReedSolomon.Valid, IsCodeword, Scrambled, WithinBound, EncodesFrame, FewErrors, Corrects, Overruns, Unsplit;
      var block: seq<byte>, j: nat := [], i;
      while j < ENCODED_SIZE
        invariant j == At(|block|, i) && |block| <= BLOCK_ENC_SIZE
        invariant forall m :: 0 <= m < |block| ==> block[m] == input[At(m, i)]
      {
        block := block + [input[j]];
        j := j + BLOCK_COUNT;
      }
      assert block == Block(Scrambled(received, scrambler), i);
      r := rs.Decode(block);
      if r.Decoded? {
        CorrectsSize(block, r.msg);
      }
      BlockDecodes(received, scrambler, i, block, r);
    }

    /** Descramble in place and decode block by block; stop at the first block that fails. */
    method Decode(input: array<byte>, out: array<byte>) returns (res: Result)
      requires Valid() && input.Length == ENCODED_SIZE && out.Length >= DECODED_SIZE && input != out
      requires input !in rs.EncoderObjects() && input !in rs.repr
      requires out !in rs.EncoderObjects() && out !in rs.repr
      modifies input, out, rs, rs.repr
      ensures Valid() && fresh(rs.repr - old(rs.repr))
      // soundness on every word, and when the tables are overrun
      ensures res.Decoded? ==> res.msg == out[..DECODED_SIZE] && CorrectsFrame(old(input[..]), res.msg, scrambler)
      ensures res.Decoded? ==> forall i :: 0 <= i < BLOCK_COUNT ==> !BlockOverruns(old(input[..]), scrambler, i)
      ensures res == TableOverrun ==> exists i :: 0 <= i < BLOCK_COUNT && BlockOverruns(old(input[..]), scrambler, i)
      // it fails only at a block that cannot be decoded
      ensures res == Failed ==> exists i :: 0 <= i < BLOCK_COUNT && BlockFails(old(input[..]), scrambler, i)
      // few errors are undone
      ensures forall word: seq<byte>, frame: seq<byte> ::
        EncodesFrame(word, frame, scrambler) && FewErrors(old(input[..]), word) ==> res == Decoded(frame)
    {
      hide Codec.ReedSolomon.Valid, Scrambled, EncodesFrame, FewErrors, Corrects, BlockOverruns, PartsDecoded, CorrectsFrame,
           FramePart, Unsplit, Block;
      ghost var received := input[..];
      assert received[..ENCODED_SIZE] == received;
      Scramble(input, scrambler);
      assert input[..ENCODED_SIZE] == input[..];
      ghost var descrambled := input[..];
      NothingDecoded(received, scrambler, out[..DECODED_SIZE]);
      for i := 0 to BLOCK_COUNT
        invariant Valid() && input[..] == descrambled
        invariant fresh(rs.repr - old(rs.repr))
        invariant PartsDecoded(received, scrambler, out[..DECODED_SIZE], i)
      {
        var r := DecodeBlock(input, i, received);
        if !r.Decoded? {
          assert r == Failed ==> BlockFails(received, scrambler, i);
          return r;
        }
        StorePart(r.msg, i, out, received, scrambler);
      }
      AllDecoded(received, scrambler, out[..DECODED_SIZE]);
      res := Decoded(out[..DECODED_SIZE]);
    }
  }

  lemma FrameSize(scrambler: seq<byte>)
    ensures forall word: seq<byte>, frame: seq<byte> :: EncodesFrame(word, frame, scrambler) ==> |frame| == DECODED_SIZE
  {
    hide BlockEncodes;
  }
}
