/** The convolutional encoder: a shift register, flushed with zeros. */
module ConvEncode {
  import opened Bits
  import opened BitIo
  import opened ConvCode
  import opened CodeWords
  import opened NoiseMargin

  class Encoder {
    const table: seq<nat>
    const bitWriter: BitWriter

    ghost predicate Valid() {
      |table| == NUM_REGISTERS && forall r :: 0 <= r < NUM_REGISTERS ==> table[r] == Out(r)
    }

    constructor ()
      ensures Valid() && fresh(bitWriter)
    {
      var t := FillTable(RATE, ORDER, POLYNOMIALS);
      table := t;
      bitWriter := new BitWriter();
    }

    function EncodeLen(msgLen: nat): nat {
      RATE * (8 * msgLen + ORDER + 1)
    }

    /** The register and what has been written are those of a path. */
    ghost predicate At(path: seq<bit>, shiftregister: register)
      reads bitWriter, bitWriter.bytes
    {
      bitWriter.Valid() && bitWriter.Contents() == CodeBits(path) && shiftregister == Register(path)
    }

    /** Shift in one bit and write the outputs. */
    method Push(shiftregister: register, b: bit, ghost path: seq<bit>) returns (next: register)
      requires Valid() && At(path, shiftregister) && bitWriter.Room(2)
      modifies bitWriter, bitWriter.bytes
      ensures At(path + [b], next) && bitWriter.bytes == old(bitWriter.bytes)
      ensures next == Register(path + [b])
    {
      hide CodeBits, BitWriter.Contents;
      next := (shiftregister * 2 + b) % NUM_REGISTERS;
      assert (path + [b])[..|path|] == path;
      var out := table[next];
      CodeBitsSnoc(path, b);
      bitWriter.Write(out, RATE);
    }

    lemma EmptyAt()
      requires bitWriter.Valid() && bitWriter.Contents() == []
      ensures At([], 0)
    {
      EmptyPath();
    }

    /** Where the writer is. */
    lemma AtLength(path: seq<bit>, shiftregister: register)
      requires At(path, shiftregister)
      ensures 8 * bitWriter.byteIndex + bitWriter.currentByteLen == 2 * |path|
    {
    }

    /** Shift in the message. */
    method PushMessage(msg: seq<byte>) returns (shiftregister: register)
      requires Valid() && msg != [] && bitWriter.Room(16 * |msg|) && At([], 0)
      modifies bitWriter, bitWriter.bytes
      ensures At(ToBits(msg), shiftregister) && bitWriter.bytes == old(bitWriter.bytes)
    {
      hide At, Valid, BitReader.Remaining, ToBits, Register;
      var bitReader := new BitReader(msg, |msg|);
      ghost var bits := ToBits(msg);
      shiftregister := 0;
      AtLength([], 0);
      assert bits[..0] == [];
      for i := 0 to 8 * |msg|
        invariant bitReader.Valid() && bitReader.Remaining() == bits[i..]
        invariant At(bits[..i], shiftregister) && bitWriter.bytes == old(bitWriter.bytes)
      {
        var b := bitReader.Read(1);
        OneBit(b);
        assert bits[i..][..1] == [bits[i]] && bits[i..][1..] == bits[i + 1..];
        AtLength(bits[..i], shiftregister);
        shiftregister := Push(shiftregister, b, bits[..i]);
        assert bits[..i] + [bits[i]] == bits[..i + 1];
      }
      assert bits[..8 * |msg|] == bits;
    }

    /** Shift in zeros. */
    method PushZeros(register0: register, ghost path: seq<bit>)
      requires Valid() && At(path, register0) && bitWriter.Room(2 * FLUSH)
      modifies bitWriter, bitWriter.bytes
      ensures bitWriter.bytes == old(bitWriter.bytes)
      ensures bitWriter.Valid() && bitWriter.Contents() == CodeBits(path + Zeros(FLUSH))
    {
      hide CodeBits, BitWriter.Contents, Register;
      var shiftregister := register0;
      assert path + Zeros(0) == path;
      for i := 0 to ORDER + 1
        invariant At(path + Zeros(i), shiftregister) && bitWriter.bytes == old(bitWriter.bytes)
      {
        shiftregister := Push(shiftregister, 0, path + Zeros(i));
        assert path + Zeros(i) + [0] == path + Zeros(i + 1);
      }
    }

    /** Encode a message, which must not be empty because its first byte is fetched at once. */
    method Encode(msg: seq<byte>, encoded: array<byte>) returns (bits: nat)
      requires Valid() && msg != [] && 2 * |msg| + 2 <= encoded.Length
      modifies bitWriter, encoded
      ensures bits == EncodeLen(|msg|) == 8 * (2 * |msg| + 2)
      ensures ToBits(encoded[..2 * |msg| + 2]) == CodeBits(Input(msg))
      // the register is empty at first, eight zeros flush it, and both outputs are parities of the last seven bits
      ensures ToBits(encoded[..2 * |msg| + 2]) == CodeBits(ToBits(msg) + [0, 0, 0, 0, 0, 0, 0, 0])
      ensures Convolved(Padded(msg), ToBits(encoded[..2 * |msg| + 2]))
    {
      hide At, CodeBits, BitWriter.Contents, ToBits, Register, Convolved;
      var encodedLenBits := EncodeLen(|msg|);
      var encodedLen := BytesFor(encodedLenBits);
      bitWriter.Reconfigure(encoded, encodedLen);
      EmptyAt();
      var shiftregister := PushMessage(msg);
      AtLength(ToBits(msg), shiftregister);
      PushZeros(shiftregister, ToBits(msg));
      Close(Input(msg), 2 * |msg| + 2);
      InputEnds(msg);
      MessageTaps(msg);
      bits := encodedLenBits;
    }

    /** Flush the writer, which is between bytes. */
    method Close(ghost path: seq<bit>, ghost n: nat)
      requires bitWriter.Valid() && bitWriter.Contents() == CodeBits(path) && |path| == 4 * n
      modifies bitWriter, bitWriter.bytes
      ensures n <= bitWriter.bytes.Length && bitWriter.bytes == old(bitWriter.bytes)
      ensures ToBits(bitWriter.bytes[..n]) == CodeBits(path)
    {
      hide CodeBits, BitWriter.Contents, ToBits;
      WholeBytes();
      bitWriter.FlushByte();
    }

    lemma WholeBytes()
      requires bitWriter.Valid() && |bitWriter.Contents()| % 8 == 0
      ensures bitWriter.currentByteLen == 0 && 8 * bitWriter.byteIndex == |bitWriter.Contents()|
      ensures bitWriter.Contents() == ToBits(bitWriter.bytes[..bitWriter.byteIndex])
    {
      hide ToBits;
      NoBits(bitWriter.currentByte / 2);
    }
  }

  /** The outputs for a message by its bits. */
  lemma MessageTaps(msg: seq<byte>)
    ensures Convolved(Padded(msg), CodeBits(Input(msg)))
  {
    hide CodeBits, ToBits, Input, Parities;
    InputEnds(msg);
    assert Padded(msg) == [0, 0, 0, 0, 0, 0] + Input(msg);
    AllTaps(Input(msg), Padded(msg));
  }

  lemma EmptyPath()
    ensures Register([]) == 0 && CodeBits([]) == []
  {
  }

  lemma OneBit(b: byte)
    ensures b < Pow2(1) ==> b < 2 && LowBits(b, 1) == [b]
  {
    assert Pow2(1) == 2 * Pow2(0);
    if b < 2 {
      assert LowBits(b, 1) == [b % 2] + LowBits(b / 2, 0);
    }
  }
}
