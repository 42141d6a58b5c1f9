/** Numbered frames, their serialised form, and how a frame lies in the packet stream. */
module Frames {
  import opened Bits
  import opened Packets

  const FRAME_SIZE: nat := 892
  const FRAME_DATA_SIZE: nat := FRAME_SIZE - 6
  const PKT_OFFS_NONE: nat := 0xFFFF
  const COUNTER_RANGE: nat := 0x10000

  datatype FrameData = FrameData(counter: uint16, firstPacket: uint16, lastPacket: uint16, content: seq<byte>) {
    ghost predicate Valid() {
      |content| == FRAME_DATA_SIZE
    }
  }

  function BigEndian(x: uint16): seq<byte> {
    [x / 256, x % 256]
  }

  /** Counter, packet offsets, content. */
  function FrameBytes(f: FrameData): seq<byte> {
    BigEndian(f.counter) + BigEndian(f.firstPacket) + BigEndian(f.lastPacket) + f.content
  }

  /** The frame a transmitter or receiver works on. */
  class Frame {
    var counter: uint16
    var firstPacket: uint16
    var lastPacket: uint16
    const content: array<byte>

    ghost predicate Valid() {
      content.Length == FRAME_DATA_SIZE
    }

    ghost function Data(): FrameData
      reads this, content
    {
      FrameData(counter, firstPacket, lastPacket, content[..])
    }

    constructor ()
      ensures Valid() && fresh(content)
      ensures counter == firstPacket == lastPacket == 0
    {
      counter, firstPacket, lastPacket := 0, 0, 0;
      content := new byte[FRAME_DATA_SIZE];
    }

    method Serialize(bytes: array<byte>) returns (size: nat)
      requires Valid() && bytes.Length >= FRAME_SIZE && bytes != content
      modifies bytes
      ensures size == FRAME_SIZE && bytes[..FRAME_SIZE] == FrameBytes(Data())
      ensures 256 * bytes[0] as int + bytes[1] as int == counter
      ensures 256 * bytes[2] as int + bytes[3] as int == firstPacket
      ensures 256 * bytes[4] as int + bytes[5] as int == lastPacket && bytes[6..892] == content[..]
    {
      bytes[0], bytes[1] := counter / 256, counter % 256;
      bytes[2], bytes[3] := firstPacket / 256, firstPacket % 256;
      bytes[4], bytes[5] := lastPacket / 256, lastPacket % 256;
      ghost var header := BigEndian(counter) + BigEndian(firstPacket) + BigEndian(lastPacket);
      for i := 0 to FRAME_DATA_SIZE
        invariant bytes[..6] == header
        invariant forall j :: 0 <= j < i ==> bytes[6 + j] == content[j]
      {
        bytes[6 + i] := content[i];
      }
      assert bytes[..FRAME_SIZE] == bytes[..6] + content[..];
      size := FRAME_SIZE;
    }

    /** Read a frame back from its bytes. */
    method Deserialize(bytes: seq<byte>)
      requires Valid() && |bytes| == FRAME_SIZE
      modifies this, content
      ensures FrameBytes(Data()) == bytes
    {
      counter := Word(bytes[0], bytes[1]);
      firstPacket := Word(bytes[2], bytes[3]);
      lastPacket := Word(bytes[4], bytes[5]);
      for i := 0 to FRAME_DATA_SIZE
        invariant counter == Word(bytes[0], bytes[1])
        invariant firstPacket == Word(bytes[2], bytes[3])
        invariant lastPacket == Word(bytes[4], bytes[5])
        invariant forall j :: 0 <= j < i ==> content[j] == bytes[6 + j]
      {
        content[i] := bytes[6 + i];
      }
      BigEndianHeader(bytes, Data());
    }
  }

  lemma WordBytes(high: byte, low: byte)
    ensures BigEndian(Word(high, low)) == [high, low]
  {
  }

  lemma BigEndianHeader(bytes: seq<byte>, f: FrameData)
    requires |bytes| == FRAME_SIZE && f.Valid()
    requires f.counter == Word(bytes[0], bytes[1])
    requires f.firstPacket == Word(bytes[2], bytes[3])
    requires f.lastPacket == Word(bytes[4], bytes[5])
    requires forall j :: 0 <= j < FRAME_DATA_SIZE ==> f.content[j] == bytes[6 + j]
    ensures FrameBytes(f) == bytes
  {
    hide Word, BigEndian;
    WordBytes(bytes[0], bytes[1]);
    WordBytes(bytes[2], bytes[3]);
    WordBytes(bytes[4], bytes[5]);
    assert f.content == bytes[6..];
  }

  /** The bytes determine the frame, so deserialising undoes serialising. */
  lemma FrameBytesInjective(f: FrameData, g: FrameData)
    requires f.Valid() && g.Valid() && FrameBytes(f) == FrameBytes(g)
    ensures f == g
  {
    var s, t := FrameBytes(f), FrameBytes(g);
    assert Word(s[0], s[1]) == f.counter && Word(t[0], t[1]) == g.counter;
    assert Word(s[2], s[3]) == f.firstPacket && Word(t[2], t[3]) == g.firstPacket;
    assert Word(s[4], s[5]) == f.lastPacket && Word(t[4], t[5]) == g.lastPacket;
    assert f.content == s[6..] && g.content == t[6..];
  }

  // ----- frames in the packet stream

  /** The bytes that remain to be sent after a frame. */
  function Rest(carry: seq<byte>, started: seq<Packet>): seq<byte> {
    var s := carry + SerializedAll(started);
    if |s| <= FRAME_DATA_SIZE then [] else s[FRAME_DATA_SIZE..]
  }

  /** The packet bytes of a frame, without the noise that fills it up. */
  function Payload(carry: seq<byte>, started: seq<Packet>): seq<byte> {
    var s := carry + SerializedAll(started);
    if |s| <= FRAME_DATA_SIZE then s else s[..FRAME_DATA_SIZE]
  }

  /** Where packet j of those started in a frame begins. */
  function StartOffset(carry: seq<byte>, started: seq<Packet>, j: nat): nat
    requires j <= |started|
  {
    |carry| + |SerializedAll(started[..j])|
  }

  /** Frame f carries on with the bytes of carry and starts the given packets: its content begins with
      them, its offsets are those of the first and the last packet started, and no length header
      reaches past the end. */
  ghost predicate FrameFits(f: FrameData, carry: seq<byte>, started: seq<Packet>) {
    f.Valid() && Payload(carry, started) <= f.content && Offsets(f.firstPacket, f.lastPacket, carry, started)
  }

  /** The offsets recorded for the packets started in a frame. */
  ghost predicate Offsets(firstPacket: uint16, lastPacket: uint16, carry: seq<byte>, started: seq<Packet>) {
    && (forall p :: p in started ==> p != [])
    && (started == [] ==> firstPacket == lastPacket == PKT_OFFS_NONE)
    && (started != [] ==>
        firstPacket == |carry| && lastPacket == StartOffset(carry, started, |started| - 1) <= FRAME_DATA_SIZE - 2)
  }

  /** The bytes carried into frame i. */
  function Carry(starts: seq<seq<Packet>>, i: nat): seq<byte>
    requires i <= |starts|
  {
    if i == 0 then [] else Rest(Carry(starts, i - 1), starts[i - 1])
  }

  /** Frame i of a run, with the bytes carried into it and the packets it starts. */
  ghost predicate StreamFrame(f: FrameData, i: nat, carry: seq<byte>, started: seq<Packet>) {
    f.counter == i % COUNTER_RANGE && FrameFits(f, carry, started)
  }

  /** A run of the transmitter: frame i has number i and starts the packets starts[i]. */
  ghost predicate ValidStream(frames: seq<FrameData>, starts: seq<seq<Packet>>) {
    && |frames| == |starts|
    && forall i :: 0 <= i < |frames| ==> StreamFrame(frames[i], i, Carry(starts, i), starts[i])
  }

  /** Frames are numbered modulo 65536, and those that start no packet have no offsets. */
  lemma FrameHeader(frames: seq<FrameData>, starts: seq<seq<Packet>>, i: nat)
    requires ValidStream(frames, starts) && i < |frames|
    ensures frames[i].counter == i % 65536
    ensures starts[i] == [] ==> frames[i].firstPacket == frames[i].lastPacket == 0xFFFF
    ensures starts[i] != [] ==> frames[i].firstPacket <= frames[i].lastPacket <= 884
  {
    hide Carry, Payload;
    assert StreamFrame(frames[i], i, Carry(starts, i), starts[i]);
  }

  function Flatten(starts: seq<seq<Packet>>): seq<Packet> {
    if starts == [] then [] else Flatten(starts[..|starts| - 1]) + starts[|starts| - 1]
  }

  /** The payloads of the first n frames one after the other. */
  function Payloads(starts: seq<seq<Packet>>, n: nat): seq<byte>
    requires n <= |starts|
  {
    if n == 0 then [] else Payloads(starts, n - 1) + Payload(Carry(starts, n - 1), starts[n - 1])
  }

  /** Frame contents without noise, followed by what is still to be sent, are the serialised packets. */
  lemma {:induction false} StreamContents(starts: seq<seq<Packet>>, n: nat)
    requires n <= |starts|
    ensures Payloads(starts, n) + Carry(starts, n) == SerializedAll(Flatten(starts[..n]))
  {
    hide Payload, Rest;
    if n == 0 {
      assert starts[..0] == [];
    } else {
      var before := starts[..n - 1];
      StreamContents(starts, n - 1);
      assert starts[..n][..n - 1] == before;
      SerializedAllConcat(Flatten(before), starts[n - 1]);
      var sent, carry, s := Payloads(starts, n - 1), Carry(starts, n - 1), SerializedAll(starts[n - 1]);
      var p, r := Payload(carry, starts[n - 1]), Rest(carry, starts[n - 1]);
      PayloadRest(carry, starts[n - 1]);
      assert (sent + p) + r == sent + (p + r);
      assert sent + (carry + s) == (sent + carry) + s;
    }
  }

  /** A frame's payload and the rest are what there was to send. */
  lemma PayloadRest(carry: seq<byte>, started: seq<Packet>)
    ensures Payload(carry, started) + Rest(carry, started) == carry + SerializedAll(started)
  {
  }

  lemma {:induction false} CarryPrefix(starts: seq<seq<Packet>>, more: seq<seq<Packet>>, i: nat)
    requires i <= |starts|
    ensures Carry(starts + more, i) == Carry(starts, i)
  {
    hide Rest;
    if i != 0 {
      CarryPrefix(starts, more, i - 1);
    }
  }

  lemma ValidSnoc(frames: seq<FrameData>, starts: seq<seq<Packet>>, f: FrameData, started: seq<Packet>)
    requires ValidStream(frames, starts)
    requires StreamFrame(f, |frames|, Carry(starts, |starts|), started)
    ensures ValidStream(frames + [f], starts + [started])
  {
    hide StreamFrame, Carry;
    var all, more, n := frames + [f], starts + [started], |starts|;
    forall i | 0 <= i <= n ensures StreamFrame(all[i], i, Carry(more, i), more[i]) {
      CarryPrefix(starts, [started], i);
    }
  }

  /** One more frame extends a run. */
  lemma StreamSnoc(frames: seq<FrameData>, starts: seq<seq<Packet>>, f: FrameData, started: seq<Packet>)
    requires ValidStream(frames, starts)
    requires StreamFrame(f, |frames|, Carry(starts, |starts|), started)
    ensures ValidStream(frames + [f], starts + [started])
    ensures Carry(starts + [started], |starts| + 1) == Rest(Carry(starts, |starts|), started)
    ensures Flatten(starts + [started]) == Flatten(starts) + started
  {
    hide ValidStream, Rest, Carry, Flatten;
    var more, n := starts + [started], |starts|;
    ValidSnoc(frames, starts, f, started);
    CarryPrefix(starts, [started], n);
    CarryStep(more, n);
    FlattenSnoc(starts, started);
  }

  lemma CarryStep(starts: seq<seq<Packet>>, i: nat)
    requires i < |starts|
    ensures Carry(starts, i + 1) == Rest(Carry(starts, i), starts[i])
  {
    hide Rest;
  }

  lemma FlattenSnoc(starts: seq<seq<Packet>>, started: seq<Packet>)
    ensures Flatten(starts + [started]) == Flatten(starts) + started
  {
    assert (starts + [started])[..|starts|] == starts;
  }
}
