/** Packets and their serialised form. */
module Packets {
  import opened Bits

  const MAX_CONTENT_SIZE: nat := 0xFFFF
  const MAX_SERIALIZED_SIZE: nat := MAX_CONTENT_SIZE + 2

  /** The content of a packet. The empty packet stands for no packet. */
  type Packet = p: seq<byte> | |p| <= MAX_CONTENT_SIZE

  /** Big-endian length, then the content. */
  function Serialized(p: Packet): (bytes: seq<byte>)
    ensures |bytes| == |p| + 2
  {
    [|p| / 256, |p| % 256] + p
  }

  /** Write the serialised packet to the front of a buffer. */
  method Serialize(p: Packet, bytes: array<byte>) returns (size: nat)
    requires bytes.Length >= |p| + 2
    modifies bytes
    ensures size == |p| + 2 && bytes[..size] == Serialized(p)
    ensures 256 * bytes[0] as int + bytes[1] as int == |p| && bytes[2..size] == p
    ensures bytes[size..] == old(bytes[|p| + 2..])
  {
    bytes[0] := (|p| / 256) % 256;
    bytes[1] := |p| % 256;
    for i := 0 to |p|
      invariant bytes[0] == |p| / 256 && bytes[1] == |p| % 256
      invariant forall j :: 0 <= j < i ==> bytes[2 + j] == p[j]
      invariant bytes[|p| + 2..] == old(bytes[|p| + 2..])
    {
      bytes[2 + i] := p[i];
    }
    size := |p| + 2;
    forall i | 0 <= i < size ensures bytes[i] == Serialized(p)[i] {
      if i >= 2 {
        assert bytes[2 + (i - 2)] == p[i - 2];
      }
    }
  }

  /** The serialised packets one after the other. */
  function SerializedAll(ps: seq<Packet>): seq<byte> {
    if ps == [] then [] else Serialized(ps[0]) + SerializedAll(ps[1..])
  }

  lemma {:induction false} SerializedAllConcat(ps: seq<Packet>, qs: seq<Packet>)
    ensures SerializedAll(ps + qs) == SerializedAll(ps) + SerializedAll(qs)
    decreases |ps|
  {
    if ps == [] {
      assert ps + qs == qs;
    } else {
      assert (ps + qs)[1..] == ps[1..] + qs;
      SerializedAllConcat(ps[1..], qs);
    }
  }

  lemma SerializedAllSnoc(ps: seq<Packet>, p: Packet)
    ensures SerializedAll(ps + [p]) == SerializedAll(ps) + Serialized(p)
  {
    SerializedAllConcat(ps, [p]);
    assert [p][1..] == [];
    assert SerializedAll([p]) == Serialized(p);
  }

  function NonEmpty(ps: seq<Packet>): (qs: seq<Packet>)
    ensures forall q :: q in qs ==> q != []
  {
    if ps == [] then [] else (if ps[0] != [] then [ps[0]] else []) + NonEmpty(ps[1..])
  }

  lemma {:induction false} NonEmptyConcat(ps: seq<Packet>, qs: seq<Packet>)
    ensures NonEmpty(ps + qs) == NonEmpty(ps) + NonEmpty(qs)
    decreases |ps|
  {
    if ps == [] {
      assert ps + qs == qs;
    } else {
      assert (ps + qs)[1..] == ps[1..] + qs;
      NonEmptyConcat(ps[1..], qs);
    }
  }

  /** Read packets back from their serialised form. */
  function Parse(bytes: seq<byte>): seq<seq<byte>> {
    if |bytes| < 2 then []
    else
      var n := Word(bytes[0], bytes[1]);
      if 2 + n > |bytes| then [] else [bytes[2..2 + n]] + Parse(bytes[2 + n..])
  }

  /** The serialised stream determines the packets. */
  lemma {:induction false} ParseSerialized(ps: seq<Packet>)
    ensures Parse(SerializedAll(ps)) == ps
    decreases |ps|
  {
    if ps != [] {
      var p := ps[0];
      var s := SerializedAll(ps);
      ParseSerialized(ps[1..]);
      assert Word(s[0], s[1]) == |p|;
      assert s[2..2 + |p|] == p && s[2 + |p|..] == SerializedAll(ps[1..]);
    }
  }
}
