/** Delivery over a lossy channel: which packets the receiver hands on when frames are missing. */
module Delivery {
  import opened Bits
  import opened Packets
  import opened Frames
  import opened Receivers

  // ----- what should be delivered

  /** The stream offset of packet k. */
  function PacketOffset(ps: seq<Packet>, k: nat): nat
    requires k <= |ps|
  {
    |SerializedAll(ps[..k])|
  }

  /** The number of packet bytes in the first n frames. */
  function SentBefore(starts: seq<seq<Packet>>, n: nat): nat
    requires n <= |starts|
  {
    |Payloads(starts, n)|
  }

  /** Frame i holds a byte of packet k. */
  ghost predicate Carries(starts: seq<seq<Packet>>, i: nat, k: nat)
    requires i < |starts| && k < |Flatten(starts)|
  {
    && PacketOffset(Flatten(starts), k) < SentBefore(starts, i + 1)
    && SentBefore(starts, i) < PacketOffset(Flatten(starts), k + 1)
  }

  /** Of the first n frames, those that hold a byte of packet k all arrived. */
  ghost predicate Intact(starts: seq<seq<Packet>>, received: seq<bool>, n: nat, k: nat)
    requires n <= |starts| == |received| && k < |Flatten(starts)|
  {
    forall i :: 0 <= i < n && Carries(starts, i, k) ==> received[i]
  }

  /** Packet k ends within the first n frames and all frames that hold a byte of it arrived. */
  ghost predicate Arrives(starts: seq<seq<Packet>>, received: seq<bool>, n: nat, k: nat)
    requires n <= |starts| == |received| && k < |Flatten(starts)|
  {
    PacketOffset(Flatten(starts), k + 1) <= SentBefore(starts, n) && Intact(starts, received, n, k)
  }

  /** Those of the first m packets that arrive, in order. */
  ghost function Arriving(starts: seq<seq<Packet>>, received: seq<bool>, n: nat, m: nat): seq<Packet>
    requires n <= |starts| == |received| && m <= |Flatten(starts)|
  {
    if m == 0 then []
    else
      Arriving(starts, received, n, m - 1) +
      if Arrives(starts, received, n, m - 1) then [Flatten(starts)[m - 1]] else []
  }

  // ----- offsets

  lemma {:induction false} FlattenPrefix(starts: seq<seq<Packet>>, n: nat)
    requires n <= |starts|
    ensures |Flatten(starts[..n])| <= |Flatten(starts)|
    ensures Flatten(starts)[..|Flatten(starts[..n])|] == Flatten(starts[..n])
    decreases |starts|
  {
    if n == |starts| {
      assert starts[..n] == starts;
    } else {
      var t := starts[..|starts| - 1];
      FlattenPrefix(t, n);
      assert t[..n] == starts[..n];
    }
  }

  /** The number of packets started in the first n frames. */
  function Started(starts: seq<seq<Packet>>, n: nat): (k: nat)
    requires n <= |starts|
    ensures k <= |Flatten(starts)|
  {
    FlattenPrefix(starts, n);
    |Flatten(starts[..n])|
  }

  lemma StartedStep(starts: seq<seq<Packet>>, n: nat)
    requires n < |starts|
    ensures Started(starts, n + 1) == Started(starts, n) + |starts[n]|
    ensures forall j :: 0 <= j < |starts[n]| ==> Flatten(starts)[Started(starts, n) + j] == starts[n][j]
    ensures Flatten(starts)[Started(starts, n)..Started(starts, n + 1)] == starts[n]
  {
    hide Flatten;
    var all, a, b := Flatten(starts), Flatten(starts[..n]), Flatten(starts[..n + 1]);
    assert starts[..n + 1] == starts[..n] + [starts[n]];
    FlattenSnoc(starts[..n], starts[n]);
    FlattenPrefix(starts, n);
    FlattenPrefix(starts, n + 1);
    assert all[|a|..|b|] == b[|a|..] == starts[n];
    forall j | 0 <= j < |starts[n]| ensures all[|a| + j] == starts[n][j] {
      assert all[|a|..|b|][j] == starts[n][j];
    }
  }

  lemma OffsetStep(ps: seq<Packet>, k: nat)
    requires k < |ps|
    ensures PacketOffset(ps, k + 1) == PacketOffset(ps, k) + |ps[k]| + 2
  {
    hide SerializedAll;
    assert ps[..k + 1] == ps[..k] + [ps[k]];
    SerializedAllSnoc(ps[..k], ps[k]);
  }

  lemma {:induction false} OffsetGrows(ps: seq<Packet>, j: nat, k: nat)
    requires j <= k <= |ps|
    ensures PacketOffset(ps, j) + 2 * (k - j) <= PacketOffset(ps, k)
    decreases k - j
  {
    hide PacketOffset;
    if j < k {
      OffsetGrows(ps, j, k - 1);
      OffsetStep(ps, k - 1);
    }
  }

  lemma {:induction false} SentGrows(starts: seq<seq<Packet>>, i: nat, n: nat)
    requires i <= n <= |starts|
    ensures SentBefore(starts, i) <= SentBefore(starts, n)
    decreases n - i
  {
    hide Payload, Carry;
    if i < n {
      SentGrows(starts, i, n - 1);
    }
  }

  lemma SentStep(starts: seq<seq<Packet>>, n: nat)
    requires n < |starts|
    ensures SentBefore(starts, n + 1) == SentBefore(starts, n) + |Payload(Carry(starts, n), starts[n])|
  {
    hide Payload, Carry;
  }

  /** All started packets are sent but for the carry. */
  lemma StartedOffset(starts: seq<seq<Packet>>, n: nat)
    requires n <= |starts|
    ensures PacketOffset(Flatten(starts), Started(starts, n)) == SentBefore(starts, n) + |Carry(starts, n)|
  {
    hide SerializedAll, Carry;
    FlattenPrefix(starts, n);
    StreamContents(starts, n);
  }

  // ----- the packet in progress

  /** t is what is left of the content of p. */
  ghost predicate IsTail(t: seq<byte>, p: Packet) {
    0 < |t| <= |p| && t == p[|p| - |t|..]
  }

  /** Packet p read up to its tail t. */
  function InProgress(p: Packet, t: seq<byte>): Partial {
    Partial(|p|, if |t| <= |p| then p[..|p| - |t|] else [])
  }

  /** What is left after a frame that starts packets belongs to the last of them, its header not included. */
  lemma StartedTail(f: FrameData, carry: seq<byte>, started: seq<Packet>)
    requires FrameFits(f, carry, started) && started != []
    requires Rest(carry, started) != []
    ensures IsTail(Rest(carry, started), started[|started| - 1])
  {
    var n := |started| - 1;
    var before, p := started[..n], started[n];
    SplitStarted(carry, started, n);
    var s := carry + SerializedAll(started);
    var offset := StartOffset(carry, started, n);
    assert |s| == offset + 2 + |p|;
    assert s[offset + 2..] == p;
    assert s[FRAME_DATA_SIZE..] == s[offset + 2..][FRAME_DATA_SIZE - offset - 2..];
    hide SerializedAll, FrameFits;
  }

  /** Where packet j of those started begins and ends. */
  lemma SplitOffsets(carry: seq<byte>, started: seq<Packet>, j: nat)
    requires j < |started|
    ensures StartOffset(carry, started, j) == |carry| + |SerializedAll(started[..j])|
    ensures StartOffset(carry, started, j + 1) == StartOffset(carry, started, j) + 2 + |started[j]|
    ensures StartOffset(carry, started, |started|) == |carry + SerializedAll(started)|
  {
    hide SerializedAll, Serialized;
    assert started[..j + 1] == started[..j] + [started[j]];
    assert started[..|started|] == started;
    SerializedAllSnoc(started[..j], started[j]);
  }

  /** The stream around packet j of those started. */
  lemma SplitStarted(carry: seq<byte>, started: seq<Packet>, j: nat)
    requires j < |started|
    ensures var s := carry + SerializedAll(started);
            var offset := StartOffset(carry, started, j);
            && |s| >= offset + 2 + |started[j]|
            && s[offset..offset + 2] == [|started[j]| / 256, |started[j]| % 256]
            && s[offset + 2..offset + 2 + |started[j]|] == started[j]
            && StartOffset(carry, started, j + 1) == offset + 2 + |started[j]|
            && (j + 1 == |started| ==> |s| == offset + 2 + |started[j]|)
  {
    hide SerializedAll, Serialized, StartOffset;
    var a, b, p := started[..j], started[j + 1..], started[j];
    assert started == a + ([p] + b);
    SerializedAllConcat(a, [p] + b);
    SerializedAllConcat([p], b);
    SerializedOne(p);
    SplitOffsets(carry, started, j);
    JoinSplit(carry, SerializedAll(a), Serialized(p), SerializedAll(b), SerializedAll(started));
  }

  lemma SerializedOne(p: Packet)
    ensures SerializedAll([p]) == Serialized(p)
    ensures Serialized(p)[..2] == [|p| / 256, |p| % 256] && Serialized(p)[2..] == p
  {
    assert [p][1..] == [];
    assert SerializedAll([]) == [];
  }

  lemma JoinSplit(carry: seq<byte>, a: seq<byte>, m: seq<byte>, b: seq<byte>, all: seq<byte>)
    requires all == a + (m + b) && |m| >= 2
    ensures |carry + all| == |carry| + |a| + |m| + |b|
    ensures (carry + all)[|carry| + |a|..|carry| + |a| + 2] == m[..2]
    ensures (carry + all)[|carry| + |a| + 2..|carry| + |a| + |m|] == m[2..]
  {
  }

  // ----- what one frame gives

  /** The packets that both start and end in a frame. */
  function DoneStarted(carry: seq<byte>, started: seq<Packet>): seq<Packet> {
    if started != [] && Rest(carry, started) != [] then started[..|started| - 1] else started
  }

  /** The packet under assembly after a frame that starts packets. */
  function StartedPartial(carry: seq<byte>, started: seq<Packet>): Partial {
    if started == [] || Rest(carry, started) == [] then NO_PARTIAL
    else InProgress(started[|started| - 1], Rest(carry, started))
  }

  /** From the header of packet j on, the receiver reads exactly the packets started. */
  lemma {:induction false} ExtractStarted(f: FrameData, carry: seq<byte>, started: seq<Packet>, j: nat,
                                          pos: nat, first: bool, last: bool)
    requires FrameFits(f, carry, started) && j < |started|
    requires pos + 2 <= FRAME_DATA_SIZE
    requires (if first then f.firstPacket else pos) == StartOffset(carry, started, j)
    ensures j <= |DoneStarted(carry, started)|
    ensures Extract(f, pos, first, last, NO_PARTIAL) ==
      Extraction(DoneStarted(carry, started)[j..], StartedPartial(carry, started), false)
    decreases |started| - j
  {
    hide Extract, SerializedAll, StartOffset, FrameFits, Rest;
    var n := |started| - 1;
    var start, p := StartOffset(carry, started, j), started[j];
    FitsOffsets(f, carry, started, j);
    HeaderBytes(f, carry, started, j);
    ExtractHeader(f, pos, first, last, start);
    SplitStarted(carry, started, j);
    if start + 2 + |p| > FRAME_DATA_SIZE {
      LastCut(f, carry, started, j, start == f.lastPacket);
    } else {
      WholePacket(f, carry, started, j);
      if j < n {
        FitsOffsets(f, carry, started, j + 1);
        ExtractStarted(f, carry, started, j + 1, start + 2 + |p|, false, false);
        assert DoneStarted(carry, started)[j..] == [p] + DoneStarted(carry, started)[j + 1..];
      }
    }
  }

  /** A packet that ends within the frame is handed on; reading goes on unless it is the frame's last. */
  lemma WholePacket(f: FrameData, carry: seq<byte>, started: seq<Packet>, j: nat)
    requires FrameFits(f, carry, started) && j < |started|
    requires StartOffset(carry, started, j) + 2 + |started[j]| <= FRAME_DATA_SIZE
    ensures var p, o := started[j], StartOffset(carry, started, j) + 2;
            var e := Extract(f, o + |p|, false, false, NO_PARTIAL);
            if j == |started| - 1 then
              && Extract(f, o, false, true, Partial(|p|, [])) == Extraction([p], NO_PARTIAL, false)
              && DoneStarted(carry, started)[j..] == [p] && StartedPartial(carry, started) == NO_PARTIAL
            else
              Extract(f, o, false, false, Partial(|p|, [])) == Extraction([p] + e.done, e.partial, e.overread)
  {
    hide Extract, SerializedAll, StartOffset, FrameFits;
    var p, o := started[j], StartOffset(carry, started, j) + 2;
    FitsValid(f, carry, started);
    FitsOffsets(f, carry, started, j);
    ContentBytes(f, carry, started, j, |p|);
    assert [] + p[..|p|] == p;
    ExtractContent(f, o, false, j == |started| - 1, Partial(|p|, []));
    SplitStarted(carry, started, j);
  }

  /** The last packet's offset tells it from the others, and the first packet's offset is the frame's. */
  lemma FitsOffsets(f: FrameData, carry: seq<byte>, started: seq<Packet>, j: nat)
    requires FrameFits(f, carry, started) && j < |started|
    ensures StartOffset(carry, started, j) + 2 <= FRAME_DATA_SIZE
    ensures StartOffset(carry, started, j) == f.lastPacket <==> j == |started| - 1
    ensures f.firstPacket != PKT_OFFS_NONE
    ensures |f.content| == FRAME_DATA_SIZE
  {
    hide StartOffset, Payload;
    OffsetsOrdered(carry, started, j, |started| - 1);
    OffsetsDiffer(carry, started, j, |started| - 1);
    OffsetsOrdered(carry, started, 0, |started| - 1);
    assert StartOffset(carry, started, 0) == |carry| by {
      FirstOffset(carry, started);
    }
  }

  lemma FirstOffset(carry: seq<byte>, started: seq<Packet>)
    ensures StartOffset(carry, started, 0) == |carry|
  {
    assert started[..0] == [];
  }

  lemma {:induction false} OffsetsOrdered(carry: seq<byte>, started: seq<Packet>, i: nat, j: nat)
    requires i <= j <= |started|
    ensures StartOffset(carry, started, i) <= StartOffset(carry, started, j)
    decreases j - i
  {
    hide StartOffset;
    if i < j {
      OffsetsOrdered(carry, started, i, j - 1);
      SplitStarted(carry, started, j - 1);
    }
  }

  lemma OffsetsDiffer(carry: seq<byte>, started: seq<Packet>, i: nat, j: nat)
    requires i <= j <= |started|
    ensures StartOffset(carry, started, i) == StartOffset(carry, started, j) <==> i == j
  {
    hide StartOffset;
    if i < j {
      OffsetsOrdered(carry, started, i + 1, j);
      SplitStarted(carry, started, i);
    }
  }

  /** A frame's content is the stream as far as the stream goes. */
  lemma PayloadBytes(f: FrameData, carry: seq<byte>, started: seq<Packet>, lo: nat, hi: nat)
    requires FrameFits(f, carry, started)
    requires lo <= hi <= FRAME_DATA_SIZE && hi <= |carry + SerializedAll(started)|
    ensures f.content[lo..hi] == (carry + SerializedAll(started))[lo..hi]
  {
    hide SerializedAll, StartOffset;
    var s, t := carry + SerializedAll(started), Payload(carry, started);
    assert t[lo..hi] == s[lo..hi];
    assert f.content[..|t|] == t;
    assert f.content[lo..hi] == f.content[..|t|][lo..hi];
  }

  lemma HeaderBytes(f: FrameData, carry: seq<byte>, started: seq<Packet>, j: nat)
    requires FrameFits(f, carry, started) && j < |started|
    requires StartOffset(carry, started, j) + 2 <= FRAME_DATA_SIZE
    ensures Word(f.content[StartOffset(carry, started, j)], f.content[StartOffset(carry, started, j) + 1]) == |started[j]|
  {
    hide SerializedAll, StartOffset, FrameFits;
    FitsValid(f, carry, started);
    var o := StartOffset(carry, started, j);
    SplitStarted(carry, started, j);
    PayloadBytes(f, carry, started, o, o + 2);
    assert f.content[o..o + 2][0] == f.content[o] && f.content[o..o + 2][1] == f.content[o + 1];
  }

  lemma FitsValid(f: FrameData, carry: seq<byte>, started: seq<Packet>)
    requires FrameFits(f, carry, started)
    ensures |f.content| == FRAME_DATA_SIZE
    ensures forall j :: 0 <= j < |started| ==> started[j] != []
  {
    hide Payload;
    forall j | 0 <= j < |started| ensures started[j] != [] {
      assert started[j] in started;
    }
  }

  lemma ContentBytes(f: FrameData, carry: seq<byte>, started: seq<Packet>, j: nat, m: nat)
    requires FrameFits(f, carry, started) && j < |started| && m <= |started[j]|
    requires StartOffset(carry, started, j) + 2 + m <= FRAME_DATA_SIZE
    ensures |f.content| == FRAME_DATA_SIZE
    ensures f.content[StartOffset(carry, started, j) + 2..StartOffset(carry, started, j) + 2 + m] == started[j][..m]
  {
    hide SerializedAll, StartOffset, FrameFits;
    FitsValid(f, carry, started);
    var o, p := StartOffset(carry, started, j) + 2, started[j];
    var s := carry + SerializedAll(started);
    SplitStarted(carry, started, j);
    PayloadBytes(f, carry, started, o, o + m);
    SubSlice(s, o, |p|, m);
  }

  lemma SubSlice(s: seq<byte>, o: nat, n: nat, m: nat)
    requires o + n <= |s| && m <= n
    ensures s[o..o + n][..m] == s[o..o + m]
  {
  }

  /** A packet that reaches past the frame's end is the last one started, and its tail is left. */
  lemma CutPacket(f: FrameData, carry: seq<byte>, started: seq<Packet>, j: nat)
    requires FrameFits(f, carry, started) && j < |started|
    requires StartOffset(carry, started, j) + 2 <= FRAME_DATA_SIZE
    requires StartOffset(carry, started, j) + 2 + |started[j]| > FRAME_DATA_SIZE
    ensures j == |started| - 1 == |DoneStarted(carry, started)| && f.Valid()
    ensures StartedPartial(carry, started) ==
      Partial(|started[j]|, started[j][..FRAME_DATA_SIZE - 2 - StartOffset(carry, started, j)])
  {
    hide SerializedAll, StartOffset;
    SplitStarted(carry, started, j);
    if j < |started| - 1 {
      OffsetsOrdered(carry, started, j + 1, |started| - 1);
    }
    hide FrameFits;
    assert |Rest(carry, started)| == |started[j]| - (FRAME_DATA_SIZE - 2 - StartOffset(carry, started, j));
  }

  /** The last packet of a frame is cut at the frame's end. */
  lemma LastCut(f: FrameData, carry: seq<byte>, started: seq<Packet>, j: nat, isLast: bool)
    requires FrameFits(f, carry, started) && j < |started|
    requires StartOffset(carry, started, j) + 2 <= FRAME_DATA_SIZE
    requires StartOffset(carry, started, j) + 2 + |started[j]| > FRAME_DATA_SIZE
    ensures j == |started| - 1 == |DoneStarted(carry, started)|
    ensures Extract(f, StartOffset(carry, started, j) + 2, false, isLast, Partial(|started[j]|, [])) ==
      Extraction([], StartedPartial(carry, started), false)
  {
    hide Extract, SerializedAll, StartOffset, FrameFits, StartedPartial, DoneStarted;
    var p, o := started[j], StartOffset(carry, started, j) + 2;
    var m := FRAME_DATA_SIZE - o;
    CutPacket(f, carry, started, j);
    ContentBytes(f, carry, started, j, m);
    assert [] + p[..m] == p[..m];
    if m == 0 {
      ExtractEnd(f, o, false, isLast, Partial(|p|, []));
      assert p[..m] == [];
    } else {
      ExtractContent(f, o, false, isLast, Partial(|p|, []));
      ExtractEnd(f, FRAME_DATA_SIZE, false, isLast, Partial(|p|, p[..m]));
    }
  }

  /** A frame read without a packet under assembly gives the packets it starts. */
  lemma ExtractFresh(f: FrameData, carry: seq<byte>, started: seq<Packet>, pos: nat)
    requires FrameFits(f, carry, started) && started != [] && pos + 2 <= FRAME_DATA_SIZE
    ensures Extract(f, pos, true, false, NO_PARTIAL) ==
      Extraction(DoneStarted(carry, started), StartedPartial(carry, started), false)
  {
    hide Extract;
    assert started[..0] == [];
    ExtractStarted(f, carry, started, 0, pos, true, false);
    assert DoneStarted(carry, started)[0..] == DoneStarted(carry, started);
  }

  /** A frame read with the packet that is carried into it. */
  lemma ExtractCarried(f: FrameData, carry: seq<byte>, started: seq<Packet>, p: Packet)
    requires FrameFits(f, carry, started) && IsTail(carry, p)
    ensures Extract(f, 0, true, false, InProgress(p, carry)) ==
      if |carry| > FRAME_DATA_SIZE then Extraction([], InProgress(p, Rest(carry, started)), false)
      else Extraction([p] + DoneStarted(carry, started), StartedPartial(carry, started), false)
    ensures |carry| > FRAME_DATA_SIZE ==> started == [] && IsTail(Rest(carry, started), p)
  {
    hide Extract;
    var q := InProgress(p, carry);
    var n := Readable(0, q);
    if |carry| > FRAME_DATA_SIZE {
      LongCarry(carry, started);
    }
    PayloadBytes(f, carry, started, 0, n);
    assert f.content[0..n] == carry[..n];
    assert q.bytes + carry[..n] == p[..|p| - |carry| + n];
    ExtractContent(f, 0, true, false, q);
    assert [p] + [] == [p] && p[..|p|] == p;
    if |carry| > FRAME_DATA_SIZE {
      assert p[..|p| - |Rest(carry, started)|] == q.bytes + carry[..n];
      ExtractEnd(f, FRAME_DATA_SIZE, true, false, InProgress(p, Rest(carry, started)));
    } else if started != [] {
      CarryRoom(f, carry, started);
      ExtractFresh(f, carry, started, |carry|);
    }
  }

  /** A carry that fills the frame leaves no room to start a packet. */
  lemma LongCarry(carry: seq<byte>, started: seq<Packet>)
    requires |carry| > FRAME_DATA_SIZE
    requires started != [] ==> StartOffset(carry, started, |started| - 1) <= FRAME_DATA_SIZE - 2
    ensures started == [] && Rest(carry, started) == carry[FRAME_DATA_SIZE..] && |carry + SerializedAll(started)| == |carry|
  {
    assert started == [];
    assert carry + [] == carry;
  }

  lemma CarryRoom(f: FrameData, carry: seq<byte>, started: seq<Packet>)
    requires FrameFits(f, carry, started) && started != []
    ensures |carry| + 2 <= FRAME_DATA_SIZE && f.firstPacket == |carry| != PKT_OFFS_NONE
  {
    hide Payload;
    assert started[..0] == [];
    OffsetsOrdered(carry, started, 0, |started| - 1);
  }

  // ----- what should arrive, frame by frame

  lemma IntactNext(starts: seq<seq<Packet>>, received: seq<bool>, n: nat, k: nat)
    requires n < |starts| == |received| && k < |Flatten(starts)|
    ensures Intact(starts, received, n + 1, k) <==>
      Intact(starts, received, n, k) && (Carries(starts, n, k) ==> received[n])
  {
    hide Carries;
  }

  /** A packet that ended before frame n is not in it. */
  lemma ArrivesKept(starts: seq<seq<Packet>>, received: seq<bool>, n: nat, k: nat)
    requires n < |starts| == |received| && k < |Flatten(starts)|
    requires PacketOffset(Flatten(starts), k + 1) <= SentBefore(starts, n)
    ensures Arrives(starts, received, n + 1, k) <==> Arrives(starts, received, n, k)
  {
    hide Intact;
    SentGrows(starts, n, n + 1);
    IntactNext(starts, received, n, k);
  }

  /** A packet that starts at or after the end of the first n frames is not in them. */
  lemma {:induction false} NotBefore(starts: seq<seq<Packet>>, received: seq<bool>, n: nat, k: nat)
    requires n <= |starts| == |received| && k < |Flatten(starts)|
    requires SentBefore(starts, n) <= PacketOffset(Flatten(starts), k)
    ensures Intact(starts, received, n, k)
  {
    hide PacketOffset, SentBefore, Flatten;
    forall i | 0 <= i < n ensures !Carries(starts, i, k) {
      SentGrows(starts, i + 1, n);
    }
  }

  /** Packets before one that ended earlier keep their status. */
  lemma {:induction false} ArrivingKept(starts: seq<seq<Packet>>, received: seq<bool>, n: nat, m: nat)
    requires n < |starts| == |received| && m <= |Flatten(starts)|
    requires PacketOffset(Flatten(starts), m) <= SentBefore(starts, n)
    ensures Arriving(starts, received, n + 1, m) == Arriving(starts, received, n, m)
  {
    hide Arrives;
    if m != 0 {
      OffsetGrows(Flatten(starts), m - 1, m);
      ArrivingKept(starts, received, n, m - 1);
      ArrivesKept(starts, received, n, m - 1);
    }
  }

  /** Packets that end later have not arrived. */
  lemma {:induction false} ArrivingLater(starts: seq<seq<Packet>>, received: seq<bool>, n: nat, m: nat, k: nat)
    requires n <= |starts| == |received| && m <= k <= |Flatten(starts)|
    requires m < |Flatten(starts)| ==> PacketOffset(Flatten(starts), m + 1) > SentBefore(starts, n)
    ensures Arriving(starts, received, n, k) == Arriving(starts, received, n, m)
    decreases k - m
  {
    hide Intact;
    if m < k {
      ArrivingLater(starts, received, n, m, k - 1);
      OffsetGrows(Flatten(starts), m + 1, k);
    }
  }

  /** A packet that starts and ends in frame n arrives with it. */
  lemma OwnFrame(starts: seq<seq<Packet>>, received: seq<bool>, n: nat, k: nat)
    requires n < |starts| == |received| && Started(starts, n) <= k < |Flatten(starts)|
    requires PacketOffset(Flatten(starts), k + 1) <= SentBefore(starts, n + 1)
    ensures Arrives(starts, received, n + 1, k) <==> received[n]
  {
    hide Intact, PacketOffset, SentBefore, Carry, Started, Flatten;
    OffsetGrows(Flatten(starts), k, k + 1);
    OffsetGrows(Flatten(starts), Started(starts, n), k);
    StartedOffset(starts, n);
    NotBefore(starts, received, n, k);
    IntactNext(starts, received, n, k);
  }

  lemma {:induction false} ArrivingStarted(starts: seq<seq<Packet>>, received: seq<bool>, n: nat, j: nat)
    requires n < |starts| == |received|
    requires j <= |starts[n]| && Started(starts, n) + j <= |Flatten(starts)|
    requires PacketOffset(Flatten(starts), Started(starts, n) + j) <= SentBefore(starts, n + 1)
    ensures Arriving(starts, received, n + 1, Started(starts, n) + j) ==
      Arriving(starts, received, n + 1, Started(starts, n)) + if received[n] then starts[n][..j] else []
    decreases j
  {
    hide Arrives, PacketOffset, SentBefore, Started, Flatten;
    if j != 0 {
      var k := Started(starts, n) + j - 1;
      StartedStep(starts, n);
      OffsetGrows(Flatten(starts), k, k + 1);
      ArrivingStarted(starts, received, n, j - 1);
      OwnFrame(starts, received, n, k);
      assert starts[n][..j] == starts[n][..j - 1] + [starts[n][j - 1]];
    }
  }

  // ----- the packet carried into a frame

  /** What is carried is the tail of the packet started last. */
  lemma {:induction false} CarryTail(frames: seq<FrameData>, starts: seq<seq<Packet>>, n: nat)
    requires ValidStream(frames, starts) && n <= |starts|
    ensures Carry(starts, n) != [] ==>
      Started(starts, n) > 0 && IsTail(Carry(starts, n), Flatten(starts)[Started(starts, n) - 1])
  {
    hide Started, Flatten, FrameFits, Rest, Carry, IsTail;
    if n == 0 {
      CarryStart(starts);
    } else {
      var carry, started := Carry(starts, n - 1), starts[n - 1];
      CarryTail(frames, starts, n - 1);
      CarryStep(starts, n - 1);
      StartedSame(starts, n - 1);
      assert FrameFits(frames[n - 1], carry, started);
      if Rest(carry, started) != [] {
        if started != [] {
          LastStarted(starts, n - 1);
          StartedTail(frames[n - 1], carry, started);
        } else {
          RestOfCarry(carry, started);
          ExtractCarried(frames[n - 1], carry, started, Flatten(starts)[Started(starts, n - 1) - 1]);
        }
      }
    }
  }

  lemma CarryStart(starts: seq<seq<Packet>>)
    ensures Carry(starts, 0) == []
  {
  }

  lemma StartedSame(starts: seq<seq<Packet>>, n: nat)
    requires n < |starts|
    ensures starts[n] == [] ==> Started(starts, n + 1) == Started(starts, n)
  {
    hide Flatten, Started;
    StartedStep(starts, n);
  }

  lemma RestOfCarry(carry: seq<byte>, started: seq<Packet>)
    requires started == []
    ensures Rest(carry, started) != [] <==> |carry| > FRAME_DATA_SIZE
  {
    assert SerializedAll(started) == [];
    assert carry + [] == carry;
  }

  /** The packet in progress after n frames, if there is one, and all its frames so far arrived. */
  ghost predicate Progressing(starts: seq<seq<Packet>>, received: seq<bool>, n: nat)
    requires n <= |starts| == |received|
  {
    && Carry(starts, n) != [] && Started(starts, n) > 0
    && Intact(starts, received, n, Started(starts, n) - 1)
  }

  /** The packets that end in frame n, given whether the packet carried into it is whole so far. */
  ghost function EndingIn(starts: seq<seq<Packet>>, received: seq<bool>, n: nat): seq<Packet>
    requires n < |starts| == |received|
  {
    if !received[n] then []
    else
      (if Progressing(starts, received, n) && |Carry(starts, n)| <= FRAME_DATA_SIZE
       then [Flatten(starts)[Started(starts, n) - 1]] else [])
      + DoneStarted(Carry(starts, n), starts[n])
  }

  /** The number of packets that end within the first n frames. */
  ghost function Ended(starts: seq<seq<Packet>>, n: nat): (m: nat)
    requires n <= |starts|
    ensures m <= |Flatten(starts)|
  {
    if Carry(starts, n) != [] && Started(starts, n) > 0 then Started(starts, n) - 1 else Started(starts, n)
  }

  lemma EndedOffsets(frames: seq<FrameData>, starts: seq<seq<Packet>>, n: nat)
    requires ValidStream(frames, starts) && n <= |starts|
    ensures PacketOffset(Flatten(starts), Ended(starts, n)) <= SentBefore(starts, n)
    ensures Ended(starts, n) < |Flatten(starts)| ==>
      SentBefore(starts, n) < PacketOffset(Flatten(starts), Ended(starts, n) + 1)
  {
    hide Flatten, Started, PacketOffset, SentBefore, Carry, FrameFits;
    var ps, m := Flatten(starts), Ended(starts, n);
    CarryTail(frames, starts, n);
    StartedOffset(starts, n);
    if m < |ps| {
      OffsetStep(ps, m);
    }
  }

  /** What has arrived after n frames is decided by the packets that have ended. */
  lemma ArrivingEnded(frames: seq<FrameData>, starts: seq<seq<Packet>>, received: seq<bool>, n: nat)
    requires ValidStream(frames, starts) && n <= |starts| == |received|
    ensures Arriving(starts, received, n, |Flatten(starts)|) == Arriving(starts, received, n, Ended(starts, n))
  {
    hide Flatten, Started, PacketOffset, SentBefore, Carry, FrameFits, Arrives;
    EndedOffsets(frames, starts, n);
    ArrivingLater(starts, received, n, Ended(starts, n), |Flatten(starts)|);
  }

  /** The carried packet arrives with frame n if its tail fits and its other frames arrived. */
  lemma CarriedArrives(frames: seq<FrameData>, starts: seq<seq<Packet>>, received: seq<bool>, n: nat)
    requires ValidStream(frames, starts) && n < |starts| == |received|
    requires Carry(starts, n) != [] && Started(starts, n) > 0 && |Carry(starts, n)| <= FRAME_DATA_SIZE
    ensures Arrives(starts, received, n + 1, Started(starts, n) - 1) <==>
      received[n] && Intact(starts, received, n, Started(starts, n) - 1)
  {
    hide Flatten, Started, PacketOffset, SentBefore, Carry, FrameFits, Intact;
    CarriedOffsets(frames, starts, n);
    IntactNext(starts, received, n, Started(starts, n) - 1);
  }

  lemma CarriedOffsets(frames: seq<FrameData>, starts: seq<seq<Packet>>, n: nat)
    requires ValidStream(frames, starts) && n < |starts| && Carry(starts, n) != [] && Started(starts, n) > 0
    ensures Carries(starts, n, Started(starts, n) - 1)
    ensures |Carry(starts, n)| <= FRAME_DATA_SIZE ==>
      PacketOffset(Flatten(starts), Started(starts, n)) <= SentBefore(starts, n + 1)
  {
    hide Flatten, Started, PacketOffset, SentBefore, Carry, FrameFits;
    EndedOffsets(frames, starts, n);
    StartedOffset(starts, n);
    SentStep(starts, n);
    PayloadSize(Carry(starts, n), starts[n]);
  }

  lemma PayloadSize(carry: seq<byte>, started: seq<Packet>)
    ensures |carry| <= FRAME_DATA_SIZE ==> |Payload(carry, started)| >= |carry|
    ensures |carry| > FRAME_DATA_SIZE ==> |Payload(carry, started)| == FRAME_DATA_SIZE
  {
  }

  /** No packet ends in a frame that the carry fills. */
  lemma EndedLong(frames: seq<FrameData>, starts: seq<seq<Packet>>, n: nat)
    requires ValidStream(frames, starts) && n < |starts| && |Carry(starts, n)| > FRAME_DATA_SIZE
    ensures Ended(starts, n + 1) == Ended(starts, n) && DoneStarted(Carry(starts, n), starts[n]) == []
  {
    hide Flatten, Started, Carry, FrameFits, Rest;
    CarryTail(frames, starts, n);
    StartedStep(starts, n);
    CarryStep(starts, n);
    LongFrame(frames, starts, n);
  }

  /** Otherwise those of the packets it starts end that end within it. */
  lemma EndedShort(frames: seq<FrameData>, starts: seq<seq<Packet>>, n: nat)
    requires ValidStream(frames, starts) && n < |starts| && |Carry(starts, n)| <= FRAME_DATA_SIZE
    ensures Started(starts, n) <= Ended(starts, n + 1) <= Started(starts, n) + |starts[n]|
    ensures DoneStarted(Carry(starts, n), starts[n]) == starts[n][..Ended(starts, n + 1) - Started(starts, n)]
  {
    hide Flatten, Started, Carry, FrameFits, Rest;
    CarryTail(frames, starts, n + 1);
    StartedStep(starts, n);
    CarryStep(starts, n);
    ShortFrame(Carry(starts, n), starts[n]);
  }

  /** Of the packets started before frame n, only the carried one can arrive with it. */
  lemma ArrivingCarried(frames: seq<FrameData>, starts: seq<seq<Packet>>, received: seq<bool>, n: nat)
    requires ValidStream(frames, starts) && n < |starts| == |received| && |Carry(starts, n)| <= FRAME_DATA_SIZE
    ensures Arriving(starts, received, n + 1, Started(starts, n)) ==
      Arriving(starts, received, n, |Flatten(starts)|) +
      if received[n] && Progressing(starts, received, n) then [Flatten(starts)[Started(starts, n) - 1]] else []
  {
    hide Flatten, Started, PacketOffset, SentBefore, Carry, FrameFits, Arrives, Intact;
    CarryTail(frames, starts, n);
    ArrivingEnded(frames, starts, received, n);
    EndedOffsets(frames, starts, n);
    ArrivingKept(starts, received, n, Ended(starts, n));
    if Carry(starts, n) != [] {
      CarriedArrives(frames, starts, received, n);
    }
  }

  /** What arrives with frame n: the packets that end in it. */
  lemma ArrivingStep(frames: seq<FrameData>, starts: seq<seq<Packet>>, received: seq<bool>, n: nat)
    requires ValidStream(frames, starts) && n < |starts| == |received|
    ensures Arriving(starts, received, n + 1, |Flatten(starts)|) ==
      Arriving(starts, received, n, |Flatten(starts)|) + EndingIn(starts, received, n)
  {
    hide Flatten, Carry, Arriving, Started, ValidStream, EndingIn;
    if |Carry(starts, n)| > FRAME_DATA_SIZE {
      ArrivingLong(frames, starts, received, n);
    } else {
      ArrivingShort(frames, starts, received, n);
    }
  }

  lemma ArrivingLong(frames: seq<FrameData>, starts: seq<seq<Packet>>, received: seq<bool>, n: nat)
    requires ValidStream(frames, starts) && n < |starts| == |received| && |Carry(starts, n)| > FRAME_DATA_SIZE
    ensures EndingIn(starts, received, n) == []
    ensures Arriving(starts, received, n + 1, |Flatten(starts)|) == Arriving(starts, received, n, |Flatten(starts)|)
  {
    hide Flatten, Started, PacketOffset, SentBefore, Carry, Arriving, Ended, ValidStream, Progressing, DoneStarted;
    EndedLong(frames, starts, n);
    ArrivingEnded(frames, starts, received, n);
    ArrivingEnded(frames, starts, received, n + 1);
    EndedOffsets(frames, starts, n);
    ArrivingKept(starts, received, n, Ended(starts, n));
  }

  lemma ArrivingShort(frames: seq<FrameData>, starts: seq<seq<Packet>>, received: seq<bool>, n: nat)
    requires ValidStream(frames, starts) && n < |starts| == |received| && |Carry(starts, n)| <= FRAME_DATA_SIZE
    ensures Arriving(starts, received, n + 1, |Flatten(starts)|) ==
      Arriving(starts, received, n, |Flatten(starts)|) + EndingIn(starts, received, n)
  {
    hide Flatten, Started, PacketOffset, SentBefore, Carry, Arriving, Ended, ValidStream, Intact, DoneStarted;
    EndedShort(frames, starts, n);
    ArrivingEnded(frames, starts, received, n + 1);
    EndedOffsets(frames, starts, n + 1);
    ArrivingCarried(frames, starts, received, n);
    var j := Ended(starts, n + 1) - Started(starts, n);
    assert Started(starts, n) + j == Ended(starts, n + 1);
    ArrivingStarted(starts, received, n, j);
    var before := Arriving(starts, received, n, |Flatten(starts)|);
    if received[n] && Progressing(starts, received, n) {
      var p := Flatten(starts)[Started(starts, n) - 1];
      assert (before + [p]) + starts[n][..j] == before + ([p] + starts[n][..j]);
    }
  }

  lemma LongFrame(frames: seq<FrameData>, starts: seq<seq<Packet>>, n: nat)
    requires ValidStream(frames, starts) && n < |starts| && |Carry(starts, n)| > FRAME_DATA_SIZE
    ensures starts[n] == [] && Rest(Carry(starts, n), starts[n]) != []
  {
    hide Carry, Rest, StartOffset;
    assert FrameFits(frames[n], Carry(starts, n), starts[n]);
    LongCarry(Carry(starts, n), starts[n]);
  }

  lemma ShortFrame(carry: seq<byte>, started: seq<Packet>)
    requires |carry| <= FRAME_DATA_SIZE
    ensures started == [] ==> Rest(carry, started) == []
  {
  }

  // ----- the packet in progress, frame by frame

  /** The packet under assembly in a receiver that has just taken frame n - 1. */
  ghost function PartialAt(starts: seq<seq<Packet>>, received: seq<bool>, n: nat): (p: Partial)
    requires n <= |starts| == |received|
  {
    if Progressing(starts, received, n)
    then InProgress(Flatten(starts)[Started(starts, n) - 1], Carry(starts, n))
    else NO_PARTIAL
  }

  /** A packet in progress after frame n is whole exactly when frame n arrived and, if it started
      earlier, it was whole before. */
  lemma ProgressingStep(frames: seq<FrameData>, starts: seq<seq<Packet>>, received: seq<bool>, n: nat)
    requires ValidStream(frames, starts) && n < |starts| == |received|
    ensures Progressing(starts, received, n + 1) <==>
      && received[n] && Rest(Carry(starts, n), starts[n]) != []
      && (starts[n] == [] ==> Progressing(starts, received, n))
  {
    hide Flatten, Started, PacketOffset, SentBefore, Carry, FrameFits, Rest, Intact;
    CarryTail(frames, starts, n);
    CarryTail(frames, starts, n + 1);
    StartedStep(starts, n);
    CarryStep(starts, n);
    if Rest(Carry(starts, n), starts[n]) != [] {
      var k := Started(starts, n + 1) - 1;
      IntactNext(starts, received, n, k);
      if starts[n] == [] {
        RestOfCarry(Carry(starts, n), starts[n]);
        CarriedOffsets(frames, starts, n);
      } else {
        StartedOffset(starts, n);
        OffsetGrows(Flatten(starts), Started(starts, n), k);
        NotBefore(starts, received, n, k);
        LastIsHere(frames, starts, n);
      }
    }
  }

  /** The last packet started in a frame has its header in the frame. */
  lemma LastIsHere(frames: seq<FrameData>, starts: seq<seq<Packet>>, n: nat)
    requires ValidStream(frames, starts) && n < |starts| && starts[n] != []
    requires Carry(starts, n + 1) != [] && Started(starts, n + 1) > 0
    ensures Carries(starts, n, Started(starts, n + 1) - 1)
  {
    hide Flatten, Started, PacketOffset, SentBefore, Carry, FrameFits;
    var k := Started(starts, n + 1) - 1;
    CarryTail(frames, starts, n + 1);
    StartedOffset(starts, n + 1);
    OffsetStep(Flatten(starts), k);
    SentGrows(starts, n, n + 1);
  }

  // ----- the receiver's run

  /** The last frame that arrived among the first n, or -1. */
  function LastReceived(received: seq<bool>, n: nat): (r: int)
    requires n <= |received|
    ensures -1 <= r < n && (r >= 0 ==> received[r])
    ensures forall i :: r < i < n ==> !received[i]
  {
    if n == 0 then -1 else if received[n - 1] then n - 1 else LastReceived(received, n - 1)
  }

  /** The receiver's state after those of the first n frames that arrived. */
  ghost function RxRun(frames: seq<FrameData>, received: seq<bool>, n: nat): (st: RxState)
    requires n <= |frames| == |received| && forall i :: 0 <= i < |frames| ==> frames[i].Valid()
    ensures ValidPartial(st.partial)
  {
    if n == 0 then RX_START
    else if received[n - 1] then RxFrame(RxRun(frames, received, n - 1), frames[n - 1])
    else RxRun(frames, received, n - 1)
  }

  /** Frame n arrives after a gap whose length is a positive multiple of the counter's range,
      so that its counter looks consecutive. */
  ghost predicate UndetectedGap(received: seq<bool>, n: nat)
    requires n < |received|
  {
    var r := LastReceived(received, n);
    received[n] && 0 <= r < n - 1 && (n - r - 1) % COUNTER_RANGE == 0
  }

  /** No undetected gap before frame n begins inside a packet that is whole so far. */
  ghost predicate NoSplice(starts: seq<seq<Packet>>, received: seq<bool>, n: nat)
    requires n <= |starts| == |received|
  {
    forall m :: 0 <= m < n && UndetectedGap(received, m) ==>
      !Progressing(starts, received, LastReceived(received, m) + 1)
  }

  ghost predicate RxInvariant(st: RxState, starts: seq<seq<Packet>>, received: seq<bool>, n: nat)
    requires n <= |starts| == |received|
  {
    var r := LastReceived(received, n);
    && !st.overread
    && st.delivered == Arriving(starts, received, n, |Flatten(starts)|)
    && st.lastCounter == (if r < 0 then 0 else r % COUNTER_RANGE)
    && st.partial == if r < 0 then NO_PARTIAL else PartialAt(starts, received, r + 1)
  }

  /** A frame taken without a packet under assembly. */
  lemma RxFresh(st: RxState, f: FrameData, carry: seq<byte>, started: seq<Packet>)
    requires FrameFits(f, carry, started) && ValidPartial(st.partial)
    requires f.counter == (st.lastCounter + 1) % COUNTER_RANGE ==> st.partial == NO_PARTIAL
    ensures RxFrame(st, f) ==
      RxState(f.counter, StartedPartial(carry, started), st.delivered + DoneStarted(carry, started), st.overread)
  {
    hide Extract, StartOffset, Payload;
    if started == [] {
      assert st.delivered + [] == st.delivered;
    } else {
      CarryRoom(f, carry, started);
      ExtractFresh(f, carry, started, 0);
      ExtractFresh(f, carry, started, |carry|);
    }
  }

  /** A consecutive frame taken with the packet carried into it under assembly. */
  lemma RxCarried(st: RxState, f: FrameData, carry: seq<byte>, started: seq<Packet>, p: Packet)
    requires FrameFits(f, carry, started) && IsTail(carry, p)
    requires st.partial == InProgress(p, carry) && f.counter == (st.lastCounter + 1) % COUNTER_RANGE
    ensures RxFrame(st, f) ==
      if |carry| > FRAME_DATA_SIZE
      then RxState(f.counter, InProgress(p, Rest(carry, started)), st.delivered, st.overread)
      else RxState(f.counter, StartedPartial(carry, started), st.delivered + ([p] + DoneStarted(carry, started)), st.overread)
  {
    hide Extract, StartOffset, Payload, Rest;
    ExtractCarried(f, carry, started, p);
    assert st.delivered + [] == st.delivered;
  }

  /** Between frames the receiver has delivered exactly what arrived, whatever was lost. */
  lemma {:induction false} RxRunInvariant(frames: seq<FrameData>, starts: seq<seq<Packet>>, received: seq<bool>, n: nat)
    requires ValidStream(frames, starts) && n <= |starts| == |received| && NoSplice(starts, received, n)
    requires forall i :: 0 <= i < |frames| ==> frames[i].Valid()
    ensures RxInvariant(RxRun(frames, received, n), starts, received, n)
  {
    hide Flatten, Started, PacketOffset, SentBefore, Carry, FrameFits, Rest, Intact, Arriving, Extract, EndingIn, RxFrame, PartialAt, Progressing;
    if n == 0 {
      NothingArrives(starts, received, |Flatten(starts)|);
    } else {
      RxRunInvariant(frames, starts, received, n - 1);
      ArrivingStep(frames, starts, received, n - 1);
      if received[n - 1] {
        RxStep(frames, starts, received, n - 1, RxRun(frames, received, n - 1));
      } else {
        NothingEnds(starts, received, n - 1);
      }
    }
  }

  lemma NothingEnds(starts: seq<seq<Packet>>, received: seq<bool>, n: nat)
    requires n < |starts| == |received| && !received[n]
    ensures EndingIn(starts, received, n) == []
  {
  }

  lemma {:induction false} NothingArrives(starts: seq<seq<Packet>>, received: seq<bool>, m: nat)
    requires |starts| == |received| && m <= |Flatten(starts)|
    ensures Arriving(starts, received, 0, m) == []
  {
    hide Intact;
    if m != 0 {
      NothingArrives(starts, received, m - 1);
      OffsetStep(Flatten(starts), m - 1);
    }
  }

  /** At a received frame the receiver holds the packet in progress exactly when it is whole so far. */
  lemma PartialBefore(frames: seq<FrameData>, starts: seq<seq<Packet>>, received: seq<bool>, n: nat, st: RxState)
    requires ValidStream(frames, starts) && n < |starts| == |received| && NoSplice(starts, received, n + 1)
    requires received[n] && RxInvariant(st, starts, received, n)
    ensures frames[n].counter == (st.lastCounter + 1) % COUNTER_RANGE ==> st.partial == PartialAt(starts, received, n)
    ensures Progressing(starts, received, n) ==>
      frames[n].counter == (st.lastCounter + 1) % COUNTER_RANGE && st.partial == PartialAt(starts, received, n)
  {
    hide Flatten, Started, Carry, FrameFits, Rest, Intact, Arriving, PartialAt, Progressing;
    var r := LastReceived(received, n);
    assert frames[n].counter == n % COUNTER_RANGE;
    if r == n - 1 && r >= 0 {
      CounterNext(r);
    } else {
      if n > 0 {
        ProgressingStep(frames, starts, received, n - 1);
      } else {
        NothingInProgress(starts, received);
      }
      NoPartial(starts, received, n);
      if r >= 0 && frames[n].counter == (st.lastCounter + 1) % COUNTER_RANGE {
        CounterGap(r, n);
        assert UndetectedGap(received, n);
        NoPartial(starts, received, r + 1);
      }
    }
  }

  lemma NothingInProgress(starts: seq<seq<Packet>>, received: seq<bool>)
    requires |starts| == |received|
    ensures !Progressing(starts, received, 0)
  {
  }

  lemma NoPartial(starts: seq<seq<Packet>>, received: seq<bool>, n: nat)
    requires n <= |starts| == |received|
    ensures !Progressing(starts, received, n) ==> PartialAt(starts, received, n) == NO_PARTIAL
  {
    hide Progressing;
  }

  lemma CounterNext(r: nat)
    ensures (r % COUNTER_RANGE + 1) % COUNTER_RANGE == (r + 1) % COUNTER_RANGE
  {
  }

  lemma CounterGap(r: nat, n: nat)
    requires r < n && n % COUNTER_RANGE == (r % COUNTER_RANGE + 1) % COUNTER_RANGE
    ensures (n - r - 1) % COUNTER_RANGE == 0
  {
  }

  /** The packet under assembly after frame n, in terms of the frame. */
  lemma PartialAfter(frames: seq<FrameData>, starts: seq<seq<Packet>>, received: seq<bool>, n: nat)
    requires ValidStream(frames, starts) && n < |starts| == |received| && received[n]
    ensures PartialAt(starts, received, n + 1) ==
      if starts[n] == [] && |Carry(starts, n)| > FRAME_DATA_SIZE then
        if Progressing(starts, received, n)
        then InProgress(Flatten(starts)[Started(starts, n) - 1], Rest(Carry(starts, n), starts[n]))
        else NO_PARTIAL
      else StartedPartial(Carry(starts, n), starts[n])
  {
    hide Flatten, Started, Carry, FrameFits, Rest, Intact, InProgress, Progressing;
    ProgressingStep(frames, starts, received, n);
    ProgressingStarted(starts, received, n);
    StartedStep(starts, n);
    CarryStep(starts, n);
    if starts[n] == [] {
      RestOfCarry(Carry(starts, n), starts[n]);
    } else {
      LastStarted(starts, n);
    }
  }

  lemma ProgressingStarted(starts: seq<seq<Packet>>, received: seq<bool>, n: nat)
    requires n <= |starts| == |received|
    ensures Progressing(starts, received, n) ==> Started(starts, n) > 0 && Carry(starts, n) != []
  {
    hide Intact, Carry, Started;
  }

  lemma RxStepCarried(frames: seq<FrameData>, starts: seq<seq<Packet>>, received: seq<bool>, n: nat, st: RxState)
    requires ValidStream(frames, starts) && n < |starts| == |received|
    requires received[n] && frames[n].Valid() && ValidPartial(st.partial)
    requires Arriving(starts, received, n + 1, |Flatten(starts)|) ==
      Arriving(starts, received, n, |Flatten(starts)|) + EndingIn(starts, received, n)
    requires !st.overread && st.delivered == Arriving(starts, received, n, |Flatten(starts)|)
    requires Progressing(starts, received, n) && st.partial == PartialAt(starts, received, n)
    requires frames[n].counter == (st.lastCounter + 1) % COUNTER_RANGE
    ensures var next := RxFrame(st, frames[n]);
            && !next.overread && next.lastCounter == frames[n].counter
            && next.delivered == Arriving(starts, received, n + 1, |Flatten(starts)|)
            && next.partial == PartialAt(starts, received, n + 1)
  {
    hide Flatten, Started, Carry, FrameFits, Rest, Intact, Arriving, RxFrame, InProgress, StartedPartial;
    var carry, started := Carry(starts, n), starts[n];
    assert FrameFits(frames[n], carry, started);
    ProgressingStarted(starts, received, n);
    CarryTail(frames, starts, n);
    PartialAfter(frames, starts, received, n);
    if |carry| > FRAME_DATA_SIZE {
      LongFrame(frames, starts, n);
    }
    RxCarried(st, frames[n], carry, started, Flatten(starts)[Started(starts, n) - 1]);
  }

  lemma RxStepFresh(frames: seq<FrameData>, starts: seq<seq<Packet>>, received: seq<bool>, n: nat, st: RxState)
    requires ValidStream(frames, starts) && n < |starts| == |received|
    requires received[n] && frames[n].Valid() && ValidPartial(st.partial)
    requires Arriving(starts, received, n + 1, |Flatten(starts)|) ==
      Arriving(starts, received, n, |Flatten(starts)|) + EndingIn(starts, received, n)
    requires !st.overread && st.delivered == Arriving(starts, received, n, |Flatten(starts)|)
    requires !Progressing(starts, received, n)
    requires frames[n].counter == (st.lastCounter + 1) % COUNTER_RANGE ==> st.partial == NO_PARTIAL
    ensures var next := RxFrame(st, frames[n]);
            && !next.overread && next.lastCounter == frames[n].counter
            && next.delivered == Arriving(starts, received, n + 1, |Flatten(starts)|)
            && next.partial == PartialAt(starts, received, n + 1)
  {
    hide Flatten, Started, Carry, FrameFits, Rest, Intact, Arriving, RxFrame, InProgress, Progressing, DoneStarted;
    var carry, started := Carry(starts, n), starts[n];
    assert FrameFits(frames[n], carry, started);
    RxFresh(st, frames[n], carry, started);
    PartialAfter(frames, starts, received, n);
    assert [] + DoneStarted(carry, started) == DoneStarted(carry, started);
  }

  lemma RxStep(frames: seq<FrameData>, starts: seq<seq<Packet>>, received: seq<bool>, n: nat, st: RxState)
    requires ValidStream(frames, starts) && n < |starts| == |received| && NoSplice(starts, received, n + 1)
    requires received[n] && RxInvariant(st, starts, received, n) && ValidPartial(st.partial)
    requires frames[n].Valid()
    requires Arriving(starts, received, n + 1, |Flatten(starts)|) ==
      Arriving(starts, received, n, |Flatten(starts)|) + EndingIn(starts, received, n)
    ensures RxInvariant(RxFrame(st, frames[n]), starts, received, n + 1)
  {
    hide Flatten, Started, Carry, FrameFits, Rest, Intact, Arriving, RxFrame, NoSplice, PartialAt, Progressing, EndingIn;
    assert frames[n].counter == n % COUNTER_RANGE;
    PartialBefore(frames, starts, received, n, st);
    if Progressing(starts, received, n) {
      RxStepCarried(frames, starts, received, n, st);
    } else {
      NoPartial(starts, received, n);
      RxStepFresh(frames, starts, received, n, st);
    }
  }

  lemma LastStarted(starts: seq<seq<Packet>>, n: nat)
    requires n < |starts| && starts[n] != []
    ensures Started(starts, n + 1) > 0
    ensures Flatten(starts)[Started(starts, n + 1) - 1] == starts[n][|starts[n]| - 1]
  {
    hide Flatten, Started;
    StartedStep(starts, n);
    var j := |starts[n]| - 1;
    assert Flatten(starts)[Started(starts, n) + j] == starts[n][j];
  }

  // ----- exact delivery

  lemma StreamFramesValid(frames: seq<FrameData>, starts: seq<seq<Packet>>)
    requires ValidStream(frames, starts)
    ensures forall i :: 0 <= i < |frames| ==> frames[i].Valid()
  {
    hide Carry, Payload, StartOffset;
    forall i | 0 <= i < |frames| ensures frames[i].Valid() {
      assert FrameFits(frames[i], Carry(starts, i), starts[i]);
    }
  }

  /** The packets delivered by the end of the run. */
  ghost function Delivered(frames: seq<FrameData>, starts: seq<seq<Packet>>, received: seq<bool>): seq<Packet>
    requires ValidStream(frames, starts) && |starts| == |received|
  {
    StreamFramesValid(frames, starts);
    RxRun(frames, received, |received|).delivered
  }

  /** Exact delivery: the packets delivered are those all of whose frames arrived, complete, in order and
      byte for byte, unless an undetected gap falls into a packet that was whole before it. */
  lemma ExactDelivery(frames: seq<FrameData>, starts: seq<seq<Packet>>, received: seq<bool>)
    requires ValidStream(frames, starts) && |starts| == |received|
    requires NoSplice(starts, received, |received|)
    ensures Delivered(frames, starts, received) == Arriving(starts, received, |received|, |Flatten(starts)|)
  {
    hide Arriving, RxRun, Progressing;
    StreamFramesValid(frames, starts);
    RxRunInvariant(frames, starts, received, |received|);
  }

  // ----- when a loss can go wrong

  /** A frame for the stream, filled up with zeros. */
  function MakeFrame(i: nat, carry: seq<byte>, started: seq<Packet>): FrameData {
    var t := Payload(carry, started);
    var last := if started == [] then 0 else StartOffset(carry, started, |started| - 1);
    FrameData(i % COUNTER_RANGE,
              if started == [] || |carry| >= COUNTER_RANGE then PKT_OFFS_NONE else |carry|,
              if started == [] || last >= COUNTER_RANGE then PKT_OFFS_NONE else last,
              t + if |t| <= FRAME_DATA_SIZE then seq(FRAME_DATA_SIZE - |t|, _ => 0) else [])
  }

  function MakeFrames(starts: seq<seq<Packet>>): seq<FrameData> {
    seq(|starts|, i requires 0 <= i < |starts| => MakeFrame(i, Carry(starts, i), starts[i]))
  }

  /** A packet of 1000 bytes takes two frames. */
  function LongPacket(): (p: Packet)
    ensures |p| == 1000
  {
    seq(1000, _ => 0)
  }

  /** One packet starts in frame r, another in frame n - 1. */
  function TwoPackets(len: nat, r: nat, n: nat): (starts: seq<seq<Packet>>)
    ensures |starts| == len
  {
    seq(len, i requires 0 <= i < len => if i == r || i == n - 1 then [LongPacket()] else [])
  }

  lemma LongPacketRest(carry: seq<byte>, started: seq<Packet>)
    requires carry == [] || (|carry| <= FRAME_DATA_SIZE && started == [])
    requires started == [] || started == [LongPacket()]
    ensures |Rest(carry, started)| == if started == [] then 0 else 116
    ensures FrameFits(MakeFrame(0, carry, started), carry, started)
  {
    if started == [] {
      assert SerializedAll(started) == [];
    } else {
      SerializedOne(LongPacket());
      FirstOffset(carry, started);
    }
  }

  lemma {:induction false} TwoPacketsCarry(len: nat, r: nat, n: nat, i: nat)
    requires r + 1 < n - 1 && n < len && i <= len
    ensures |Carry(TwoPackets(len, r, n), i)| == if i == r + 1 || i == n then 116 else 0
    decreases i
  {
    hide Rest;
    if i != 0 {
      var starts := TwoPackets(len, r, n);
      TwoPacketsCarry(len, r, n, i - 1);
      LongPacketRest(Carry(starts, i - 1), starts[i - 1]);
    }
  }

  lemma TwoPacketsStream(len: nat, r: nat, n: nat)
    requires r + 1 < n - 1 && n < len
    ensures ValidStream(MakeFrames(TwoPackets(len, r, n)), TwoPackets(len, r, n))
  {
    hide Rest, Payload, StartOffset, Carry;
    var starts := TwoPackets(len, r, n);
    forall i | 0 <= i < len
      ensures StreamFrame(MakeFrames(starts)[i], i, Carry(starts, i), starts[i])
    {
      TwoPacketsCarry(len, r, n, i);
      LongPacketRest(Carry(starts, i), starts[i]);
    }
  }

  /** With the frames from r + 1 to n - 1 lost, neither of the two packets arrives. */
  lemma {:induction false} NeitherArrives(received: seq<bool>, r: nat, n: nat, i: nat)
    requires r + 1 < n - 1 && n < |received| && i <= |received|
    requires !received[r + 1] && !received[n - 1]
    ensures var starts := TwoPackets(|received|, r, n);
            Arriving(starts, received, i, |Flatten(starts)|) == []
    decreases i
  {
    hide Flatten, Started, Carry, FrameFits, Rest, Intact, Arriving;
    var starts := TwoPackets(|received|, r, n);
    if i == 0 {
      NothingArrives(starts, received, |Flatten(starts)|);
    } else {
      var m := i - 1;
      var frames := MakeFrames(starts);
      NeitherArrives(received, r, n, m);
      TwoPacketsStream(|received|, r, n);
      ArrivingStep(frames, starts, received, m);
      hide ValidStream;
      NeitherEnds(received, r, n, m);
    }
  }

  /** Neither of the two packets ends in a frame that arrives. */
  lemma NeitherEnds(received: seq<bool>, r: nat, n: nat, m: nat)
    requires r + 1 < n - 1 && n < |received| && m < |received|
    requires !received[r + 1] && !received[n - 1]
    ensures EndingIn(TwoPackets(|received|, r, n), received, m) == []
  {
    hide Flatten, Started, Carry, FrameFits, Rest, Intact, Arriving, ValidStream;
    var starts := TwoPackets(|received|, r, n);
    TwoPacketsStream(|received|, r, n);
    TwoPacketsCarry(|received|, r, n, m);
    LongPacketRest(Carry(starts, m), starts[m]);
    if m == n {
      ProgressingStep(MakeFrames(starts), starts, received, n - 1);
    }
    ProgressingStarted(starts, received, m);
  }

  lemma {:induction false} DeliveredGrows(frames: seq<FrameData>, received: seq<bool>, m: nat, n: nat)
    requires m <= n <= |frames| == |received| && forall i :: 0 <= i < |frames| ==> frames[i].Valid()
    ensures |RxRun(frames, received, m).delivered| <= |RxRun(frames, received, n).delivered|
    decreases n - m
  {
    hide Extract;
    if m < n {
      DeliveredGrows(frames, received, m, n - 1);
    }
  }

  /** No packet is in progress at an earlier gap. */
  lemma BeforeGap(received: seq<bool>, r: nat, n: nat)
    requires n < |received| && r == LastReceived(received, n) && r + 1 < n - 1
    ensures NoSplice(TwoPackets(|received|, r, n), received, n)
  {
    hide Flatten, Started, Carry, Progressing;
    var starts := TwoPackets(|received|, r, n);
    forall m | 0 <= m < n && UndetectedGap(received, m)
      ensures !Progressing(starts, received, LastReceived(received, m) + 1)
    {
      var k := LastReceived(received, m) + 1;
      assert m <= r;
      TwoPacketsCarry(|received|, r, n, k);
      ProgressingStarted(starts, received, k);
    }
  }

  /** Before frame n the receiver holds the first packet and takes frame n for its next frame. */
  lemma BeforeSplice(frames: seq<FrameData>, starts: seq<seq<Packet>>, received: seq<bool>, r: nat, n: nat)
    requires n < |received| && UndetectedGap(received, n) && r == LastReceived(received, n) && r + 1 < n - 1
    requires starts == TwoPackets(|received|, r, n) && ValidStream(frames, starts)
    requires forall i :: 0 <= i < |frames| ==> frames[i].Valid()
    ensures var st := RxRun(frames, received, n);
            && frames[n].counter == (st.lastCounter + 1) % COUNTER_RANGE
            && 0 < st.partial.expected - |st.partial.bytes| <= FRAME_DATA_SIZE
  {
    hide Flatten, Started, Carry, FrameFits, Rest, Intact, Arriving, RxRun, Progressing, ValidStream;
    var len := |received|;
    BeforeGap(received, r, n);
    CounterGapBack(r, n);
    StreamCounter(frames, starts, n);
    RxRunInvariant(frames, starts, received, n);
    TwoPacketsCarry(len, r, n, r);
    TwoPacketsCarry(len, r, n, r + 1);
    LongPacketRest(Carry(starts, r), starts[r]);
    ProgressingStep(frames, starts, received, r);
    ProgressingStarted(starts, received, r + 1);
    CarryTail(frames, starts, r + 1);
  }

  lemma StreamCounter(frames: seq<FrameData>, starts: seq<seq<Packet>>, n: nat)
    requires ValidStream(frames, starts) && n < |starts|
    ensures n < |frames| && frames[n].counter == n % COUNTER_RANGE
  {
    hide FrameFits;
  }

  lemma CounterGapBack(r: nat, n: nat)
    requires r < n && (n - r - 1) % COUNTER_RANGE == 0
    ensures n % COUNTER_RANGE == (r % COUNTER_RANGE + 1) % COUNTER_RANGE
  {
  }

  /** A frame taken for the next one completes the packet under assembly with foreign bytes. */
  lemma SpliceDelivers(st: RxState, f: FrameData)
    requires f.Valid() && ValidPartial(st.partial) && f.counter == (st.lastCounter + 1) % COUNTER_RANGE
    requires 0 < st.partial.expected - |st.partial.bytes| <= FRAME_DATA_SIZE
    ensures |RxFrame(st, f).delivered| > |st.delivered|
  {
    hide Extract;
    ExtractContent(f, 0, true, false, st.partial);
  }

  /** An undetected gap makes the receiver deliver a spliced packet of any transmission that starts its two packets just
      before the gap and just before its end, whatever noise fills up the frames. */
  lemma SplicedPacket(frames: seq<FrameData>, received: seq<bool>, n: nat)
    requires n < |received| && UndetectedGap(received, n)
    requires ValidStream(frames, TwoPackets(|received|, LastReceived(received, n), n))
    ensures var starts := TwoPackets(|received|, LastReceived(received, n), n);
            Delivered(frames, starts, received) != Arriving(starts, received, |received|, |Flatten(starts)|)
  {
    hide Flatten, Arriving, Carry, FrameFits, RxFrame;
    var r := LastReceived(received, n);
    GapLength(r, n);
    var starts := TwoPackets(|received|, r, n);
    StreamFramesValid(frames, starts);
    BeforeSplice(frames, starts, received, r, n);
    SpliceDelivers(RxRun(frames, received, n), frames[n]);
    DeliveredGrows(frames, received, n + 1, |received|);
    NeitherArrives(received, r, n, |received|);
  }

  lemma GapLength(r: int, n: nat)
    requires 0 <= r < n - 1 && (n - r - 1) % COUNTER_RANGE == 0
    ensures r + 1 < n - 1
  {
  }

  /** Every transmission that a run's frames can carry is delivered exactly. */
  ghost predicate AlwaysExact(received: seq<bool>) {
    forall frames: seq<FrameData>, starts: seq<seq<Packet>> ::
      ValidStream(frames, starts) && |starts| == |received| ==>
        Delivered(frames, starts, received) == Arriving(starts, received, |received|, |Flatten(starts)|)
  }

  /** Delivery is exact for every transmission if and only if no run of lost frames between two received
      ones has a length that is a positive multiple of the counter's range. */
  lemma DeliveryCondition(received: seq<bool>)
    ensures AlwaysExact(received) <==> forall n :: 0 <= n < |received| ==> !UndetectedGap(received, n)
  {
    hide Flatten, Arriving, Delivered, ValidStream, Progressing;
    if n :| 0 <= n < |received| && UndetectedGap(received, n) {
      var r := LastReceived(received, n);
      GapLength(r, n);
      TwoPacketsStream(|received|, r, n);
      SplicedPacket(MakeFrames(TwoPackets(|received|, r, n)), received, n);
    } else {
      forall frames: seq<FrameData>, starts: seq<seq<Packet>> | ValidStream(frames, starts) && |starts| == |received|
        ensures Delivered(frames, starts, received) == Arriving(starts, received, |received|, |Flatten(starts)|)
      {
        ExactDelivery(frames, starts, received);
      }
    }
  }
}
