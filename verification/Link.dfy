/** Transmitter and receiver joined by a channel that loses frames. */
module Link {
  import opened Packets
  import opened Frames
  import opened Transmitters
  import opened Receivers
  import opened Delivery

  /** The transmitter sends one frame for each entry of received, and the receiver takes those that arrive. */
  method Transfer(t: Transmitter, r: Receiver, received: seq<bool>)
    returns (ghost frames: seq<FrameData>, ghost starts: seq<seq<Packet>>)
    requires t.Valid() && t.counter == 0 && t.Unsent() == [] && t.popped == []
    requires r.Valid() && r.State() == RX_START
    requires t.pktBuffer !in {r.pktBuffer, r.frame.content}
    modifies t, t.pktBuffer, r, r.frame, r.frame.content, r.pktBuffer
    ensures t.Tracked() && |starts| == |received|
    ensures ValidStream(frames, starts) && Flatten(starts) == NonEmpty(t.popped)
    ensures (starts, t.pops) == RunFrom(t.arrivals, old(t.pops), |received|)
    ensures r.Valid() && r.delivered == Delivered(frames, starts, received)
    ensures (forall n :: 0 <= n < |received| ==> !UndetectedGap(received, n)) ==>
      r.delivered == Arriving(starts, received, |received|, |Flatten(starts)|)
  {
    hide RxFrame, FrameFits, Carry, Flatten, Arriving, FrameBytes, RunFrom;
    var sent;
    sent, frames, starts := t.Worker(|received|);
    StreamFramesValid(frames, starts);
    FrameSizes(frames);
    for i := 0 to |received|
      invariant r.Valid() && r.State() == RxRun(frames, received, i)
      invariant t.Tracked() && Flatten(starts) == NonEmpty(t.popped)
      invariant (starts, t.pops) == RunFrom(t.arrivals, old(t.pops), |received|)
    {
      if received[i] {
        r.ProcessFrame(sent[i], frames[i]);
      }
    }
    if forall n :: 0 <= n < |received| ==> !UndetectedGap(received, n) {
      ExactDelivery(frames, starts, received);
    }
  }

  lemma FrameSizes(frames: seq<FrameData>)
    requires forall i :: 0 <= i < |frames| ==> frames[i].Valid()
    ensures forall i :: 0 <= i < |frames| ==> |FrameBytes(frames[i])| == FRAME_SIZE
  {
  }

  // ----- a transmission that is spliced

  /** A long packet is sent before the worker looks for frame r, and another before it looks for frame n - 1. */
  function SpliceArrivals(r: nat, n: nat): nat -> seq<Packet> {
    k => if k == r || k == n - 1 then [LongPacket()] else []
  }

  lemma {:induction false} SpliceQueue(r: nat, n: nat, k: nat)
    ensures QueueAfter(SpliceArrivals(r, n), k).packets == []
    ensures Taken(QueueAfter(SpliceArrivals(r, n), k), SpliceArrivals(r, n)(k)) ==
      if k == r || k == n - 1 then LongPacket() else []
  {
    hide LongPacket;
    if k != 0 {
      SpliceQueue(r, n, k - 1);
    }
  }

  /** The frames start just these packets. */
  lemma {:induction false} SpliceRun(len: nat, r: nat, n: nat, i: nat)
    requires r + 1 < n - 1 && n < len && i <= len
    ensures RunFrom(SpliceArrivals(r, n), 0, i) == (TwoPackets(len, r, n)[..i], i)
    decreases i
  {
    hide QueueAfter, Taken, StartedFrom, LongPacket, Carry, SpliceArrivals;
    if i == 0 {
      assert TwoPackets(len, r, n)[..0] == [];
    } else {
      var k, starts, arrivals := i - 1, TwoPackets(len, r, n), SpliceArrivals(r, n);
      SpliceRun(len, r, n, k);
      assert starts == starts[..k] + starts[k..];
      CarryPrefix(starts[..k], starts[k..], k);
      TwoPacketsCarry(len, r, n, k);
      SpliceQueue(r, n, k);
      var offset := |Carry(starts, k)|;
      if k == r || k == n - 1 {
        OneTaken(arrivals, k, offset, LongPacket());
        NoRoom(arrivals, k + 1, offset + 2 + |LongPacket()|);
        assert [LongPacket()] + [] == [LongPacket()];
      } else {
        NothingTaken(arrivals, k, offset);
      }
      assert StartedFrom(arrivals, k, offset) == Started(starts[k], i);
      assert starts[..i] == starts[..k] + [starts[k]];
    }
  }

  lemma SpliceStarts(len: nat, r: nat, n: nat)
    requires r + 1 < n - 1 && n < len
    ensures RunFrom(SpliceArrivals(r, n), 0, len) == (TwoPackets(len, r, n), len)
  {
    SpliceRun(len, r, n, len);
    assert TwoPackets(len, r, n)[..len] == TwoPackets(len, r, n);
  }

  /** For every undetected gap there are arrivals for which the receiver delivers something else than the packets whose
      frames all arrived. */
  method TransferSpliced(received: seq<bool>, n: nat)
    returns (t: Transmitter, r: Receiver, ghost starts: seq<seq<Packet>>)
    requires n < |received| && UndetectedGap(received, n)
    ensures starts == RunFrom(SpliceArrivals(LastReceived(received, n), n), 0, |received|).0
    ensures r.delivered != Arriving(starts, received, |received|, |Flatten(starts)|)
  {
    hide Flatten, Arriving, RunFrom, SpliceArrivals, Delivered, ValidStream, TwoPackets, Transmitter.Valid, Receiver.Valid,
         Transmitter.Tracked, Carry, QueueAfter, NonEmpty;
    ghost var m := LastReceived(received, n);
    GapLength(m, n);
    t := new Transmitter(SpliceArrivals(LastReceived(received, n), n));
    r := new Receiver();
    ghost var frames;
    frames, starts := Transfer(t, r, received);
    SpliceStarts(|received|, m, n);
    SplicedPacket(frames, received, n);
  }
}
