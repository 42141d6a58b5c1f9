/** From packets to packets: transmitter, both codes, the air, the deframer, both decoders, receiver. */
module EndToEnd {
  import opened Bits
  import opened Packets
  import opened Frames
  import opened Transmitters
  import opened Receivers
  import opened Delivery
  import opened Framing
  import opened RsCodec
  import opened Pipeline
  import opened Channels
  import opened Link

  /** Whatever the frames hold, each arrives or is lost as foretold. */
  ghost predicate Foreseen(air: Air, received: seq<bool>, scrambler: seq<byte>, shift0: nat) {
    && |air.rots| == |air.onAir| == |received|
    && forall i, word: seq<byte> :: 0 <= i < |received| && |word| == ENCODED_SIZE ==>
        Fate(air, i, received[i], word, scrambler, shift0)
  }

  lemma ForeseenFates(air: Air, received: seq<bool>, frames: seq<seq<byte>>, scrambler: seq<byte>, shift0: nat)
    requires Foreseen(air, received, scrambler, shift0) && |frames| == |received|
    ensures Fates(air, received, frames, scrambler, shift0)
  {
    hide Fate, EncodesFrame;
  }

  /** The receiver's state after the frames at the indices. */
  ghost function RunAt(frames: seq<FrameData>, idx: seq<nat>): (st: RxState)
    requires forall i :: 0 <= i < |frames| ==> frames[i].Valid()
    requires forall m :: 0 <= m < |idx| ==> idx[m] < |frames|
    ensures ValidPartial(st.partial)
  {
    if idx == [] then RX_START else RxFrame(RunAt(frames, idx[..|idx| - 1]), frames[idx[|idx| - 1]])
  }

  lemma {:induction false} RunAtIndices(frames: seq<FrameData>, received: seq<bool>, n: nat)
    requires n <= |frames| == |received| && forall i :: 0 <= i < |frames| ==> frames[i].Valid()
    ensures RunAt(frames, Indices(received[..n])) == RxRun(frames, received, n)
  {
    hide RxFrame, Indices;
    if n == 0 {
      NoIndices(received[..0]);
    } else {
      RunAtIndices(frames, received, n - 1);
      IndicesStep(received, n - 1);
      if received[n - 1] {
        assert Indices(received[..n])[..|Indices(received[..n - 1])|] == Indices(received[..n - 1]);
      } else {
        assert Indices(received[..n]) == Indices(received[..n - 1]);
      }
    }
  }

  lemma NoIndices(flags: seq<bool>)
    requires flags == []
    ensures Indices(flags) == []
  {
  }

  /** The frames received are those at the indices of the flags. */
  lemma {:induction false} KeptIndices(frames: seq<seq<byte>>, received: seq<bool>)
    requires |frames| == |received|
    ensures |Kept(frames, received)| == |Indices(received)|
    ensures forall m :: 0 <= m < |Indices(received)| ==> Kept(frames, received)[m] == frames[Indices(received)[m]]
    decreases |frames|
  {
    if frames != [] {
      var n := |frames| - 1;
      KeptIndices(frames[..n], received[..n]);
    }
  }

  /** Packets sent by other threads go through all layers: the receiver delivers exactly those all of whose frames
      arrive, unless an undetected gap falls into a packet. A frame is lost if nothing of it arrives or if it cannot be
      decoded. */
  method Deliver(arrivals: nat -> seq<Packet>, scrambler: seq<byte>, useLanes: bool, quad0: nat, shift0: nat, air: Air,
                 ghost received: seq<bool>)
    returns (r: Receiver, ghost frames: seq<FrameData>, ghost starts: seq<seq<Packet>>)
    requires |scrambler| == ENCODED_SIZE && quad0 < WORD_RANGE && shift0 < WORD_RANGE
    requires Foreseen(air, received, scrambler, shift0)
    ensures ValidStream(frames, starts) && starts == RunFrom(arrivals, 0, |received|).0 && |starts| == |received|
    ensures r.Valid() && r.delivered == Delivered(frames, starts, received)
    ensures (forall n :: 0 <= n < |received| ==> !UndetectedGap(received, n)) ==>
      r.delivered == Arriving(starts, received, |received|, |Flatten(starts)|)
  {
    hide Foreseen, RxFrame, FrameFits, Carry, Flatten, Arriving, FrameBytes, RunFrom, ValidStream, Kept, Indices,
         Transmitter.Valid, Fates;
    var t := new Transmitter(arrivals);
    var sent;
    ForeseenSize(air, received, scrambler, shift0);
    sent, frames, starts := t.Worker(|air.onAir|);
    StreamFramesValid(frames, starts);
    StreamLength(frames, starts);
    FrameSizes(frames);
    ForeseenFates(air, received, sent, scrambler, shift0);
    var out := Loopback(scrambler, useLanes, quad0, shift0, air, sent, received);
    KeptIndices(sent, received);
    ghost var idx := Indices(received);
    r := new Receiver();
    assert idx[..0] == [];
    for m := 0 to |out|
      invariant r.Valid() && fresh(r) && fresh(r.frame) && fresh(r.frame.content) && fresh(r.pktBuffer)
      invariant r.State() == RunAt(frames, idx[..m])
    {
      assert idx[..m + 1][..m] == idx[..m];
      r.ProcessFrame(out[m], frames[idx[m]]);
    }
    assert idx[..|out|] == idx && received[..|received|] == received;
    RunAtIndices(frames, received, |received|);
    if forall n :: 0 <= n < |received| ==> !UndetectedGap(received, n) {
      ExactDelivery(frames, starts, received);
    }
  }

  lemma ForeseenSize(air: Air, received: seq<bool>, scrambler: seq<byte>, shift0: nat)
    requires Foreseen(air, received, scrambler, shift0)
    ensures |air.rots| == |air.onAir| == |received|
  {
  }

  // ----- when every frame arrives

  /** If all frames arrive and nothing is left to be sent, all packets started arrive. */
  lemma AllArrive(starts: seq<seq<Packet>>)
    requires Carry(starts, |starts|) == []
    ensures Arriving(starts, Always(|starts|), |starts|, |Flatten(starts)|) == Flatten(starts)
  {
    hide Carry, Flatten, Arriving;
    var n := |starts|;
    StreamContents(starts, n);
    assert starts[..n] == starts;
    ArrivingAll(starts, |Flatten(starts)|);
    assert Flatten(starts)[..|Flatten(starts)|] == Flatten(starts);
  }

  lemma {:induction false} ArrivingAll(starts: seq<seq<Packet>>, m: nat)
    requires m <= |Flatten(starts)| && SentBefore(starts, |starts|) == |SerializedAll(Flatten(starts))|
    ensures Arriving(starts, Always(|starts|), |starts|, m) == Flatten(starts)[..m]
  {
    hide Flatten, SentBefore, SerializedAll, Carries;
    if m != 0 {
      ArrivingAll(starts, m - 1);
      OffsetWithin(Flatten(starts), m);
    }
  }

  lemma OffsetWithin(ps: seq<Packet>, m: nat)
    requires m <= |ps|
    ensures PacketOffset(ps, m) <= |SerializedAll(ps)|
  {
    hide SerializedAll;
    OffsetGrows(ps, m, |ps|);
    assert ps[..|ps|] == ps;
  }

  /** With any gain, any noise that the codes stand and a short fade in each transmission, in any rotations, from a
      cleared register: every packet all of whose bytes were sent is delivered. */
  method DeliverFading(arrivals: nat -> seq<Packet>, scrambler: seq<byte>, useLanes: bool, quad0: nat, air: Air,
                       ghost gain: real, ghost noise: (nat, nat) -> Complex, ghost cut: nat, ghost fades: seq<nat>,
                       ghost length: nat)
    returns (r: Receiver, ghost starts: seq<seq<Packet>>)
    requires |scrambler| == ENCODED_SIZE && quad0 < WORD_RANGE
    requires AllFading(air, gain, noise, cut, fades, length)
    ensures r.Valid() && starts == RunFrom(arrivals, 0, |fades|).0 && |starts| == |fades|
    ensures r.delivered == Arriving(starts, Always(|starts|), |starts|, |Flatten(starts)|)
    ensures Carry(starts, |starts|) == [] ==> r.delivered == Flatten(starts)
  {
    hide Fate, AllFading, Flatten, Arriving, Carry, RunFrom, ValidStream, Receiver.Valid;
    ghost var received := Always(|fades|);
    FadingForeseen(air, gain, noise, cut, fades, length, scrambler);
    ghost var frames;
    r, frames, starts := Deliver(arrivals, scrambler, useLanes, quad0, 0, air, received);
    NoGaps(|fades|);
    if Carry(starts, |starts|) == [] {
      AllArrive(starts);
    }
  }

  lemma FadingForeseen(air: Air, gain: real, noise: (nat, nat) -> Complex, cut: nat, fades: seq<nat>, length: nat,
                       scrambler: seq<byte>)
    requires AllFading(air, gain, noise, cut, fades, length)
    ensures Foreseen(air, Always(|fades|), scrambler, 0)
  {
    hide Fate, Fading;
    forall i, word: seq<byte> | 0 <= i < |fades| && |word| == ENCODED_SIZE
      ensures Fate(air, i, true, word, scrambler, 0)
    {
      FadingFate(air, gain, noise, cut, fades, length, scrambler, i, word);
    }
  }

  /** If every frame arrives there is no gap. */
  lemma NoGaps(count: nat)
    ensures forall n :: 0 <= n < count ==> !UndetectedGap(Always(count), n)
  {
    forall n | 0 <= n < count ensures !UndetectedGap(Always(count), n) {
      if n > 0 {
        assert LastReceived(Always(count), n) == n - 1;
      }
    }
  }
}
