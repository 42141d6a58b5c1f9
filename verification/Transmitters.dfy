/** The transmitter: a bounded packet queue and the worker that cuts packets into numbered frames. */
module Transmitters {
  import opened Bits
  import opened Packets
  import opened Frames

  const MAX_QUEUE_SIZE: nat := 32

  /** The queue, the packets ever accepted, and the packets ever taken. */
  datatype Queue = Queue(packets: seq<Packet>, accepted: seq<Packet>, popped: seq<Packet>)

  /** Those of a batch that the queue has room for. */
  function Admitted(packets: seq<Packet>, batch: seq<Packet>): seq<Packet> {
    if |packets| + |batch| <= MAX_QUEUE_SIZE then batch
    else if |packets| <= MAX_QUEUE_SIZE then batch[..MAX_QUEUE_SIZE - |packets|]
    else []
  }

  /** A batch arrives and the oldest packet, if there is one, is taken. */
  function QueueTurn(q: Queue, batch: seq<Packet>): Queue {
    var more := Admitted(q.packets, batch);
    var packets := q.packets + more;
    if packets == [] then q
    else Queue(packets[1..], q.accepted + more, q.popped + [packets[0]])
  }

  /** The queue after the worker has looked k times. */
  function QueueAfter(arrivals: nat -> seq<Packet>, k: nat): Queue {
    if k == 0 then Queue([], [], []) else QueueTurn(QueueAfter(arrivals, k - 1), arrivals(k - 1))
  }

  /** What was accepted leaves in the same order, and the queue keeps within its bound. */
  lemma {:induction false} QueueFifo(arrivals: nat -> seq<Packet>, k: nat)
    ensures var q := QueueAfter(arrivals, k); q.accepted == q.popped + q.packets && |q.packets| <= 32
  {
    if k != 0 {
      QueueFifo(arrivals, k - 1);
      TurnFifo(QueueAfter(arrivals, k - 1), arrivals(k - 1));
    }
    hide QueueTurn;
  }

  lemma TurnFifo(q: Queue, batch: seq<Packet>)
    requires q.accepted == q.popped + q.packets && |q.packets| <= MAX_QUEUE_SIZE
    ensures var r := QueueTurn(q, batch); r.accepted == r.popped + r.packets && |r.packets| <= MAX_QUEUE_SIZE
  {
    var more := Admitted(q.packets, batch);
    var packets := q.packets + more;
    assert |packets| <= MAX_QUEUE_SIZE;
    hide Admitted;
    if packets != [] {
      assert [packets[0]] + packets[1..] == packets;
      assert (q.popped + [packets[0]]) + packets[1..] == q.popped + ([packets[0]] + packets[1..]);
      assert (q.popped + q.packets) + more == q.popped + packets;
    }
  }

  lemma QueueStep(arrivals: nat -> seq<Packet>, k: nat)
    ensures QueueAfter(arrivals, k + 1) == QueueTurn(QueueAfter(arrivals, k), arrivals(k))
  {
    hide QueueTurn;
  }

  /** The packet taken in a turn, or the empty packet. */
  function Taken(q: Queue, batch: seq<Packet>): Packet {
    var packets := q.packets + Admitted(q.packets, batch);
    if packets == [] then [] else packets[0]
  }

  /** The first of a batch are admitted until 32 packets wait. */
  lemma AdmittedFirst(waiting: seq<Packet>, batch: seq<Packet>)
    requires |waiting| <= 32
    ensures |batch| <= 32 - |waiting| ==> Admitted(waiting, batch) == batch
    ensures |batch| > 32 - |waiting| ==> Admitted(waiting, batch) == batch[..32 - |waiting|]
  {
  }

  /** When a batch arrives at an empty queue, its first 32 packets leave in order, whatever arrives later: the m-th look after
      its arrival takes packet m. */
  lemma {:induction false} BatchLeaves(arrivals: nat -> seq<Packet>, k: nat, m: nat)
    requires QueueAfter(arrivals, k).packets == [] && m < |arrivals(k)| && m < 32
    ensures Taken(QueueAfter(arrivals, k + m), arrivals(k + m)) == arrivals(k)[m]
    ensures var n := if |arrivals(k)| < 32 then |arrivals(k)| else 32;
      arrivals(k)[m + 1..n] <= QueueAfter(arrivals, k + m + 1).packets
  {
    hide QueueAfter, Admitted;
    var batch := arrivals(k);
    var n := if |batch| < 32 then |batch| else 32;
    QueueStep(arrivals, k + m);
    AdmittedFirst([], batch);
    if m == 0 {
      assert batch[..n] == [batch[0]] + batch[1..n];
    } else {
      BatchLeaves(arrivals, k, m - 1);
      var before := QueueAfter(arrivals, k + m).packets;
      assert batch[m..n] <= before && batch[m..n][0] == batch[m];
      BatchMoves(before, Admitted(before, arrivals(k + m)), batch[m..n]);
      assert batch[m..n][1..] == batch[m + 1..n];
    }
  }

  /** Packets at the front move up behind the one taken. */
  lemma BatchMoves(before: seq<Packet>, more: seq<Packet>, front: seq<Packet>)
    requires front <= before && front != []
    ensures (before + more)[0] == front[0] && front[1..] <= (before + more)[1..]
  {
  }

  /** The packets that a frame starts, and how often the worker has looked at the queue by then. */
  datatype Started = Started(packets: seq<Packet>, pops: nat)

  /** What a frame starts from an offset on when the worker has looked k times: as long as there is room for a length header
      it takes the next packet; only an empty queue, or an empty packet, ends the frame early. */
  function StartedFrom(arrivals: nat -> seq<Packet>, k: nat, offset: nat): Started
    decreases if offset < FRAME_DATA_SIZE then FRAME_DATA_SIZE - offset else 0
  {
    if offset > FRAME_DATA_SIZE - 2 then Started([], k)
    else
      var p := Taken(QueueAfter(arrivals, k), arrivals(k));
      if p == [] then Started([], k + 1)
      else
        var rest := StartedFrom(arrivals, k + 1, offset + 2 + |p|);
        Started([p] + rest.packets, rest.pops)
  }

  lemma NoRoom(arrivals: nat -> seq<Packet>, k: nat, offset: nat)
    requires offset > FRAME_DATA_SIZE - 2
    ensures StartedFrom(arrivals, k, offset) == Started([], k)
  {
  }

  lemma NothingTaken(arrivals: nat -> seq<Packet>, k: nat, offset: nat)
    requires offset <= FRAME_DATA_SIZE - 2 && Taken(QueueAfter(arrivals, k), arrivals(k)) == []
    ensures StartedFrom(arrivals, k, offset) == Started([], k + 1)
  {
    hide QueueAfter, Taken;
  }

  lemma OneTaken(arrivals: nat -> seq<Packet>, k: nat, offset: nat, p: Packet)
    requires offset <= FRAME_DATA_SIZE - 2 && p == Taken(QueueAfter(arrivals, k), arrivals(k)) != []
    ensures var rest := StartedFrom(arrivals, k + 1, offset + 2 + |p|);
            StartedFrom(arrivals, k, offset) == Started([p] + rest.packets, rest.pops)
  {
    hide QueueAfter, Taken;
  }

  lemma StartedMore(started: seq<Packet>, more: seq<Packet>, rest: Started)
    ensures started + (more + rest.packets) == started + more + rest.packets
    ensures more == [] ==> more + rest.packets == rest.packets
  {
  }

  /** What n frames start when the worker has looked k times before. */
  function RunFrom(arrivals: nat -> seq<Packet>, k: nat, n: nat): (run: (seq<seq<Packet>>, nat))
    ensures |run.0| == n
  {
    if n == 0 then ([], k)
    else
      var run := RunFrom(arrivals, k, n - 1);
      var started := StartedFrom(arrivals, run.1, |Carry(run.0, n - 1)|);
      (run.0 + [started.packets], started.pops)
  }

  // ----- a batch is sent

  lemma EmptyStream()
    ensures ValidStream([], []) && Flatten([]) == [] && Carry([], 0) == []
  {
  }

  /** At most 32 packets arrive before the first look, none of them empty. */
  ghost predicate FirstBatch(arrivals: nat -> seq<Packet>) {
    |arrivals(0)| <= 32 && forall p :: p in arrivals(0) ==> p != []
  }

  /** A frame goes on with the batch; as long as there is more of it, the frame is full but for one byte at most. */
  lemma {:induction false} FrameTakes(arrivals: nat -> seq<Packet>, k: nat, offset: nat)
    requires FirstBatch(arrivals) && k <= |arrivals(0)|
    ensures var batch, st := arrivals(0), StartedFrom(arrivals, k, offset);
      if st.pops < |batch|
      then k <= st.pops && st.packets == batch[k..st.pops] && offset + |SerializedAll(st.packets)| >= 885
      else batch[k..] <= st.packets
    decreases if offset < FRAME_DATA_SIZE then FRAME_DATA_SIZE - offset else 0
  {
    hide StartedFrom, SerializedAll, QueueAfter, Taken;
    var batch := arrivals(0);
    if offset > FRAME_DATA_SIZE - 2 {
      NoRoom(arrivals, k, offset);
    } else if k < |batch| {
      EmptyAtFirst(arrivals);
      BatchLeaves(arrivals, 0, k);
      var p := batch[k];
      assert p in batch && p == Taken(QueueAfter(arrivals, 0 + k), arrivals(0 + k));
      OneTaken(arrivals, k, offset, p);
      FrameTakes(arrivals, k + 1, offset + 2 + |p|);
      var rest := StartedFrom(arrivals, k + 1, offset + 2 + |p|);
      assert batch[k..] == [p] + batch[k + 1..];
      SerializedAllConcat([p], rest.packets);
      OneSerialized(p);
    } else if Taken(QueueAfter(arrivals, k), arrivals(k)) == [] {
      NothingTaken(arrivals, k, offset);
    } else {
      var p := Taken(QueueAfter(arrivals, k), arrivals(k));
      OneTaken(arrivals, k, offset, p);
      PopsGrow(arrivals, k + 1, offset + 2 + |p|);
    }
  }

  lemma EmptyAtFirst(arrivals: nat -> seq<Packet>)
    ensures QueueAfter(arrivals, 0).packets == []
  {
  }

  lemma OneSerialized(p: Packet)
    ensures |SerializedAll([p])| == |p| + 2
  {
    assert [p][1..] == [];
  }

  lemma {:induction false} PopsGrow(arrivals: nat -> seq<Packet>, k: nat, offset: nat)
    ensures StartedFrom(arrivals, k, offset).pops >= k
    decreases if offset < FRAME_DATA_SIZE then FRAME_DATA_SIZE - offset else 0
  {
    hide QueueAfter, Taken;
    if offset <= FRAME_DATA_SIZE - 2 {
      var p := Taken(QueueAfter(arrivals, k), arrivals(k));
      if p != [] {
        PopsGrow(arrivals, k + 1, offset + 2 + |p|);
      }
    }
  }

  /** n frames have started the batch, or at least 885 bytes of it have gone with every frame. */
  lemma {:induction false} RunTakes(arrivals: nat -> seq<Packet>, n: nat)
    requires FirstBatch(arrivals)
    ensures var batch, run := arrivals(0), RunFrom(arrivals, 0, n);
      if run.1 < |batch|
      then Flatten(run.0) == batch[..run.1] && |SerializedAll(Flatten(run.0))| - |Carry(run.0, n)| >= 885 * n
      else batch <= Flatten(run.0)
  {
    hide StartedFrom, SerializedAll, Flatten, Carry;
    var batch := arrivals(0);
    if n == 0 {
      EmptyStream();
    } else {
      var run := RunFrom(arrivals, 0, n - 1);
      RunTakes(arrivals, n - 1);
      var carry := Carry(run.0, n - 1);
      var started := StartedFrom(arrivals, run.1, |carry|);
      FlattenSnoc(run.0, started.packets);
      if run.1 < |batch| {
        FrameTakes(arrivals, run.1, |carry|);
        assert batch == batch[..run.1] + batch[run.1..];
        if started.pops < |batch| {
          assert batch[..started.pops] == batch[..run.1] + batch[run.1..started.pops];
          CarryPrefix(run.0, [started.packets], n - 1);
          CarryStep(run.0 + [started.packets], n - 1);
          SerializedAllConcat(Flatten(run.0), started.packets);
          RestLength(carry, started.packets);
        }
      } else {
        PopsGrow(arrivals, run.1, |carry|);
      }
    }
  }

  lemma RestLength(carry: seq<byte>, started: seq<Packet>)
    requires |carry| + |SerializedAll(started)| >= 885
    ensures |Rest(carry, started)| <= |carry| + |SerializedAll(started)| - 885
  {
    hide SerializedAll;
  }

  /** A batch of at most 32 packets that arrives at first is all started, in order and before anything else, in as many frames
      as 885 bytes of it in each make. */
  lemma BatchSent(arrivals: nat -> seq<Packet>, n: nat)
    requires FirstBatch(arrivals) && 885 * n >= |SerializedAll(arrivals(0))|
    ensures arrivals(0) <= Flatten(RunFrom(arrivals, 0, n).0)
  {
    hide RunFrom, Flatten, SerializedAll, Carry;
    var batch, run := arrivals(0), RunFrom(arrivals, 0, n);
    RunTakes(arrivals, n);
    if run.1 < |batch| {
      SerializedAllConcat(batch[..run.1], batch[run.1..]);
      assert batch == batch[..run.1] + batch[run.1..];
      MoreSerialized(batch[run.1..]);
      assert false;
    }
  }

  lemma MoreSerialized(ps: seq<Packet>)
    requires ps != []
    ensures |SerializedAll(ps)| > 0
  {
  }

  class Transmitter {
    /** The packet queue. */
    var packets: seq<Packet>

    // the worker's variables
    var pkt: Packet
    var counter: uint16
    var pktToWrite: nat
    var pktWritten: nat
    const pktBuffer: array<byte>

    /** The packets other threads send before the k-th time the worker takes one. */
    const arrivals: nat -> seq<Packet>
    var pops: nat

    /** The packets accepted by Send and those taken by the worker. */
    ghost var accepted: seq<Packet>
    ghost var popped: seq<Packet>

    ghost predicate ValidQueue()
      reads this
    {
      accepted == popped + packets && |packets| <= MAX_QUEUE_SIZE
    }

    /** The queue is as the arrivals so far have left it. */
    ghost predicate Tracked()
      reads this
    {
      ValidQueue() && Queue(packets, accepted, popped) == QueueAfter(arrivals, pops)
    }

    /** A packet is being written exactly while pktWritten is not zero. */
    ghost predicate ValidWorker()
      reads this, pktBuffer
    {
      && pktBuffer.Length == MAX_SERIALIZED_SIZE
      && (pktWritten != 0 ==>
          && pkt != [] && pktToWrite == |pkt| + 2 && 2 <= pktWritten < pktToWrite
          && pktBuffer[..pktToWrite] == Serialized(pkt))
    }

    ghost predicate Valid()
      reads this, pktBuffer
    {
      Tracked() && ValidWorker()
    }

    /** What is left of the packet being written. */
    ghost function Unsent(): seq<byte>
      requires ValidWorker()
      reads this, pktBuffer
    {
      if pktWritten == 0 then [] else pktBuffer[pktWritten..pktToWrite]
    }

    constructor (arrivals: nat -> seq<Packet>)
      ensures Valid() && fresh(pktBuffer)
      ensures Unsent() == [] && counter == 0 && popped == accepted == []
      ensures pops == 0 && this.arrivals == arrivals
    {
      packets, pkt, counter, pktToWrite, pktWritten := [], [], 0, 0, 0;
      pktBuffer := new byte[MAX_SERIALIZED_SIZE];
      this.arrivals := arrivals;
      pops := 0;
      accepted, popped := [], [];
    }

    /** Queue a packet; it is dropped when the queue is full. */
    method Send(p: Packet) returns (ok: bool)
      requires ValidQueue()
      modifies this`packets, this`accepted
      ensures ValidQueue()
      ensures ok <==> |old(packets)| < 32
      ensures packets == if ok then old(packets) + [p] else old(packets)
      ensures accepted == if ok then old(accepted) + [p] else old(accepted)
    {
      if |packets| >= MAX_QUEUE_SIZE {
        return false;
      }
      packets := packets + [p];
      accepted := accepted + [p];
      return true;
    }

    /** The sends of other threads since the last time the worker looked. */
    method ReceiveArrivals()
      requires ValidQueue()
      modifies this`packets, this`accepted, this`pops
      ensures ValidQueue() && pops == old(pops) + 1
      ensures var more := Admitted(old(packets), arrivals(old(pops)));
              packets == old(packets) + more && accepted == old(accepted) + more
    {
      var batch := arrivals(pops);
      for i := 0 to |batch|
        invariant ValidQueue() && pops == old(pops)
        invariant var more := Admitted(old(packets), batch[..i]);
                  packets == old(packets) + more && accepted == old(accepted) + more
      {
        AdmittedNext(old(packets), batch, i);
        var _ := Send(batch[i]);
      }
      assert batch[..|batch|] == batch;
      pops := pops + 1;
    }

    /** Take the oldest packet, or the empty packet when there is none. */
    method PopPacket() returns (p: Packet)
      requires Tracked()
      modifies this`packets, this`accepted, this`pops, this`popped
      ensures Tracked() && pops == old(pops) + 1
      ensures p == Taken(QueueAfter(arrivals, old(pops)), arrivals(old(pops)))
      ensures popped == old(popped) + [p] || (p == [] && popped == old(popped) && packets == [])
      ensures NonEmpty(popped) == NonEmpty(old(popped)) + if p == [] then [] else [p]
    {
      hide QueueAfter, Admitted;
      QueueStep(arrivals, pops);
      TurnFifo(Queue(packets, accepted, popped), arrivals(pops));
      ReceiveArrivals();
      if |packets| == 0 {
        return [];
      }
      p := packets[0];
      packets := packets[1..];
      NonEmptyConcat(popped, [p]);
      popped := popped + [p];
    }

    /** Serialise a frame for the next stage. */
    method TxFrame(frame: Frame) returns (bytes: seq<byte>)
      requires frame.Valid()
      ensures bytes == FrameBytes(frame.Data())
    {
      var writeBuf := new byte[FRAME_SIZE];
      var count := frame.Serialize(writeBuf);
      bytes := writeBuf[..count];
    }

    /** The worker from its start until the next stage takes no more frames. */
    method Worker(count: nat) returns (sent: seq<seq<byte>>, ghost frames: seq<FrameData>, ghost starts: seq<seq<Packet>>)
      requires Valid() && counter == 0 && Unsent() == [] && NonEmpty(popped) == []
      modifies this, pktBuffer
      ensures Valid() && |sent| == |frames| == count
      ensures forall i :: 0 <= i < count ==> sent[i] == FrameBytes(frames[i])
      ensures ValidStream(frames, starts)
      ensures Flatten(starts) == NonEmpty(popped) && Unsent() == Carry(starts, count)
      // every frame is as full as the arrivals allow
      ensures (starts, pops) == RunFrom(arrivals, old(pops), count)
    {
      hide StartedFrom, Tracked, NonEmpty, FrameFits, Rest, ValidWorker, Carry, Flatten, FrameBytes, ValidStream;
      var frame := new Frame();
      sent, frames, starts := [], [], [];
      EmptyStream();
      for i := 0 to count
        invariant Valid() && frame.Valid() && fresh(frame) && fresh(frame.content)
        invariant |sent| == |frames| == |starts| == i && counter == i % COUNTER_RANGE
        invariant forall k :: 0 <= k < i ==> sent[k] == FrameBytes(frames[k])
        invariant ValidStream(frames, starts)
        invariant Flatten(starts) == NonEmpty(popped) && Unsent() == Carry(starts, i)
        invariant (starts, pops) == RunFrom(arrivals, old(pops), i)
      {
        ghost var started := FillFrame(frame);
        ghost var f := frame.Data();
        var bytes := TxFrame(frame);
        StreamLength(frames, starts);
        StreamSnoc(frames, starts, f, started);
        sent, frames, starts := sent + [bytes], frames + [f], starts + [started];
      }
    }

    /** The frame filled up to an offset: what it holds and what is unsent make up the stream so far. */
    ghost predicate Filling(frame: Frame, offset: nat, carry: seq<byte>, started: seq<Packet>)
      reads this, pktBuffer, frame, frame.content
    {
      && Valid() && frame.Valid() && offset <= FRAME_DATA_SIZE
      && frame.content[..offset] + Unsent() == carry + SerializedAll(started)
      && Offsets(frame.firstPacket, frame.lastPacket, carry, started)
    }

    /** Number the frame and mark it as starting no packet. */
    method BeginFrame(frame: Frame)
      requires Valid() && frame.Valid() && frame.content != pktBuffer
      modifies this`counter, frame`counter, frame`firstPacket, frame`lastPacket
      ensures Valid() && Filling(frame, 0, old(Unsent()), []) && Unsent() == old(Unsent())
      ensures frame.counter == old(counter) && counter == (old(counter) + 1) % COUNTER_RANGE
      ensures counter == if old(counter) == 65535 then 0 else old(counter) + 1
      ensures frame.firstPacket == frame.lastPacket == 0xFFFF
    {
      hide SerializedAll;
      frame.counter := counter;
      counter := (counter + 1) % COUNTER_RANGE;
      frame.firstPacket := PKT_OFFS_NONE;
      frame.lastPacket := PKT_OFFS_NONE;
      NothingStarted(Unsent());
      assert frame.content[..0] == [];
    }

    /** Fill the next frame with as much packet data as possible. */
    method FillFrame(frame: Frame) returns (ghost started: seq<Packet>)
      requires Valid() && frame.Valid() && frame.content != pktBuffer
      modifies this, pktBuffer, frame, frame.content
      ensures Valid()
      ensures FrameFits(frame.Data(), old(Unsent()), started)
      ensures frame.counter == old(counter) && counter == (old(counter) + 1) % COUNTER_RANGE
      ensures Unsent() == Rest(old(Unsent()), started)
      ensures NonEmpty(popped) == NonEmpty(old(popped)) + started
      ensures StartedFrom(arrivals, old(pops), |old(Unsent())|) == Started(started, pops)
    {
      hide NonEmpty, FrameFits, Rest, Filling, Unsent, QueueAfter, StartedFrom, Tracked;
      ghost var carry := Unsent();
      started := [];
      BeginFrame(frame);
      var frameOffset: nat := 0;
      var stop := false;
      while !stop && frameOffset < FRAME_DATA_SIZE
        invariant Valid() && frame.Valid() && frameOffset <= FRAME_DATA_SIZE
        invariant Filling(frame, frameOffset, carry, started)
        invariant frame.counter == old(counter) && counter == (old(counter) + 1) % COUNTER_RANGE
        invariant NonEmpty(popped) == NonEmpty(old(popped)) + started
        invariant stop ==> Unsent() == []
        invariant StartedFrom(arrivals, old(pops), |carry|) == Continued(started, frameOffset, stop)
        decreases !stop, FRAME_DATA_SIZE - frameOffset
      {
        ghost var more;
        frameOffset, stop, more := FillStep(frame, frameOffset, carry, started);
        started := started + more;
      }
      Filled(frame, frameOffset, carry, started);
      if !stop {
        FrameFull(started, frameOffset);
      }
    }

    /** What the frame will have started, when it has started some packets up to an offset. */
    ghost function Continued(started: seq<Packet>, offset: nat, stop: bool): Started
      requires ValidWorker()
      reads this, pktBuffer
    {
      if stop then Started(started, pops)
      else
        var rest := StartedFrom(arrivals, pops, offset + |Unsent()|);
        Started(started + rest.packets, rest.pops)
    }

    lemma FrameFull(started: seq<Packet>, offset: nat)
      requires ValidWorker() && offset >= FRAME_DATA_SIZE
      ensures Continued(started, offset, false) == Started(started, pops)
    {
    }

    lemma Filled(frame: Frame, offset: nat, carry: seq<byte>, started: seq<Packet>)
      requires Filling(frame, offset, carry, started) && (offset == FRAME_DATA_SIZE || Unsent() == [])
      ensures Valid() && FrameFits(frame.Data(), carry, started) && Unsent() == Rest(carry, started)
    {
      hide FrameFits, Rest, Offsets, SerializedAll;
      FilledFrame(frame.Data(), offset, carry, started, Unsent());
    }

    /** One turn of the filling loop: write from the current packet, taking a new one first if there is
        none; stop with noise when there is no packet or no room for a length header. */
    method FillStep(frame: Frame, frameOffset: nat, ghost carry: seq<byte>, ghost started: seq<Packet>)
      returns (newOffset: nat, stop: bool, ghost more: seq<Packet>)
      requires Filling(frame, frameOffset, carry, started) && frameOffset < FRAME_DATA_SIZE
      requires frame.content != pktBuffer
      modifies this`packets, this`accepted, this`popped, this`pops, this`pkt, this`pktToWrite, this`pktWritten,
               pktBuffer, frame`firstPacket, frame`lastPacket, frame.content
      ensures Valid() && newOffset <= FRAME_DATA_SIZE && Filling(frame, newOffset, carry, started + more)
      ensures NonEmpty(popped) == NonEmpty(old(popped)) + more
      ensures stop ==> Unsent() == []
      ensures !stop ==> newOffset > frameOffset
      ensures old(Continued(started, frameOffset, false)) == Continued(started + more, newOffset, stop)
    {
      hide SerializedAll, NonEmpty, Serialized, QueueAfter, StartedFrom, Taken, Offsets;
      more := [];
      newOffset := frameOffset;
      assert started + [] == started;
      if pktWritten == 0 {
        if FRAME_DATA_SIZE - frameOffset < 2 {
          NoRoom(arrivals, pops, frameOffset);
          FillNoise(frame, frameOffset);
          return frameOffset, true, [];
        }
        NextPacket();
      }
      if pkt == [] {
        NothingTaken(arrivals, old(pops), frameOffset);
        FillNoise(frame, frameOffset);
        return frameOffset, true, [];
      }
      if pktWritten == 0 {
        more := StartPacket(frame, frameOffset, carry, started);
        OneTaken(arrivals, old(pops), frameOffset, pkt);
      }
      newOffset := WriteSome(frame, frameOffset);
      stop := false;
      StartedMore(started, more, StartedFrom(arrivals, pops, newOffset + |Unsent()|));
    }

    /** Record where the packet starts. */
    method StartPacket(frame: Frame, frameOffset: nat, ghost carry: seq<byte>, ghost started: seq<Packet>)
      returns (ghost more: seq<Packet>)
      requires frame.Valid() && frameOffset <= FRAME_DATA_SIZE - 2 && pkt != []
      requires frame.content[..frameOffset] == carry + SerializedAll(started) && Offsets(frame.firstPacket, frame.lastPacket, carry, started)
      modifies frame`firstPacket, frame`lastPacket
      ensures more == [pkt] && Offsets(frame.firstPacket, frame.lastPacket, carry, started + more)
      ensures frame.content[..frameOffset] + Serialized(pkt) == carry + SerializedAll(started + more)
    {
      hide SerializedAll, Serialized;
      if frame.firstPacket == PKT_OFFS_NONE {
        frame.firstPacket := frameOffset;
      }
      frame.lastPacket := frameOffset;
      more := [pkt];
      assert frame.content[..frameOffset] + [] == frame.content[..frameOffset];
      PacketStarted(carry, started, pkt, frame.content[..frameOffset]);
    }

    /** Take the next packet and serialise it. */
    method NextPacket()
      requires Valid() && pktWritten == 0
      modifies this`packets, this`accepted, this`popped, this`pops, this`pkt, this`pktToWrite, pktBuffer
      ensures Valid()
      ensures pkt == Taken(QueueAfter(arrivals, old(pops)), arrivals(old(pops))) && pops == old(pops) + 1
      ensures pkt != [] ==> pktToWrite == |pkt| + 2 && pktBuffer[..pktToWrite] == Serialized(pkt)
      ensures NonEmpty(popped) == NonEmpty(old(popped)) + if pkt == [] then [] else [pkt]
    {
      hide NonEmpty, Serialized, Taken, QueueAfter;
      pkt := PopPacket();
      if pkt != [] {
        pktToWrite := |pkt| + 2;
        var _ := Serialize(pkt, pktBuffer);
      }
    }

    /** Write as much of the packet as fits. */
    method WriteSome(frame: Frame, frameOffset: nat) returns (newOffset: nat)
      requires Tracked() && frame.Valid() && frame.content != pktBuffer && frameOffset < FRAME_DATA_SIZE
      requires pktBuffer.Length == MAX_SERIALIZED_SIZE && pkt != [] && pktToWrite == |pkt| + 2
      requires pktBuffer[..pktToWrite] == Serialized(pkt)
      requires pktWritten < pktToWrite
      requires if pktWritten == 0 then frameOffset <= FRAME_DATA_SIZE - 2 else pktWritten >= 2
      modifies this`pktToWrite, this`pktWritten, frame.content
      ensures Valid() && frameOffset < newOffset <= FRAME_DATA_SIZE
      ensures frame.content[..newOffset] + Unsent() ==
        old(frame.content[..frameOffset]) + old(pktBuffer[pktWritten..pktToWrite])
    {
      hide Serialized, QueueAfter;
      var writeable := if pktToWrite - pktWritten < FRAME_DATA_SIZE - frameOffset
        then pktToWrite - pktWritten else FRAME_DATA_SIZE - frameOffset;
      ghost var written := frame.content[..frameOffset];
      ghost var now, later := pktBuffer[pktWritten..pktWritten + writeable], pktBuffer[pktWritten + writeable..pktToWrite];
      assert now + later == pktBuffer[pktWritten..pktToWrite];
      CopyOut(frame, frameOffset, writeable);
      newOffset := frameOffset + writeable;
      assert frame.content[..newOffset] == frame.content[..frameOffset] + frame.content[frameOffset..newOffset];
      assert (written + now) + later == written + (now + later);
      pktWritten := pktWritten + writeable;
      if pktWritten >= pktToWrite {
        pktToWrite := 0;
        pktWritten := 0;
        assert later == [];
      }
    }

    /** Copy the next bytes of the packet into the frame. */
    method CopyOut(frame: Frame, frameOffset: nat, writeable: nat)
      requires frame.Valid() && frame.content != pktBuffer
      requires frameOffset + writeable <= FRAME_DATA_SIZE && pktWritten + writeable <= pktBuffer.Length
      modifies frame.content
      ensures frame.content[..frameOffset] == old(frame.content[..frameOffset])
      ensures frame.content[frameOffset..frameOffset + writeable] == pktBuffer[pktWritten..pktWritten + writeable]
    {
      for i := 0 to writeable
        invariant frame.content[..frameOffset] == old(frame.content[..frameOffset])
        invariant frame.content[frameOffset..frameOffset + i] == pktBuffer[pktWritten..pktWritten + i]
      {
        ghost var copied := frame.content[frameOffset..frameOffset + i];
        frame.content[frameOffset + i] := pktBuffer[pktWritten + i];
        assert frame.content[frameOffset..frameOffset + i] == copied;
      }
    }

    /** Fill the rest of the frame with arbitrary bytes. */
    method FillNoise(frame: Frame, frameOffset: nat)
      requires frame.Valid() && frameOffset <= FRAME_DATA_SIZE
      modifies frame.content
      ensures frame.content[..frameOffset] == old(frame.content[..frameOffset])
    {
      for i := frameOffset to FRAME_DATA_SIZE
        invariant frame.content[..frameOffset] == old(frame.content[..frameOffset])
      {
        var noise: byte := *;
        frame.content[i] := noise;
      }
    }
  }

  /** One more packet is admitted exactly if the queue is not full yet. */
  lemma AdmittedNext(packets: seq<Packet>, batch: seq<Packet>, i: nat)
    requires i < |batch| && |packets| <= MAX_QUEUE_SIZE
    ensures var now, next := packets + Admitted(packets, batch[..i]), packets + Admitted(packets, batch[..i + 1]);
            next == if |now| < MAX_QUEUE_SIZE then now + [batch[i]] else now
    ensures Admitted(packets, batch[..i + 1]) ==
      Admitted(packets, batch[..i]) + if |packets + Admitted(packets, batch[..i])| < MAX_QUEUE_SIZE then [batch[i]] else []
  {
  }

  lemma StreamLength(frames: seq<FrameData>, starts: seq<seq<Packet>>)
    requires ValidStream(frames, starts)
    ensures |frames| == |starts|
  {
  }

  lemma NothingStarted(carry: seq<byte>)
    ensures [] + carry == carry + SerializedAll([])
  {
  }

  /** A packet that starts at the end of what is written starts at its offset in the stream. */
  lemma PacketStarted(carry: seq<byte>, started: seq<Packet>, p: Packet, written: seq<byte>)
    requires written + [] == carry + SerializedAll(started)
    ensures written + Serialized(p) == carry + SerializedAll(started + [p])
    ensures StartOffset(carry, started + [p], |started|) == |written|
    ensures started == [] ==> |carry| == |written|
  {
    hide SerializedAll, Serialized;
    var all, next := SerializedAll(started), Serialized(p);
    SerializedAllSnoc(started, p);
    assert (started + [p])[..|started|] == started;
    assert written + [] == written;
    assert (carry + all) + next == carry + (all + next);
    if started == [] {
      NothingStarted(carry);
      assert all == [] by {
        EmptySerialized();
      }
    }
  }

  lemma EmptySerialized()
    ensures SerializedAll([]) == []
  {
  }

  /** A frame that is full, or has nothing left to send, fits the stream. */
  lemma FilledFrame(f: FrameData, offset: nat, carry: seq<byte>, started: seq<Packet>, unsent: seq<byte>)
    requires f.Valid() && offset <= FRAME_DATA_SIZE && Offsets(f.firstPacket, f.lastPacket, carry, started)
    requires f.content[..offset] + unsent == carry + SerializedAll(started)
    requires offset == FRAME_DATA_SIZE || unsent == []
    ensures FrameFits(f, carry, started) && unsent == Rest(carry, started)
  {
    hide SerializedAll;
  }
}
