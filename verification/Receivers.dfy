/** The receiver: reassembly of packets from numbered frames, some of which may be missing. */
module Receivers {
  import opened Bits
  import opened Packets
  import opened Frames

  // ----- the specification

  /** A packet under assembly: expected content size (0 for none) and the bytes read so far. */
  datatype Partial = Partial(expected: uint16, bytes: seq<byte>)

  const NO_PARTIAL: Partial := Partial(0, [])

  /** What a frame's content gives: packets completed, what is left under assembly, and whether a
      length header was looked for past the end of the content. */
  datatype Extraction = Extraction(done: seq<Packet>, partial: Partial, overread: bool)

  predicate ValidPartial(p: Partial) {
    if p.expected == 0 then p.bytes == [] else |p.bytes| < p.expected
  }

  /** How much of the packet under assembly the frame still holds. */
  function Readable(pos: nat, p: Partial): nat
    requires ValidPartial(p) && pos < FRAME_DATA_SIZE
  {
    if p.expected - |p.bytes| < FRAME_DATA_SIZE - pos then p.expected - |p.bytes| else FRAME_DATA_SIZE - pos
  }

  /** Reading on in a frame at position pos; first until the first header of the frame is read, last
      from the frame's last header on. */
  function Extract(f: FrameData, pos: nat, first: bool, last: bool, p: Partial): (e: Extraction)
    requires |f.content| == FRAME_DATA_SIZE && ValidPartial(p)
    ensures ValidPartial(e.partial)
    decreases first, FRAME_DATA_SIZE - pos
  {
    if pos >= FRAME_DATA_SIZE then Extraction([], p, false)
    else if p.expected != 0 then
      var readable := Readable(pos, p);
      var bytes := p.bytes + f.content[pos..pos + readable];
      if |bytes| >= p.expected then
        if last || f.firstPacket == PKT_OFFS_NONE then Extraction([bytes], NO_PARTIAL, false)
        else
          var e := Extract(f, pos + readable, first, last, NO_PARTIAL);
          e.(done := [bytes] + e.done)
      else
        Extract(f, pos + readable, first, last, Partial(p.expected, bytes))
    else if FRAME_DATA_SIZE - pos < 2 then Extraction([], NO_PARTIAL, false)
    else
      var start := if first then f.firstPacket else pos;
      if start + 1 >= FRAME_DATA_SIZE then Extraction([], NO_PARTIAL, true)
      else Extract(f, start + 2, false, start == f.lastPacket, Partial(Word(f.content[start], f.content[start + 1]), []))
  }

  /** Packets completed before. */
  function Prepend(done: seq<Packet>, e: Extraction): Extraction {
    Extraction(done + e.done, e.partial, e.overread)
  }

  lemma PrependTwice(done: seq<Packet>, more: seq<Packet>, e: Extraction)
    ensures Prepend(done, Prepend(more, e)) == Prepend(done + more, e)
  {
    assert done + (more + e.done) == (done + more) + e.done;
  }

  lemma ExtractEnd(f: FrameData, pos: nat, first: bool, last: bool, p: Partial)
    requires f.Valid() && ValidPartial(p)
    requires pos >= FRAME_DATA_SIZE || (p.expected == 0 && FRAME_DATA_SIZE - pos < 2)
    ensures Extract(f, pos, first, last, p) == Extraction([], p, false)
  {
  }

  /** While a packet is under assembly its content is read. */
  lemma ExtractContent(f: FrameData, pos: nat, first: bool, last: bool, p: Partial)
    requires f.Valid() && ValidPartial(p) && p.expected != 0 && pos < FRAME_DATA_SIZE
    ensures var n := Readable(pos, p);
            var bytes := p.bytes + f.content[pos..pos + n];
            Extract(f, pos, first, last, p) ==
              if |bytes| < p.expected then Extract(f, pos + n, first, last, Partial(p.expected, bytes))
              else if last || f.firstPacket == PKT_OFFS_NONE then Extraction([bytes], NO_PARTIAL, false)
              else
                var e := Extract(f, pos + n, first, last, NO_PARTIAL);
                Extraction([bytes] + e.done, e.partial, e.overread)
  {
  }

  /** Otherwise a length header is read, the first one where the frame says. */
  lemma ExtractHeader(f: FrameData, pos: nat, first: bool, last: bool, start: nat)
    requires f.Valid() && pos + 2 <= FRAME_DATA_SIZE && start == if first then f.firstPacket else pos
    ensures Extract(f, pos, first, last, NO_PARTIAL) ==
      if start + 1 >= FRAME_DATA_SIZE then Extraction([], NO_PARTIAL, true)
      else Extract(f, start + 2, false, start == f.lastPacket, Partial(Word(f.content[start], f.content[start + 1]), []))
  {
  }

  /** The state between frames. */
  datatype RxState = RxState(lastCounter: uint16, partial: Partial, delivered: seq<Packet>, overread: bool)

  const RX_START: RxState := RxState(0, NO_PARTIAL, [], false)

  /** One frame. */
  function RxFrame(st: RxState, f: FrameData): (next: RxState)
    requires |f.content| == FRAME_DATA_SIZE && ValidPartial(st.partial)
    ensures ValidPartial(next.partial)
  {
    var consecutive := f.counter == (st.lastCounter + 1) % COUNTER_RANGE;
    var partial := if consecutive then st.partial else NO_PARTIAL;
    var pos := if consecutive || f.firstPacket == PKT_OFFS_NONE then 0 else f.firstPacket;
    if !consecutive && f.firstPacket != PKT_OFFS_NONE && f.firstPacket > FRAME_DATA_SIZE - 2 then
      RxState(f.counter, NO_PARTIAL, st.delivered, st.overread)
    else if partial.expected == 0 && f.firstPacket == PKT_OFFS_NONE then
      RxState(f.counter, NO_PARTIAL, st.delivered, st.overread)
    else
      var e := Extract(f, pos, true, false, partial);
      RxState(f.counter, e.partial, st.delivered + e.done, st.overread || e.overread)
  }

  // ----- offsets that are not plausible

  /** After the first header of a frame no header is looked for past the end. */
  lemma {:induction false} LaterHeaders(f: FrameData, pos: nat, last: bool, p: Partial)
    requires f.Valid() && ValidPartial(p)
    ensures !Extract(f, pos, false, last, p).overread
    decreases FRAME_DATA_SIZE - pos
  {
    hide Extract, Readable;
    if pos >= FRAME_DATA_SIZE || (p.expected == 0 && FRAME_DATA_SIZE - pos < 2) {
      ExtractEnd(f, pos, false, last, p);
    } else if p.expected == 0 {
      ExtractHeader(f, pos, false, last, pos);
      LaterHeaders(f, pos + 2, pos == f.lastPacket, Partial(Word(f.content[pos], f.content[pos + 1]), []));
    } else {
      ExtractContent(f, pos, false, last, p);
      ReadableRange(pos, p);
      var n := Readable(pos, p);
      var bytes := p.bytes + f.content[pos..pos + n];
      if |bytes| < p.expected {
        LaterHeaders(f, pos + n, last, Partial(p.expected, bytes));
      } else {
        LaterHeaders(f, pos + n, last, NO_PARTIAL);
      }
    }
  }

  lemma ReadableRange(pos: nat, p: Partial)
    requires ValidPartial(p) && p.expected != 0 && pos < FRAME_DATA_SIZE
    ensures 0 < Readable(pos, p) <= FRAME_DATA_SIZE - pos
    ensures Readable(pos, p) == if p.expected - |p.bytes| < FRAME_DATA_SIZE - pos then p.expected - |p.bytes|
                                else FRAME_DATA_SIZE - pos
  {
  }

  /** The first header, where it is looked for from pos on. */
  lemma FirstHeader(f: FrameData, pos: nat)
    requires f.Valid() && pos + 2 <= 886
    ensures Extract(f, pos, true, false, NO_PARTIAL).overread <==> f.firstPacket >= 885
  {
    hide Extract;
    ExtractHeader(f, pos, true, false, f.firstPacket);
    var start := f.firstPacket;
    if start + 1 < FRAME_DATA_SIZE {
      LaterHeaders(f, start + 2, start == f.lastPacket, Partial(Word(f.content[start], f.content[start + 1]), []));
    }
  }

  /** A length header is looked for past the end of a frame exactly if the frame is the next one, its first offset is neither
      plausible nor that of a frame without a packet start, and what is left of the packet under assembly ends with room for
      a header. */
  lemma OverreadExactly(st: RxState, f: FrameData)
    requires f.Valid() && ValidPartial(st.partial)
    ensures RxFrame(st, f).overread == (st.overread ||
      (f.counter == (st.lastCounter + 1) % 65536 && 885 <= f.firstPacket < 0xFFFF
       && st.partial.expected - |st.partial.bytes| <= 884))
  {
    hide Extract, Readable;
    var p := st.partial;
    if f.counter != (st.lastCounter + 1) % COUNTER_RANGE {
      if f.firstPacket <= FRAME_DATA_SIZE - 2 {
        FirstHeader(f, f.firstPacket);
      }
    } else if p.expected == 0 {
      FirstHeader(f, 0);
    } else {
      ExtractContent(f, 0, true, false, p);
      ReadableRange(0, p);
      var n := Readable(0, p);
      var bytes := p.bytes + f.content[0..n];
      if |bytes| < p.expected {
        ExtractEnd(f, n, true, false, Partial(p.expected, bytes));
      } else if n + 2 <= FRAME_DATA_SIZE {
        FirstHeader(f, n);
      } else {
        ExtractEnd(f, n, true, false, NO_PARTIAL);
      }
    }
  }

  /** A frame after a gap whose first offset is not plausible, or that starts no packet, gives nothing. */
  lemma NothingAfterGap(st: RxState, f: FrameData)
    requires f.Valid() && ValidPartial(st.partial)
    requires f.counter != (st.lastCounter + 1) % 65536 && f.firstPacket > 884
    ensures RxFrame(st, f) == RxState(f.counter, Partial(0, []), st.delivered, st.overread)
  {
  }

  // ----- the worker

  class Receiver {
    const frame: Frame
    var lastCounter: uint16
    const pktBuffer: array<byte>
    var pktExpected: uint16
    var pktRead: nat

    /** The packets handed to the packet event, and whether a header was looked for out of bounds. */
    var delivered: seq<Packet>
    var overread: bool

    ghost predicate Valid()
      reads this, pktBuffer
    {
      && frame.Valid() && frame.content != pktBuffer && pktBuffer.Length == MAX_CONTENT_SIZE
      && if pktExpected == 0 then pktRead == 0 else pktRead < pktExpected
    }

    ghost function CurrentPartial(): Partial
      requires Valid()
      reads this, pktBuffer
    {
      Partial(pktExpected, pktBuffer[..pktRead])
    }

    ghost function State(): (st: RxState)
      requires Valid()
      reads this, pktBuffer
      ensures ValidPartial(st.partial)
    {
      RxState(lastCounter, CurrentPartial(), delivered, overread)
    }

    constructor ()
      ensures Valid() && State() == RX_START == RxState(0, Partial(0, []), [], false)
      ensures fresh(frame) && fresh(frame.content) && fresh(pktBuffer)
    {
      frame := new Frame();
      lastCounter, pktExpected, pktRead := 0, 0, 0;
      pktBuffer := new byte[MAX_CONTENT_SIZE];
      delivered, overread := [], false;
    }

    /** One turn of the worker on the bytes of a frame. */
    method ProcessFrame(bytes: seq<byte>, ghost f: FrameData)
      requires Valid() && f.Valid() && |bytes| == FRAME_SIZE && bytes == FrameBytes(f)
      modifies this, frame, frame.content, pktBuffer
      ensures Valid() && State() == RxFrame(old(State()), f)
    {
      hide FrameBytes, Extract;
      frame.Deserialize(bytes);
      FrameBytesInjective(frame.Data(), f);
      assert pktBuffer[..pktRead] == old(pktBuffer[..pktRead]);
      var expectedCounter := (lastCounter + 1) % COUNTER_RANGE;
      lastCounter := frame.counter;
      var frameRead: nat := 0;
      if frame.counter != expectedCounter {
        pktExpected := 0;
        pktRead := 0;
        if frame.firstPacket != PKT_OFFS_NONE {
          if frame.firstPacket > FRAME_DATA_SIZE - 2 {
            return;
          }
          frameRead := frame.firstPacket;
        }
      }
      if pktExpected == 0 && frame.firstPacket == PKT_OFFS_NONE {
        return;
      }
      ExtractPackets(frameRead, f);
    }

    /** The inner loop: read packets from the frame from a position on. */
    method ExtractPackets(start: nat, ghost f: FrameData)
      requires Valid() && frame.Data() == f
      modifies this`pktExpected, this`pktRead, this`delivered, this`overread, pktBuffer
      ensures Valid()
      ensures var e := Extract(f, start, true, false, old(CurrentPartial()));
              && CurrentPartial() == e.partial && delivered == old(delivered) + e.done
              && overread == (old(overread) || e.overread)
    {
      hide Extract;
      var frameRead: nat := start;
      var firstPacket := true;
      var lastPacket := false;
      ghost var p := CurrentPartial();
      ghost var e := Extract(f, start, true, false, p);
      ghost var done: seq<Packet> := [];
      while frameRead < FRAME_DATA_SIZE
        invariant Valid() && p == CurrentPartial() && overread == old(overread)
        invariant delivered == old(delivered) + done
        invariant e == Prepend(done, Extract(f, frameRead, firstPacket, lastPacket, p))
        decreases firstPacket, FRAME_DATA_SIZE - frameRead
      {
        var outside;
        ghost var more;
        frameRead, firstPacket, lastPacket, outside, more := ExtractStep(frameRead, firstPacket, lastPacket, f);
        PrependTwice(done, more, Extraction([], NO_PARTIAL, true));
        if outside {
          overread := true;
          return;
        }
        p := CurrentPartial();
        PrependTwice(done, more, Extract(f, frameRead, firstPacket, lastPacket, p));
        done := done + more;
      }
      ExtractEnd(f, frameRead, firstPacket, lastPacket, p);
    }

    /** One turn of the inner loop. */
    method ExtractStep(start: nat, first: bool, last: bool, ghost f: FrameData)
      returns (frameRead: nat, firstPacket: bool, lastPacket: bool, outside: bool, ghost more: seq<Packet>)
      requires Valid() && frame.Data() == f && start < FRAME_DATA_SIZE
      modifies this`pktExpected, this`pktRead, this`delivered, pktBuffer
      ensures Valid() && delivered == old(delivered) + more
      ensures var e := Extract(f, start, first, last, old(CurrentPartial()));
              if outside then e == Prepend(more, Extraction([], NO_PARTIAL, true)) && CurrentPartial() == NO_PARTIAL
              else e == Prepend(more, Extract(f, frameRead, firstPacket, lastPacket, CurrentPartial()))
      ensures !outside ==> (first && !firstPacket) || (first == firstPacket && frameRead > start)
    {
      hide Extract;
      frameRead, firstPacket, lastPacket, outside, more := start, first, last, false, [];
      ghost var p := CurrentPartial();
      ExtractEnd(f, FRAME_DATA_SIZE, first, last, NO_PARTIAL);
      if pktExpected != 0 {
        ExtractContent(f, start, first, last, p);
        var completed;
        frameRead, completed := ReadContent(start, f);
        if completed {
          more := delivered[|old(delivered)|..];
          if lastPacket || frame.firstPacket == PKT_OFFS_NONE {
            frameRead := FRAME_DATA_SIZE;
          }
        }
        return;
      }
      assert p == NO_PARTIAL;
      if FRAME_DATA_SIZE - frameRead < 2 {
        ExtractEnd(f, start, first, last, p);
        frameRead := FRAME_DATA_SIZE;
        pktExpected := 0;
        pktRead := 0;
        return;
      }
      ExtractHeader(f, start, first, last, if first then f.firstPacket else start);
      if firstPacket {
        frameRead := frame.firstPacket;
        firstPacket := false;
      }
      if frameRead + 1 >= FRAME_DATA_SIZE {
        // the program reads the length from beyond the content here
        outside := true;
        return;
      }
      lastPacket := frameRead == frame.lastPacket;
      pktExpected := Word(frame.content[frameRead], frame.content[frameRead + 1]);
      frameRead := frameRead + 2;
    }

    /** Read as much as possible of the packet under assembly and hand it on when it is complete. */
    method ReadContent(frameRead: nat, ghost f: FrameData) returns (newRead: nat, completed: bool)
      requires Valid() && frame.Data() == f && pktExpected != 0 && frameRead < FRAME_DATA_SIZE
      modifies this`pktExpected, this`pktRead, this`delivered, pktBuffer
      ensures Valid()
      ensures var p := old(CurrentPartial());
              var readable := Readable(frameRead, p);
              var bytes := p.bytes + f.content[frameRead..frameRead + readable];
              && newRead == frameRead + readable
              && completed == (|bytes| >= p.expected)
              && CurrentPartial() == (if completed then NO_PARTIAL else Partial(p.expected, bytes))
              && delivered == (if completed then old(delivered) + [bytes] else old(delivered))
    {
      var readable := if pktExpected - pktRead < FRAME_DATA_SIZE - frameRead
        then pktExpected - pktRead else FRAME_DATA_SIZE - frameRead;
      CopyIn(frameRead, readable);
      pktRead := pktRead + readable;
      newRead := frameRead + readable;
      completed := pktRead >= pktExpected;
      if completed {
        delivered := delivered + [pktBuffer[..pktExpected]];
        pktRead := 0;
        pktExpected := 0;
      }
    }

    method CopyIn(frameRead: nat, readable: nat)
      requires Valid() && frameRead + readable <= FRAME_DATA_SIZE && pktRead + readable <= pktExpected
      modifies pktBuffer
      ensures pktBuffer[..pktRead + readable] == old(pktBuffer[..pktRead]) + frame.content[frameRead..frameRead + readable]
    {
      for i := 0 to readable
        invariant pktBuffer[..pktRead + i] == old(pktBuffer[..pktRead]) + frame.content[frameRead..frameRead + i]
      {
        ghost var copied := pktBuffer[..pktRead + i];
        pktBuffer[pktRead + i] := frame.content[frameRead + i];
        assert pktBuffer[..pktRead + i] == copied;
        assert pktBuffer[..pktRead + (i + 1)] == copied + [frame.content[frameRead + i]];
        assert frame.content[frameRead..frameRead + (i + 1)] ==
          frame.content[frameRead..frameRead + i] + [frame.content[frameRead + i]];
      }
    }
  }
}
