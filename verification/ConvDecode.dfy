/** The Viterbi decoder: warm-up, inner slices, tail, and flush. */
module ConvDecode {
  import opened Bits
  import opened BitIo
  import opened ConvCode
  import opened MetricBounds
  import opened ErrorBuffers
  import opened PairLookups
  import opened Survivors
  import opened HistoryBuffers
  import opened ViterbiSlices
  import opened ViterbiMetrics
  import opened CodeWords

  /** The first slice of the ring: the tail of a short input begins in the warm-up. */
  function RingStart(sets: nat): nat
    requires 6 <= sets
  {
    if sets < 12 then sets - 6 else 6
  }

  /** The bits of the whole input are those of canonical paths, and a short one's are those of one. */
  ghost predicate Complete(soft: seq<byte>, sets: nat, bits: seq<bit>) {
    && 6 <= sets && |bits| + RingStart(sets) == sets && AllDecided(soft, sets, bits) && AllWritten(soft, sets, bits)
    && (|bits| < CAP ==>
        exists path: seq<bit> :: |path| == sets && Canonical(soft, sets, path) && bits == path[..|bits|])
  }

  /** The bytes are the whole bytes of the bits decided. */
  ghost predicate Output(soft: seq<byte>, sets: nat, bits: seq<bit>, out: seq<byte>) {
    && 6 <= sets && |bits| + RingStart(sets) == sets && (sets >= 12 ==> Complete(soft, sets, bits))
    && |out| == |bits| / 8 && ToBits(out) == bits[..8 * |out|]
  }

  class Decoder {
    const table: seq<nat>
    const bitWriter: BitWriter
    const distances: array<uint16>
    const pairLookup: PairLookup
    const historyBuffer: HistoryBuffer
    const errors: ErrorBuffer
    /** The eight-lane forms are used where there are any. */
    const useLanes: bool

    /** The tables and buffers, and the writer, whose buffer is the caller's. */
    ghost function Objects(): set<object> {
      {bitWriter, distances, pairLookup.distances, historyBuffer, historyBuffer.history, historyBuffer.fetched,
       errors, errors.errors0, errors.errors1}
    }

    ghost predicate Valid()
      reads Objects(), pairLookup.keys, pairLookup.outputs
    {
      && |table| == NUM_REGISTERS && (forall r :: 0 <= r < NUM_REGISTERS ==> table[r] == Out(r))
      && distances.Length == 4 && distances != errors.errors0 && distances != errors.errors1
      && pairLookup.Valid() && historyBuffer.Valid() && errors.Valid() && errors.numStates == NUM_REGISTERS
      && bitWriter.Valid()
    }

    /** n slices are done: every slice's bit is either written or in the ring; from twelve slices on, the metrics are
        exact and bounded, the survivors optimal, and what is written has been decided. */
    ghost predicate Decoding(soft: seq<byte>, sets: nat, n: nat, off: nat)
      reads Objects(), pairLookup.keys, pairLookup.outputs, bitWriter.bytes
    {
      && Valid() && !errors.Unswapped() && Writing(soft, sets, n) && n <= sets
      && (sets >= 12 ==>
        Progress(errors.readErrors[..], soft, sets, n, off, historyBuffer.rows, historyBuffer.renormalizeCounter))
    }

    /** Every slice's bit is either written or in the ring, and what is written has been decided. */
    ghost predicate Writing(soft: seq<byte>, sets: nat, n: nat)
      reads historyBuffer, bitWriter, bitWriter.bytes
    {
      && 6 <= sets && 2 * sets <= |soft| && sets < 8 * bitWriter.bytes.Length + 14
      && bitWriter.Valid() && |historyBuffer.rows| + RingStart(sets) == n
      && |bitWriter.Contents()| + historyBuffer.len == |historyBuffer.rows|
      && (|historyBuffer.rows| < CAP ==> bitWriter.Contents() == [])
      && (sets >= 12 ==> AllWritten(soft, sets, bitWriter.Contents()) && WholeBursts(|bitWriter.Contents()|))
    }

    constructor (useLanes: bool)
      ensures Valid() && fresh(Objects()) && fresh(pairLookup.keys) && fresh(pairLookup.outputs)
    {
      var t := FillTable(RATE, ORDER, POLYNOMIALS);
      table := t;
      bitWriter := new BitWriter();
      distances := new uint16[4];
      pairLookup := new PairLookup(t);
      historyBuffer := new HistoryBuffer();
      errors := new ErrorBuffer(NUM_REGISTERS);
      this.useLanes := useLanes;
    }

    // ----- warm-up

    /** i slices of the warm-up are done. */
    ghost predicate Warming(soft: seq<byte>, sets: nat, i: nat)
      requires i <= 6 <= sets && 2 * sets <= |soft|
      reads Objects(), pairLookup.keys, pairLookup.outputs
    {
      && Valid()
      && (i == 0 ==> errors.Unswapped() && forall s :: 0 <= s < NUM_REGISTERS ==> errors.readErrors[s] == 0)
      && (i > 0 ==> !errors.Unswapped() && (sets >= 12 ==> Metrics(errors.readErrors[..], soft, sets, i, 0)))
    }

    method Warmup(soft: seq<byte>, sets: nat)
      requires 6 <= sets && 2 * sets <= |soft| && Warming(soft, sets, 0)
      modifies errors, errors.errors0, errors.errors1
      ensures Warming(soft, sets, 6)
    {
      for i := 0 to ORDER - 1
        invariant Warming(soft, sets, i)
      {
        WarmupSlice(table, soft, i, errors.readErrors, errors.writeErrors);
        if sets >= 12 {
          WarmupExact(soft, sets, i, errors.readErrors[..], errors.writeErrors[..]);
        }
        errors.Swap();
      }
    }

    // ----- a slice

    /** The slice's errors and history row are computed; the ring has yet to take them in. */
    ghost predicate Chosen(soft: seq<byte>, sets: nat, t: nat, off: nat)
      reads Objects(), pairLookup.keys, pairLookup.outputs, bitWriter.bytes
    {
      && Valid() && !errors.Unswapped() && Writing(soft, sets, t) && t < sets
      && (sets >= 12 ==>
        && OptimalRows(soft, sets, historyBuffer.rows)
        && Computed(errors.writeErrors[..], historyBuffer.Row(historyBuffer.index), soft, sets, t, off)
        && Bounded(errors.writeErrors[..], sets, t + 1, historyBuffer.renormalizeCounter + 1))
    }

    /** The metrics of all outputs, and of all pairs of outputs. */
    method FillInner(soft: seq<byte>, t: nat)
      requires Valid() && 2 * t + 1 < |soft|
      modifies distances, pairLookup.distances
      ensures Valid() && SliceMetrics(distances[..], soft, t) && Packed(pairLookup, distances[..])
    {
      hide SliceMetrics, PackedPair;
      FillDistances(soft, t, distances);
      MetricsSmall(distances[..], soft, t);
      pairLookup.FillDistance(distances);
    }

    /** Add-compare-select over all states. */
    method SelectInner(soft: seq<byte>, ghost sets: nat, t: nat, ghost off: nat)
      requires Decoding(soft, sets, t, off) && t + 6 < sets
      modifies distances, pairLookup.distances, errors.writeErrors, historyBuffer.history
      ensures Chosen(soft, sets, t, off)
    {
      hide Progress, OptimalRows, Computed, Bounded, AllWritten, WholeBursts, SliceMetrics, Packed,
           BitWriter.Contents, SelectLow, BranchSum;
      ghost var read, rows, counter := errors.readErrors[..], historyBuffer.rows, historyBuffer.renormalizeCounter;
      ProgressRange(read, soft, sets, t, off, rows, counter);
      FillInner(soft, t);
      ghost var d := distances[..];
      var i := historyBuffer.index;
      historyBuffer.StoredSlots();
      if useLanes {
        AddCompareSelectLanes(pairLookup, d, errors.readErrors, errors.writeErrors, historyBuffer.history, i);
      } else {
        AddCompareSelect(pairLookup, d, errors.readErrors, errors.writeErrors, historyBuffer.history, i);
      }
      InnerComputed(d, read, errors.writeErrors[..], historyBuffer.Row(i), soft, sets, t, off, rows, counter);
    }

    /** Only the states that a zero leads to. */
    method SelectTail(soft: seq<byte>, sets: nat, t: nat, ghost off: nat) returns (skip: nat)
      requires Decoding(soft, sets, t, off) && t < sets <= t + 6
      modifies distances, errors.writeErrors, historyBuffer.history
      ensures Chosen(soft, sets, t, off) && skip == Skip(sets, t + 1)
    {
      hide Progress, OptimalRows, Computed, Bounded, SliceMetrics, Writing, SelectHigh, BranchSum;
      ghost var read, rows, counter := errors.readErrors[..], historyBuffer.rows, historyBuffer.renormalizeCounter;
      WritingRange(soft, sets, t);
      skip := TailSkip(sets, t);
      FillDistances(soft, t, distances);
      ghost var d := distances[..];
      var i := historyBuffer.index;
      historyBuffer.StoredSlots();
      TailSelect(table, distances, errors.readErrors, errors.writeErrors, historyBuffer.history, i, skip);
      if sets >= 12 {
        ProgressRange(read, soft, sets, t, off, rows, counter);
        TailComputed(d, read, errors.writeErrors[..], historyBuffer.Row(i), soft, sets, t, off, rows, counter);
      }
    }

    lemma WritingRange(soft: seq<byte>, sets: nat, n: nat)
      requires Writing(soft, sets, n)
      ensures 6 <= sets && 2 * sets <= |soft|
    {
    }

    /** The ring takes the slice in, and the error buffers change places. */
    method Finish(soft: seq<byte>, ghost sets: nat, ghost t: nat, ghost off: nat, skip: nat) returns (ghost off1: nat)
      requires Chosen(soft, sets, t, off) && skip == Skip(sets, t + 1)
      modifies Objects(), bitWriter.bytes
      ensures Decoding(soft, sets, t + 1, off1) && bitWriter.bytes == old(bitWriter.bytes)
    {
      hide PairLookup.Valid, Out, Progress, OptimalRows, Computed, Bounded, AllWritten, WholeBursts,
           BitWriter.Contents, Lowest, Skip, Trace, SubWord;
      ghost var w, r, rows := errors.writeErrors[..], historyBuffer.Row(historyBuffer.index), historyBuffer.rows;
      ghost var counter, bits := historyBuffer.renormalizeCounter, bitWriter.Contents();
      var best := historyBuffer.ProcessSkip(errors.writeErrors, bitWriter, skip, useLanes);
      if sets >= 12 {
        off1 := SliceTaken(w, errors.writeErrors[..], r, soft, sets, t, off, rows, counter, best, bits, bitWriter.Contents());
      } else {
        off1 := off;
      }
      errors.Swap();
    }

    // ----- the driver

    /** Clear the metrics and the ring, but not the renormalisation counter, and warm up. */
    method Begin(soft: seq<byte>, sets: nat, msg: array<byte>, len: nat)
      requires Valid() && 6 <= sets && 2 * sets <= |soft| && sets < 8 * msg.Length + 14
      modifies Objects()
      ensures Decoding(soft, sets, RingStart(sets), 0) && bitWriter.bytes == msg
    {
      hide PairLookup.Valid, Out, Progress, OptimalRows, Bounded, Metrics, BitWriter.Contents;
      bitWriter.Reconfigure(msg, len);
      errors.Reset();
      historyBuffer.Reset();
      Warmup(soft, sets);
      if sets >= 12 {
        WarmupProgress(errors.readErrors[..], soft, sets, historyBuffer.renormalizeCounter);
      }
    }

    lemma DecodingRange(soft: seq<byte>, sets: nat, n: nat, off: nat)
      requires Decoding(soft, sets, n, off)
      ensures 6 <= sets && n <= sets && 2 * sets <= |soft| && errors.writeErrors in Objects()
      ensures sets >= 12 ==> n >= 6 && Metrics(errors.readErrors[..], soft, sets, n, off)
    {
      hide Metrics, OptimalRows, Bounded, AllWritten, WholeBursts;
    }

    method Inner(soft: seq<byte>, sets: nat) returns (ghost off: nat)
      requires 6 <= sets && Decoding(soft, sets, RingStart(sets), 0)
      modifies Objects(), bitWriter.bytes
      ensures bitWriter.bytes == old(bitWriter.bytes) && Decoding(soft, sets, sets - 6, off)
    {
      hide Decoding, Chosen, Skip;
      off := 0;
      var i := ORDER - 1;
      while i < sets - ORDER + 1
        invariant i < sets - 6 ==> Decoding(soft, sets, i, off)
        invariant i >= sets - 6 ==> Decoding(soft, sets, sets - 6, off)
        invariant 6 <= i && bitWriter.bytes == old(bitWriter.bytes)
      {
        DecodingRange(soft, sets, i, off);
        SelectInner(soft, sets, i, off);
        SkipStep(sets, i);
        off := Finish(soft, sets, i, off, 1);
        i := i + 1;
      }
    }

    method Tail(soft: seq<byte>, sets: nat, ghost off0: nat) returns (ghost off: nat)
      requires 6 <= sets && Decoding(soft, sets, sets - 6, off0)
      modifies Objects(), bitWriter.bytes
      ensures bitWriter.bytes == old(bitWriter.bytes) && Decoding(soft, sets, sets, off)
    {
      hide Decoding, Chosen, Skip;
      off := off0;
      for i := sets - ORDER + 1 to sets
        invariant Decoding(soft, sets, i, off) && bitWriter.bytes == old(bitWriter.bytes)
      {
        DecodingRange(soft, sets, i, off);
        var skip := SelectTail(soft, sets, i, off);
        off := Finish(soft, sets, i, off, skip);
      }
    }

    /** Write what is left in the ring. */
    method End(ghost soft: seq<byte>, ghost sets: nat, ghost off: nat) returns (len: nat, ghost bits: seq<bit>)
      requires Decoding(soft, sets, sets, off)
      modifies historyBuffer`len, historyBuffer.fetched, bitWriter, bitWriter.bytes
      ensures Valid() && bitWriter.bytes == old(bitWriter.bytes)
      ensures len <= bitWriter.bytes.Length && Output(soft, sets, bits, bitWriter.bytes[..len])
    {
      hide ToBits, BitsOf, PairLookup.Valid, Out, ErrorBuffer.Valid, Progress, AllDecided, AllWritten, WholeBursts,
           Canonical, Trace;
      ghost var before := bitWriter.Contents();
      if sets >= 12 {
        FlushDecided(errors.readErrors[..], soft, sets, off, historyBuffer.rows, historyBuffer.renormalizeCounter, before);
      }
      historyBuffer.Flush(bitWriter);
      bits := bitWriter.Contents();
      if sets >= 12 {
        AllWrittenDecided(soft, sets, bits);
      }
      len := bitWriter.Length();
    }

    /** Decode all slices; returns the number of whole bytes. */
    method Decode(soft: seq<byte>, sets: nat, len: nat, msg: array<byte>) returns (ret: nat, ghost bits: seq<bit>, ghost off: nat)
      requires Valid() && 6 <= sets && 2 * sets <= |soft| && sets < 8 * msg.Length + 14
      modifies Objects(), msg
      ensures Valid() && ret <= msg.Length && Output(soft, sets, bits, msg[..ret])
      ensures sets >= 12 ==> Metrics(errors.readErrors[..], soft, sets, sets, off)
      ensures forall m: seq<byte> :: WithinMargin(soft, m) && 8 * |m| + 8 == sets ==> msg[..ret] == m
    {
      hide Decoding, Complete, Metrics, ToBits, PairLookup.Valid, Out, WithinMargin;
      Begin(soft, sets, msg, len);
      off := Inner(soft, sets);
      off := Tail(soft, sets, off);
      DecodingRange(soft, sets, sets, off);
      ret, bits := End(soft, sets, off);
      MarginRecovers(soft, sets, bits, msg[..ret]);
    }

    /** Decode pairs of soft symbols, at least six: -1 for an odd number of symbols, else the number of whole bytes. */
    method DecodeSoft(soft: seq<byte>, numEncodedBits: nat, msg: array<byte>) returns (ret: int, ghost bits: seq<bit>, ghost off: nat)
      requires Valid() && numEncodedBits <= |soft|
      requires numEncodedBits % RATE == 0 ==> 12 <= numEncodedBits < 16 * msg.Length + 28
      modifies Objects(), msg
      ensures Valid()
      ensures numEncodedBits % RATE != 0 <==> ret == -1
      ensures ret != -1 ==> 0 <= ret <= msg.Length && Output(soft, numEncodedBits / RATE, bits, msg[..ret])
      ensures ret != -1 && numEncodedBits >= 24 ==>
        Metrics(errors.readErrors[..], soft, numEncodedBits / RATE, numEncodedBits / RATE, off)
      // the noise margin: messages close enough are recovered
      ensures forall m: seq<byte> :: WithinMargin(soft, m) && 16 * |m| + 16 == numEncodedBits ==>
        ret == |m| && msg[..ret] == m
    {
      hide Valid, Output, Metrics, WithinMargin;
      if numEncodedBits % RATE != 0 {
        return -1, [], 0;
      }
      var numEncodedBytes := BytesFor(numEncodedBits);
      var sets := numEncodedBits / RATE;
      Pairs(numEncodedBits, sets, msg.Length);
      ret, bits, off := Decode(soft, sets, numEncodedBytes, msg);
    }

    lemma Pairs(bits: nat, sets: nat, bytes: nat)
      requires sets == bits / RATE && bits % RATE == 0 && 12 <= bits < 16 * bytes + 28
      ensures bits == 2 * sets && 6 <= sets < 8 * bytes + 14
    {
    }

    lemma MarginRecovers(soft: seq<byte>, sets: nat, bits: seq<bit>, out: seq<byte>)
      requires Output(soft, sets, bits, out)
      ensures forall m: seq<byte> :: WithinMargin(soft, m) && 8 * |m| + 8 == sets ==> out == m
    {
      hide WithinMargin, Decided, ToBits, Minimal;
      forall m: seq<byte> | WithinMargin(soft, m) && 8 * |m| + 8 == sets ensures out == m {
        if sets >= 12 {
          MarginDecodes(soft, sets, m, bits, out);
        }
      }
    }
  }

  /** The output is a function of the soft symbols: it is the same whatever the implementation, the phase of the
      renormalisation counter and the way the ring is cut into bursts. */
  lemma OutputUnique(soft: seq<byte>, sets: nat, bits: seq<bit>, out: seq<byte>, bits1: seq<bit>, out1: seq<byte>)
    requires sets >= 12 && Output(soft, sets, bits, out) && Output(soft, sets, bits1, out1)
    ensures bits == bits1 && out == out1
  {
    hide Written, AllDecided, Canonical, ToBits;
    forall k | 0 <= k < |bits| ensures bits[k] == bits1[k] {
      WrittenUnique(soft, sets, k, bits[k], bits1[k]);
    }
    ToBitsInjective(out, out1);
  }

  /** The distance between the states entered in slice t of the tail. */
  method TailSkip(sets: nat, t: nat) returns (skip: nat)
    requires t < sets <= t + 6
    ensures skip == Skip(sets, t + 1) && Multiple(skip, 2)
  {
    skip := 1;
    for k := 0 to ORDER - (sets - t)
      invariant skip == if k == 0 then 1 else if k == 1 then 2 else if k == 2 then 4 else if k == 3 then 8
                        else if k == 4 then 16 else if k == 5 then 32 else 64
    {
      skip := skip * 2;
    }
  }

  lemma MetricsSmall(d: seq<uint16>, soft: seq<byte>, t: nat)
    requires 2 * t + 1 < |soft| && SliceMetrics(d, soft, t)
    ensures forall j :: 0 <= j < 4 ==> d[j] <= MAX_DISTANCE
  {
    hide Distance;
  }

  /** A warm-up slice adds up minimum costs without wrapping; the first exchange drops the first slice. */
  lemma WarmupExact(soft: seq<byte>, sets: nat, i: nat, read: seq<uint16>, write: seq<uint16>)
    requires i < 6 && 12 <= sets && 2 * sets <= |soft| && |read| >= NUM_STATES && |write| >= NUM_STATES
    requires i == 0 ==> forall s :: 0 <= s < |read| ==> read[s] == 0
    requires i > 0 ==> Metrics(read, soft, sets, i, 0)
    requires forall s: state :: s < Reach(i) ==> write[s] == AddWord(Branch(soft, i, s), read[s / 2])
    ensures i == 0 ==> Metrics(read, soft, sets, 1, 0)
    ensures i > 0 ==> Metrics(write, soft, sets, i + 1, 0)
  {
    hide Branch;
    if i > 0 {
      forall s: state | s < Reach(i) ensures write[s] == Best(soft, i, s) {
        AllLive(sets, i, s / 2);
        BestAtMost(soft, i - 1, s / 2);
        assert Best(soft, i, s) == Best(soft, i - 1, s / 2) + Branch(soft, i, s);
      }
    }
  }
}
