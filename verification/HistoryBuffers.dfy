/** The ring buffer of survivor bits: search for the cheapest state, renormalisation, and traceback in bursts. */
module HistoryBuffers {
  import opened Bits
  import opened BitIo
  import opened ConvCode
  import opened Survivors

  const MIN_TRACEBACK: nat := 5 * ORDER
  const TRACEBACK_GROUP: nat := 15 * ORDER
  const CAP: nat := MIN_TRACEBACK + TRACEBACK_GROUP
  const RENORMALIZE_INTERVAL: nat := 0xFFFF / (RATE * 255)
  const LANES: nat := 8

  // ----- the cheapest state

  /** The lowest state of least error among the multiples of every. */
  ghost predicate Lowest(d: seq<uint16>, every: nat, best: state)
    requires |d| >= NUM_STATES && every > 0
  {
    && Multiple(best, every)
    && forall s: state :: Multiple(s, every) ==> d[best] <= d[s] && (d[s] == d[best] ==> best <= s)
  }

  /** Between a multiple and the next there is none. */
  lemma NextMultiple(a: nat, s: nat, every: nat)
    requires every > 0 && Multiple(a, every) && Multiple(s, every) && a <= s < a + every
    ensures s == a
  {
    var d := s / every - a / every;
    assert every * d == every * (s / every) - every * (a / every);
    assert every * d < every && every * d >= 0;
    assert 0 <= d < 1;
  }

  lemma ZeroMultiple(every: nat)
    requires every > 0
    ensures Multiple(0, every)
  {
  }

  lemma AddMultiple(a: nat, every: nat)
    requires every > 0 && Multiple(a, every)
    ensures Multiple(a + every, every)
  {
    assert a + every == every * (a / every + 1);
    ModUnique(a + every, every, a / every + 1, 0);
  }

  method Search(distances: array<uint16>, searchEvery: nat) returns (bestpath: state)
    requires distances.Length >= NUM_STATES && 0 < searchEvery <= NUM_STATES
    ensures Lowest(distances[..], searchEvery, bestpath)
  {
    hide Multiple;
    bestpath := 0;
    ZeroMultiple(searchEvery);
    var leasterror: uint16 := 0xFFFF;
    var current: nat := 0;
    while current < NUM_STATES
      invariant Multiple(current, searchEvery) && Multiple(bestpath, searchEvery)
      invariant bestpath <= current && (current == 0 ==> leasterror == 0xFFFF)
      invariant current > 0 ==> distances[bestpath] == leasterror
      invariant forall s: state :: s < current && Multiple(s, searchEvery) ==>
        leasterror <= distances[s] && (distances[s] == leasterror ==> bestpath <= s)
    {
      if distances[current] < leasterror {
        leasterror := distances[current];
        bestpath := current;
      }
      forall s: state | current <= s < current + searchEvery && Multiple(s, searchEvery) ensures s == current {
        NextMultiple(current, s, searchEvery);
      }
      AddMultiple(current, searchEvery);
      current := current + searchEvery;
    }
  }

  function Lane(s: nat): nat {
    s % LANES
  }

  /** What a lane has found among its states below a bound: nothing below the largest error, or the lowest of least error. */
  ghost predicate LaneBest(d: seq<uint16>, bound: nat, k: nat, value: uint16, index: uint16)
    requires |d| >= NUM_STATES && bound <= NUM_STATES && k < LANES
  {
    && (forall s: state :: s < bound && Lane(s) == k ==> value <= d[s] && (d[s] == value ==> index <= s))
    && (value == 0xFFFF ==> index == 0)
    && (value < 0xFFFF ==> index < bound && Lane(index) == k && d[index] == value)
  }

  /** Eight states at a time, one for each lane. */
  method SearchLanes(distances: array<uint16>) returns (bestpath: state)
    requires distances.Length >= NUM_STATES
    ensures Lowest(distances[..], 1, bestpath)
  {
    hide LaneBest;
    ghost var d := distances[..];
    NoneYet(d);
    var idx: seq<uint16> := [0, 1, 2, 3, 4, 5, 6, 7];
    var best: seq<uint16> := seq(LANES, _ => 0xFFFF);
    var bestidx: seq<uint16> := seq(LANES, _ => 0);
    var current: nat := 0;
    while current < NUM_STATES
      invariant Lane(current) == 0 && current <= NUM_STATES
      invariant |idx| == |best| == |bestidx| == LANES
      invariant forall k :: 0 <= k < LANES ==> idx[k] == current + k && LaneBest(d, current, k, best[k], bestidx[k])
    {
      best, bestidx, idx := StepLanes(d, distances[current..current + LANES], current, best, bestidx, idx);
      LaneOf(current, 0);
      current := current + LANES;
    }
    bestpath := BestLane(d, best, bestidx);
  }

  lemma NoneYet(d: seq<uint16>)
    requires |d| >= NUM_STATES
    ensures Lane(0) == 0 && forall k :: 0 <= k < LANES ==> LaneBest(d, 0, k, 0xFFFF, 0)
  {
  }

  /** Compare eight errors with the best of the eight lanes and select. */
  method StepLanes(ghost d: seq<uint16>, loaded: seq<uint16>, ghost current: nat, best: seq<uint16>, bestidx: seq<uint16>,
                   idx: seq<uint16>)
    returns (best1: seq<uint16>, bestidx1: seq<uint16>, idx1: seq<uint16>)
    requires |d| >= NUM_STATES && Lane(current) == 0 && current + LANES <= NUM_STATES
    requires loaded == d[current..current + LANES] && |best| == |bestidx| == |idx| == LANES
    requires forall k :: 0 <= k < LANES ==> idx[k] == current + k && LaneBest(d, current, k, best[k], bestidx[k])
    ensures |best1| == |bestidx1| == |idx1| == LANES
    ensures forall k :: 0 <= k < LANES ==> idx1[k] == current + LANES + k
    ensures forall k :: 0 <= k < LANES ==> LaneBest(d, current + LANES, k, best1[k], bestidx1[k])
  {
    hide LaneBest, Lane;
    var lt := seq(LANES, k requires 0 <= k < LANES => loaded[k] < best[k]);
    best1 := seq(LANES, k requires 0 <= k < LANES => if lt[k] then loaded[k] else best[k]);
    bestidx1 := seq(LANES, k requires 0 <= k < LANES => if lt[k] then idx[k] else bestidx[k]);
    idx1 := seq(LANES, k requires 0 <= k < LANES => (idx[k] as int + LANES) % 0x10000);
    ghost var next := current + LANES;
    forall k | 0 <= k < LANES ensures LaneBest(d, next, k, best1[k], bestidx1[k]) {
      LaneStep(d, current, k, best[k], bestidx[k]);
    }
  }

  lemma LaneStep(d: seq<uint16>, current: nat, k: nat, value: uint16, index: uint16)
    requires |d| >= NUM_STATES && Lane(current) == 0 && current + LANES <= NUM_STATES && k < LANES
    requires LaneBest(d, current, k, value, index)
    ensures LaneBest(d, current + LANES, k, if d[current + k] < value then d[current + k] else value,
                     if d[current + k] < value then current + k else index)
  {
    LaneOf(current, k);
    forall s: state | current <= s < current + LANES && Lane(s) == k ensures s == current + k {
      LaneOf(current, s - current);
    }
    hide Lane;
  }

  lemma LaneOf(current: nat, j: nat)
    requires Lane(current) == 0 && j < LANES
    ensures Lane(current + j) == j && Lane(current + LANES) == 0
  {
  }

  /** The least of the lanes, the lowest index among equals. */
  method BestLane(ghost d: seq<uint16>, vals: seq<uint16>, idxs: seq<uint16>) returns (bestpath: state)
    requires |d| >= NUM_STATES && |vals| == |idxs| == LANES
    requires forall k :: 0 <= k < LANES ==> LaneBest(d, NUM_STATES, k, vals[k], idxs[k])
    ensures Lowest(d, 1, bestpath)
  {
    var leasterror := vals[0];
    var path := idxs[0];
    ghost var lane := 0;
    for k := 1 to LANES
      invariant lane < LANES && leasterror == vals[lane] && path == idxs[lane]
      invariant forall j :: 0 <= j < k ==> leasterror <= vals[j] && (vals[j] == leasterror ==> path <= idxs[j])
    {
      if vals[k] < leasterror || (vals[k] == leasterror && idxs[k] < path) {
        leasterror := vals[k];
        path := idxs[k];
        lane := k;
      }
    }
    bestpath := path;
    forall s: state ensures d[bestpath] <= d[s] && (d[s] == d[bestpath] ==> bestpath <= s) {
      assert LaneBest(d, NUM_STATES, Lane(s), vals[Lane(s)], idxs[Lane(s)]);
      assert LaneBest(d, NUM_STATES, 0, vals[0], idxs[0]);
    }
  }

  // ----- the ring

  /** Where slice k is kept. */
  function Slot(k: nat): (i: nat)
    ensures i < CAP
  {
    k % CAP
  }

  lemma SlotStep(k: nat)
    ensures Slot(k + 1) == if Slot(k) + 1 == CAP then 0 else Slot(k) + 1
  {
  }

  /** Slices less than a ring apart have different slots. */
  lemma SlotsApart(j: nat, k: nat)
    requires j < k < j + CAP
    ensures Slot(j) != Slot(k)
  {
  }

  class HistoryBuffer {
    const minTracebackLength: nat := MIN_TRACEBACK
    const cap: nat := CAP
    const numStates: nat := NUM_STATES
    const highbit: nat := NUM_STATES
    const history: array2<bit>
    var index: nat
    var len: nat
    const fetched: array<bit>
    const renormalizeInterval: nat := RENORMALIZE_INTERVAL
    var renormalizeCounter: nat
    /** All slices processed since the reset. */
    ghost var rows: seq<row>

    ghost function Row(i: nat): row
      reads history
      requires history.Length0 == CAP && history.Length1 == NUM_STATES && i < CAP
    {
      seq(NUM_STATES, s requires 0 <= s < NUM_STATES reads history => history[i, s])
    }

    /** The last len slices are in the ring. */
    ghost predicate Stored()
      reads this`index, this`len, this`rows, history
    {
      && history.Length0 == CAP && history.Length1 == NUM_STATES && fetched.Length == CAP
      && index == Slot(|rows|) && len <= |rows| && len <= CAP
      && forall k :: |rows| - len <= k < |rows| ==> Row(Slot(k)) == rows[k]
    }

    ghost predicate Valid()
      reads this, history
    {
      Stored() && len < CAP && renormalizeCounter < RENORMALIZE_INTERVAL
    }

    constructor ()
      ensures Valid() && rows == [] && renormalizeCounter == 0 && fresh(history) && fresh(fetched)
    {
      history := new bit[CAP, NUM_STATES]((_, _) => 0);
      fetched := new bit[CAP];
      index, len, renormalizeCounter := 0, 0, 0;
      rows := [];
    }

    /** Forget the slices; the counter goes on. */
    method Reset()
      requires Valid()
      modifies this
      ensures Valid() && rows == [] && len == 0 && renormalizeCounter == old(renormalizeCounter)
    {
      len := 0;
      index := 0;
      rows := [];
    }

    /** Subtract the error of one state from all, modulo the width of an error. */
    method Renormalize(distances: array<uint16>, minRegister: state)
      requires distances.Length >= NUM_STATES
      modifies distances
      ensures forall s :: 0 <= s < NUM_STATES ==>
        distances[s] == SubWord(old(distances[s]), old(distances[minRegister]))
      ensures distances[NUM_STATES..] == old(distances[NUM_STATES..])
    {
      var minDistance := distances[minRegister];
      for i := 0 to numStates
        invariant forall s :: 0 <= s < i ==> distances[s] == SubWord(old(distances[s]), minDistance)
        invariant forall s :: i <= s < distances.Length ==> distances[s] == old(distances[s])
      {
        distances[i] := SubWord(distances[i], minDistance);
      }
    }

    /** One step back in the ring and in the trellis. */
    method StepBack(index: nat, bestpath: state, ghost m: nat) returns (index1: nat, bestpath1: state, bit: bit)
      requires Stored() && |rows| - len <= m < |rows| && index == Slot(m + 1)
      ensures index1 == Slot(m) && bit == rows[m][bestpath] && bestpath1 == Pred(bestpath, bit)
      ensures Trace(rows[..m + 1], bestpath) == Trace(rows[..m], bestpath1) + [bit]
    {
      hide Trace;
      SlotStep(m);
      index1 := if index == 0 then cap - 1 else index - 1;
      assert Row(Slot(m))[bestpath] == rows[m][bestpath];
      bit := history[index1, bestpath];
      var pathbit := if bit != 0 then highbit else 0;
      bestpath1 := (bestpath + pathbit) / 2;
      TraceStep(rows, m, bestpath);
    }

    /** Walk back over the newest slices without keeping their bits. */
    method SkipBack(bestpath: state, minLength: nat) returns (at: nat, path: state)
      requires Stored() && minLength <= len <= |rows|
      ensures at == Slot(|rows| - minLength)
      ensures Trace(rows, bestpath)[..|rows| - minLength] == Trace(rows[..|rows| - minLength], path)
    {
      hide Trace, Slot, Pred;
      ghost var n, bits := |rows|, Trace(rows, bestpath);
      path, at := bestpath, index;
      assert rows[..n] == rows;
      SlotOfIndex();
      hide Stored;
      for j := 0 to minLength
        invariant at == Slot(n - j)
        invariant bits[..n - j] == Trace(rows[..n - j], path)
        modifies {}
      {
        ghost var bit;
        at, path, bit := StepBack(at, path, n - j - 1);
        assert bits[..n - j][..n - j - 1] == bits[..n - j - 1];
      }
    }

    lemma SlotOfIndex()
      requires Stored()
      ensures index == Slot(|rows|) && len <= |rows| && fetched.Length == CAP && len <= CAP
    {
    }

    /** Walk back over the rest and keep the bits, the newest first. */
    method Fetch(start: nat, bestpath: state, minLength: nat) returns (count: nat)
      requires Stored() && minLength <= len <= |rows| && start == Slot(|rows| - minLength)
      modifies fetched
      ensures count == len - minLength <= fetched.Length
      ensures Reverse(fetched[..count]) == Trace(rows[..|rows| - minLength], bestpath)[|rows| - len..]
    {
      hide Trace, Slot, Pred, Reverse;
      ghost var n, bits := |rows|, Trace(rows[..|rows| - minLength], bestpath);
      var path, at := bestpath, start;
      count := 0;
      ReverseNothing(fetched[..0]);
      SlotOfIndex();
      hide Stored;
      for j := minLength to len
        invariant count == j - minLength && at == Slot(n - j)
        invariant bits == Trace(rows[..n - j], path) + Reverse(fetched[..count])
        modifies fetched
      {
        var bit;
        ghost var sofar := fetched[..count];
        at, path, bit := StepBack(at, path, n - j - 1);
        fetched[count] := bit;
        count := count + 1;
        assert fetched[..count] == sofar + [bit];
        ReverseSnoc(sofar, bit);
      }
    }

    /** Walk back along the survivor of a state and write the bits older than minLength slices. */
    method Traceback(bestpath: state, minLength: nat, output: BitWriter)
      requires Stored() && minLength <= len && output.Valid() && output.Room(len - minLength)
      modifies this`len, fetched, output, output.bytes
      ensures Stored() && len == minLength && output.Valid() && output.bytes == old(output.bytes)
      ensures output.Contents() ==
        old(output.Contents()) + Trace(rows, bestpath)[|rows| - old(len)..|rows| - minLength]
    {
      hide Trace, Slot, BitWriter.Contents, BitWriter.Valid, Reverse;
      ghost var n, first := |rows|, |rows| - len;
      var at, path := SkipBack(bestpath, minLength);
      var fetchedIndex := Fetch(at, path, minLength);
      assert Trace(rows, bestpath)[first..n - minLength] == Trace(rows, bestpath)[..n - minLength][first..];
      output.WriteBitlistReversed(fetched, fetchedIndex);
      len := len - fetchedIndex;
    }

    /** The slot written to next is none of those in use. */
    lemma StoredSlots()
      requires Stored() && len < CAP
      ensures forall k :: |rows| - len <= k < |rows| ==> Slot(k) != index
    {
      hide Slot;
      forall k | |rows| - len <= k < |rows| ensures Slot(k) != index {
        SlotsApart(k, |rows|);
      }
    }

    method BestState(distances: array<uint16>, skip: nat, useLanes: bool) returns (best: state)
      requires distances.Length >= NUM_STATES && 0 < skip <= NUM_STATES
      ensures Lowest(distances[..], skip, best)
    {
      if useLanes && skip == 1 {
        best := SearchLanes(distances);
      } else {
        best := Search(distances, skip);
      }
    }

    /** Take in the slice written at index: renormalise when it is time, write a burst when the ring is full. */
    method ProcessSkip(distances: array<uint16>, output: BitWriter, skip: nat, useLanes: bool) returns (ghost best: state)
      requires Valid() && distances.Length >= NUM_STATES && 0 < skip <= NUM_STATES
      requires output.Valid() && (len + 1 == CAP ==> output.Room(TRACEBACK_GROUP))
      modifies this, fetched, distances, output, output.bytes
      ensures Valid() && output.Valid() && output.bytes == old(output.bytes)
      ensures rows == old(rows) + [old(Row(index))]
      ensures Renormalizes(old(renormalizeCounter)) || old(len) + 1 == CAP ==> Lowest(old(distances[..]), skip, best)
      ensures renormalizeCounter == NextCounter(old(renormalizeCounter))
      ensures renormalizeCounter == if old(renormalizeCounter) == 127 then 0 else old(renormalizeCounter) + 1
      ensures Renormalizes(old(renormalizeCounter)) ==> forall s :: 0 <= s < NUM_STATES ==>
        distances[s] == SubWord(old(distances[s]), old(distances[best]))
      ensures !Renormalizes(old(renormalizeCounter)) ==> distances[..] == old(distances[..])
      ensures old(len) + 1 < CAP ==> len == old(len) + 1 && output.Contents() == old(output.Contents())
      ensures old(len) + 1 == CAP ==> len == MIN_TRACEBACK && CAP <= |rows|
      ensures old(len) + 1 == CAP ==>
        output.Contents() == old(output.Contents()) + Trace(rows, best)[|rows| - CAP..|rows| - MIN_TRACEBACK]
    {
      hide Trace, Slot, Lowest, SubWord, Stored, Row, BitWriter.Contents, BitWriter.Valid, BitWriter.Room;
      Advance();
      best := 0;
      if renormalizeCounter == renormalizeInterval {
        var bestpath := RenormalizeBest(distances, skip, useLanes);
        if len == cap {
          Burst(bestpath, output);
        }
        best := bestpath;
      } else if len == cap {
        var bestpath := BestState(distances, skip, useLanes);
        Burst(bestpath, output);
        best := bestpath;
      }
    }

    /** Start the counter again and subtract the error of the best state. */
    method RenormalizeBest(distances: array<uint16>, skip: nat, useLanes: bool) returns (best: state)
      requires distances.Length >= NUM_STATES && 0 < skip <= NUM_STATES
      modifies this`renormalizeCounter, distances
      ensures renormalizeCounter == 0 && Lowest(old(distances[..]), skip, best)
      ensures forall s :: 0 <= s < NUM_STATES ==> distances[s] == SubWord(old(distances[s]), old(distances[best]))
    {
      hide Lowest, SubWord;
      renormalizeCounter := 0;
      best := BestState(distances, skip, useLanes);
      Renormalize(distances, best);
    }

    /** Count the slice written at index as stored. */
    method Advance()
      requires Valid()
      modifies this`rows, this`index, this`renormalizeCounter, this`len
      ensures Stored() && rows == old(rows) + [old(Row(index))]
      ensures renormalizeCounter == old(renormalizeCounter) + 1 && len == old(len) + 1 <= |rows|
    {
      hide Slot;
      SlotStep(|rows|);
      rows := rows + [Row(index)];
      index := index + 1;
      if index == cap {
        index := 0;
      }
      renormalizeCounter := renormalizeCounter + 1;
      len := len + 1;
    }

    /** The traceback of a full ring. */
    method Burst(bestpath: state, output: BitWriter)
      requires Stored() && len == CAP <= |rows| && output.Valid() && output.Room(TRACEBACK_GROUP)
      modifies this`len, fetched, output, output.bytes
      ensures Stored() && len == MIN_TRACEBACK && output.Valid() && output.bytes == old(output.bytes)
      ensures output.Contents() == old(output.Contents()) + Trace(rows, bestpath)[|rows| - CAP..|rows| - MIN_TRACEBACK]
    {
      Traceback(bestpath, minTracebackLength, output);
    }

    /** Write all that is left, along the survivor of state 0. */
    method Flush(output: BitWriter)
      requires Valid() && output.Valid() && output.Room(len)
      modifies this`len, fetched, output, output.bytes
      ensures Valid() && len == 0 && output.Valid() && output.bytes == old(output.bytes)
      ensures output.Contents() == old(output.Contents()) + Trace(rows, 0)[|rows| - old(len)..]
    {
      Traceback(0, 0, output);
    }
  }

  /** The counter starts again when it reaches the interval. */
  function NextCounter(counter: nat): nat {
    if Renormalizes(counter) then 0 else counter + 1
  }

  predicate Renormalizes(counter: nat) {
    counter + 1 == RENORMALIZE_INTERVAL
  }

  lemma TraceStep(rows: seq<row>, m: nat, s: state)
    requires m < |rows|
    ensures Trace(rows[..m + 1], s) == Trace(rows[..m], Pred(s, rows[m][s])) + [rows[m][s]]
  {
    hide Pred;
    assert rows[..m + 1][..m] == rows[..m];
  }
}
