/** The stored metrics are the minimum costs, up to what renormalisation has subtracted, and never wrap around. */
module ViterbiMetrics {
  import opened Bits
  import opened ConvCode
  import opened MetricBounds
  import opened Survivors
  import opened HistoryBuffers
  import opened ViterbiSlices

  /** After the warm-up the cheapest of all states costs at most 255 for each of five slices. */
  const WARMUP_MINIMUM: nat := 1275
  /** The largest metric before the tail: 128 slices after a renormalisation. */
  const INNER_MAXIMUM: nat := 255 * 128 + WARMUP_MINIMUM + MAX_SPREAD

  /** After n slices the metric of every live state, with what has been subtracted so far, is its minimum cost. */
  ghost predicate Metrics(d: seq<uint16>, soft: seq<byte>, sets: nat, n: nat, off: nat)
    requires 1 <= n <= sets && 2 * sets <= |soft| && |d| >= NUM_STATES
  {
    forall s: state :: s < Reach(n - 1) && Live(sets, n, s) ==> d[s] as int + off == Best(soft, n - 1, s)
  }

  /** Before the tail the least metric grows by 255 a slice; in the tail the largest grows by 510 a slice. */
  ghost predicate Bounded(d: seq<uint16>, sets: nat, n: nat, counter: nat)
    requires n <= sets && |d| >= NUM_STATES
  {
    && (n + 6 <= sets ==> exists q: state :: d[q] <= 255 * counter + WARMUP_MINIMUM)
    && (n + 6 >= sets ==>
        forall s: state :: Live(sets, n, s) ==> d[s] <= INNER_MAXIMUM + MAX_DISTANCE * (n + 6 - sets))
  }

  ghost predicate Progress(d: seq<uint16>, soft: seq<byte>, sets: nat, n: nat, off: nat, rows: seq<row>, counter: nat) {
    && 12 <= sets && 6 <= n <= sets && 2 * sets <= |soft| && |d| >= NUM_STATES && counter < RENORMALIZE_INTERVAL
    && Metrics(d, soft, sets, n, off) && Bounded(d, sets, n, counter)
    && |rows| + 6 == n && OptimalRows(soft, sets, rows)
  }

  lemma AllLive(sets: nat, n: nat, s: state)
    requires n + 6 <= sets
    ensures Live(sets, n, s)
  {
  }

  /** No live metric is near the width of a word. */
  lemma NoWrap(d: seq<uint16>, soft: seq<byte>, sets: nat, n: nat, off: nat, rows: seq<row>, counter: nat, s: state)
    requires Progress(d, soft, sets, n, off, rows, counter) && Live(sets, n, s)
    ensures d[s] <= INNER_MAXIMUM + 6 * MAX_DISTANCE == 40035
    ensures n + 6 <= sets ==> d[s] <= INNER_MAXIMUM == 36975
  {
    hide Best, OptimalRows;
    if n + 6 <= sets {
      var q: state :| d[q] <= 255 * counter + WARMUP_MINIMUM;
      AllLive(sets, n, q);
      hide Live;
      ReachAll(n - 1, q);
      ReachAll(n - 1, s);
      Spread(soft, n - 1, q, s);
    }
  }

  // ----- one slice

  /** The sum for a live state's branch is exact. */
  lemma SumExact(dist: seq<uint16>, read: seq<uint16>, soft: seq<byte>, sets: nat, t: nat, off: nat, rows: seq<row>,
                 counter: nat, s: state, h: bit)
    requires Progress(read, soft, sets, t, off, rows, counter) && t < sets && SliceMetrics(dist, soft, t)
    requires Live(sets, t + 1, s)
    ensures BranchSum(dist, read, s, h) as int + off ==
      Best(soft, t - 1, Pred(s, h)) + Branch(soft, t, BranchRegister(s, h))
  {
    hide Best, Live, Out, Bounded, OptimalRows, Pred, BranchRegister;
    LivePred(sets, t, s, h);
    NoWrap(read, soft, sets, t, off, rows, counter, Pred(s, h));
    ReachAll(t - 1, Pred(s, h));
    hide Reach;
  }

  /** Selecting the smaller sum, the preferred one of equals, takes the surviving predecessor, and the selected sum is the
      minimum cost. */
  lemma SelectionSurvives(dist: seq<uint16>, read: seq<uint16>, soft: seq<byte>, sets: nat, t: nat, off: nat,
                          rows: seq<row>, counter: nat, s: state, h: bit)
    requires Progress(read, soft, sets, t, off, rows, counter) && t < sets && SliceMetrics(dist, soft, t)
    requires Live(sets, t + 1, s)
    requires BranchSum(dist, read, s, h) <= BranchSum(dist, read, s, 1 - h)
    requires BranchSum(dist, read, s, h) == BranchSum(dist, read, s, 1 - h) ==> h == Preferred(sets, t)
    ensures Survives(soft, sets, t, s, h)
    ensures BranchSum(dist, read, s, h) as int + off == Best(soft, t, s)
  {
    hide Live, Progress, SliceMetrics, BranchSum, Branch, Preferred;
    SumExact(dist, read, soft, sets, t, off, rows, counter, s, 0);
    SumExact(dist, read, soft, sets, t, off, rows, counter, s, 1);
    ProgressRange(read, soft, sets, t, off, rows, counter);
    BestLate(soft, t, s);
    hide Best;
  }

  lemma ProgressRange(d: seq<uint16>, soft: seq<byte>, sets: nat, n: nat, off: nat, rows: seq<row>, counter: nat)
    requires Progress(d, soft, sets, n, off, rows, counter)
    ensures 12 <= sets && 6 <= n <= sets && 2 * sets <= |soft| && |d| >= NUM_STATES && counter < RENORMALIZE_INTERVAL
    ensures |rows| + 6 == n && OptimalRows(soft, sets, rows)
  {
  }

  /** After the warm-up the minimum is over both predecessors. */
  lemma BestLate(soft: seq<byte>, t: nat, s: state)
    requires 2 * t + 2 <= |soft| && t >= 6
    ensures var low := Best(soft, t - 1, Pred(s, 0)) + Branch(soft, t, BranchRegister(s, 0));
            var high := Best(soft, t - 1, Pred(s, 1)) + Branch(soft, t, BranchRegister(s, 1));
            Best(soft, t, s) == if low <= high then low else high
  {
    hide Branch, Pred, BranchRegister;
  }

  /** The errors and the history row that a slice has computed, before the ring takes it in. */
  ghost predicate Computed(w: seq<uint16>, r: row, soft: seq<byte>, sets: nat, t: nat, off: nat)
    requires 6 <= t < sets && 2 * sets <= |soft| && |w| >= NUM_STATES
  {
    forall s: state :: Live(sets, t + 1, s) ==>
      w[s] as int + off == Best(soft, t, s) && Survives(soft, sets, t, s, r[s])
  }

  /** A slice keeps the metrics bounded. */
  lemma BoundedStep(read: seq<uint16>, w: seq<uint16>, r: row, soft: seq<byte>, sets: nat, t: nat, off: nat,
                    rows: seq<row>, counter: nat)
    requires Progress(read, soft, sets, t, off, rows, counter) && t < sets && |w| >= NUM_STATES
    requires Computed(w, r, soft, sets, t, off)
    ensures Bounded(w, sets, t + 1, counter + 1)
  {
    hide Best, OptimalRows, Survives, Live;
    if t + 7 <= sets {
      var q: state :| read[q] <= 255 * counter + WARMUP_MINIMUM;
      AllLive(sets, t, q);
      ReachAll(t - 1, q);
      var q1 := MinimumGrows(soft, t, q);
      AllLive(sets, t + 1, q1);
      assert w[q1] <= 255 * (counter + 1) + WARMUP_MINIMUM;
      if t + 7 == sets {
        forall s: state ensures w[s] <= INNER_MAXIMUM {
          AllLive(sets, t + 1, s);
          Spread(soft, t, q1, s);
        }
      }
    } else {
      forall s: state | Live(sets, t + 1, s) ensures w[s] <= INNER_MAXIMUM + MAX_DISTANCE * (t + 7 - sets) {
        LivePred(sets, t, s, 0);
        ReachAll(t - 1, Pred(s, 0));
        BestUpper(soft, t, s, 0);
      }
    }
  }

  /** Add-compare-select computes the slice, ties going to the low predecessor. */
  lemma InnerComputed(dist: seq<uint16>, read: seq<uint16>, w: seq<uint16>, r: row, soft: seq<byte>, sets: nat, t: nat,
                      off: nat, rows: seq<row>, counter: nat)
    requires Progress(read, soft, sets, t, off, rows, counter) && t + 6 < sets && SliceMetrics(dist, soft, t)
    requires |w| >= NUM_STATES
    requires forall s: state :: r[s] == SelectLow(dist, read, s) && w[s] == BranchSum(dist, read, s, r[s])
    ensures Computed(w, r, soft, sets, t, off) && Bounded(w, sets, t + 1, counter + 1)
  {
    hide Progress, Live, Bounded, SliceMetrics, BranchSum, Best, Survives;
    ProgressRange(read, soft, sets, t, off, rows, counter);
    forall s: state | Live(sets, t + 1, s)
      ensures w[s] as int + off == Best(soft, t, s) && Survives(soft, sets, t, s, r[s])
    {
      SelectionSurvives(dist, read, soft, sets, t, off, rows, counter, s, r[s]);
    }
    BoundedStep(read, w, r, soft, sets, t, off, rows, counter);
  }

  /** In the tail the live states' selections do, ties going to the high predecessor. */
  lemma TailComputed(dist: seq<uint16>, read: seq<uint16>, w: seq<uint16>, r: row, soft: seq<byte>, sets: nat, t: nat,
                     off: nat, rows: seq<row>, counter: nat)
    requires Progress(read, soft, sets, t, off, rows, counter) && t < sets <= t + 6 && SliceMetrics(dist, soft, t)
    requires |w| >= NUM_STATES
    requires forall s: state :: Multiple(s, Skip(sets, t + 1)) ==>
      r[s] == SelectHigh(dist, read, s) && w[s] == BranchSum(dist, read, s, r[s])
    ensures Computed(w, r, soft, sets, t, off) && Bounded(w, sets, t + 1, counter + 1)
  {
    hide Progress, Bounded, SliceMetrics, BranchSum, Best, Survives, Multiple, Skip;
    ProgressRange(read, soft, sets, t, off, rows, counter);
    forall s: state | Live(sets, t + 1, s)
      ensures w[s] as int + off == Best(soft, t, s) && Survives(soft, sets, t, s, r[s])
    {
      SelectionSurvives(dist, read, soft, sets, t, off, rows, counter, s, r[s]);
    }
    BoundedStep(read, w, r, soft, sets, t, off, rows, counter);
  }

  /** What is left when the cheapest live state's metric is subtracted from all. */
  ghost predicate Renormalized(w: seq<uint16>, w1: seq<uint16>, skip: nat, best: state)
    requires |w| >= NUM_STATES && |w1| >= NUM_STATES && skip > 0
  {
    Lowest(w, skip, best) && forall s :: 0 <= s < NUM_STATES ==> w1[s] == SubWord(w[s], w[best])
  }

  /** Renormalisation moves what it subtracts to the offset. */
  lemma RenormalizedProgress(w: seq<uint16>, w1: seq<uint16>, r: row, soft: seq<byte>, sets: nat, t: nat, off: nat,
                             rows: seq<row>, counter: nat, best: state)
    requires 12 <= sets && 6 <= t < sets && 2 * sets <= |soft| && |w| >= NUM_STATES && |w1| >= NUM_STATES
    requires Computed(w, r, soft, sets, t, off) && Bounded(w, sets, t + 1, counter)
    requires |rows| + 6 == t && OptimalRows(soft, sets, rows)
    requires Renormalized(w, w1, Skip(sets, t + 1), best)
    ensures Progress(w1, soft, sets, t + 1, off + w[best] as int, rows + [r], 0)
  {
    hide Best, Survives, Skip;
    RowsStep(soft, sets, rows, r, t);
    hide OptimalRows, OptimalRow;
    forall s: state | Live(sets, t + 1, s) ensures w1[s] == w[s] - w[best] {
      assert w[best] <= w[s];
    }
    assert Live(sets, t + 1, best);
    assert w1[best] == 0;
  }

  /** Without renormalisation the counter goes on. */
  lemma KeptProgress(w: seq<uint16>, r: row, soft: seq<byte>, sets: nat, t: nat, off: nat, rows: seq<row>, counter: nat)
    requires 12 <= sets && 6 <= t < sets && 2 * sets <= |soft| && |w| >= NUM_STATES
    requires Computed(w, r, soft, sets, t, off) && Bounded(w, sets, t + 1, counter) && counter < RENORMALIZE_INTERVAL
    requires |rows| + 6 == t && OptimalRows(soft, sets, rows)
    ensures Progress(w, soft, sets, t + 1, off, rows + [r], counter)
  {
    hide Best, Survives, Bounded, Live;
    RowsStep(soft, sets, rows, r, t);
    hide OptimalRows, OptimalRow;
  }

  lemma RowsStep(soft: seq<byte>, sets: nat, rows: seq<row>, r: row, t: nat)
    requires 6 <= t < sets && 2 * sets <= |soft| && |rows| + 6 == t && OptimalRows(soft, sets, rows)
    requires forall s: state :: Live(sets, t + 1, s) ==> Survives(soft, sets, t, s, r[s])
    ensures OptimalRows(soft, sets, rows + [r])
  {
    hide Survives, Live;
    var more := rows + [r];
    forall k | 0 <= k < |more| ensures OptimalRow(soft, sets, k, more[k]) {
      if k < |rows| {
        assert more[k] == rows[k];
      }
    }
  }

  // ----- what is written

  ghost predicate AllDecided(soft: seq<byte>, sets: nat, bits: seq<bit>) {
    forall k :: 0 <= k < |bits| ==> Decided(soft, sets, k, bits[k])
  }

  /** The number of slices that decide bit k: a full ring of 140 slices and six more for the first 105 bits, and 105 more for
      every 105 further bits, or all slices if there are fewer. */
  function DecidingLength(sets: nat, k: nat): nat {
    var n := 146 + 105 * (k / 105);
    if n <= sets then n else sets
  }

  /** Bit k is that of the one canonical path over the slices that decide it. */
  ghost predicate Written(soft: seq<byte>, sets: nat, k: nat, b: bit) {
    k < sets && exists path: seq<bit> ::
      k < |path| == DecidingLength(sets, k) && Canonical(soft, sets, path) && path[k] == b
  }

  ghost predicate AllWritten(soft: seq<byte>, sets: nat, bits: seq<bit>) {
    forall k :: 0 <= k < |bits| ==> Written(soft, sets, k, bits[k])
  }

  predicate WholeBursts(n: nat) {
    n % 105 == 0
  }

  /** A bit of the first 105 after n is decided by n + 146 slices, or by all. */
  lemma BurstLength(sets: nat, n: nat, k: nat)
    requires WholeBursts(n) && n <= k < n + 105
    ensures DecidingLength(sets, k) == if n + 146 <= sets then n + 146 else sets
  {
    ModUnique(k, 105, n / 105, k - n);
  }

  lemma DecidingRange(sets: nat, k: nat)
    requires k < sets
    ensures k < DecidingLength(sets, k) <= sets
    ensures DecidingLength(sets, k) == sets || DecidingLength(sets, k) >= k + DECISION_DEPTH
  {
  }

  lemma WrittenDecided(soft: seq<byte>, sets: nat, k: nat, b: bit)
    requires Written(soft, sets, k, b)
    ensures Decided(soft, sets, k, b)
  {
    hide Minimal, Favoured, DecidingLength;
    DecidingRange(sets, k);
  }

  lemma AllWrittenDecided(soft: seq<byte>, sets: nat, bits: seq<bit>)
    requires AllWritten(soft, sets, bits)
    ensures AllDecided(soft, sets, bits)
  {
    hide Written, Decided;
    forall k | 0 <= k < |bits| ensures Decided(soft, sets, k, bits[k]) {
      WrittenDecided(soft, sets, k, bits[k]);
    }
  }

  /** Nothing but the soft symbols determines what is written. */
  lemma WrittenUnique(soft: seq<byte>, sets: nat, k: nat, b: bit, c: bit)
    requires Written(soft, sets, k, b) && Written(soft, sets, k, c)
    ensures b == c
  {
    hide Canonical, DecidingLength;
    var p: seq<bit> :| k < |p| == DecidingLength(sets, k) && Canonical(soft, sets, p) && p[k] == b;
    var q: seq<bit> :| k < |q| == DecidingLength(sets, k) && Canonical(soft, sets, q) && q[k] == c;
    CanonicalUnique(soft, sets, p, q);
  }

  /** The survivor of the lowest cheapest live state is the canonical path. */
  lemma CheapestTrace(w: seq<uint16>, soft: seq<byte>, sets: nat, n: nat, off: nat, rows: seq<row>, best: state)
    returns (path: seq<bit>)
    requires 7 <= n <= sets && 2 * sets <= |soft| && |w| >= NUM_STATES && Metrics(w, soft, sets, n, off)
    requires |rows| + 6 == n && OptimalRows(soft, sets, rows) && Lowest(w, Skip(sets, n), best)
    ensures |path| == n && Canonical(soft, sets, path) && path[..|rows|] == Trace(rows, best)
  {
    hide Best, Survives, OptimalRow, Skip, Cost, Minimal, State, Trace, Reach, Favoured;
    assert Live(sets, n, best);
    path := TraceOptimal(soft, sets, rows, best);
    ReachAll(n - 1, best);
    forall s: state | Live(sets, n, s) ensures Best(soft, n - 1, best) <= Best(soft, n - 1, s) {
      assert w[best] <= w[s];
    }
    hide Live;
    CheapestMinimal(soft, sets, path);
    forall other: seq<bit> | |other| == n && Minimal(soft, sets, other) ensures best <= State(other) {
      LowestEnd(w, soft, sets, n, off, best, path, other);
    }
  }

  /** No minimum-cost path ends in a lower state. */
  lemma LowestEnd(w: seq<uint16>, soft: seq<byte>, sets: nat, n: nat, off: nat, best: state, path: seq<bit>,
                  other: seq<bit>)
    requires 7 <= n <= sets && 2 * sets <= |soft| && |w| >= NUM_STATES && Metrics(w, soft, sets, n, off)
    requires Lowest(w, Skip(sets, n), best) && |path| == |other| == n && State(path) == best
    requires Live(sets, n, best) && Cost(soft, path) == Best(soft, n - 1, best)
    requires Minimal(soft, sets, path) && Minimal(soft, sets, other)
    ensures best <= State(other)
  {
    hide Best, Skip, Cost, State, Reach, Flushed;
    FlushedLive(other, sets);
    BestLower(soft, other);
    ReachAll(n - 1, best);
    ReachAll(n - 1, State(other));
    assert w[best] <= w[State(other)];
  }

  /** A path over the slices that decide the next bits decides them. */
  lemma PathWrites(soft: seq<byte>, sets: nat, bits: seq<bit>, more: seq<bit>, path: seq<bit>)
    requires AllWritten(soft, sets, bits) && Canonical(soft, sets, path) && |bits| + |more| <= |path| <= sets
    requires more == path[|bits|..|bits| + |more|]
    requires forall k :: |bits| <= k < |bits| + |more| ==> DecidingLength(sets, k) == |path|
    ensures AllWritten(soft, sets, bits + more)
  {
    hide Canonical, DecidingLength;
    var all := bits + more;
    forall k | 0 <= k < |all| ensures Written(soft, sets, k, all[k]) {
      if k >= |bits| {
        assert all[k] == more[k - |bits|] == path[k];
      }
    }
  }

  /** The burst after slice t, along the survivor of the cheapest live state, writes the canonical path's bits. */
  lemma FullRingDecided(w: seq<uint16>, r: row, soft: seq<byte>, sets: nat, t: nat, off: nat, rows: seq<row>,
                        best: state, bits: seq<bit>)
    requires 12 <= sets && 6 <= t < sets && 2 * sets <= |soft| && |w| >= NUM_STATES
    requires Computed(w, r, soft, sets, t, off) && |rows| + 6 == t && OptimalRows(soft, sets, rows)
    requires Lowest(w, Skip(sets, t + 1), best) && AllWritten(soft, sets, bits) && WholeBursts(|bits|)
    requires |bits| + CAP == |rows| + 1
    ensures AllWritten(soft, sets, bits + Trace(rows + [r], best)[|bits|..|bits| + TRACEBACK_GROUP])
    ensures WholeBursts(|bits| + TRACEBACK_GROUP)
  {
    hide Best, Survives, Live, Trace, Canonical, Lowest, AllWritten, Written, DecidingLength;
    RowsStep(soft, sets, rows, r, t);
    hide OptimalRows;
    var path := CheapestTrace(w, soft, sets, t + 1, off, rows + [r], best);
    var burst := Trace(rows + [r], best)[|bits|..|bits| + TRACEBACK_GROUP];
    assert burst == path[|bits|..|bits| + |burst|];
    forall k | |bits| <= k < |bits| + |burst| ensures DecidingLength(sets, k) == |path| {
      BurstLength(sets, |bits|, k);
    }
    PathWrites(soft, sets, bits, burst, path);
  }

  /** Taking a slice into the ring keeps everything: what renormalisation subtracts moves to the offset, and a
      burst writes the bits of a canonical path. */
  lemma SliceTaken(w: seq<uint16>, w1: seq<uint16>, r: row, soft: seq<byte>, sets: nat, t: nat, off: nat, rows: seq<row>,
                   counter: nat, best: state, bits: seq<bit>, bits1: seq<bit>)
    returns (off1: nat)
    requires 12 <= sets && 6 <= t < sets && 2 * sets <= |soft| && |w| >= NUM_STATES && |w1| >= NUM_STATES
    requires Computed(w, r, soft, sets, t, off) && Bounded(w, sets, t + 1, counter + 1) && counter < RENORMALIZE_INTERVAL
    requires |rows| + 6 == t && OptimalRows(soft, sets, rows) && AllWritten(soft, sets, bits) && WholeBursts(|bits|)
    requires Renormalizes(counter) ==> Renormalized(w, w1, Skip(sets, t + 1), best)
    requires !Renormalizes(counter) ==> w1 == w
    requires |bits| + CAP == |rows| + 1 ==> Lowest(w, Skip(sets, t + 1), best)
    requires |bits| + CAP == |rows| + 1 ==> bits1 == bits + Trace(rows + [r], best)[|bits|..|bits| + TRACEBACK_GROUP]
    requires |bits| + CAP != |rows| + 1 ==> bits1 == bits
    ensures Progress(w1, soft, sets, t + 1, off1, rows + [r], NextCounter(counter))
    ensures AllWritten(soft, sets, bits1) && WholeBursts(|bits1|)
  {
    hide Progress, OptimalRows, Computed, Bounded, AllWritten, WholeBursts, Lowest, Skip, Trace, Renormalized;
    if |bits| + CAP == |rows| + 1 {
      FullRingDecided(w, r, soft, sets, t, off, rows, best, bits);
    }
    if Renormalizes(counter) {
      RenormalizedProgress(w, w1, r, soft, sets, t, off, rows, counter + 1, best);
      off1 := off + w[best] as int;
    } else {
      KeptProgress(w, r, soft, sets, t, off, rows, counter + 1);
      off1 := off;
    }
  }

  /** After the last slice only state 0 is live; its survivor decides the rest, and all when nothing was written before. */
  lemma FlushDecided(d: seq<uint16>, soft: seq<byte>, sets: nat, off: nat, rows: seq<row>, counter: nat, bits: seq<bit>)
    requires Progress(d, soft, sets, sets, off, rows, counter)
    requires |bits| <= |rows| < |bits| + CAP && AllWritten(soft, sets, bits) && WholeBursts(|bits|)
    ensures AllWritten(soft, sets, bits + Trace(rows, 0)[|bits|..])
    ensures bits == [] ==>
      exists path: seq<bit> :: |path| == sets && Canonical(soft, sets, path) && Trace(rows, 0) == path[..sets - 6]
  {
    hide Best, Survives, OptimalRows, Trace, Canonical, AllWritten, Written, Metrics, Bounded, Live, DecidingLength;
    OnlyZero(d, sets);
    var path := CheapestTrace(d, soft, sets, sets, off, rows, 0);
    var rest := Trace(rows, 0)[|bits|..];
    assert rest == path[|bits|..|bits| + |rest|];
    forall k | |bits| <= k < |bits| + |rest| ensures DecidingLength(sets, k) == |path| {
      LateLength(sets, |bits|, k);
    }
    PathWrites(soft, sets, bits, rest, path);
  }

  /** Bits that no full ring decides are decided by all slices. */
  lemma LateLength(sets: nat, n: nat, k: nat)
    requires WholeBursts(n) && n <= k && sets < n + 146
    ensures DecidingLength(sets, k) == sets
  {
    assert k / 105 >= n / 105;
  }

  lemma OnlyZero(d: seq<uint16>, sets: nat)
    requires |d| >= NUM_STATES
    ensures Lowest(d, Skip(sets, sets), 0)
  {
  }

  /** The warm-up leaves the metrics bounded. */
  lemma WarmupProgress(d: seq<uint16>, soft: seq<byte>, sets: nat, counter: nat)
    requires 12 <= sets && 2 * sets <= |soft| && |d| >= NUM_STATES && counter < RENORMALIZE_INTERVAL
    requires Metrics(d, soft, sets, 6, 0)
    ensures Progress(d, soft, sets, 6, 0, [], counter)
  {
    hide Best;
    var q := MinimumAtMost(soft, 5);
    AllLive(sets, 6, q);
    assert d[q] <= 255 * counter + WARMUP_MINIMUM;
    if sets == 12 {
      forall s: state ensures d[s] <= INNER_MAXIMUM {
        AllLive(sets, 6, s);
        BestAtMost(soft, 5, s);
      }
    }
  }
}
