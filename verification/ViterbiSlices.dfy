/** One time slice of the decoder: branch metrics, warm-up, add-compare-select, and the tail. */
module ViterbiSlices {
  import opened Bits
  import opened ConvCode
  import opened PairLookups
  import opened Survivors
  import opened HistoryBuffers

  // ----- what a slice computes, with sixteen-bit sums

  /** The sum for the branch into s from the predecessor with oldest bit h; d holds the metric of each output. */
  function BranchSum(d: seq<uint16>, read: seq<uint16>, s: state, h: bit): uint16
    requires |d| == 4 && |read| >= NUM_STATES
  {
    AddWord(d[Out(BranchRegister(s, h))], read[Pred(s, h)])
  }

  /** The smaller sum; the low predecessor wins a tie. */
  function SelectLow(d: seq<uint16>, read: seq<uint16>, s: state): bit
    requires |d| == 4 && |read| >= NUM_STATES
  {
    if BranchSum(d, read, s, 0) <= BranchSum(d, read, s, 1) then 0 else 1
  }

  /** The smaller sum; the high predecessor wins a tie. */
  function SelectHigh(d: seq<uint16>, read: seq<uint16>, s: state): bit
    requires |d| == 4 && |read| >= NUM_STATES
  {
    if BranchSum(d, read, s, 0) < BranchSum(d, read, s, 1) then 0 else 1
  }

  /** The metric of each output for the soft symbols of slice t. */
  ghost predicate SliceMetrics(d: seq<uint16>, soft: seq<byte>, t: nat)
    requires 2 * t + 1 < |soft|
  {
    |d| == 4 && forall o :: 0 <= o < 4 ==> d[o] == Distance(o, soft[2 * t], soft[2 * t + 1])
  }

  method FillDistances(soft: seq<byte>, t: nat, distances: array<uint16>)
    requires 2 * t + 1 < |soft| && distances.Length == 4
    modifies distances
    ensures SliceMetrics(distances[..], soft, t)
  {
    for j := 0 to 4
      invariant forall o :: 0 <= o < j ==> distances[o] == Distance(o, soft[2 * t], soft[2 * t + 1])
    {
      distances[j] := MetricSoftDistanceLinear(j, soft, t * RATE, RATE);
    }
  }

  // ----- warm-up

  /** One slice of the warm-up: 2^(t + 1) registers, each with one predecessor. */
  method WarmupSlice(table: seq<nat>, soft: seq<byte>, t: nat, read: array<uint16>, write: array<uint16>)
    requires |table| == NUM_REGISTERS && forall r :: 0 <= r < NUM_REGISTERS ==> table[r] == Out(r)
    requires t < 6 && 2 * t + 1 < |soft| && read != write && read.Length >= NUM_STATES && write.Length >= NUM_STATES
    modifies write
    ensures forall s: state :: s < Reach(t) ==> write[s] == AddWord(Branch(soft, t, s), read[s / 2])
  {
    hide Out, Distance, AddWord;
    for j := 0 to Reach(t)
      invariant forall s: state :: s < j ==> write[s] == AddWord(Branch(soft, t, s), read[s / 2])
    {
      var last := j / 2;
      var dist := MetricSoftDistanceLinear(table[j], soft, t * RATE, RATE);
      write[j] := AddWord(dist, read[last]);
    }
  }

  // ----- add, compare, select

  /** Row i of the history and the errors hold the selections for the states below n. */
  ghost predicate Selected(d: seq<uint16>, read: seq<uint16>, write: array<uint16>, history: array2<bit>, i: nat, n: nat)
    requires |d| == 4 && |read| >= NUM_STATES && n <= NUM_STATES
    requires write.Length >= NUM_STATES && i < history.Length0 && history.Length1 == NUM_STATES
    reads write, history
  {
    forall s: state :: s < n ==>
      history[i, s] == SelectLow(d, read, s) && write[s] == BranchSum(d, read, s, SelectLow(d, read, s))
  }

  /** Only row i has changed. */
  twostate predicate OtherRowsKept(history: array2<bit>, i: nat)
    reads history
  {
    forall j, s :: 0 <= j < history.Length0 && 0 <= s < history.Length1 && j != i ==> history[j, s] == old(history[j, s])
  }

  /** The metrics of a pair's two registers. */
  lemma UnpackPair(d: seq<uint16>, p: nat)
    requires |d| == 4
    ensures PackedPair(d, p) % 0x10000 == d[Out(2 * p)] && PackedPair(d, p) / 0x10000 == d[Out(2 * p + 1)]
  {
    hide Out;
  }

  /** The branches into the successors of p and p + 32. */
  lemma PairBranches(p: nat, b: bit)
    requires p < HIGH_BASE
    ensures Pred(2 * p + b, 0) == p && Pred(2 * p + b, 1) == p + HIGH_BASE
    ensures BranchRegister(2 * p + b, 0) == 2 * p + b && BranchRegister(2 * p + b, 1) == 2 * (p + HIGH_BASE) + b
  {
  }

  /** Keep the smaller of two sums for state s, the low one on a tie. */
  method SelectState(ghost d: seq<uint16>, ghost read: seq<uint16>, write: array<uint16>, history: array2<bit>, i: nat,
                     s: state, lowError: uint16, highError: uint16)
    requires |d| == 4 && |read| >= NUM_STATES
    requires write.Length >= NUM_STATES && i < history.Length0 && history.Length1 == NUM_STATES
    requires lowError == BranchSum(d, read, s, 0) && highError == BranchSum(d, read, s, 1)
    requires Selected(d, read, write, history, i, s)
    modifies write, history
    ensures Selected(d, read, write, history, i, s + 1)
    ensures OtherRowsKept(history, i)
  {
    hide BranchSum;
    if lowError <= highError {
      write[s] := lowError;
      history[i, s] := 0;
    } else {
      write[s] := highError;
      history[i, s] := 1;
    }
  }

  /** The sums for both successors of a pair of predecessors. */
  lemma PairSums(d: seq<uint16>, read: seq<uint16>, p: nat)
    requires |d| == 4 && |read| >= NUM_STATES && p < HIGH_BASE
    ensures BranchSum(d, read, 2 * p, 0) == AddWord(PackedPair(d, p) % 0x10000, read[p])
    ensures BranchSum(d, read, 2 * p, 1) == AddWord(PackedPair(d, HIGH_BASE + p) % 0x10000, read[HIGH_BASE + p])
    ensures PackedPair(d, p) / 0x10000 < 0x10000 && PackedPair(d, HIGH_BASE + p) / 0x10000 < 0x10000
    ensures BranchSum(d, read, 2 * p + 1, 0) == AddWord(PackedPair(d, p) / 0x10000, read[p])
    ensures BranchSum(d, read, 2 * p + 1, 1) == AddWord(PackedPair(d, HIGH_BASE + p) / 0x10000, read[HIGH_BASE + p])
  {
    hide Out, AddWord, PackedPair, Pred, BranchRegister;
    UnpackPair(d, p);
    UnpackPair(d, HIGH_BASE + p);
    PairBranches(p, 0);
    PairBranches(p, 1);
  }

  /** The packed metrics of all pairs are in place. */
  ghost predicate Packed(lookup: PairLookup, d: seq<uint16>)
    reads lookup.keys, lookup.outputs, lookup.distances
  {
    && lookup.Valid() && |d| == 4
    && forall p :: 0 <= p < NUM_STATES ==> lookup.distances[lookup.keys[p]] == PackedPair(d, p)
  }

  /** One pair of states at a time. */
  method AddCompareSelect(lookup: PairLookup, ghost d: seq<uint16>, read: array<uint16>, write: array<uint16>,
                          history: array2<bit>, i: nat)
    requires Packed(lookup, d)
    requires read != write && read.Length >= NUM_STATES && write.Length >= NUM_STATES
    requires i < history.Length0 && history.Length1 == NUM_STATES
    modifies write, history
    ensures Selected(d, read[..], write, history, i, NUM_STATES)
    ensures OtherRowsKept(history, i)
    // the smaller sum is kept, and its predecessor; of equal sums the low predecessor
    ensures forall s: state ::
      && (BranchSum(d, read[..], s, 0) <= BranchSum(d, read[..], s, 1) ==>
          history[i, s] == 0 && write[s] == BranchSum(d, read[..], s, 0))
      && (BranchSum(d, read[..], s, 0) > BranchSum(d, read[..], s, 1) ==>
          history[i, s] == 1 && write[s] == BranchSum(d, read[..], s, 1))
  {
    hide AddWord, PackedPair, BranchSum, Selected;
    NoneSelected(d, read[..], write, history, i);
    for p := 0 to HIGH_BASE
      invariant Selected(d, read[..], write, history, i, 2 * p)
      invariant OtherRowsKept(history, i)
    {
      PairSums(d, read[..], p);
      var lowConcat := lookup.distances[lookup.keys[p]];
      var highConcat := lookup.distances[lookup.keys[HIGH_BASE + p]];
      var lowPast, highPast := read[p], read[HIGH_BASE + p];
      var lowError, highError := AddWord(lowConcat % 0x10000, lowPast), AddWord(highConcat % 0x10000, highPast);
      SelectState(d, read[..], write, history, i, 2 * p, lowError, highError);
      lowError, highError := AddWord(lowConcat / 0x10000, lowPast), AddWord(highConcat / 0x10000, highPast);
      SelectState(d, read[..], write, history, i, 2 * p + 1, lowError, highError);
    }
    SelectedLow(d, read[..], write, history, i);
  }

  /** The low predecessor is taken on a tie. */
  lemma SelectedLow(d: seq<uint16>, read: seq<uint16>, write: array<uint16>, history: array2<bit>, i: nat)
    requires |d| == 4 && |read| >= NUM_STATES
    requires write.Length >= NUM_STATES && i < history.Length0 && history.Length1 == NUM_STATES
    requires Selected(d, read, write, history, i, NUM_STATES)
    ensures forall s: state ::
      && (BranchSum(d, read, s, 0) <= BranchSum(d, read, s, 1) ==>
          history[i, s] == 0 && write[s] == BranchSum(d, read, s, 0))
      && (BranchSum(d, read, s, 0) > BranchSum(d, read, s, 1) ==>
          history[i, s] == 1 && write[s] == BranchSum(d, read, s, 1))
  {
    hide BranchSum;
  }

  lemma NoneSelected(d: seq<uint16>, read: seq<uint16>, write: array<uint16>, history: array2<bit>, i: nat)
    requires |d| == 4 && |read| >= NUM_STATES
    requires write.Length >= NUM_STATES && i < history.Length0 && history.Length1 == NUM_STATES
    ensures Selected(d, read, write, history, i, 0)
  {
  }

  // ----- eight lanes at a time

  /** Lanes of sixteen bits, added, compared and selected in parallel. */
  function Adds(a: seq<uint16>, b: seq<uint16>): (c: seq<uint16>)
    requires |a| == |b| == LANES
    ensures |c| == LANES && forall k :: 0 <= k < LANES ==> c[k] == AddWord(a[k], b[k])
  {
    seq(LANES, k requires 0 <= k < LANES => AddWord(a[k], b[k]))
  }

  function Mins(a: seq<uint16>, b: seq<uint16>): (c: seq<uint16>)
    requires |a| == |b| == LANES
    ensures |c| == LANES && forall k :: 0 <= k < LANES ==> c[k] == if b[k] < a[k] then b[k] else a[k]
  {
    seq(LANES, k requires 0 <= k < LANES => if b[k] < a[k] then b[k] else a[k])
  }

  function LessBits(a: seq<uint16>, b: seq<uint16>): (c: seq<bit>)
    requires |a| == |b| == LANES
    ensures |c| == LANES && forall k :: 0 <= k < LANES ==> c[k] == if a[k] < b[k] then 1 else 0
  {
    seq(LANES, k requires 0 <= k < LANES => if a[k] < b[k] then 1 else 0)
  }

  /** Eight pairs of packed metrics, the halves apart. */
  method GatherLanes(lookup: PairLookup, ghost d: seq<uint16>, p: nat) returns (even: seq<uint16>, odd: seq<uint16>)
    requires Packed(lookup, d) && p + LANES <= NUM_STATES
    ensures |even| == |odd| == LANES
    ensures forall k :: 0 <= k < LANES ==> even[k] == PackedPair(d, p + k) % 0x10000 && odd[k] == PackedPair(d, p + k) / 0x10000
  {
    hide PackedPair;
    even, odd := [], [];
    for k := 0 to LANES
      invariant |even| == |odd| == k
      invariant forall j :: 0 <= j < k ==> even[j] == PackedPair(d, p + j) % 0x10000 && odd[j] == PackedPair(d, p + j) / 0x10000
    {
      UnpackPair(d, p + k);
      var concat := lookup.distances[lookup.keys[p + k]];
      even := even + [concat % 0x10000];
      odd := odd + [concat / 0x10000];
    }
  }

  /** The sums of eight pairs for the successors with newest bit b. */
  ghost predicate LaneSums(d: seq<uint16>, read: seq<uint16>, p: nat, b: bit, low: seq<uint16>, high: seq<uint16>)
    requires |d| == 4 && |read| >= NUM_STATES && p + LANES <= HIGH_BASE
  {
    && |low| == |high| == LANES
    && forall k :: 0 <= k < LANES ==>
        low[k] == BranchSum(d, read, 2 * (p + k) + b, 0) && high[k] == BranchSum(d, read, 2 * (p + k) + b, 1)
  }

  /** A half of the packed metrics of a pair. */
  function PairHalf(d: seq<uint16>, p: nat, b: bit): nat
    requires |d| == 4
  {
    if b == 0 then PackedPair(d, p) % 0x10000 else PackedPair(d, p) / 0x10000
  }

  /** Metrics and errors of eight pairs add up to the sums. */
  lemma LanesAdded(d: seq<uint16>, read: seq<uint16>, p: nat, b: bit, low: seq<uint16>, high: seq<uint16>,
                   pastLow: seq<uint16>, pastHigh: seq<uint16>)
    requires |d| == 4 && |read| >= NUM_STATES && p + LANES <= HIGH_BASE && |low| == |high| == LANES
    requires pastLow == read[p..p + LANES] && pastHigh == read[HIGH_BASE + p..HIGH_BASE + p + LANES]
    requires forall k :: 0 <= k < LANES ==> low[k] == PairHalf(d, p + k, b) && high[k] == PairHalf(d, HIGH_BASE + p + k, b)
    ensures LaneSums(d, read, p, b, Adds(low, pastLow), Adds(high, pastHigh))
  {
    hide AddWord, PackedPair, BranchSum;
    forall k | 0 <= k < LANES
      ensures Adds(low, pastLow)[k] == BranchSum(d, read, 2 * (p + k) + b, 0)
      ensures Adds(high, pastHigh)[k] == BranchSum(d, read, 2 * (p + k) + b, 1)
    {
      PairSums(d, read, p + k);
    }
  }

  /** The sums of eight pairs of predecessors. */
  method SumLanes(lookup: PairLookup, ghost d: seq<uint16>, read: array<uint16>, p: nat)
    returns (lowEven: seq<uint16>, highEven: seq<uint16>, lowOdd: seq<uint16>, highOdd: seq<uint16>)
    requires Packed(lookup, d) && read.Length >= NUM_STATES && p + LANES <= HIGH_BASE
    ensures LaneSums(d, read[..], p, 0, lowEven, highEven) && LaneSums(d, read[..], p, 1, lowOdd, highOdd)
  {
    hide AddWord, PackedPair, BranchSum, Adds, LaneSums;
    var even, odd := GatherLanes(lookup, d, p);
    var even1, odd1 := GatherLanes(lookup, d, HIGH_BASE + p);
    var pastLow, pastHigh := read[p..p + LANES], read[HIGH_BASE + p..HIGH_BASE + p + LANES];
    lowEven, highEven := Adds(even, pastLow), Adds(even1, pastHigh);
    lowOdd, highOdd := Adds(odd, pastLow), Adds(odd1, pastHigh);
    LanesAdded(d, read[..], p, 0, even, even1, pastLow, pastHigh);
    LanesAdded(d, read[..], p, 1, odd, odd1, pastLow, pastHigh);
  }

  /** Store the lanes for even and odd successors interleaved. */
  method StoreLanes(ghost d: seq<uint16>, ghost read: seq<uint16>, write: array<uint16>, history: array2<bit>, i: nat, p: nat,
                    lowEven: seq<uint16>, highEven: seq<uint16>, lowOdd: seq<uint16>, highOdd: seq<uint16>)
    requires |d| == 4 && |read| >= NUM_STATES && p + LANES <= HIGH_BASE
    requires LaneSums(d, read, p, 0, lowEven, highEven) && LaneSums(d, read, p, 1, lowOdd, highOdd)
    requires write.Length >= NUM_STATES && i < history.Length0 && history.Length1 == NUM_STATES
    requires Selected(d, read, write, history, i, 2 * p)
    modifies write, history
    ensures Selected(d, read, write, history, i, 2 * (p + LANES))
    ensures OtherRowsKept(history, i)
  {
    hide BranchSum;
    var even, odd := Mins(lowEven, highEven), Mins(lowOdd, highOdd);
    var evenBits, oddBits := LessBits(highEven, lowEven), LessBits(highOdd, lowOdd);
    for k := 0 to LANES
      invariant Selected(d, read, write, history, i, 2 * (p + k))
      invariant OtherRowsKept(history, i)
    {
      StoreState(d, read, write, history, i, 2 * (p + k), even[k], evenBits[k]);
      StoreState(d, read, write, history, i, 2 * (p + k) + 1, odd[k], oddBits[k]);
    }
  }

  method StoreState(ghost d: seq<uint16>, ghost read: seq<uint16>, write: array<uint16>, history: array2<bit>, i: nat,
                    s: state, error: uint16, choice: bit)
    requires |d| == 4 && |read| >= NUM_STATES
    requires write.Length >= NUM_STATES && i < history.Length0 && history.Length1 == NUM_STATES
    requires choice == SelectLow(d, read, s) && error == BranchSum(d, read, s, choice)
    requires Selected(d, read, write, history, i, s)
    modifies write, history
    ensures Selected(d, read, write, history, i, s + 1)
    ensures OtherRowsKept(history, i)
  {
    hide BranchSum, SelectLow;
    write[s] := error;
    history[i, s] := choice;
  }

  /** Eight pairs of states at a time: the same errors and history bits as one pair at a time. */
  method AddCompareSelectLanes(lookup: PairLookup, ghost d: seq<uint16>, read: array<uint16>, write: array<uint16>,
                               history: array2<bit>, i: nat)
    requires Packed(lookup, d)
    requires read != write && read.Length >= NUM_STATES && write.Length >= NUM_STATES
    requires i < history.Length0 && history.Length1 == NUM_STATES
    modifies write, history
    ensures Selected(d, read[..], write, history, i, NUM_STATES)
    ensures OtherRowsKept(history, i)
    ensures forall s: state ::
      && (BranchSum(d, read[..], s, 0) <= BranchSum(d, read[..], s, 1) ==>
          history[i, s] == 0 && write[s] == BranchSum(d, read[..], s, 0))
      && (BranchSum(d, read[..], s, 0) > BranchSum(d, read[..], s, 1) ==>
          history[i, s] == 1 && write[s] == BranchSum(d, read[..], s, 1))
  {
    hide AddWord, PackedPair, BranchSum, Selected;
    NoneSelected(d, read[..], write, history, i);
    var p: nat := 0;
    while p < HIGH_BASE
      invariant p % LANES == 0 && p <= HIGH_BASE
      invariant Selected(d, read[..], write, history, i, 2 * p)
      invariant OtherRowsKept(history, i)
    {
      var lowEven, highEven, lowOdd, highOdd := SumLanes(lookup, d, read, p);
      StoreLanes(d, read[..], write, history, i, p, lowEven, highEven, lowOdd, highOdd);
      p := p + LANES;
    }
    SelectedLow(d, read[..], write, history, i);
  }

  // ----- the tail

  /** The selections for the states that are multiples of skip. */
  ghost predicate SelectedTail(d: seq<uint16>, read: seq<uint16>, write: array<uint16>, history: array2<bit>, i: nat,
                               skip: nat, n: nat)
    requires |d| == 4 && |read| >= NUM_STATES && skip > 0
    requires write.Length >= NUM_STATES && i < history.Length0 && history.Length1 == NUM_STATES
    reads write, history
  {
    forall s: state :: s < n && Multiple(s, skip) ==>
      history[i, s] == SelectHigh(d, read, s) && write[s] == BranchSum(d, read, s, SelectHigh(d, read, s))
  }

  /** Only zeros are shifted in, so only every skip-th state is entered. */
  method TailSelect(table: seq<nat>, distances: array<uint16>, read: array<uint16>, write: array<uint16>,
                    history: array2<bit>, i: nat, skip: nat)
    requires |table| == NUM_REGISTERS && forall r :: 0 <= r < NUM_REGISTERS ==> table[r] == Out(r)
    requires distances.Length == 4 && skip > 0 && Multiple(skip, 2)
    requires read != write && distances != write && read.Length >= NUM_STATES && write.Length >= NUM_STATES
    requires i < history.Length0 && history.Length1 == NUM_STATES
    modifies write, history
    ensures SelectedTail(distances[..], read[..], write, history, i, skip, NUM_STATES)
    ensures OtherRowsKept(history, i)
    // the smaller sum is kept, and its predecessor; of equal sums the high predecessor
    ensures forall s: state :: Multiple(s, skip) ==>
      && (BranchSum(distances[..], read[..], s, 0) < BranchSum(distances[..], read[..], s, 1) ==>
          history[i, s] == 0 && write[s] == BranchSum(distances[..], read[..], s, 0))
      && (BranchSum(distances[..], read[..], s, 0) >= BranchSum(distances[..], read[..], s, 1) ==>
          history[i, s] == 1 && write[s] == BranchSum(distances[..], read[..], s, 1))
  {
    hide Out, AddWord, Multiple;
    var baseSkip := skip / 2;
    var low: nat, high: nat, base: nat := 0, NUM_STATES, 0;
    ZeroMultiple(skip);
    while high < NUM_REGISTERS
      invariant high == low + NUM_STATES && low == 2 * base && Multiple(low, skip)
      invariant SelectedTail(distances[..], read[..], write, history, i, skip, if low < NUM_STATES then low else NUM_STATES)
      invariant OtherRowsKept(history, i)
    {
      var lowDist, highDist := distances[table[low]], distances[table[high]];
      var lowPast, highPast := read[base], read[HIGH_BASE + base];
      var lowError, highError := AddWord(lowDist, lowPast), AddWord(highDist, highPast);
      TailState(distances[..], read[..], write, history, i, skip, low, lowError, highError);
      EvenHalves(skip);
      low, high, base := low + skip, high + skip, base + baseSkip;
    }
    SelectedHigh(distances[..], read[..], write, history, i, skip);
  }

  /** The high predecessor is taken on a tie. */
  lemma SelectedHigh(d: seq<uint16>, read: seq<uint16>, write: array<uint16>, history: array2<bit>, i: nat, skip: nat)
    requires |d| == 4 && |read| >= NUM_STATES && skip > 0
    requires write.Length >= NUM_STATES && i < history.Length0 && history.Length1 == NUM_STATES
    requires SelectedTail(d, read, write, history, i, skip, NUM_STATES)
    ensures forall s: state :: Multiple(s, skip) ==>
      && (BranchSum(d, read, s, 0) < BranchSum(d, read, s, 1) ==>
          history[i, s] == 0 && write[s] == BranchSum(d, read, s, 0))
      && (BranchSum(d, read, s, 0) >= BranchSum(d, read, s, 1) ==>
          history[i, s] == 1 && write[s] == BranchSum(d, read, s, 1))
  {
    hide BranchSum, Multiple;
  }

  lemma EvenHalves(skip: nat)
    requires Multiple(skip, 2)
    ensures 2 * (skip / 2) == skip
  {
  }

  /** Keep the smaller of two sums for state s, the high one on a tie; no state up to the next multiple is entered. */
  method TailState(ghost d: seq<uint16>, ghost read: seq<uint16>, write: array<uint16>, history: array2<bit>, i: nat,
                   ghost skip: nat, s: state, lowError: uint16, highError: uint16)
    requires |d| == 4 && |read| >= NUM_STATES && skip > 0 && Multiple(s, skip)
    requires write.Length >= NUM_STATES && i < history.Length0 && history.Length1 == NUM_STATES
    requires lowError == BranchSum(d, read, s, 0) && highError == BranchSum(d, read, s, 1)
    requires SelectedTail(d, read, write, history, i, skip, s)
    modifies write, history
    ensures Multiple(s + skip, skip)
    ensures SelectedTail(d, read, write, history, i, skip, if s + skip < NUM_STATES then s + skip else NUM_STATES)
    ensures OtherRowsKept(history, i)
  {
    hide BranchSum, Multiple;
    if lowError < highError {
      write[s] := lowError;
      history[i, s] := 0;
    } else {
      write[s] := highError;
      history[i, s] := 1;
    }
    forall r: state | s <= r < s + skip && Multiple(r, skip) ensures r == s {
      NextMultiple(s, r, skip);
    }
    AddMultiple(s, skip);
  }
}
