/** Received symbols close to a code word: minimum-cost paths have the right bits. */
module NoiseMargin {
  import opened Bits
  import opened ConvCode
  import opened Survivors
  import opened FreeDistance

  /** Two paths that part for long enough differ in nine output bits, at most two of them in the first slice, whose
      metric is discarded; less than half of 255 for each of the others decides. */
  const MARGIN: nat := (255 * (FREE_DISTANCE - 2) - 1) / 2

  /** The soft symbols of two decision depths. */
  const WINDOW: nat := 2 * RATE * DECISION_DEPTH

  /** The outputs along a path, two bits a slice. */
  function CodeBits(path: seq<bit>): (c: seq<bit>)
    ensures |c| == 2 * |path|
  {
    if path == [] then []
    else
      var o := Out(Register(path));
      CodeBits(path[..|path| - 1]) + [o % 2, o / 2]
  }

  lemma {:induction false} CodeBitsAt(path: seq<bit>, t: nat)
    requires t < |path|
    ensures CodeBits(path)[2 * t] == Out(Register(path[..t + 1])) % 2
    ensures CodeBits(path)[2 * t + 1] == Out(Register(path[..t + 1])) / 2
    decreases |path|
  {
    hide Out, Register;
    var n := |path| - 1;
    if t < n {
      CodeBitsAt(path[..n], t);
      assert path[..n][..t + 1] == path[..t + 1];
    } else {
      assert path[..n + 1] == path;
    }
  }

  /** What a deviation exceeds the cut by. */
  function Over(deviation: nat, cut: nat): nat {
    if deviation > cut then deviation - cut else 0
  }

  /** How far a soft symbol is from a bit, 255 standing for a one. */
  function Deviation(y: byte, c: bit): (d: nat)
    ensures d <= 255
  {
    Abs(y as int - 255 * c as int)
  }

  /** What the deviations of soft symbols a to b from the bits exceed the cut by, all together. */
  function Excess(soft: seq<byte>, bits: seq<bit>, cut: nat, a: nat, b: nat): nat
    requires b <= |bits| <= |soft|
  {
    if b <= a then 0 else Excess(soft, bits, cut, a, b - 1) + Over(Deviation(soft[b - 1], bits[b - 1]), cut)
  }

  /** How far soft symbols are from the bits, all together. */
  function SoftDistance(soft: seq<byte>, bits: seq<bit>): nat
    requires |bits| <= |soft|
  {
    Excess(soft, bits, 0, 0, |bits|)
  }

  /** In every window from lo to hi seven deviations up to the cut, and all that exceeds it, are within the margin. */
  ghost predicate ToleratedIn(soft: seq<byte>, bits: seq<bit>, cut: nat, lo: nat, hi: nat) {
    && hi <= |bits| <= |soft|
    && forall a, b :: lo <= a <= b <= hi && b - a <= WINDOW ==> Excess(soft, bits, cut, a, b) + 7 * cut <= MARGIN
  }

  /** So it is in every window after the first slice. */
  ghost predicate Tolerated(soft: seq<byte>, bits: seq<bit>, cut: nat) {
    ToleratedIn(soft, bits, cut, 2, |bits|)
  }

  // ----- sums of deviations

  lemma {:induction false} ExcessSplit(soft: seq<byte>, bits: seq<bit>, cut: nat, a: nat, b: nat, c: nat)
    requires a <= b <= c <= |bits| <= |soft|
    ensures Excess(soft, bits, cut, a, c) == Excess(soft, bits, cut, a, b) + Excess(soft, bits, cut, b, c)
    decreases c
  {
    hide Over, Deviation;
    if b < c {
      ExcessSplit(soft, bits, cut, a, b, c - 1);
    }
  }

  /** What several windows allow above the cut. */
  function Allowance(cut: nat, windows: nat): nat
    requires 7 * cut <= MARGIN
  {
    windows * (MARGIN - 7 * cut)
  }

  lemma AllowanceStep(cut: nat, windows: nat)
    requires 7 * cut <= MARGIN && windows >= 1
    ensures Allowance(cut, windows) == Allowance(cut, windows - 1) + MARGIN - 7 * cut
  {
  }

  lemma {:induction false} WindowsExcess(soft: seq<byte>, bits: seq<bit>, cut: nat, a: nat, b: nat, windows: nat)
    requires ToleratedIn(soft, bits, cut, a, b) && windows >= 1
    requires a <= b && b - a <= windows * WINDOW
    ensures 7 * cut <= MARGIN && Excess(soft, bits, cut, a, b) <= Allowance(cut, windows)
    decreases windows
  {
    hide Excess, Allowance;
    var c := if b - a > WINDOW then b - WINDOW else a;
    assert Excess(soft, bits, cut, c, b) + 7 * cut <= MARGIN;
    AllowanceStep(cut, windows);
    if c != a {
      ExcessSplit(soft, bits, cut, a, c, b);
      WindowsExcess(soft, bits, cut, a, c, windows - 1);
    }
  }

  /** The two deviations of a slice. */
  lemma ExcessSlice(soft: seq<byte>, path: seq<bit>, cut: nat, a: nat, t: nat)
    requires t < |path| && a <= 2 * t && 2 * |path| <= |soft|
    ensures var o := Out(Register(path[..t + 1]));
      Excess(soft, CodeBits(path), cut, a, 2 * t + 2) == Excess(soft, CodeBits(path), cut, a, 2 * t)
        + Over(Deviation(soft[2 * t], o % 2), cut) + Over(Deviation(soft[2 * t + 1], o / 2), cut)
  {
    hide Out, Register, Over, Deviation, CodeBits;
    CodeBitsAt(path, t);
    var c := CodeBits(path);
    assert Excess(soft, c, cut, a, 2 * t + 1) ==
      Excess(soft, c, cut, a, 2 * t) + Over(Deviation(soft[2 * t], c[2 * t]), cut);
  }

  /** The cost of a path is the distance of the soft symbols from its code word, without the first slice. */
  lemma {:induction false} CostExcess(soft: seq<byte>, path: seq<bit>, n: nat)
    requires 1 <= n <= |path| && 2 * |path| <= |soft|
    ensures Cost(soft, path[..n]) == Excess(soft, CodeBits(path), 0, 2, 2 * n)
  {
    hide Out, Register, Deviation, CodeBits, Cost;
    if n == 1 {
      NoCost(soft, path[..1]);
    } else {
      CostExcess(soft, path, n - 1);
      ExcessSlice(soft, path, 0, 2, n - 1);
      assert path[..n][..n - 1] == path[..n - 1];
      CostUnfold(soft, path[..n]);
      BranchDeviations(soft, n - 1, Register(path[..n]));
    }
  }

  lemma NoCost(soft: seq<byte>, path: seq<bit>)
    requires |path| == 1 && 2 <= |soft|
    ensures Cost(soft, path) == 0
  {
  }

  lemma BranchDeviations(soft: seq<byte>, t: nat, r: nat)
    requires 2 * t + 1 < |soft|
    ensures Branch(soft, t, r) == Deviation(soft[2 * t], Out(r) % 2) + Deviation(soft[2 * t + 1], Out(r) / 2)
  {
    hide Out, Abs;
  }

  /** The decoder's cost lacks the first slice's metric. */
  lemma DistanceCost(soft: seq<byte>, path: seq<bit>)
    requires path != [] && 2 * |path| <= |soft|
    ensures SoftDistance(soft, CodeBits(path)) == Branch(soft, 0, Register(path[..1])) + Cost(soft, path)
  {
    hide Out, Register, Deviation, CodeBits, Cost, Branch;
    var n := |path|;
    assert path[..n] == path;
    ExcessSplit(soft, CodeBits(path), 0, 0, 2, 2 * n);
    ExcessSlice(soft, path, 0, 0, 0);
    CostExcess(soft, path, n);
    BranchDeviations(soft, 0, Register(path[..1]));
  }

  /** A path whose cost is within the margin is tolerated. */
  lemma CostTolerated(soft: seq<byte>, path: seq<bit>)
    requires path != [] && 2 * |path| <= |soft| && Cost(soft, path) <= MARGIN
    ensures Tolerated(soft, CodeBits(path), 0)
  {
    hide Cost, CodeBits, Excess;
    var c := CodeBits(path);
    assert path[..|path|] == path;
    CostExcess(soft, path, |path|);
    forall a, b | 2 <= a <= b <= |c| && b - a <= WINDOW ensures Excess(soft, c, 0, a, b) <= MARGIN {
      ExcessSplit(soft, c, 0, 2, a, |c|);
      ExcessSplit(soft, c, 0, a, b, |c|);
    }
  }

  // ----- what parting costs

  /** A wrong output bit costs more than the right one unless its symbol is off by half or more. */
  lemma BitGain(a: bit, b: bit, y: byte, cut: nat)
    requires cut <= 127
    ensures Deviation(y, a) + 2 * Over(Deviation(y, b), cut)
         >= Deviation(y, b) + Gain(cut, (a as int + b as int) % 2)
  {
    if a == b {
      assert (a as int + b as int) % 2 == 0;
      GainSum(cut, 0, 0);
    } else {
      assert (a as int + b as int) % 2 == 1;
      BitsApart(a, b, y);
      hide Deviation;
    }
  }

  lemma BitsApart(a: bit, b: bit, y: byte)
    requires a != b
    ensures Deviation(y, a) + Deviation(y, b) == 255
  {
  }

  /** Whatever is received, a register's branch costs more than the right one's by 255 less twice the cut for every
      output bit in which they differ, less twice what the deviations exceed the cut by. */
  lemma BranchGain(soft: seq<byte>, t: nat, r: nat, s: nat, cut: nat)
    requires 2 * t + 1 < |soft| && cut <= 127
    ensures var o := Out(s);
      Branch(soft, t, r) + 2 * Over(Deviation(soft[2 * t], o % 2), cut) + 2 * Over(Deviation(soft[2 * t + 1], o / 2), cut)
        >= Branch(soft, t, s) + Gain(cut, Weight(Xor(r, s)))
  {
    hide Tap, Xor, Out, Deviation, Over, Branch, Gain;
    TapXor(r, s, 113);
    TapXor(r, s, 87);
    OutTaps(r);
    OutTaps(s);
    OutTaps(Xor(r, s));
    BranchDeviations(soft, t, r);
    BranchDeviations(soft, t, s);
    BitGain(Out(r) % 2, Out(s) % 2, soft[2 * t], cut);
    BitGain(Out(r) / 2, Out(s) / 2, soft[2 * t + 1], cut);
    GainSum(cut, Out(Xor(r, s)) % 2, Out(Xor(r, s)) / 2);
  }

  /** What so many wrong output bits cost more when every symbol is off by the cut. */
  function Gain(cut: nat, bits: int): int
    requires cut <= 127
  {
    (255 - 2 * cut) * bits
  }

  lemma GainSum(cut: nat, a: int, b: int)
    requires cut <= 127
    ensures Gain(cut, a) + Gain(cut, b) == Gain(cut, a + b)
    ensures a <= 0 ==> Gain(cut, a) <= 0
    ensures Gain(cut, 0) == 0
  {
    var g := 255 - 2 * cut;
    assert g * a + g * b == g * (a + b);
  }

  /** The slice after which deviations count. */
  function After(j: nat): nat {
    if j == 0 then 2 else 2 * j
  }

  /** The output bits of the first slice, which is discarded. */
  function Discarded(j: nat): nat {
    if j == 0 then 2 else 0
  }

  /** So does a stretch of a path, the discarded bits excepted. */
  lemma {:induction false} CostGain(soft: seq<byte>, p: seq<bit>, x: seq<bit>, j: nat, n: nat, cut: nat)
    requires |p| == |x| && 2 * |p| <= |soft| && j <= n <= |p| && cut <= 127
    ensures Cost(soft, p[..n]) - Cost(soft, p[..j]) + 2 * Excess(soft, CodeBits(x), cut, After(j), 2 * n)
         >= Cost(soft, x[..n]) - Cost(soft, x[..j]) + Gain(cut, WeightIn(Difference(p, x), j, n) - Discarded(j))
    decreases n
  {
    hide Cost, CodeBits, Excess, PathWeight, Gain, Difference;
    if j == n {
      NoExcess(soft, CodeBits(x), cut, After(j), 2 * n);
      GainSum(cut, -(Discarded(j) as int), 0);
    } else if n == 1 {
      FirstGain(soft, p, x, cut);
    } else {
      CostGain(soft, p, x, j, n - 1, cut);
      CostGainStep(soft, p, x, j, n, cut);
    }
  }

  lemma NoExcess(soft: seq<byte>, c: seq<bit>, cut: nat, a: nat, b: nat)
    requires b <= a && b <= |c| <= |soft|
    ensures Excess(soft, c, cut, a, b) == 0
  {
  }

  lemma FirstGain(soft: seq<byte>, p: seq<bit>, x: seq<bit>, cut: nat)
    requires |p| == |x| >= 1 && 2 * |p| <= |soft| && cut <= 127
    ensures Cost(soft, p[..1]) == Cost(soft, p[..0]) == Cost(soft, x[..1]) == Cost(soft, x[..0]) == 0
    ensures Excess(soft, CodeBits(x), cut, 2, 2) == 0 && Gain(cut, WeightIn(Difference(p, x), 0, 1) - 2) <= 0
  {
    hide Weight, Register, CodeBits, Gain;
    var d := Difference(p, x);
    assert d[..1][..0] == d[..0] == [];
    assert PathWeight(d[..1]) == PathWeight([]) + Weight(Register(d[..1]));
    GainSum(cut, WeightIn(d, 0, 1) - 2, 0);
  }

  lemma CostGainStep(soft: seq<byte>, p: seq<bit>, x: seq<bit>, j: nat, n: nat, cut: nat)
    requires |p| == |x| && 2 * |p| <= |soft| && 1 < n <= |p| && j < n && cut <= 127
    requires Cost(soft, p[..n - 1]) - Cost(soft, p[..j]) + 2 * Excess(soft, CodeBits(x), cut, After(j), 2 * (n - 1))
          >= Cost(soft, x[..n - 1]) - Cost(soft, x[..j]) + Gain(cut, WeightIn(Difference(p, x), j, n - 1) - Discarded(j))
    ensures Cost(soft, p[..n]) - Cost(soft, p[..j]) + 2 * Excess(soft, CodeBits(x), cut, After(j), 2 * n)
         >= Cost(soft, x[..n]) - Cost(soft, x[..j]) + Gain(cut, WeightIn(Difference(p, x), j, n) - Discarded(j))
  {
    hide Branch, Register, Cost, Weight, CodeBits, Out, Over, Deviation, Xor, PathWeight, Excess, Gain;
    var t := n - 1;
    var d := Difference(p, x);
    assert p[..n][..t] == p[..t] && x[..n][..t] == x[..t] && d[..n][..t] == d[..t];
    assert d[..n] == Difference(p[..n], x[..n]);
    PathWeightLast(d[..n]);
    RegisterDifference(p[..n], x[..n]);
    CostUnfold(soft, p[..n]);
    CostUnfold(soft, x[..n]);
    BranchGain(soft, t, Register(p[..n]), Register(x[..n]), cut);
    ExcessSlice(soft, x, cut, After(j), t);
    GainSum(cut, WeightIn(d, j, t) - Discarded(j), Weight(Register(d[..n])));
  }

  lemma PathWeightLast(d: seq<bit>)
    requires d != []
    ensures PathWeight(d) == PathWeight(d[..|d| - 1]) + Weight(Register(d))
  {
  }

  // ----- minimum-cost paths

  /** Flushed paths over all slices end alike. */
  lemma EndAlike(p: seq<bit>, x: seq<bit>, sets: nat)
    requires |p| == |x| == sets && Flushed(p, sets) && Flushed(x, sets)
    ensures !Lasts(Difference(p, x))
  {
  }

  /** An event that is over, or lasts for long enough, costs something. */
  lemma EventCosts(soft: seq<byte>, p: seq<bit>, x: seq<bit>, j: nat, n: nat, cut: nat)
    requires |p| == |x| && 2 * |p| <= |soft| && j < n <= |p| && Event(Difference(p, x), j, n)
    requires !Lasts(Difference(p, x)[..n]) || n - j >= DECISION_DEPTH
    requires ToleratedIn(soft, CodeBits(x), cut, After(j), 2 * n)
    ensures Cost(soft, p[..n]) - Cost(soft, p[..j]) > Cost(soft, x[..n]) - Cost(soft, x[..j])
  {
    hide Cost, CodeBits, Excess, PathWeight, Lasts, Windows, Gain, Tolerated, Allowance, Difference, WeightIn, ToleratedIn,
         Event;
    var d, c, k := Difference(p, x), CodeBits(x), Windows(n - j);
    DifferenceWeight(d, j, n);
    EventLength(d, j, n);
    WindowsBound(n - j);
    WindowsExcess(soft, c, cut, After(j), 2 * n, k);
    CostGain(soft, p, x, j, n, cut);
    GainOutweighs(cut, k, WeightIn(d, j, n) - Discarded(j), Excess(soft, c, cut, After(j), 2 * n));
  }

  lemma EventLength(d: seq<bit>, j: nat, n: nat)
    requires Event(d, j, n) && (!Lasts(d[..n]) || n - j >= DECISION_DEPTH)
    ensures n - j >= 7
  {
    hide Lasts;
    if !Lasts(d[..n]) {
      OverAfter(d, j, n);
    }
  }

  lemma WindowsBound(slices: nat)
    ensures 2 * slices <= Windows(slices) * 168 == Windows(slices) * WINDOW
  {
  }

  lemma GainOutweighs(cut: nat, k: nat, weight: nat, excess: nat)
    requires k >= 1 && 7 * cut <= MARGIN && weight >= 7 * k && excess <= Allowance(cut, k)
    ensures Gain(cut, weight) > 2 * excess
  {
    var g := 255 - 2 * cut;
    assert 2 * (MARGIN - 7 * cut) == 7 * g - 1;
    assert g * weight >= g * (7 * k);
    assert k * (7 * g - 1) == g * (7 * k) - k;
    assert 2 * (k * (MARGIN - 7 * cut)) == k * (7 * g - 1);
  }

  /** From the same state, the same bits cost the same. */
  lemma {:induction false} TailCost(soft: seq<byte>, a: seq<bit>, b: seq<bit>, t: seq<bit>)
    requires a != [] && |a| == |b| && 2 * |a + t| <= |soft| && State(a) == State(b)
    ensures State(a + t) == State(b + t)
    ensures Cost(soft, a + t) - Cost(soft, a) == Cost(soft, b + t) - Cost(soft, b)
    decreases |t|
  {
    hide Cost, State, Branch;
    if t == [] {
      assert a + t == a && b + t == b;
    } else {
      var n := |t| - 1;
      TailCost(soft, a, b, t[..n]);
      assert a + t == a + t[..n] + [t[n]] && b + t == b + t[..n] + [t[n]];
      RegisterStep(a + t[..n], t[n]);
      RegisterStep(b + t[..n], t[n]);
      CostStep(soft, a + t[..n], t[n]);
      CostStep(soft, b + t[..n], t[n]);
    }
  }

  /** With the right path's bits where an event was, a minimum-cost path is not cheaper. */
  lemma Rejoined(soft: seq<byte>, sets: nat, path: seq<bit>, x: seq<bit>, j: nat, n: nat)
    requires |path| == |x| && 2 * |path| <= |soft| && j < n <= |path| <= sets
    requires Minimal(soft, sets, path) && Flushed(x, sets)
    requires State(path[..j]) == State(x[..j]) && (n == |path| || State(path[..n]) == State(x[..n]))
    ensures Cost(soft, path[..n]) - Cost(soft, path[..j]) <= Cost(soft, x[..n]) - Cost(soft, x[..j])
  {
    hide Cost, State;
    var head := path[..j] + x[j..n];
    var other := head + path[n..];
    assert Flushed(other, sets);
    assert x[..j] + x[j..n] == x[..n] && path[..n] + path[n..] == path;
    if j == 0 {
      assert head == x[..n] && path[..0] == x[..0];
    } else {
      TailCost(soft, path[..j], x[..j], x[j..n]);
    }
    if n == |path| {
      assert other == head && path[..n] == path;
    } else {
      TailCost(soft, path[..n], head, path[n..]);
    }
    assert Cost(soft, path) <= Cost(soft, other);
  }

  /** A wrong bit of a minimum-cost path belongs to an event that is over, or has lasted for long enough, and costs nothing. */
  lemma WrongEvent(soft: seq<byte>, sets: nat, x: seq<bit>, path: seq<bit>, k: nat) returns (j: nat, n: nat)
    requires |x| == sets && 2 * sets <= |soft| && Flushed(x, sets)
    requires k < |path| <= sets && Minimal(soft, sets, path) && path[k] != x[k]
    requires |path| == sets || |path| >= k + DECISION_DEPTH
    ensures j <= k < n <= |path|
    ensures var truth := x[..|path|]; var d := Difference(path, truth);
      && Event(d, j, n) && (!Lasts(d[..n]) || n - j >= DECISION_DEPTH)
      && 2 * |path| <= |soft|
      && Cost(soft, path[..n]) - Cost(soft, path[..j]) <= Cost(soft, truth[..n]) - Cost(soft, truth[..j])
  {
    hide Cost, Lasts, Minimal, State;
    var truth := x[..|path|];
    var d := Difference(path, truth);
    j := EventAt(d, k);
    n := EventEnd(d, j, k);
    assert Flushed(truth, sets);
    MinimalRange(soft, sets, path);
    OverPrefix(path, truth, j);
    if !Lasts(d[..n]) {
      OverPrefix(path, truth, n);
    } else if |path| == sets {
      assert d[..n] == d;
      MinimalFlushed(soft, sets, path);
      EndAlike(path, truth, sets);
    }
    Rejoined(soft, sets, path, truth, j, n);
  }

  lemma OverPrefix(p: seq<bit>, x: seq<bit>, n: nat)
    requires |p| == |x| && n <= |p| && !Lasts(Difference(p, x)[..n])
    ensures State(p[..n]) == State(x[..n])
  {
    hide Lasts, State;
    assert Difference(p[..n], x[..n]) == Difference(p, x)[..n];
    OverAlike(p[..n], x[..n]);
  }

  /** If the right path is tolerated, a minimum-cost path has every bit right that is old enough, or all if it is
      complete. */
  lemma MinimalTrue(soft: seq<byte>, sets: nat, x: seq<bit>, path: seq<bit>, k: nat, cut: nat)
    requires |x| == sets && 2 * sets <= |soft| && Flushed(x, sets) && Tolerated(soft, CodeBits(x), cut)
    requires k < |path| <= sets && Minimal(soft, sets, path)
    requires |path| == sets || |path| >= k + 42
    ensures path[k] == x[k]
  {
    hide Cost, CodeBits, Lasts, Excess, Minimal, Event, Difference, Flushed;
    if path[k] != x[k] {
      var j, n := WrongEvent(soft, sets, x, path, k);
      ToleratedPrefix(soft, x, |path|, cut);
      EventCosts(soft, path, x[..|path|], j, n, cut);
      assert false;
    }
  }

  lemma MinimalFlushed(soft: seq<byte>, sets: nat, path: seq<bit>)
    requires Minimal(soft, sets, path)
    ensures Flushed(path, sets)
  {
  }

  lemma MinimalRange(soft: seq<byte>, sets: nat, path: seq<bit>)
    requires Minimal(soft, sets, path)
    ensures 2 * |path| <= |soft|
  {
  }

  lemma {:induction false} CodeBitsPrefix(x: seq<bit>, n: nat)
    requires n <= |x|
    ensures CodeBits(x[..n]) == CodeBits(x)[..2 * n]
    decreases |x|
  {
    hide Out, Register;
    if n < |x| {
      var m := |x| - 1;
      CodeBitsPrefix(x[..m], n);
      assert x[..m][..n] == x[..n];
    } else {
      assert x[..n] == x;
    }
  }

  lemma {:induction false} ExcessPrefix(soft: seq<byte>, c: seq<bit>, m: nat, cut: nat, a: nat, b: nat)
    requires b <= m <= |c| <= |soft|
    ensures Excess(soft, c[..m], cut, a, b) == Excess(soft, c, cut, a, b)
    decreases b
  {
    hide Over, Deviation;
    if a < b {
      ExcessPrefix(soft, c, m, cut, a, b - 1);
    }
  }

  lemma ToleratedPrefix(soft: seq<byte>, x: seq<bit>, n: nat, cut: nat)
    requires n <= |x| && Tolerated(soft, CodeBits(x), cut)
    ensures Tolerated(soft, CodeBits(x[..n]), cut)
  {
    hide CodeBits, Excess;
    CodeBitsPrefix(x, n);
    forall a, b | 2 <= a <= b <= 2 * n && b - a <= WINDOW
      ensures Excess(soft, CodeBits(x[..n]), cut, a, b) + 7 * cut <= MARGIN
    {
      ExcessPrefix(soft, CodeBits(x), 2 * n, cut, a, b);
    }
  }

  /** Then every decided bit is the true one. */
  lemma DecidedTrue(soft: seq<byte>, sets: nat, x: seq<bit>, k: nat, b: bit, cut: nat)
    requires |x| == sets && 2 * sets <= |soft| && Flushed(x, sets) && Tolerated(soft, CodeBits(x), cut)
    requires k < sets && Decided(soft, sets, k, b)
    ensures b == x[k]
  {
    hide Minimal, Flushed, Tolerated;
    var path: seq<bit> :|
      k < |path| <= sets && (|path| == sets || |path| >= k + DECISION_DEPTH) && Minimal(soft, sets, path) && path[k] == b;
    MinimalTrue(soft, sets, x, path, k, cut);
  }
}
