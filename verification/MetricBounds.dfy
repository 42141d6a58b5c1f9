/** How fast minimum costs grow and how far they spread. */
module MetricBounds {
  import opened Bits
  import opened ConvCode

  const MAX_DISTANCE: nat := 510
  /** Six slices at the largest metric: any state is six slices away from any other. */
  const MAX_SPREAD: nat := 3060

  /** The cheaper of two sibling branches costs at most 255, because their outputs are complementary. */
  lemma SiblingBranch(soft: seq<byte>, t: nat, q: state) returns (b: bit)
    requires 2 * t + 1 < |soft|
    ensures Branch(soft, t, 2 * q + b) <= 255
  {
    hide Out, Distance;
    SiblingOutputs(q);
    ComplementDistance(Out(2 * q), soft[2 * t], soft[2 * t + 1]);
    b := if Branch(soft, t, 2 * q) <= 255 then 0 else 1;
  }

  /** The minimum over all states grows by at most 255 in a slice. */
  lemma MinimumGrows(soft: seq<byte>, t: nat, q: state) returns (s: state)
    requires 2 * t + 2 <= |soft| && t >= 1 && q < Reach(t - 1)
    ensures s < Reach(t) && Best(soft, t, s) <= Best(soft, t - 1, q) + 255
  {
    hide Best, Branch, Reach;
    var b := SiblingBranch(soft, t, q);
    BestBranch(soft, t, q, b);
    s := Next(q, b);
  }

  /** Some state one slice earlier is no more expensive. */
  lemma Earlier(soft: seq<byte>, t: nat, s: state) returns (q: state)
    requires 2 * t + 2 <= |soft| && t >= 1 && s < Reach(t)
    ensures q < Reach(t - 1) && Best(soft, t - 1, q) <= Best(soft, t, s)
  {
    hide Best, Branch, Reach;
    var h := BestChoice(soft, t, s);
    q := Pred(s, h);
  }

  lemma {:induction false} EarlierBy(soft: seq<byte>, t: nat, s: state, k: nat) returns (q: state)
    requires k <= t && 2 * t + 2 <= |soft| && s < Reach(t)
    ensures q < Reach(t - k) && Best(soft, t - k, q) <= Best(soft, t, s)
    decreases k
  {
    hide Best, Reach;
    q := s;
    if k != 0 {
      q := Earlier(soft, t, s);
      q := EarlierBy(soft, t - 1, q, k - 1);
    }
  }

  /** One more slice costs at most the largest metric. */
  lemma Shifted(soft: seq<byte>, t: nat, q: state, b: bit) returns (s: state)
    requires 2 * t + 2 <= |soft| && t >= 1 && q < Reach(t - 1)
    ensures s == Next(q, b) && s < Reach(t)
    ensures Best(soft, t, s) <= Best(soft, t - 1, q) + MAX_DISTANCE
  {
    hide Best;
    BestBranch(soft, t, q, b);
    s := Next(q, b);
  }

  /** Any state can be reached from any other in six slices. */
  lemma SixSlices(soft: seq<byte>, t: nat, q: state, s: state)
    requires 2 * t + 14 <= |soft| && q < Reach(t)
    ensures Best(soft, t + 6, s) <= Best(soft, t, q) + MAX_SPREAD
  {
    hide Best, Branch, Next;
    var a, b, c, d, e, f := StateBits(s);
    SixShifts(q, a, b, c, d, e, f);
    var r := Shifted(soft, t + 1, q, a);
    r := Shifted(soft, t + 2, r, b);
    r := Shifted(soft, t + 3, r, c);
    r := Shifted(soft, t + 4, r, d);
    r := Shifted(soft, t + 5, r, e);
    r := Shifted(soft, t + 6, r, f);
    assert r == s;
    ReachAll(t + 6, s);
  }

  lemma ReachAll(t: nat, s: state)
    requires t >= 5
    ensures s < Reach(t) == NUM_STATES
  {
  }

  lemma {:induction false} BestAtMost(soft: seq<byte>, t: nat, s: state)
    requires 2 * t + 2 <= |soft| && s < Reach(t)
    ensures Best(soft, t, s) <= MAX_DISTANCE * t
    decreases t
  {
    hide Best;
    if t == 0 {
      BestAtStart(soft, s);
    } else {
      hide Reach;
      var h := BestChoice(soft, t, s);
      BestAtMost(soft, t - 1, Pred(s, h));
    }
  }

  lemma BestAtStart(soft: seq<byte>, s: state)
    requires 2 <= |soft| && s < Reach(0)
    ensures Best(soft, 0, s) == 0
  {
  }

  /** After the warm-up the minimum costs of any two states differ by at most six slices' worth. */
  lemma Spread(soft: seq<byte>, t: nat, q: state, s: state)
    requires 2 * t + 2 <= |soft| && t >= 5
    ensures Best(soft, t, s) <= Best(soft, t, q) + 3060
  {
    hide Best;
    if t == 5 {
      BestAtMost(soft, t, s);
    } else {
      var earlier := EarlierBy(soft, t, q, 6);
      SixSlices(soft, t - 6, earlier, s);
    }
  }

  /** After t slices some state has cost at most 255 for each but the first. */
  lemma {:induction false} MinimumAtMost(soft: seq<byte>, t: nat) returns (s: state)
    requires 2 * t + 2 <= |soft|
    ensures s < Reach(t) && Best(soft, t, s) <= 255 * t
    decreases t
  {
    hide Best;
    if t == 0 {
      s := 0;
      BestAtStart(soft, s);
    } else {
      s := MinimumAtMost(soft, t - 1);
      s := MinimumGrows(soft, t, s);
    }
  }
}
