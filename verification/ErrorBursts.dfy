/** A burst of arbitrary soft symbols: minimum-cost paths are wrong only near it. */
module ErrorBursts {
  import opened Bits
  import opened BitIo
  import opened ConvCode
  import opened Survivors
  import opened FreeDistance
  import opened NoiseMargin
  import opened CodeWords

  /** Outside the slices from lo to hi no symbol deviates by more than the cut; the first slice does not count. */
  ghost predicate SpoiledOnly(soft: seq<byte>, bits: seq<bit>, cut: nat, lo: nat, hi: nat) {
    && |bits| <= |soft| && lo <= hi && cut <= 127
    && forall i :: 2 <= i < |bits| && !(2 * lo <= i < 2 * hi) ==> Deviation(soft[i], bits[i]) <= cut
  }

  /** How far beyond a burst of so many slices an error event can reach: six slices for every output bit that it can win
      in the burst, and what it may have weighed less at the burst's ends. */
  function Extent(slices: nat, cut: nat): nat
    requires cut <= 127
  {
    6 * (510 * slices) / (255 - 2 * cut) + 33
  }

  lemma {:induction false} NoOver(soft: seq<byte>, bits: seq<bit>, cut: nat, a: nat, b: nat)
    requires b <= |bits| <= |soft| && forall i :: a <= i < b ==> Deviation(soft[i], bits[i]) <= cut
    ensures Excess(soft, bits, cut, a, b) == 0
    decreases b
  {
    hide Deviation;
    if a < b {
      NoOver(soft, bits, cut, a, b - 1);
    }
  }

  /** Where no symbol deviates by more than the cut, every output bit counts. */
  lemma CleanGain(soft: seq<byte>, p: seq<bit>, x: seq<bit>, cut: nat, lo: nat, hi: nat, a: nat, b: nat)
    requires |p| == |x| && SpoiledOnly(soft, CodeBits(x), cut, lo, hi) && a <= b <= |p| && (b <= lo || hi <= a)
    ensures Cost(soft, p[..b]) - Cost(soft, p[..a])
         >= Cost(soft, x[..b]) - Cost(soft, x[..a]) + Gain(cut, WeightIn(Difference(p, x), a, b) - Discarded(a))
  {
    hide Cost, CodeBits, Deviation, Gain, Excess, WeightIn, Difference;
    NoOver(soft, CodeBits(x), cut, After(a), 2 * b);
    CostGain(soft, p, x, a, b, cut);
  }

  /** No slice costs more than 510, nor less than nothing. */
  lemma {:induction false} CostStretch(soft: seq<byte>, p: seq<bit>, a: nat, b: nat)
    requires 2 * |p| <= |soft| && a <= b <= |p|
    ensures 0 <= Cost(soft, p[..b]) - Cost(soft, p[..a]) <= 510 * (b - a)
    decreases b
  {
    hide Branch, Register;
    if a < b {
      CostStretch(soft, p, a, b - 1);
      assert p[..b][..b - 1] == p[..b - 1];
    }
  }

  /** The weight of an event outside the burst. */
  lemma OutsideWeight(d: seq<bit>, j: nat, n: nat, a: nat, b: nat)
    requires Event(d, j, n) && j <= a < b <= n
    ensures 6 * (WeightIn(d, j, a) + WeightIn(d, b, n)) >= (a - j) + (n - b) - 21
  {
    hide Lasts, PathWeight, Slack;
    if j < a {
      EventWeight(d, j, a);
    }
    if b < n {
      LastingWeight(d, b, n);
      SlackBounds(d[..b]);
      SlackBounds(d[..n]);
    }
  }

  /** What an event can win in the burst bounds its length outside. */
  lemma OutsideLength(cut: nat, weight: int, outside: int, slices: nat, within: nat)
    requires cut <= 127 && within <= slices
    requires 6 * weight >= outside - 21 && Gain(cut, weight - 2) <= 510 * within
    ensures outside <= Extent(slices, cut)
  {
    hide Gain, Extent;
    ExtentLeast(slices, cut);
    if outside > 33 {
      GainIs(cut, weight - 2);
      LengthBound(255 - 2 * cut, weight - 2, outside - 33, 510 * slices);
    }
  }

  lemma ExtentLeast(slices: nat, cut: nat)
    requires cut <= 127
    ensures Extent(slices, cut) == 6 * (510 * slices) / (255 - 2 * cut) + 33 >= 33
  {
    QuotientAtLeast(255 - 2 * cut, 0, 6 * (510 * slices));
  }

  lemma GainIs(cut: nat, bits: int)
    requires cut <= 127
    ensures Gain(cut, bits) == (255 - 2 * cut) * bits
  {
  }

  lemma LengthBound(g: nat, u: int, v: int, wins: nat)
    requires g > 0 && v > 0 && v <= 6 * u && g * u <= wins
    ensures v <= 6 * wins / g
  {
    SixTimes(g, u);
    GrowsWith(g, v, 6 * u);
    QuotientAtLeast(g, v, 6 * wins);
  }

  lemma SixTimes(g: int, u: int)
    ensures g * (6 * u) == 6 * (g * u)
  {
  }

  lemma GrowsWith(g: nat, a: int, b: int)
    requires a <= b
    ensures g * a <= g * b
  {
  }

  lemma QuotientAtLeast(g: nat, q: nat, x: nat)
    requires g > 0 && g * q <= x
    ensures q <= x / g
  {
    if q > x / g {
      GrowsWith(g, x / g + 1, q);
    }
  }

  /** A wrong bit of a minimum-cost path is near the burst. */
  lemma BurstConfined(soft: seq<byte>, sets: nat, x: seq<bit>, path: seq<bit>, k: nat, cut: nat, lo: nat, hi: nat)
    requires |x| == sets && 2 * sets <= |soft| && Flushed(x, sets) && SpoiledOnly(soft, CodeBits(x), cut, lo, hi)
    requires k < |path| <= sets && Minimal(soft, sets, path) && path[k] != x[k]
    requires |path| == sets || |path| >= k + 42
    ensures lo <= k + Extent(hi - lo, cut) && k < hi + Extent(hi - lo, cut)
  {
    hide Cost, CodeBits, Lasts, Minimal, Event, Difference, Flushed, Gain, WeightIn, Deviation, Extent;
    var truth := x[..|path|];
    var d := Difference(path, truth);
    var j, n := WrongEvent(soft, sets, x, path, k);
    SpoiledPrefix(soft, x, |path|, cut, lo, hi);
    if n <= lo || hi <= j || lo == hi {
      var at := if lo == hi then n else lo;
      CleanGain(soft, path, truth, cut, at, at + (hi - lo), j, n);
      DifferenceWeight(d, j, n);
      GainPositive(cut, WeightIn(d, j, n) - Discarded(j));
      assert false;
    } else {
      var a, b := if j < lo then lo else j, if n > hi then hi else n;
      CleanOutside(soft, path, truth, cut, lo, hi, j, n, a, b);
      OutsideWeight(d, j, n, a, b);
      OutsideLength(cut, WeightIn(d, j, a) + WeightIn(d, b, n), (a - j) + (n - b), hi - lo, b - a);
    }
  }

  lemma GainPositive(cut: nat, bits: int)
    requires cut <= 127 && bits > 0
    ensures Gain(cut, bits) > 0
  {
  }

  /** An event that costs nothing wins in the burst what it loses outside. */
  lemma CleanOutside(soft: seq<byte>, p: seq<bit>, x: seq<bit>, cut: nat, lo: nat, hi: nat, j: nat, n: nat,
                     a: nat, b: nat)
    requires |p| == |x| && 2 * |p| <= |soft| && cut <= 127 && SpoiledOnly(soft, CodeBits(x), cut, lo, hi)
    requires j <= a < b <= n <= |p| && (a == j || a <= lo) && (b == n || hi <= b)
    requires Cost(soft, p[..n]) - Cost(soft, p[..j]) <= Cost(soft, x[..n]) - Cost(soft, x[..j])
    ensures var d := Difference(p, x);
      Gain(cut, WeightIn(d, j, a) + WeightIn(d, b, n) - 2) <= 510 * (b - a)
  {
    hide Cost, CodeBits, Difference, Gain, WeightIn, SpoiledOnly, Discarded;
    var d := Difference(p, x);
    CostStretch(soft, p, a, b);
    CostStretch(soft, x, a, b);
    DiscardedBits(j);
    DiscardedBits(b);
    var w1, w2 := WeightIn(d, j, a) - Discarded(j), WeightIn(d, b, n);
    if a == j {
      NoWeightIn(d, j);
      GainSum(cut, w1, 0);
    } else {
      CleanGain(soft, p, x, cut, lo, hi, j, a);
    }
    if b == n {
      NoWeightIn(d, n);
      GainSum(cut, w2, 0);
    } else {
      CleanGain(soft, p, x, cut, lo, hi, b, n);
    }
    GainSum(cut, w1, w2);
    GainSum(cut, Discarded(j) as int - 2, w1 + w2);
  }

  lemma DiscardedBits(j: nat)
    ensures Discarded(j) <= 2 && (j > 0 ==> Discarded(j) == 0)
  {
  }

  lemma NoWeightIn(d: seq<bit>, i: nat)
    requires i <= |d|
    ensures WeightIn(d, i, i) == 0
  {
  }

  lemma SpoiledPrefix(soft: seq<byte>, x: seq<bit>, n: nat, cut: nat, lo: nat, hi: nat)
    requires n <= |x| && SpoiledOnly(soft, CodeBits(x), cut, lo, hi)
    ensures SpoiledOnly(soft, CodeBits(x[..n]), cut, lo, hi)
  {
    hide CodeBits, Deviation;
    CodeBitsPrefix(x, n);
  }

  // ----- the bytes decoded

  /** A burst short enough, for the cut, that the bytes it spoils are at most 64 in a row. */
  predicate Short(slices: nat, cut: nat) {
    cut <= 127 && slices + 2 * Extent(slices, cut) <= 8 * 63 + 1
  }

  /** Twelve slices are if every other symbol is as good as one of unit amplitude without noise, seventeen if it has no
      deviation at all. */
  lemma ShortBursts()
    ensures Short(12, 38) && Short(17, 0)
  {
  }

  /** Where the wrong bytes can begin. */
  function FirstWrong(lo: nat, reach: nat): nat {
    if lo < reach then 0 else (lo - reach) / 8
  }

  /** Decided bits far from the burst are right. */
  lemma BurstDecides(soft: seq<byte>, sets: nat, x: seq<bit>, k: nat, b: bit, cut: nat, lo: nat, hi: nat)
    requires |x| == sets && 2 * sets <= |soft| && Flushed(x, sets) && SpoiledOnly(soft, CodeBits(x), cut, lo, hi)
    requires k < sets && Decided(soft, sets, k, b)
    requires k + Extent(hi - lo, cut) < lo || hi + Extent(hi - lo, cut) <= k
    ensures b == x[k]
  {
    hide Minimal, Flushed, SpoiledOnly, Extent, CodeBits;
    var path: seq<bit> :|
      && k < |path| <= sets && (|path| == sets || |path| >= k + DECISION_DEPTH)
      && Minimal(soft, sets, path) && path[k] == b;
    if path[k] != x[k] {
      BurstConfined(soft, sets, x, path, k, cut, lo, hi);
      assert false;
    }
  }

  /** Whatever the burst holds, all bytes decoded but 64 in a row are those of the message. */
  lemma BurstBytes(soft: seq<byte>, sets: nat, msg: seq<byte>, bits: seq<bit>, out: seq<byte>, cut: nat, lo: nat,
                   hi: nat)
    requires sets == 8 * |msg| + FLUSH && 2 * sets <= |soft| && lo <= hi && cut <= 127
    requires SpoiledOnly(soft, CodeBits(Input(msg)), cut, lo, hi) && Short(hi - lo, cut)
    requires |bits| + 6 == sets && forall k :: 0 <= k < |bits| ==> Decided(soft, sets, k, bits[k])
    requires |out| == |bits| / 8 && ToBits(out) == bits[..8 * |out|]
    ensures |out| == |msg|
    ensures var first := FirstWrong(lo, Extent(hi - lo, cut));
      forall q :: 0 <= q < |msg| && !(first <= q < first + 64) ==> out[q] == msg[q]
  {
    hide CodeBits, SpoiledOnly, Decided, ToBits, BitsOf, Extent;
    var x, reach := Input(msg), Extent(hi - lo, cut);
    InputFlush(msg);
    hide Flushed;
    var first := FirstWrong(lo, reach);
    forall q | 0 <= q < |msg| && !(first <= q < first + 64) ensures out[q] == msg[q] {
      forall r | 0 <= r < 8 ensures BitsOf(out[q], 8)[r] == BitsOf(msg[q], 8)[r] {
        var k := 8 * q + r;
        FarBit(lo, hi, reach, q, r);
        BurstDecides(soft, sets, x, k, bits[k], cut, lo, hi);
        ToBitsAt(out, q, r);
        ToBitsAt(msg, q, r);
        assert x[k] == ToBits(msg)[k];
      }
      ByteEqual(out[q], msg[q]);
    }
  }

  lemma InputFlush(msg: seq<byte>)
    ensures Flushed(Input(msg), |Input(msg)|)
  {
  }

  /** The bits of the bytes that are not among the 64. */
  lemma FarBit(lo: nat, hi: nat, reach: nat, q: nat, r: nat)
    requires lo <= hi && (hi - lo) + 2 * reach <= 8 * 63 + 1 && r < 8
    requires var first := FirstWrong(lo, reach); !(first <= q < first + 64)
    ensures 8 * q + r + reach < lo || hi + reach <= 8 * q + r
  {
  }

  lemma ByteEqual(a: byte, b: byte)
    requires forall r :: 0 <= r < 8 ==> BitsOf(a, 8)[r] == BitsOf(b, 8)[r]
    ensures a == b
  {
    hide BitsOf, Pow2;
    Pow2Byte();
    assert BitsOf(a, 8) == BitsOf(b, 8);
    BitsInjective(a, b, 8);
  }
}
