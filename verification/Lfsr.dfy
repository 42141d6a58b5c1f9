/** Linear feedback shift registers that generate a sequence, and the step of Massey's algorithm. */
module Lfsr {
  import opened Bits
  import opened Gf256
  import opened Poly
  import opened Convolution

  ghost predicate DegreeAtMost(c: Poly, l: int) {
    forall j :: 0 <= j < |c| && l < j ==> c[j] == 0
  }

  /** The register with l cells and feedback polynomial c produces s[0..n]. */
  ghost predicate Generates(c: Poly, l: nat, s: Poly, n: nat) {
    && c != [] && c[0] == 1
    && DegreeAtMost(c, l)
    && forall k :: l <= k < n ==> Conv(c, s, k) == 0
  }

  /** No register with fewer than l cells produces s[0..n]. */
  ghost predicate NoShorter(l: nat, s: Poly, n: nat) {
    forall d: Poly, m: nat :: Generates(d, m, s, n) ==> m >= l
  }

  lemma GeneratesFewer(c: Poly, l: nat, s: Poly, n: nat)
    requires Generates(c, l, s, n + 1)
    ensures Generates(c, l, s, n)
  {
    hide Conv;
  }

  /** Massey's bound: a register that fails at n forces every register that does not to be long. */
  lemma MasseyBound(c: Poly, l: nat, d: Poly, m: nat, s: Poly, n: nat)
    requires Generates(c, l, s, n) && Conv(c, s, n) != 0
    requires Generates(d, m, s, n + 1)
    ensures l + m >= n + 1
  {
    hide Mul, Add, Conv;
    if l + m <= n {
      Conv2Comm(d, c, s, n);
      forall j | 0 <= j < |c| ensures c[j] == 0 || Conv(d, s, n - j) == 0 {
        assert j <= l ==> m <= n - j < n + 1;
      }
      Conv2Zero(c, d, s, n);
      forall j | 0 <= j < |d| - 1 ensures d[1..][j] == 0 || Conv(c, s, n - 1 - j) == 0 {
        assert j + 1 <= m ==> l <= n - 1 - j < n;
      }
      Conv2Zero(d[1..], c, s, n - 1);
      OneMul(Conv(c, s, n));
      AddZero(Conv(c, s, n));
    }
  }

  // ----- the correction step

  /** c + q x^m b, cut to the length of c. */
  function Combine(c: Poly, b: Poly, q: byte, m: nat): Poly
    requires |c| == |b|
  {
    seq(|c|, j requires 0 <= j < |c| => Add(c[j], if j < m then 0 else Mul(q, b[j - m])))
  }

  lemma CombineConv(c: Poly, b: Poly, q: byte, m: nat, lb: int, s: Poly, k: int)
    requires |c| == |b| && DegreeAtMost(b, lb) && lb + m < |b|
    ensures Conv(Combine(c, b, q, m), s, k) == Add(Conv(c, s, k), Mul(q, Conv(b, s, k - m)))
  {
    hide Mul, Add, Conv;
    if m >= |b| {
      assert IsZero(b);
      ConvZero(b, s, k - m);
      MulNonzero(q, 0);
      AddZero(Conv(c, s, k));
      forall j | 0 <= j < |c| ensures Combine(c, b, q, m)[j] == c[j] {
        AddZero(c[j]);
      }
      assert Combine(c, b, q, m) == c;
    } else {
      var low := b[..|b| - m];
      var shifted := Zeros(m) + low;
      MulNonzero(q, 0);
      assert Combine(c, b, q, m) == Sum(c, Scale(q, shifted));
      ConvSum(c, Scale(q, shifted), s, k);
      ConvScale(q, shifted, s, k);
      ConvShift(m, low, s, k);
      assert IsZero(b[|b| - m..]);
      ConvTrim(low, b[|b| - m..], s, k - m);
      assert low + b[|b| - m..] == b;
    }
  }

  lemma CombineDegree(c: Poly, b: Poly, q: byte, m: nat, l: int, lb: int)
    requires |c| == |b| && DegreeAtMost(c, l) && DegreeAtMost(b, lb)
    ensures DegreeAtMost(Combine(c, b, q, m), if l < lb + m then lb + m else l)
  {
    hide Mul, Add;
    var top := if l < lb + m then lb + m else l;
    forall j | 0 <= j < |c| && top < j ensures Combine(c, b, q, m)[j] == 0 {
      AddZero(0);
      MulNonzero(q, 0);
    }
  }

  // ----- the invariant of the algorithm

  /** The state before syndrome i: locator c of length l, and the locator b of length lb that
      failed m steps ago with discrepancy v; before the first failure b is 1 and m is i + 1. */
  ghost predicate MasseyState(c: Poly, l: nat, b: Poly, lb: nat, m: nat, v: byte, s: Poly, i: nat) {
    && |c| == |b| == |s| + 1 && i <= |s| && v != 0
    && Generates(c, l, s, i) && NoShorter(l, s, i)
    && l + lb == i + 1 - m && 1 <= m <= i + 1
    && DegreeAtMost(b, lb) && b[0] == 1
    && (forall k :: lb <= k < i - m ==> Conv(b, s, k) == 0)
    && (m <= i ==> Conv(b, s, i - m) == v)
    && (l == i > 0 ==> OnlyLast(s, i))
  }

  /** The first n elements are zero but for the last of them. */
  ghost predicate OnlyLast(s: Poly, n: nat) {
    0 < n <= |s| && s[n - 1] != 0 && forall k :: 0 <= k < n - 1 ==> s[k] == 0
  }

  function Unit(n: nat): Poly {
    [1] + Zeros(n)
  }

  lemma MasseyStart(s: Poly)
    ensures MasseyState(Unit(|s|), 0, Unit(|s|), 0, 1, 1, s, 0)
  {
    hide Conv;
  }

  /** No discrepancy: the register stays. */
  lemma MasseyKeep(c: Poly, l: nat, b: Poly, lb: nat, m: nat, v: byte, s: Poly, i: nat)
    requires MasseyState(c, l, b, lb, m, v, s, i) && i < |s|
    requires Conv(c, s, i) == 0
    ensures MasseyState(c, l, b, lb, m + 1, v, s, i + 1)
  {
    hide Conv;
    NoShorterNext(l, s, i);
  }

  lemma NoShorterNext(l: nat, s: Poly, i: nat)
    requires NoShorter(l, s, i)
    ensures NoShorter(l, s, i + 1)
  {
    hide Conv;
    var n := i + 1;
    forall d: Poly, m: nat | Generates(d, m, s, n) ensures m >= l {
      GeneratesFewer(d, m, s, i);
    }
  }

  /** A register without cells adds nothing to the current element. */
  lemma ConvConstant(c: Poly, s: Poly, k: nat)
    requires c != [] && c[0] == 1 && DegreeAtMost(c, 0) && k < |s|
    ensures Conv(c, s, k) == s[k]
  {
    hide Mul, Add;
    ConvZero(c[1..], s, k - 1);
    OneMul(s[k]);
    AddZero(s[k]);
  }

  /** A sequence that is zero up to a nonzero last element needs a register as long as itself. */
  lemma OnlyLastLength(c: Poly, l: nat, s: Poly, n: nat)
    requires Generates(c, l, s, n) && OnlyLast(s, n)
    ensures l >= n
  {
    hide Mul, Add;
    if l < n {
      var t := Zeros(|s|);
      assert Conv(c, s, n - 1) == 0;
      ConvPrefix(c[1..], s, t, n - 2);
      ConvOfZeros(c[1..], t, n - 2);
      OneMul(s[n - 1]);
      AddZero(s[n - 1]);
    }
  }

  /** The corrected register produces one more element. */
  lemma MasseyCorrect(c: Poly, l: nat, b: Poly, lb: nat, m: nat, v: byte, q: byte, s: Poly, i: nat, top: nat)
    requires MasseyState(c, l, b, lb, m, v, s, i) && i < |s|
    requires Mul(q, v) == Conv(c, s, i)
    requires top == if l < lb + m then lb + m else l
    ensures Generates(Combine(c, b, q, m), top, s, i + 1)
  {
    hide Mul, Add, Conv;
    var d := Combine(c, b, q, m);
    CombineDegree(c, b, q, m, l, lb);
    assert d[0] == 1 by {
      AddZero(1);
    }
    forall k | top <= k < i + 1 ensures Conv(d, s, k) == 0 {
      CombineConv(c, b, q, m, lb, s, k);
      MulNonzero(q, 0);
      AddZero(0);
      AddSelf(Conv(c, s, i));
    }
  }

  /** A discrepancy with room for more cells: the register grows to i + 1 - l. */
  lemma MasseyGrow(c: Poly, l: nat, b: Poly, lb: nat, m: nat, v: byte, q: byte, s: Poly, i: nat)
    requires MasseyState(c, l, b, lb, m, v, s, i) && i < |s|
    requires Conv(c, s, i) != 0 && Mul(q, v) == Conv(c, s, i) && 2 * l <= i
    ensures MasseyState(Combine(c, b, q, m), i + 1 - l, c, l, 1, Conv(c, s, i), s, i + 1)
  {
    hide Mul, Add, Conv;
    MasseyCorrect(c, l, b, lb, m, v, q, s, i, i + 1 - l);
    var n := i + 1;
    forall d: Poly, k: nat | Generates(d, k, s, n) ensures k >= n - l {
      MasseyBound(c, l, d, k, s, i);
    }
    if l == 0 {
      forall k | 0 <= k <= i ensures Conv(c, s, k) == s[k] {
        ConvConstant(c, s, k);
      }
    }
  }

  /** A discrepancy without room: the register is corrected and keeps its length. */
  lemma MasseyAdjust(c: Poly, l: nat, b: Poly, lb: nat, m: nat, v: byte, q: byte, s: Poly, i: nat)
    requires MasseyState(c, l, b, lb, m, v, s, i) && i < |s|
    requires Mul(q, v) == Conv(c, s, i) && 2 * l > i
    ensures MasseyState(Combine(c, b, q, m), l, b, lb, m + 1, v, s, i + 1)
  {
    hide Mul, Add, Conv;
    MasseyCorrect(c, l, b, lb, m, v, q, s, i, l);
    NoShorterNext(l, s, i);
  }

  /** The state bounds the lengths, so that all shifts fit. */
  lemma MasseyBounds(c: Poly, l: nat, b: Poly, lb: nat, m: nat, v: byte, s: Poly, i: nat)
    requires MasseyState(c, l, b, lb, m, v, s, i)
    ensures lb + m == i + 1 - l && l <= i && (i < |s| ==> lb + m < |c|)
  {
  }
}
