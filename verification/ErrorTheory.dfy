/** Errors as weighted points: locators, minimum distance, and Forney's values. */
module ErrorTheory {
  import opened Bits
  import opened Gf256
  import opened Poly
  import opened Convolution
  import opened Lfsr

  // ----- sparse polynomials

  /** The indices of the nonzero coefficients, in increasing order. */
  function Support(e: Poly): (locs: seq<nat>)
    ensures |locs| <= |e|
    ensures forall j :: 0 <= j < |locs| ==> locs[j] < |e|
    ensures Distinct(locs)
  {
    if e == [] then []
    else
      var n := |e| - 1;
      Support(e[..n]) + if e[n] != 0 then [n] else []
  }

  function Pick(e: Poly, locs: seq<nat>): Poly
    requires forall j :: 0 <= j < |locs| ==> locs[j] < |e|
  {
    seq(|locs|, j requires 0 <= j < |locs| => e[locs[j]])
  }

  /** x^loc for each location. */
  function Terms(locs: seq<nat>, x: byte): Poly {
    seq(|locs|, j requires 0 <= j < |locs| => Pow(x, locs[j]))
  }

  lemma {:induction false} SupportNonzero(e: Poly, j: nat)
    requires j < |Support(e)|
    ensures e[Support(e)[j]] != 0
    decreases |e|
  {
    var n := |e| - 1;
    if j < |Support(e[..n])| {
      SupportNonzero(e[..n], j);
    }
  }

  lemma {:induction false} SupportEmpty(e: Poly)
    requires Support(e) == []
    ensures IsZero(e)
    decreases |e|
  {
    if e != [] {
      SupportEmpty(e[..|e| - 1]);
    }
  }

  lemma {:induction false} DotSnoc(w: Poly, v: Poly, a: byte, b: byte)
    requires |w| == |v|
    ensures Dot(w + [a], v + [b]) == Add(Dot(w, v), Mul(a, b))
    decreases |w|
  {
    hide Mul, Add;
    if w == [] {
      assert [a][1..] == [] && [b][1..] == [] && w + [a] == [a] && v + [b] == [b];
      AddComm(0, Mul(a, b));
    } else {
      assert (w + [a])[1..] == w[1..] + [a] && (v + [b])[1..] == v[1..] + [b];
      DotSnoc(w[1..], v[1..], a, b);
      AddAssoc(Mul(w[0], v[0]), Dot(w[1..], v[1..]), Mul(a, b));
    }
  }

  /** Only the support contributes to the value. */
  lemma {:induction false} EvalSupport(e: Poly, x: byte)
    ensures Eval(e, x) == Dot(Pick(e, Support(e)), Terms(Support(e), x))
    decreases |e|
  {
    hide Mul, Add;
    if e != [] {
      var n := |e| - 1;
      var t := e[..n];
      EvalSupport(t, x);
      EvalSnoc(t, e[n], x);
      assert t + [e[n]] == e;
      if e[n] == 0 {
        ZeroMul(Pow(x, n));
        AddZero(Eval(t, x));
        assert Support(e) == Support(t);
        assert Pick(e, Support(e)) == Pick(t, Support(t));
      } else {
        var locs := Support(t);
        DotSnoc(Pick(t, locs), Terms(locs, x), e[n], Pow(x, n));
        assert Support(e) == locs + [n];
        PickSnoc(e, t, locs, n, x);
      }
    }
  }

  lemma PickSnoc(e: Poly, t: Poly, locs: seq<nat>, n: nat, x: byte)
    requires |e| == n + 1 && t == e[..n]
    requires forall j :: 0 <= j < |locs| ==> locs[j] < n
    ensures forall j :: 0 <= j < |locs| + 1 ==> (locs + [n])[j] < |e|
    ensures Pick(e, locs + [n]) == Pick(t, locs) + [e[n]]
    ensures Terms(locs + [n], x) == Terms(locs, x) + [Pow(x, n)]
  {
    hide Pow;
    var all := locs + [n];
    forall j | 0 <= j < |locs| ensures all[j] == locs[j] && all[j] < n {
    }
    assert all[|locs|] == n;
    assert Pick(e, all) == Pick(t, locs) + [e[n]];
    assert Terms(all, x) == Terms(locs, x) + [Pow(x, n)];
  }

  // ----- locations and points

  /** The points alpha^loc. */
  function Points(locs: seq<nat>): Poly {
    seq(|locs|, j requires 0 <= j < |locs| => Exp(locs[j]))
  }

  /** Terms at a generator root are power sums of the points. */
  lemma RootTerms(locs: seq<nat>, vals: Poly, k: nat)
    requires |vals| == |locs|
    ensures Dot(vals, Terms(locs, Exp(k + 1))) == Dot(Product(vals, Points(locs)), Powers(Points(locs), k))
  {
    hide Mul, Dot, Exp;
    var xs := Points(locs);
    forall j | 0 <= j < |locs| ensures Terms(locs, Exp(k + 1))[j] == Product(xs, Powers(xs, k))[j] {
      PowExpSwap(k + 1, locs[j]);
    }
    assert Terms(locs, Exp(k + 1)) == Product(xs, Powers(xs, k));
    DotProduct(vals, xs, Powers(xs, k));
  }

  lemma PointsDistinct(locs: seq<nat>)
    requires Distinct(locs) && forall j :: 0 <= j < |locs| ==> locs[j] < 255
    ensures Distinct(Points(locs))
    ensures forall j :: 0 <= j < |locs| ==> Points(locs)[j] != 0
  {
    hide Exp;
    forall j | 0 <= j < |locs| ensures Points(locs)[j] != 0 {
      ExpNonzero(locs[j]);
    }
    forall i, j | 0 <= i < j < |locs| ensures Exp(locs[i]) != Exp(locs[j]) {
      ExpSeparates(locs[i], locs[j]);
    }
  }

  /** Locations below 255 have different points. */
  lemma ExpSeparates(i: nat, j: nat)
    requires i < 255 && j < 255 && i != j
    ensures Exp(i) != Exp(j)
  {
    hide Exp;
    ExpPeriod(0);
    var a, b := if i == 0 then 255 else i, if j == 0 then 255 else j;
    if a < b {
      ExpInjective(a, b);
    } else {
      ExpInjective(b, a);
    }
  }

  // ----- minimum distance

  /** The roots of the generator: first root alpha, gap 1. */
  function GeneratorRoot(k: nat): byte {
    Exp(k + 1)
  }

  /** Vanishing at the first n generator roots. */
  ghost predicate Vanishes(p: Poly, n: nat) {
    forall k :: 0 <= k < n ==> Eval(p, GeneratorRoot(k)) == 0
  }

  /** A polynomial below order 255 with at most n nonzero coefficients that vanishes at n
      consecutive powers of alpha is zero. */
  lemma MinimumDistance(e: Poly, n: nat)
    requires |e| <= 255 && |Support(e)| <= n && Vanishes(e, n)
    ensures IsZero(e)
  {
    hide Mul, Eval, Dot, Exp;
    var locs := Support(e);
    var vals, xs := Pick(e, locs), Points(locs);
    var w := Product(vals, xs);
    PointsDistinct(locs);
    forall t | 0 <= t < n ensures Dot(w, Powers(xs, t)) == 0 {
      assert Eval(e, GeneratorRoot(t)) == 0;
      EvalSupport(e, Exp(t + 1));
      RootTerms(locs, vals, t);
    }
    Vandermonde(w, xs, n);
    if locs != [] {
      assert w[0] == 0;
      SupportNonzero(e, 0);
      MulNonzero(vals[0], xs[0]);
    }
    SupportEmpty(e);
  }

  // ----- the true locator

  /** The product of the factors 1 + X x over the points X. */
  function LocatorOf(xs: Poly): (p: Poly)
    ensures |p| == |xs| + 1
  {
    if xs == [] then [1]
    else Sum(LocatorOf(xs[1..]) + [0], Scale(xs[0], [0] + LocatorOf(xs[1..])))
  }

  lemma {:induction false} LocatorOfProperty(xs: Poly, j: nat)
    requires (forall i :: 0 <= i < |xs| ==> xs[i] != 0)
    ensures LocatorOf(xs)[0] == 1
    ensures j < |xs| ==> Eval(LocatorOf(xs), Inv(xs[j])) == 0
    decreases |xs|
  {
    hide Mul, Add, Inv;
    if xs != [] {
      var p := LocatorOf(xs[1..]);
      LocatorOfProperty(xs[1..], if j == 0 then 0 else j - 1);
      MulNonzero(xs[0], 0);
      AddZero(1);
      if j < |xs| {
        LocatorStep(p, xs[0], Inv(xs[j]));
        if j == 0 {
          MulInv(xs[0]);
          AddSelf(1);
          ZeroMul(Eval(p, Inv(xs[j])));
        } else {
          MulNonzero(Add(1, Mul(xs[0], Inv(xs[j]))), 0);
        }
      }
    }
  }

  lemma LocatorStep(p: Poly, x: byte, y: byte)
    ensures Eval(Sum(p + [0], Scale(x, [0] + p)), y) == Mul(Add(1, Mul(x, y)), Eval(p, y))
  {
    hide Mul, Add;
    EvalSum(p + [0], Scale(x, [0] + p), y);
    EvalSnoc(p, 0, y);
    ZeroMul(Pow(y, |p|));
    AddZero(Eval(p, y));
    EvalScale(x, [0] + p, y);
    assert ([0] + p)[1..] == p;
    AddZero(Mul(y, Eval(p, y)));
    MulAssoc(x, y, Eval(p, y));
    AddMul(1, Mul(x, y), Eval(p, y));
    OneMul(Eval(p, y));
  }

  /** Power sums of the points are generated by every polynomial that has their reciprocals as roots. */
  lemma PowerSumsGenerated(p: Poly, w: Poly, xs: Poly, n: nat)
    requires p != [] && p[0] == 1 && |w| == |xs|
    requires forall j :: 0 <= j < |xs| ==> xs[j] != 0 && Eval(p, Inv(xs[j])) == 0
    ensures Generates(p, |p| - 1, PowerSums(w, xs, n), n)
  {
    hide Mul, Eval, Conv, Inv;
    forall k | |p| - 1 <= k < n ensures Conv(p, PowerSums(w, xs, n), k) == 0 {
      ConvPowerSums(p, w, xs, n, k);
      forall j | 0 <= j < |xs| ensures ConvGeometrics(p, xs, n, k)[j] == 0 {
        MulInv(xs[j]);
        ConvGeometricHigh(p, xs[j], Inv(xs[j]), n, k);
      }
      DotZero(w, ConvGeometrics(p, xs, n, k));
    }
  }

  /** A register no longer than half the syndromes has every error's reciprocal as a root. */
  lemma LocatorRoots(p: Poly, w: Poly, xs: Poly, n: nat, j: nat)
    requires p != [] && |w| == |xs| && Distinct(xs) && j < |xs| && |p| - 1 + |xs| <= n
    requires forall i :: 0 <= i < |xs| ==> xs[i] != 0 && w[i] != 0
    requires Generates(p, |p| - 1, PowerSums(w, xs, n), n)
    ensures Eval(p, Inv(xs[j])) == 0
  {
    hide Mul, Eval, Conv, Inv, Pow, Dot;
    var l := |p| - 1;
    var v := seq(|xs|, i requires 0 <= i < |xs| => Mul(Pow(xs[i], l), Eval(p, Inv(xs[i]))));
    var u := Product(w, v);
    forall t | 0 <= t < |xs| ensures Dot(u, Powers(xs, t)) == 0 {
      var k := l + t;
      ConvPowerSums(p, w, xs, n, k);
      forall i | 0 <= i < |xs| ensures ConvGeometrics(p, xs, n, k)[i] == Product(v, Powers(xs, t))[i] {
        MulInv(xs[i]);
        ConvGeometric(p, xs[i], Inv(xs[i]), n, k);
        assert Lower(p, k) == p;
        PowAdd(xs[i], t, l);
        MulAssoc(Pow(xs[i], t), Pow(xs[i], l), Eval(p, Inv(xs[i])));
        MulComm(Pow(xs[i], t), v[i]);
      }
      assert ConvGeometrics(p, xs, n, k) == Product(v, Powers(xs, t));
      DotProduct(w, v, Powers(xs, t));
      assert Conv(p, PowerSums(w, xs, n), k) == 0;
    }
    Vandermonde(u, xs, |xs|);
    assert u[j] == 0;
    MulNonzero(w[j], v[j]);
    PowNonzero(xs[j], l);
    MulNonzero(Pow(xs[j], l), Eval(p, Inv(xs[j])));
  }

  // ----- Forney's error values

  /** The error evaluator: the product of locator and syndromes up to order n - 1. */
  function Evaluator(p: Poly, s: Poly): Poly {
    seq(|s|, k requires 0 <= k < |s| => Conv(p, s, k))
  }


  /** The error value at a root: evaluator over locator derivative. */
  ghost function ForneyValue(p: Poly, s: Poly, root: byte): byte {
    Mul(Eval(Evaluator(p, s), root), Inv(Eval(Derivative(p), root)))
  }

  ghost predicate ForneyValues(p: Poly, s: Poly, roots: Poly, vals: Poly) {
    |vals| == |roots| && forall j :: 0 <= j < |roots| ==> vals[j] == ForneyValue(p, s, roots[j])
  }

  /** All roots of p, as many as its order. */
  ghost predicate SplitsAt(p: Poly, roots: Poly) {
    && |p| == |roots| + 1 && p[0] == 1 && Distinct(roots)
    && forall j :: 0 <= j < |roots| ==> roots[j] != 0 && Eval(p, roots[j]) == 0
  }

  ghost function Inverses(roots: Poly): Poly {
    seq(|roots|, j requires 0 <= j < |roots| => Inv(roots[j]))
  }

  /** The quotient by one root's factor vanishes at the other roots ... */
  lemma QuotOtherRoot(p: Poly, roots: Poly, j: nat, m: nat)
    requires SplitsAt(p, roots) && j < |roots| && m < |roots| && j != m
    ensures Eval(Quot(p, roots[j]), roots[m]) == 0
  {
    QuotRoot(p, roots[j], roots[m]);
  }

  /** ... and not at the root itself, because a locator has no multiple root. */
  lemma QuotOwnRoot(p: Poly, roots: Poly, m: nat)
    requires SplitsAt(p, roots) && m < |roots|
    ensures Eval(Quot(p, roots[m]), roots[m]) != 0
  {
    hide Eval, Quot;
    var q := Quot(p, roots[m]);
    if Eval(q, roots[m]) == 0 {
      QuotCoef(p, roots[m]);
      forall j | 0 <= j < |roots| ensures Eval(q, roots[j]) == 0 {
        if j != m {
          QuotOtherRoot(p, roots, m, j);
        }
      }
      ManyRoots(q, roots);
      QuotZero(p, roots[m]);
    }
  }

  /** Coefficient k of each quotient. */
  function QuotColumn(p: Poly, roots: Poly, k: nat): Poly
    requires k + 1 <= |p|
  {
    seq(|roots|, j requires 0 <= j < |roots| => Eval(p[k + 1..], roots[j]))
  }

  /** The weighted sum of the quotients. */
  function QuotSum(p: Poly, roots: Poly, vals: Poly): (w: Poly)
    requires |p| == |roots| + 1 && |vals| == |roots|
  {
    seq(|roots|, k requires 0 <= k < |roots| => Dot(vals, QuotColumn(p, roots, k)))
  }

  function QuotValues(p: Poly, roots: Poly, x: byte): Poly {
    seq(|roots|, j requires 0 <= j < |roots| => Eval(Quot(p, roots[j]), x))
  }

  /** Evaluating the sum of the quotients evaluates each quotient. */
  lemma QuotSumEval(p: Poly, roots: Poly, vals: Poly, x: byte)
    requires |p| == |roots| + 1 && |vals| == |roots|
    ensures Eval(QuotSum(p, roots, vals), x) == Dot(vals, QuotValues(p, roots, x))
  {
    var n := |roots|;
    QuotSumPrefix(p, roots, vals, x, n);
    var w := QuotSum(p, roots, vals);
    assert w[..n] == w;
    forall j | 0 <= j < n ensures Eval(Quot(p, roots[j])[..Min(n, |Quot(p, roots[j])|)], x) == QuotValues(p, roots, x)[j] {
      QuotCoef(p, roots[j]);
      assert Quot(p, roots[j])[..n] == Quot(p, roots[j]);
    }
    assert QuotPrefixValues(p, roots, x, n) == QuotValues(p, roots, x);
    hide Eval, Dot;
  }

  function QuotPrefixValues(p: Poly, roots: Poly, x: byte, n: nat): Poly {
    seq(|roots|, j requires 0 <= j < |roots| => Eval(Quot(p, roots[j])[..Min(n, |Quot(p, roots[j])|)], x))
  }

  function Min(a: nat, b: nat): nat {
    if a < b then a else b
  }

  lemma {:induction false} QuotSumPrefix(p: Poly, roots: Poly, vals: Poly, x: byte, n: nat)
    requires |p| == |roots| + 1 && |vals| == |roots| && n <= |roots|
    ensures Eval(QuotSum(p, roots, vals)[..n], x) == Dot(vals, QuotPrefixValues(p, roots, x, n))
  {
    hide Mul, Add, Eval, Dot, Quot, Pow;
    var w := QuotSum(p, roots, vals);
    if n == 0 {
      EvalNothing(x);
      assert w[..0] == [];
      forall j | 0 <= j < |roots| ensures QuotPrefixValues(p, roots, x, 0)[j] == 0 {
        assert Quot(p, roots[j])[..0] == [];
      }
      DotZero(vals, QuotPrefixValues(p, roots, x, 0));
    } else {
      var k := n - 1;
      var column := QuotColumn(p, roots, k);
      QuotSumPrefix(p, roots, vals, x, k);
      assert w[..n] == w[..k] + [w[k]];
      EvalSnoc(w[..k], w[k], x);
      forall j | 0 <= j < |roots|
        ensures QuotPrefixValues(p, roots, x, n)[j] == Sum(QuotPrefixValues(p, roots, x, k), Scale(Pow(x, k), column))[j]
      {
        var q := Quot(p, roots[j]);
        QuotCoef(p, roots[j]);
        assert q[..n] == q[..k] + [q[k]];
        EvalSnoc(q[..k], q[k], x);
        MulComm(q[k], Pow(x, k));
      }
      assert QuotPrefixValues(p, roots, x, n) == Sum(QuotPrefixValues(p, roots, x, k), Scale(Pow(x, k), column));
      DotSum(vals, QuotPrefixValues(p, roots, x, k), Scale(Pow(x, k), column));
      DotScale(vals, Pow(x, k), column);
      MulComm(w[k], Pow(x, k));
    }
  }

  lemma EvalNothing(x: byte)
    ensures Eval([], x) == 0
  {
  }

  /** With Forney's values the sum of the quotients is the low part of the evaluator. */
  lemma ForneyInterpolates(p: Poly, s: Poly, roots: Poly, vals: Poly)
    requires SplitsAt(p, roots) && ForneyValues(p, s, roots, vals)
    requires Generates(p, |p| - 1, s, |s|) && |roots| <= |s|
    ensures QuotSum(p, roots, vals) == Evaluator(p, s)[..|roots|]
  {
    hide Mul, Add, Eval, Dot, Quot, Conv, Inv;
    var l := |roots|;
    var omega := Evaluator(p, s);
    var low, high := omega[..l], omega[l..];
    assert omega == low + high;
    forall m | 0 <= m < l ensures Eval(QuotSum(p, roots, vals), roots[m]) == Eval(low, roots[m]) {
      var r := roots[m];
      QuotSumEval(p, roots, vals, r);
      forall j | 0 <= j < l && j != m ensures QuotValues(p, roots, r)[j] == 0 {
        QuotOtherRoot(p, roots, j, m);
      }
      DotSingle(vals, QuotValues(p, roots, r), m);
      QuotOwnRoot(p, roots, m);
      DerivativeEval(p, r);
      var d := Eval(Derivative(p), r);
      MulInv(d);
      MulComm(d, Inv(d));
      MulAssoc(Eval(omega, r), Inv(d), d);
      MulOne(Eval(omega, r));
      EvalConcat(low, high, r);
      EvalZero(high, r);
      MulNonzero(Pow(r, |low|), 0);
      AddZero(Eval(low, r));
    }
    Interpolation(QuotSum(p, roots, vals), low, roots);
  }

  /** Forney's theorem: the values found reproduce every syndrome. */
  lemma ForneyReproduces(p: Poly, s: Poly, roots: Poly, vals: Poly)
    requires SplitsAt(p, roots) && ForneyValues(p, s, roots, vals)
    requires Generates(p, |p| - 1, s, |s|) && |roots| <= |s|
    ensures PowerSums(Product(vals, Inverses(roots)), Inverses(roots), |s|) == s
  {
    hide Mul, Add, Eval, Dot, Quot, Conv, Inv, QuotSum, Pow;
    var xs, l, n := Inverses(roots), |roots|, |s|;
    var w := Product(vals, xs);
    var t := PowerSums(w, xs, n);
    ForneyInterpolates(p, s, roots, vals);
    forall k | 0 <= k < n ensures Conv(p, t, k) == Conv(p, s, k) {
      ConvPowerSums(p, w, xs, n, k);
      if k < l {
        WeightedColumn(p, roots, vals, n, k);
        QuotSumIndex(p, roots, vals, k);
        assert Conv(p, s, k) == Evaluator(p, s)[..l][k];
      } else {
        forall j | 0 <= j < l ensures ConvGeometrics(p, xs, n, k)[j] == 0 {
          MulInv(roots[j]);
          MulComm(roots[j], xs[j]);
          ConvGeometricHigh(p, xs[j], roots[j], n, k);
        }
        DotZero(w, ConvGeometrics(p, xs, n, k));
      }
    }
    ConvInjective(p, t, s, n);
    assert t[..n] == t && s[..n] == s;
  }

  lemma QuotSumIndex(p: Poly, roots: Poly, vals: Poly, k: nat)
    requires |p| == |roots| + 1 && |vals| == |roots| && k < |roots|
    ensures |QuotSum(p, roots, vals)| == |roots|
    ensures QuotSum(p, roots, vals)[k] == Dot(vals, QuotColumn(p, roots, k))
  {
    hide Dot;
  }

  lemma WeightedColumn(p: Poly, roots: Poly, vals: Poly, n: nat, k: nat)
    requires SplitsAt(p, roots) && |vals| == |roots| && k < |roots| && k < n
    ensures var xs := Inverses(roots);
            Dot(Product(vals, xs), ConvGeometrics(p, xs, n, k)) == Dot(vals, QuotColumn(p, roots, k))
  {
    hide Mul, Eval, Dot, Conv, Inv;
    var xs := Inverses(roots);
    var g := ConvGeometrics(p, xs, n, k);
    DotProduct(vals, xs, g);
    forall j | 0 <= j < |roots| ensures Product(xs, g)[j] == QuotColumn(p, roots, k)[j] {
      var e := Eval(p[k + 1..], roots[j]);
      MulInv(roots[j]);
      MulComm(roots[j], xs[j]);
      ConvGeometricLow(p, xs[j], roots[j], n, k);
      MulAssoc(xs[j], roots[j], e);
      OneMul(e);
    }
    assert Product(xs, g) == QuotColumn(p, roots, k);
  }
}
