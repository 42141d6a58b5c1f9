/** Convolution of a polynomial with a finite sequence, and sums of geometric sequences. */
module Convolution {
  import opened Bits
  import opened Gf256
  import opened Poly

  /** Coefficient k of the product of p and the power series s; s is zero outside its indices. */
  function Conv(p: Poly, s: Poly, k: int): byte {
    if p == [] then 0 else Add(Mul(p[0], Coef(s, k)), Conv(p[1..], s, k - 1))
  }

  function Zeros(n: nat): Poly {
    seq(n, _ => 0)
  }

  // ----- linearity in the polynomial

  lemma {:induction false} ConvSum(p: Poly, q: Poly, s: Poly, k: int)
    requires |p| == |q|
    ensures Conv(Sum(p, q), s, k) == Add(Conv(p, s, k), Conv(q, s, k))
    decreases |p|
  {
    hide Mul, Add, Coef;
    if p == [] {
      AddZero(0);
    } else {
      var c := Coef(s, k);
      assert Sum(p, q)[1..] == Sum(p[1..], q[1..]);
      ConvSum(p[1..], q[1..], s, k - 1);
      AddMul(p[0], q[0], c);
      AddSwap(Mul(p[0], c), Mul(q[0], c), Conv(p[1..], s, k - 1), Conv(q[1..], s, k - 1));
    }
  }

  lemma {:induction false} ConvScale(a: byte, p: Poly, s: Poly, k: int)
    ensures Conv(Scale(a, p), s, k) == Mul(a, Conv(p, s, k))
    decreases |p|
  {
    hide Mul, Add, Coef;
    if p == [] {
      MulNonzero(a, 0);
    } else {
      assert Scale(a, p)[1..] == Scale(a, p[1..]);
      ConvScale(a, p[1..], s, k - 1);
      MulAssoc(a, p[0], Coef(s, k));
      MulAdd(a, Mul(p[0], Coef(s, k)), Conv(p[1..], s, k - 1));
    }
  }

  lemma {:induction false} ConvShift(m: nat, p: Poly, s: Poly, k: int)
    ensures Conv(Zeros(m) + p, s, k) == Conv(p, s, k - m)
    decreases m
  {
    hide Mul, Add, Coef;
    if m == 0 {
      assert Zeros(0) + p == p;
    } else {
      assert (Zeros(m) + p)[1..] == Zeros(m - 1) + p;
      ConvShift(m - 1, p, s, k - 1);
      MulNonzero(0, Coef(s, k));
      AddZero(Conv(p, s, k - m));
    }
  }

  lemma {:induction false} ConvZero(p: Poly, s: Poly, k: int)
    requires IsZero(p)
    ensures Conv(p, s, k) == 0
    decreases |p|
  {
    hide Mul, Add, Coef;
    if p != [] {
      ConvZero(p[1..], s, k - 1);
      MulNonzero(0, Coef(s, k));
      AddZero(0);
    }
  }

  /** Zero coefficients at the top do not matter. */
  lemma {:induction false} ConvTrim(p: Poly, q: Poly, s: Poly, k: int)
    requires IsZero(q)
    ensures Conv(p + q, s, k) == Conv(p, s, k)
    decreases |p|
  {
    hide Mul, Add, Coef;
    if p == [] {
      assert p + q == q;
      ConvZero(q, s, k);
    } else {
      assert (p + q)[1..] == p[1..] + q;
      ConvTrim(p[1..], q, s, k - 1);
    }
  }

  // ----- dependence on the sequence

  lemma {:induction false} ConvNegative(p: Poly, s: Poly, k: int)
    requires k < 0
    ensures Conv(p, s, k) == 0
    decreases |p|
  {
    hide Mul, Add;
    if p != [] {
      ConvNegative(p[1..], s, k - 1);
      MulNonzero(p[0], 0);
      AddZero(0);
    }
  }

  /** Coefficient k sees the sequence up to index k only. */
  lemma {:induction false} ConvPrefix(p: Poly, s: Poly, t: Poly, k: int)
    requires forall i :: i <= k ==> Coef(s, i) == Coef(t, i)
    ensures Conv(p, s, k) == Conv(p, t, k)
    decreases |p|
  {
    hide Mul, Add, Coef;
    if p != [] {
      ConvPrefix(p[1..], s, t, k - 1);
    }
  }

  lemma {:induction false} ConvSumRight(p: Poly, s: Poly, t: Poly, k: int)
    requires |s| == |t|
    ensures Conv(p, Sum(s, t), k) == Add(Conv(p, s, k), Conv(p, t, k))
    decreases |p|
  {
    hide Mul, Add;
    AddZero(0);
    if p != [] {
      ConvSumRight(p[1..], s, t, k - 1);
      MulAdd(p[0], Coef(s, k), Coef(t, k));
      AddSwap(Mul(p[0], Coef(s, k)), Mul(p[0], Coef(t, k)), Conv(p[1..], s, k - 1), Conv(p[1..], t, k - 1));
    }
  }

  lemma {:induction false} ConvScaleRight(p: Poly, a: byte, s: Poly, k: int)
    ensures Conv(p, Scale(a, s), k) == Mul(a, Conv(p, s, k))
    decreases |p|
  {
    hide Mul, Add;
    MulNonzero(a, 0);
    if p != [] {
      ConvScaleRight(p[1..], a, s, k - 1);
      MulRotate(p[0], a, Coef(s, k));
      MulAdd(a, Mul(p[0], Coef(s, k)), Conv(p[1..], s, k - 1));
    }
  }

  /** A polynomial with constant term one determines the sequence from the product. */
  lemma {:induction false} ConvInjective(p: Poly, s: Poly, t: Poly, n: nat)
    requires p != [] && p[0] == 1 && |s| == |t| && n <= |s|
    requires forall k :: 0 <= k < n ==> Conv(p, s, k) == Conv(p, t, k)
    ensures s[..n] == t[..n]
  {
    hide Mul, Add;
    if n != 0 {
      var k := n - 1;
      ConvInjective(p, s, t, k);
      forall i | i <= k - 1 ensures Coef(s, i) == Coef(t, i) {
        assert 0 <= i ==> s[..k][i] == t[..k][i];
      }
      ConvPrefix(p[1..], s, t, k - 1);
      var rest := Conv(p[1..], s, k - 1);
      OneMul(s[k]);
      OneMul(t[k]);
      AddComm(s[k], rest);
      AddComm(t[k], rest);
      assert Conv(p, s, k) == Conv(p, t, k);
      AddCancel(rest, s[k], t[k]);
      assert s[..n] == s[..k] + [s[k]] && t[..n] == t[..k] + [t[k]];
    }
  }

  // ----- two convolutions in a row

  /** Coefficient k of d (c s). */
  function Conv2(d: Poly, c: Poly, s: Poly, k: int): byte {
    if d == [] then 0 else Add(Mul(d[0], Conv(c, s, k)), Conv2(d[1..], c, s, k - 1))
  }

  lemma {:induction false} Conv2Cons(c: Poly, d: Poly, s: Poly, k: int)
    requires d != []
    ensures Conv2(c, d, s, k) == Add(Mul(d[0], Conv(c, s, k)), Conv2(c, d[1..], s, k - 1))
    decreases |c|
  {
    hide Mul, Add, Coef;
    if c == [] {
      MulNonzero(d[0], 0);
      AddZero(0);
    } else {
      var e, f := c[1..], d[1..];
      var x, y := Coef(s, k), Conv(e, s, k - 1);
      Conv2Cons(e, d, s, k - 1);
      MulAdd(c[0], Mul(d[0], x), Conv(f, s, k - 1));
      MulRotate(c[0], d[0], x);
      MulAdd(d[0], Mul(c[0], x), y);
      AddSwap(Mul(d[0], Mul(c[0], x)), Mul(c[0], Conv(f, s, k - 1)), Mul(d[0], y), Conv2(e, f, s, k - 2));
    }
  }

  /** d (c s) == c (d s) */
  lemma {:induction false} Conv2Comm(d: Poly, c: Poly, s: Poly, k: int)
    ensures Conv2(d, c, s, k) == Conv2(c, d, s, k)
    decreases |d|
  {
    hide Mul, Add, Conv;
    if d == [] {
      Conv2Empty(c, s, k);
    } else {
      Conv2Cons(c, d, s, k);
      Conv2Comm(d[1..], c, s, k - 1);
    }
  }

  lemma {:induction false} Conv2Empty(c: Poly, s: Poly, k: int)
    ensures Conv2(c, [], s, k) == 0
    decreases |c|
  {
    hide Mul, Add;
    if c != [] {
      Conv2Empty(c[1..], s, k - 1);
      MulNonzero(c[0], 0);
      AddZero(0);
    }
  }

  /** Only the constant term contributes when every other term meets a zero. */
  lemma {:induction false} Conv2Zero(d: Poly, c: Poly, s: Poly, k: int)
    requires forall j :: 0 <= j < |d| ==> d[j] == 0 || Conv(c, s, k - j) == 0
    ensures Conv2(d, c, s, k) == 0
    decreases |d|
  {
    hide Mul, Add, Conv;
    if d != [] {
      forall j | 0 <= j < |d| - 1 ensures d[1..][j] == 0 || Conv(c, s, k - 1 - j) == 0 {
        assert d[j + 1] == 0 || Conv(c, s, k - (j + 1)) == 0;
      }
      Conv2Zero(d[1..], c, s, k - 1);
      assert d[0] == 0 || Conv(c, s, k - 0) == 0;
      MulNonzero(d[0], Conv(c, s, k));
      AddZero(0);
    }
  }

  // ----- weighted sums

  function Dot(w: Poly, v: Poly): byte
    requires |w| == |v|
  {
    if w == [] then 0 else Add(Mul(w[0], v[0]), Dot(w[1..], v[1..]))
  }

  lemma {:induction false} DotZero(w: Poly, v: Poly)
    requires |w| == |v|
    requires forall j :: 0 <= j < |w| ==> w[j] == 0 || v[j] == 0
    ensures Dot(w, v) == 0
    decreases |w|
  {
    hide Mul, Add;
    if w != [] {
      DotZero(w[1..], v[1..]);
      MulNonzero(w[0], v[0]);
      AddZero(0);
    }
  }

  /** Only term m survives when every other term is zero. */
  lemma {:induction false} DotSingle(w: Poly, v: Poly, m: nat)
    requires |w| == |v| && m < |w|
    requires forall j :: 0 <= j < |w| && j != m ==> w[j] == 0 || v[j] == 0
    ensures Dot(w, v) == Mul(w[m], v[m])
    decreases |w|
  {
    hide Mul, Add;
    if m == 0 {
      DotZero(w[1..], v[1..]);
      AddZero(Mul(w[0], v[0]));
    } else {
      DotSingle(w[1..], v[1..], m - 1);
      MulNonzero(w[0], v[0]);
      AddZero(Mul(w[m], v[m]));
    }
  }

  lemma {:induction false} DotSum(w: Poly, u: Poly, v: Poly)
    requires |w| == |u| == |v|
    ensures Dot(w, Sum(u, v)) == Add(Dot(w, u), Dot(w, v))
    decreases |w|
  {
    hide Mul, Add;
    AddZero(0);
    if w != [] {
      assert Sum(u, v)[1..] == Sum(u[1..], v[1..]);
      DotSum(w[1..], u[1..], v[1..]);
      MulAdd(w[0], u[0], v[0]);
      AddSwap(Mul(w[0], u[0]), Mul(w[0], v[0]), Dot(w[1..], u[1..]), Dot(w[1..], v[1..]));
    }
  }

  lemma {:induction false} DotScale(w: Poly, a: byte, v: Poly)
    requires |w| == |v|
    ensures Dot(w, Scale(a, v)) == Mul(a, Dot(w, v))
    decreases |w|
  {
    hide Mul, Add;
    MulNonzero(a, 0);
    if w != [] {
      assert Scale(a, v)[1..] == Scale(a, v[1..]);
      DotScale(w[1..], a, v[1..]);
      MulRotate(w[0], a, v[0]);
      MulAdd(a, Mul(w[0], v[0]), Dot(w[1..], v[1..]));
    }
  }

  /** Factors move between the weights and the values. */
  function Product(u: Poly, v: Poly): Poly
    requires |u| == |v|
  {
    seq(|u|, i requires 0 <= i < |u| => Mul(u[i], v[i]))
  }

  lemma {:induction false} DotProduct(w: Poly, u: Poly, v: Poly)
    requires |w| == |u| == |v|
    ensures Dot(Product(w, u), v) == Dot(w, Product(u, v))
    decreases |w|
  {
    hide Mul, Add;
    if w != [] {
      assert Product(w, u)[1..] == Product(w[1..], u[1..]) && Product(u, v)[1..] == Product(u[1..], v[1..]);
      DotProduct(w[1..], u[1..], v[1..]);
      MulAssoc(w[0], u[0], v[0]);
    }
  }

  // ----- sums of geometric sequences

  function Powers(xs: Poly, t: nat): Poly {
    seq(|xs|, j requires 0 <= j < |xs| => Pow(xs[j], t))
  }

  function Geometric(x: byte, n: nat): Poly {
    seq(n, k requires 0 <= k < n => Pow(x, k))
  }

  /** The first n power sums of the points xs with weights w. */
  function PowerSums(w: Poly, xs: Poly, n: nat): Poly
    requires |w| == |xs|
  {
    seq(n, k requires 0 <= k < n => Dot(w, Powers(xs, k)))
  }

  function ConvGeometrics(p: Poly, xs: Poly, n: nat, k: int): Poly {
    seq(|xs|, j requires 0 <= j < |xs| => Conv(p, Geometric(xs[j], n), k))
  }

  /** Convolution acts on each geometric sequence by itself. */
  lemma {:induction false} ConvPowerSums(p: Poly, w: Poly, xs: Poly, n: nat, k: int)
    requires |w| == |xs|
    ensures Conv(p, PowerSums(w, xs, n), k) == Dot(w, ConvGeometrics(p, xs, n, k))
    decreases |w|
  {
    hide Mul, Add, Conv, Pow;
    if w == [] {
      ConvOfZeros(p, PowerSums(w, xs, n), k);
    } else {
      var g, rest := Geometric(xs[0], n), PowerSums(w[1..], xs[1..], n);
      forall i | 0 <= i < n ensures PowerSums(w, xs, n)[i] == Sum(Scale(w[0], g), rest)[i] {
        assert Powers(xs, i)[1..] == Powers(xs[1..], i);
      }
      assert PowerSums(w, xs, n) == Sum(Scale(w[0], g), rest);
      ConvSumRight(p, Scale(w[0], g), rest, k);
      ConvScaleRight(p, w[0], g, k);
      ConvPowerSums(p, w[1..], xs[1..], n, k);
      assert ConvGeometrics(p, xs, n, k)[1..] == ConvGeometrics(p, xs[1..], n, k);
    }
  }

  lemma {:induction false} ConvOfZeros(p: Poly, s: Poly, k: int)
    requires IsZero(s)
    ensures Conv(p, s, k) == 0
    decreases |p|
  {
    hide Mul, Add;
    if p != [] {
      ConvOfZeros(p[1..], s, k - 1);
      MulNonzero(p[0], 0);
      AddZero(0);
    }
  }

  /** The coefficients of p up to order k. */
  function Lower(p: Poly, k: nat): Poly {
    if k + 1 <= |p| then p[..k + 1] else p
  }

  /** Convolving a geometric sequence evaluates the low part of p at the reciprocal. */
  lemma {:induction false} ConvGeometric(p: Poly, x: byte, r: byte, n: nat, k: nat)
    requires Mul(x, r) == 1 && k < n
    ensures Conv(p, Geometric(x, n), k) == Mul(Pow(x, k), Eval(Lower(p, k), r))
    decreases |p|
  {
    hide Mul, Add;
    var g := Geometric(x, n);
    if p == [] {
      MulNonzero(Pow(x, k), 0);
    } else {
      var t := p[1..];
      var c := Pow(x, k);
      MulComm(p[0], c);
      if k == 0 {
        ConvNegative(t, g, -1);
        assert Lower(p, k) == [p[0]] && [p[0]][1..] == [];
        MulNonzero(r, 0);
        AddZero(p[0]);
        AddZero(Mul(c, p[0]));
      } else {
        var v := Eval(Lower(t, k - 1), r);
        assert Lower(p, k)[1..] == Lower(t, k - 1);
        ConvGeometric(t, x, r, n, k - 1);
        MulAdd(c, p[0], Mul(r, v));
        StepDown(x, r, Pow(x, k - 1), v);
      }
    }
  }

  lemma StepDown(x: byte, r: byte, a: byte, v: byte)
    requires Mul(x, r) == 1
    ensures Mul(a, v) == Mul(Mul(x, a), Mul(r, v))
  {
    hide Mul;
    MulSwap(x, a, r, v);
    OneMul(Mul(a, v));
  }

  /** A point whose reciprocal is a root of p contributes nothing from the order of p on ... */
  lemma ConvGeometricHigh(p: Poly, x: byte, r: byte, n: nat, k: nat)
    requires Mul(x, r) == 1 && |p| - 1 <= k < n && Eval(p, r) == 0
    ensures Conv(p, Geometric(x, n), k) == 0
  {
    hide Mul, Add, Conv, Eval;
    ConvGeometric(p, x, r, n, k);
    assert Lower(p, k) == p;
    MulNonzero(Pow(x, k), 0);
  }

  /** ... and a coefficient of the quotient by the root below. */
  lemma ConvGeometricLow(p: Poly, x: byte, r: byte, n: nat, k: nat)
    requires Mul(x, r) == 1 && k < |p| - 1 && k < n && Eval(p, r) == 0
    ensures Conv(p, Geometric(x, n), k) == Mul(r, Eval(p[k + 1..], r))
  {
    hide Mul, Add, Conv, Eval, Pow;
    var e := Eval(p[k + 1..], r);
    ConvGeometric(p, x, r, n, k);
    assert Lower(p, k) + p[k + 1..] == p;
    EvalConcat(Lower(p, k), p[k + 1..], r);
    AddEqualZero(Eval(Lower(p, k), r), Mul(Pow(r, k + 1), e));
    PowInverse(x, r, k);
    PowAdd(r, k, 1);
    PowSelf(r);
    MulAssoc(Pow(x, k), Pow(r, k + 1), e);
    MulAssoc(Pow(x, k), Pow(r, k), r);
    OneMul(r);
  }

  lemma PowSelf(r: byte)
    ensures Pow(r, 1) == r
  {
    hide Mul;
    assert Pow(r, 0) == 1;
    MulOne(r);
  }

  /** Distinct points are independent: if the first |xs| power sums vanish, so do the weights. */
  lemma {:induction false} Vandermonde(w: Poly, xs: Poly, n: nat)
    requires |w| == |xs| <= n && Distinct(xs)
    requires forall t :: 0 <= t < n ==> Dot(w, Powers(xs, t)) == 0
    ensures IsZero(w)
    decreases |w|
  {
    hide Mul, Add, Pow;
    if w != [] {
      var x := xs[0];
      var d := seq(|xs|, j requires 0 <= j < |xs| => Add(xs[j], x));
      var u := Product(w, d);
      forall t | 0 <= t < n - 1 ensures Dot(u[1..], Powers(xs[1..], t)) == 0 {
        Eliminate(w, xs, x, d, t);
        assert Dot(w, Powers(xs, t)) == 0 && Dot(w, Powers(xs, t + 1)) == 0;
        MulNonzero(x, 0);
        AddZero(0);
        AddSelf(x);
        MulNonzero(w[0], 0);
        MulNonzero(0, Powers(xs, t)[0]);
        AddZero(Dot(u[1..], Powers(xs, t)[1..]));
        assert Powers(xs, t)[1..] == Powers(xs[1..], t);
      }
      Vandermonde(u[1..], xs[1..], n - 1);
      forall j | 1 <= j < |w| ensures w[j] == 0 {
        assert u[1..][j - 1] == 0;
        MulNonzero(w[j], d[j]);
        AddEqualZero(xs[j], x);
      }
      assert Dot(w, Powers(xs, 0)) == 0;
      DotSingle(w, Powers(xs, 0), 0);
      assert Powers(xs, 0)[0] == Pow(x, 0) == 1 by { PowZero(x); }
      MulOne(w[0]);
    }
  }

  lemma PowZero(x: byte)
    ensures Pow(x, 0) == 1
  {
  }

  lemma Eliminate(w: Poly, xs: Poly, x: byte, d: Poly, t: nat)
    requires |w| == |xs| == |d|
    requires forall j :: 0 <= j < |d| ==> d[j] == Add(xs[j], x)
    ensures Dot(Product(w, d), Powers(xs, t)) == Add(Dot(w, Powers(xs, t + 1)), Mul(x, Dot(w, Powers(xs, t))))
  {
    hide Mul, Add, Dot;
    var p := Powers(xs, t);
    DotProduct(w, d, p);
    forall j | 0 <= j < |xs| ensures Product(d, p)[j] == Sum(Powers(xs, t + 1), Scale(x, p))[j] {
      AddMul(xs[j], x, p[j]);
    }
    assert Product(d, p) == Sum(Powers(xs, t + 1), Scale(x, p));
    DotSum(w, Powers(xs, t + 1), Scale(x, p));
    DotScale(w, x, p);
  }
}
