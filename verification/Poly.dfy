/** Polynomials over GF(2^8) as coefficient sequences, lowest order first. */
module Poly {
  import opened Bits
  import opened Gf256

  type Poly = seq<byte>

  /** The coefficient of x^i, zero outside the sequence. */
  function Coef(p: Poly, i: int): byte {
    if 0 <= i < |p| then p[i] else 0
  }

  /** Horner evaluation. */
  function Eval(p: Poly, x: byte): byte {
    if p == [] then 0 else Add(p[0], Mul(x, Eval(p[1..], x)))
  }

  function Pow(x: byte, n: nat): byte {
    if n == 0 then 1 else Mul(x, Pow(x, n - 1))
  }

  ghost predicate IsZero(p: Poly) {
    forall i :: 0 <= i < |p| ==> p[i] == 0
  }

  ghost predicate Distinct<T>(s: seq<T>) {
    forall i, j :: 0 <= i < j < |s| ==> s[i] != s[j]
  }

  // ----- powers

  lemma {:induction false} PowAdd(x: byte, m: nat, n: nat)
    ensures Pow(x, m + n) == Mul(Pow(x, m), Pow(x, n))
  {
    hide Mul;
    if m == 0 {
      OneMul(Pow(x, n));
    } else {
      PowAdd(x, m - 1, n);
      MulAssoc(x, Pow(x, m - 1), Pow(x, n));
    }
  }

  lemma {:induction false} PowProduct(x: byte, y: byte, n: nat)
    ensures Pow(Mul(x, y), n) == Mul(Pow(x, n), Pow(y, n))
  {
    hide Mul;
    if n == 0 {
      OneMul(1);
    } else {
      PowProduct(x, y, n - 1);
      MulSwap(x, y, Pow(x, n - 1), Pow(y, n - 1));
    }
  }

  lemma MulSwap(a: byte, b: byte, c: byte, d: byte)
    ensures Mul(Mul(a, b), Mul(c, d)) == Mul(Mul(a, c), Mul(b, d))
  {
    hide Mul;
    MulAssoc(a, b, Mul(c, d));
    MulAssoc(b, c, d);
    MulComm(b, c);
    MulAssoc(c, b, d);
    MulAssoc(a, c, Mul(b, d));
  }

  lemma {:induction false} PowOne(n: nat)
    ensures Pow(1, n) == 1
  {
    hide Mul;
    if n != 0 {
      PowOne(n - 1);
      OneMul(1);
    }
  }

  lemma {:induction false} PowNonzero(x: byte, n: nat)
    requires x != 0
    ensures Pow(x, n) != 0
  {
    hide Mul;
    if n != 0 {
      PowNonzero(x, n - 1);
      MulNonzero(x, Pow(x, n - 1));
    }
  }

  /** A power of x times the same power of its inverse is one. */
  lemma PowInverse(x: byte, y: byte, n: nat)
    requires Mul(x, y) == 1
    ensures Mul(Pow(x, n), Pow(y, n)) == 1
  {
    PowProduct(x, y, n);
    PowOne(n);
  }

  /** Powers of powers of alpha. */
  lemma {:induction false} PowExp(i: nat, n: nat)
    ensures Pow(Exp(i), n) == Exp(i * n)
  {
    hide Mul, Exp;
    if n == 0 {
      ExpZero();
    } else {
      PowExp(i, n - 1);
      ExpAdd(i, i * (n - 1));
      assert i + i * (n - 1) == i * n;
    }
  }

  lemma ExpZero()
    ensures Exp(0) == 1
  {
  }

  /** Evaluation points and locations change roles: (alpha^i)^j == (alpha^j)^i. */
  lemma PowExpSwap(i: nat, j: nat)
    ensures Pow(Exp(i), j) == Pow(Exp(j), i)
  {
    hide Exp;
    PowExp(i, j);
    PowExp(j, i);
    assert i * j == j * i;
  }

  // ----- evaluation

  /** A further coefficient adds its term. */
  lemma {:induction false} EvalSnoc(p: Poly, c: byte, x: byte)
    ensures Eval(p + [c], x) == Add(Eval(p, x), Mul(c, Pow(x, |p|)))
    decreases |p|
  {
    hide Mul, Add;
    if p == [] {
      assert p + [c] == [c] && [c][1..] == [];
      MulNonzero(x, 0);
      AddZero(c);
      AddZero(Mul(c, 1));
      MulOne(c);
    } else {
      var q, t := p[1..], Mul(c, Pow(x, |p| - 1));
      assert (p + [c])[1..] == q + [c];
      EvalSnoc(q, c, x);
      MulAdd(x, Eval(q, x), t);
      AddAssoc(p[0], Mul(x, Eval(q, x)), Mul(x, t));
      MulRotate(x, c, Pow(x, |p| - 1));
    }
  }

  lemma MulRotate(a: byte, b: byte, c: byte)
    ensures Mul(a, Mul(b, c)) == Mul(b, Mul(a, c))
  {
    hide Mul;
    MulAssoc(a, b, c);
    MulComm(a, b);
    MulAssoc(b, a, c);
  }

  lemma {:induction false} EvalConcat(p: Poly, q: Poly, x: byte)
    ensures Eval(p + q, x) == Add(Eval(p, x), Mul(Pow(x, |p|), Eval(q, x)))
    decreases |p|
  {
    hide Mul, Add;
    if p == [] {
      assert p + q == q;
      OneMul(Eval(q, x));
      AddZero(Eval(q, x));
    } else {
      var t := Mul(Pow(x, |p| - 1), Eval(q, x));
      assert (p + q)[1..] == p[1..] + q;
      EvalConcat(p[1..], q, x);
      MulAdd(x, Eval(p[1..], x), t);
      AddAssoc(p[0], Mul(x, Eval(p[1..], x)), Mul(x, t));
      MulAssoc(x, Pow(x, |p| - 1), Eval(q, x));
    }
  }

  lemma {:induction false} EvalZero(p: Poly, x: byte)
    requires IsZero(p)
    ensures Eval(p, x) == 0
    decreases |p|
  {
    hide Mul, Add;
    if p != [] {
      EvalZero(p[1..], x);
      MulNonzero(x, 0);
      AddZero(0);
    }
  }

  function Sum(p: Poly, q: Poly): Poly
    requires |p| == |q|
  {
    seq(|p|, i requires 0 <= i < |p| => Add(p[i], q[i]))
  }

  lemma {:induction false} EvalSum(p: Poly, q: Poly, x: byte)
    requires |p| == |q|
    ensures Eval(Sum(p, q), x) == Add(Eval(p, x), Eval(q, x))
    decreases |p|
  {
    hide Mul, Add;
    if p == [] {
      AddZero(0);
    } else {
      var a, b := Eval(p[1..], x), Eval(q[1..], x);
      assert Sum(p, q)[1..] == Sum(p[1..], q[1..]);
      EvalSum(p[1..], q[1..], x);
      MulAdd(x, a, b);
      AddSwap(p[0], q[0], Mul(x, a), Mul(x, b));
    }
  }

  function Scale(a: byte, p: Poly): Poly {
    seq(|p|, i requires 0 <= i < |p| => Mul(a, p[i]))
  }

  lemma {:induction false} EvalScale(a: byte, p: Poly, x: byte)
    ensures Eval(Scale(a, p), x) == Mul(a, Eval(p, x))
    decreases |p|
  {
    hide Mul, Add;
    if p == [] {
      MulNonzero(a, 0);
    } else {
      assert Scale(a, p)[1..] == Scale(a, p[1..]);
      EvalScale(a, p[1..], x);
      MulAdd(a, p[0], Mul(x, Eval(p[1..], x)));
      MulRotate(a, x, Eval(p[1..], x));
    }
  }

  // ----- division by a linear factor

  /** The quotient of p by x + r, by synthetic division. */
  function Quot(p: Poly, r: byte): Poly {
    if |p| <= 1 then [] else [Eval(p[1..], r)] + Quot(p[1..], r)
  }

  lemma {:induction false} QuotCoef(p: Poly, r: byte)
    ensures |Quot(p, r)| == if p == [] then 0 else |p| - 1
    ensures forall k :: 0 <= k < |Quot(p, r)| ==> Quot(p, r)[k] == Eval(p[k + 1..], r)
    decreases |p|
  {
    hide Eval;
    if |p| > 1 {
      QuotCoef(p[1..], r);
      forall k | 1 <= k < |p| - 1 ensures Quot(p, r)[k] == Eval(p[k + 1..], r) {
        assert p[1..][k..] == p[k + 1..];
        assert Quot(p, r)[k] == Quot(p[1..], r)[k - 1];
      }
    }
  }

  /** p(x) == (x + r) q(x) + p(r) */
  lemma {:induction false} QuotEval(p: Poly, r: byte, x: byte)
    requires p != []
    ensures Eval(p, x) == Add(Mul(Add(x, r), Eval(Quot(p, r), x)), Eval(p, r))
    decreases |p|
  {
    hide Mul, Add;
    if |p| == 1 {
      assert p[1..] == [];
      MulNonzero(x, 0);
      MulNonzero(r, 0);
      MulNonzero(Add(x, r), 0);
      AddZero(Eval(p, r));
    } else {
      var t := p[1..];
      var q := Eval(Quot(t, r), x);
      var y, c := Add(x, r), Eval(t, r);
      QuotEval(t, r, x);
      assert Quot(p, r)[1..] == Quot(t, r);
      MulAdd(x, Mul(y, q), c);
      MulRotate(x, y, q);
      MulAdd(y, c, Mul(x, q));
      AddMul(x, r, c);
      HornerStep(p[0], Mul(y, Mul(x, q)), Mul(x, c), Mul(r, c));
    }
  }

  lemma HornerStep(a: byte, b: byte, c: byte, d: byte)
    ensures Add(a, Add(b, c)) == Add(Add(Add(c, d), b), Add(a, d))
  {
    hide Add;
    AddLaws();
  }

  /** A root of p other than r is a root of the quotient by x + r. */
  lemma QuotRoot(p: Poly, r: byte, x: byte)
    requires p != [] && r != x && Eval(p, r) == 0 && Eval(p, x) == 0
    ensures Eval(Quot(p, r), x) == 0
  {
    hide Mul, Add, Eval, Quot;
    QuotEval(p, r, x);
    AddZero(Mul(Add(x, r), Eval(Quot(p, r), x)));
    MulNonzero(Add(x, r), Eval(Quot(p, r), x));
    AddEqualZero(x, r);
  }

  lemma {:induction false} QuotZero(p: Poly, r: byte)
    requires p != [] && IsZero(Quot(p, r)) && Eval(p, r) == 0
    ensures IsZero(p)
    decreases |p|
  {
    hide Mul, Add;
    MulNonzero(r, 0);
    AddZero(p[0]);
    if |p| == 1 {
      assert p[1..] == [];
    } else {
      var q := Quot(p, r);
      assert q[0] == Eval(p[1..], r) && q[1..] == Quot(p[1..], r);
      QuotZero(p[1..], r);
    }
  }

  /** A polynomial with as many distinct roots as coefficients is zero. */
  lemma {:induction false} ManyRoots(p: Poly, roots: seq<byte>)
    requires Distinct(roots) && |roots| >= |p|
    requires forall j :: 0 <= j < |roots| ==> Eval(p, roots[j]) == 0
    ensures IsZero(p)
    decreases |p|
  {
    hide Eval, Quot;
    if p != [] {
      var r := roots[0];
      QuotCoef(p, r);
      forall j | 0 <= j < |roots| - 1 ensures Eval(Quot(p, r), roots[1..][j]) == 0 {
        QuotRoot(p, r, roots[j + 1]);
      }
      ManyRoots(Quot(p, r), roots[1..]);
      QuotZero(p, r);
    }
  }

  /** Two polynomials that agree at as many points as they have coefficients are equal. */
  lemma Interpolation(p: Poly, q: Poly, points: seq<byte>)
    requires |p| == |q| <= |points| && Distinct(points)
    requires forall j :: 0 <= j < |points| ==> Eval(p, points[j]) == Eval(q, points[j])
    ensures p == q
  {
    hide Eval, Add;
    forall j | 0 <= j < |points| ensures Eval(Sum(p, q), points[j]) == 0 {
      EvalSum(p, q, points[j]);
      AddSelf(Eval(p, points[j]));
    }
    ManyRoots(Sum(p, q), points);
    forall i | 0 <= i < |p| ensures p[i] == q[i] {
      assert Sum(p, q)[i] == 0;
      AddEqualZero(p[i], q[i]);
    }
  }

  // ----- the formal derivative

  function Derivative(p: Poly): Poly {
    seq(if p == [] then 0 else |p| - 1, i requires 0 <= i < |p| - 1 => FieldSum(p[i + 1], i + 1))
  }

  /** The product rule for c + x t. */
  lemma DerivativeStep(p: Poly)
    requires p != []
    ensures Derivative(p) == Sum(p[1..], if |p| == 1 then [] else [0] + Derivative(p[1..]))
  {
    hide Add;
    var t := p[1..];
    var s := if |p| == 1 then [] else [0] + Derivative(t);
    forall i | 0 <= i < |t| ensures Derivative(p)[i] == Sum(t, s)[i] {
      FieldSumNext(t[i], i);
      hide FieldSum;
      if i > 0 {
        assert s[i] == Derivative(t)[i - 1] == FieldSum(t[i], i);
      }
    }
  }

  lemma FieldSumNext(a: byte, n: nat)
    ensures FieldSum(a, n + 1) == Add(a, FieldSum(a, n)) && FieldSum(a, 0) == 0
  {
    hide Add;
    AddZero(a);
    AddSelf(a);
  }

  /** At a root the derivative equals the quotient by the root's linear factor. */
  lemma {:induction false} DerivativeEval(p: Poly, r: byte)
    requires p != []
    ensures Eval(Derivative(p), r) == Eval(Quot(p, r), r)
    decreases |p|
  {
    hide Mul, Add;
    DerivativeStep(p);
    var t := p[1..];
    if |p| == 1 {
      assert Derivative(p) == [];
    } else {
      var s := [0] + Derivative(t);
      EvalSum(t, s, r);
      assert s[1..] == Derivative(t);
      AddZero(Mul(r, Eval(Derivative(t), r)));
      DerivativeEval(t, r);
      assert Quot(p, r)[1..] == Quot(t, r);
    }
  }
}
