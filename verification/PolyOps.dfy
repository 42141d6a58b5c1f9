/** The imperative polynomial operations of the codec, each proved against the algebra. */
module PolyOps {
  import opened Bits
  import opened Gf256
  import opened Poly
  import opened Convolution
  import opened FieldTables

  /** A coefficient buffer and the order currently in use. */
  class Polynomial {
    const coeff: array<byte>
    var order: nat

    ghost predicate Valid()
      reads this
    {
      order < coeff.Length
    }

    ghost function Value(): (p: Poly)
      requires Valid()
      reads this, coeff
      ensures |p| == order + 1
    {
      coeff[..order + 1]
    }

    constructor (order: nat)
      ensures Valid() && fresh(coeff) && coeff.Length == order + 1 && this.order == order
      ensures IsZero(Value())
    {
      coeff := new byte[order + 1](_ => 0);
      this.order := order;
    }

    /** A polynomial over an existing buffer. */
    constructor Over(coeff: array<byte>, order: nat)
      requires order < coeff.Length
      ensures Valid() && this.coeff == coeff && this.order == order
    {
      this.coeff := coeff;
      this.order := order;
    }
  }

  // ----- multiplication

  lemma {:induction false} ConvSnoc(p: Poly, c: byte, s: Poly, k: int)
    ensures Conv(p + [c], s, k) == Add(Conv(p, s, k), Mul(c, Coef(s, k - |p|)))
    decreases |p|
  {
    hide Mul, Add, Coef;
    if p == [] {
      assert [] + [c] == [c] && [c][1..] == [];
      AddZero(Mul(c, Coef(s, k)));
    } else {
      assert (p + [c])[1..] == p[1..] + [c];
      ConvSnoc(p[1..], c, s, k - 1);
      AddAssoc(Mul(p[0], Coef(s, k)), Conv(p[1..], s, k - 1), Mul(c, Coef(s, k - |p|)));
    }
  }

  /** The product of l and r up to the order of res. */
  method PolynomialMul(field: Field, l: Polynomial, r: Polynomial, res: Polynomial)
    requires Correct(field)
    requires l.Valid() && r.Valid() && res.Valid()
    requires res.coeff != l.coeff && res.coeff != r.coeff
    modifies res.coeff
    ensures forall k :: 0 <= k <= res.order ==> res.coeff[k] == Conv(l.Value(), r.Value(), k)
    ensures forall k :: res.order < k < res.coeff.Length ==> res.coeff[k] == old(res.coeff[k])
  {
    hide Mul, Add, Conv, Coef, FieldMul, Correct;
    ghost var p, q := l.Value(), r.Value();
    for k := 0 to res.order + 1
      invariant forall j :: 0 <= j < k ==> res.coeff[j] == 0
      invariant forall j :: res.order < j < res.coeff.Length ==> res.coeff[j] == old(res.coeff[j])
    {
      res.coeff[k] := 0;
    }
    forall k | 0 <= k <= res.order ensures Conv(p[..0], q, k) == 0 {
      ConvEmpty(q, k);
      assert p[..0] == [];
    }
    for i := 0 to l.order + 1
      invariant l.Value() == p && r.Value() == q
      invariant forall k :: 0 <= k <= res.order ==> res.coeff[k] == Conv(p[..i], q, k)
      invariant forall j :: res.order < j < res.coeff.Length ==> res.coeff[j] == old(res.coeff[j])
    {
      if i <= res.order {
        var jLimit := if r.order > res.order - i then res.order - i else r.order;
        PolynomialMulRow(field, l, r, res, i, jLimit);
      } else {
        forall k | 0 <= k <= res.order ensures Conv(p[..i + 1], q, k) == Conv(p[..i], q, k) {
          RowAbove(p, q, i, k);
        }
      }
    }
    assert p[..l.order + 1] == p;
  }

  lemma ConvEmpty(s: Poly, k: int)
    ensures Conv([], s, k) == 0
  {
  }

  lemma RowAbove(p: Poly, q: Poly, i: nat, k: int)
    requires i < |p|
    requires k < i || i + |q| <= k
    ensures Conv(p[..i + 1], q, k) == Conv(p[..i], q, k)
  {
    hide Mul, Add, Conv;
    assert p[..i + 1] == p[..i] + [p[i]];
    ConvSnoc(p[..i], p[i], q, k);
    MulNonzero(p[i], 0);
    AddZero(Conv(p[..i], q, k));
  }

  /** Add row i of the product. */
  method PolynomialMulRow(field: Field, l: Polynomial, r: Polynomial, res: Polynomial, i: nat, jLimit: nat)
    requires Correct(field)
    requires l.Valid() && r.Valid() && res.Valid()
    requires res.coeff != l.coeff && res.coeff != r.coeff
    requires i <= l.order && i <= res.order
    requires jLimit == if r.order > res.order - i then res.order - i else r.order
    requires forall k :: 0 <= k <= res.order ==> res.coeff[k] == Conv(l.Value()[..i], r.Value(), k)
    modifies res.coeff
    ensures forall k :: 0 <= k <= res.order ==> res.coeff[k] == Conv(l.Value()[..i + 1], r.Value(), k)
    ensures forall k :: res.order < k < res.coeff.Length ==> res.coeff[k] == old(res.coeff[k])
  {
    hide Mul, Add, Conv, FieldMul, Correct;
    ghost var p, q := l.Value(), r.Value();
    for j := 0 to jLimit + 1
      invariant l.Value() == p && r.Value() == q
      invariant forall k :: i <= k < i + j ==> res.coeff[k] == Conv(p[..i + 1], q, k)
      invariant forall k :: 0 <= k <= res.order && (k < i || i + j <= k) ==> res.coeff[k] == Conv(p[..i], q, k)
      invariant forall k :: res.order < k < res.coeff.Length ==> res.coeff[k] == old(res.coeff[k])
    {
      assert p[..i + 1] == p[..i] + [p[i]];
      ConvSnoc(p[..i], p[i], q, i + j);
      FieldMulProduct(field, l.coeff[i], r.coeff[j]);
      assert p[i] == l.coeff[i] && q[j] == r.coeff[j];
      res.coeff[i + j] := FieldAdd(res.coeff[i + j], FieldMul(field, l.coeff[i], r.coeff[j]));
    }
    forall k | 0 <= k <= res.order && (k < i || i + jLimit < k)
      ensures Conv(p[..i + 1], q, k) == Conv(p[..i], q, k)
    {
      RowAbove(p, q, i, k);
    }
  }

  function ProductPoly(p: Poly, q: Poly): Poly
    requires p != [] && q != []
  {
    seq(|p| + |q| - 1, k requires 0 <= k < |p| + |q| - 1 => Conv(p, q, k))
  }

  /** Evaluating the whole product multiplies the evaluations. */
  lemma {:induction false} EvalProduct(p: Poly, q: Poly, x: byte)
    requires p != [] && q != []
    ensures Eval(ProductPoly(p, q), x) == Mul(Eval(p, x), Eval(q, x))
    decreases |p|
  {
    hide Mul, Add, Conv;
    var a := Scale(p[0], q);
    if |p| == 1 {
      forall k | 0 <= k < |q| ensures Conv(p, q, k) == a[k] {
        ConvSingle(p, q, k);
      }
      assert ProductPoly(p, q) == a;
      EvalScale(p[0], q, x);
      assert p[1..] == [];
      MulNonzero(x, 0);
      AddZero(p[0]);
    } else {
      var t := p[1..];
      var u, v := a + Zeros(|p| - 1), [0] + ProductPoly(t, q);
      forall k | 0 <= k < |u| ensures ProductPoly(p, q)[k] == Sum(u, v)[k] {
        ConvHead(p, q, k);
      }
      assert ProductPoly(p, q) == Sum(u, v);
      EvalSum(u, v, x);
      EvalScale(p[0], q, x);
      EvalConcat(a, Zeros(|p| - 1), x);
      EvalZero(Zeros(|p| - 1), x);
      MulNonzero(Pow(x, |a|), 0);
      AddZero(Eval(a, x));
      EvalProduct(t, q, x);
      assert v[1..] == ProductPoly(t, q);
      AddZero(Mul(x, Eval(v[1..], x)));
      MulAssoc(x, Eval(t, x), Eval(q, x));
      AddMul(p[0], Mul(x, Eval(t, x)), Eval(q, x));
    }
  }

  lemma ConvSingle(p: Poly, q: Poly, k: nat)
    requires |p| == 1
    ensures Conv(p, q, k) == Mul(p[0], Coef(q, k))
  {
    hide Mul, Add;
    assert p[1..] == [];
    AddZero(Mul(p[0], Coef(q, k)));
  }

  lemma ConvHead(p: Poly, q: Poly, k: nat)
    requires |p| > 1 && q != [] && k < |p| + |q| - 1
    ensures Conv(p, q, k) == Add(if k < |q| then Mul(p[0], q[k]) else 0, if k == 0 then 0 else Conv(p[1..], q, k - 1))
  {
    hide Mul, Add;
    MulNonzero(p[0], 0);
    if k == 0 {
      ConvNegative(p[1..], q, -1);
    }
  }

  // ----- evaluation by table

  /** valExp holds the logarithms of the powers of val; all zero when val is zero. */
  ghost predicate PowerTable(valExp: seq<byte>, val: byte, n: nat) {
    && n <= |valExp|
    && forall i :: 0 <= i < n ==>
        if val == 0 then valExp[i] == 0 else valExp[i] != 0 && Exp(valExp[i]) == Pow(val, i)
  }

  method PolynomialBuildExpLut(field: Field, val: byte, order: nat) returns (valExp: seq<byte>)
    requires Correct(field)
    ensures |valExp| == order + 1 && PowerTable(valExp, val, order + 1)
  {
    hide Mul, Exp, Log, FieldMulLog;
    var table := new byte[order + 1];
    var valExponentiated := field.log[1];
    var valLog := field.log[val];
    LogOfOne(field);
    for i := 0 to order + 1
      invariant forall j :: 0 <= j < i ==>
        if val == 0 then table[j] == 0 else table[j] != 0 && Exp(table[j]) == Pow(val, j)
      invariant val != 0 ==> valExponentiated != 0 && Exp(valExponentiated) == Pow(val, i)
    {
      if val == 0 {
        table[i] := 0;
      } else {
        table[i] := valExponentiated;
        FieldMulLogProduct(valExponentiated, valLog);
        MulComm(Pow(val, i), val);
        valExponentiated := FieldMulLog(valExponentiated, valLog);
      }
    }
    valExp := table[..];
  }

  lemma LogOfOne(field: Field)
    requires Correct(field)
    ensures field.log[1] == 255 && Exp(255) == 1
  {
    hide Exp;
    AlphaOrder();
    LogExp(255);
  }

  /** Evaluation through the table of powers is Horner evaluation. */
  method PolynomialEvalLut(field: Field, poly: Polynomial, valExp: seq<byte>, ghost val: byte) returns (res: byte)
    requires Correct(field) && poly.Valid()
    requires PowerTable(valExp, val, poly.order + 1)
    ensures res == Eval(poly.Value(), val)
  {
    hide Mul, Add, Exp, Log, Pow, Eval, FieldMulLogElement;
    ghost var p := poly.Value();
    if valExp[0] == 0 {
      EvalAtZero(p);
      return poly.coeff[0];
    }
    res := 0;
    EvalEmpty(val);
    assert p[..0] == [];
    for i := 0 to poly.order + 1
      invariant res == Eval(p[..i], val)
    {
      EvalSnoc(p[..i], p[i], val);
      assert p[..i + 1] == p[..i] + [p[i]];
      if poly.coeff[i] != 0 {
        FieldMulLogElementProduct(field, field.log[poly.coeff[i]], valExp[i]);
        res := FieldAdd(res, FieldMulLogElement(field, field.log[poly.coeff[i]], valExp[i]));
      } else {
        ZeroMul(Pow(val, i));
        AddZero(res);
      }
    }
    assert p[..poly.order + 1] == p;
  }

  lemma EvalAtZero(p: Poly)
    requires p != []
    ensures Eval(p, 0) == p[0]
  {
    hide Mul, Add;
    ZeroMul(Eval(p[1..], 0));
    AddZero(p[0]);
  }

  lemma EvalEmpty(x: byte)
    ensures Eval([], x) == 0
  {
  }

  /** The coefficients of logs are the logarithms of those of p, with 0 for a zero coefficient. */
  ghost predicate LogForm(logs: Poly, p: Poly) {
    && |logs| == |p|
    && forall i :: 0 <= i < |p| ==> logs[i] == if p[i] == 0 then 0 else Log(p[i])
  }

  /** Evaluation of a polynomial kept as logarithms, 0 standing for a zero coefficient. */
  method PolynomialEvalLogLut(field: Field, polyLog: Polynomial, valExp: seq<byte>, ghost p: Poly, ghost val: byte)
    returns (res: byte)
    requires Correct(field) && polyLog.Valid()
    requires LogForm(polyLog.Value(), p)
    requires PowerTable(valExp, val, polyLog.order + 1)
    ensures res == Eval(p, val)
  {
    hide Mul, Add, Exp, Log, Pow, Eval, FieldMulLogElement;
    assert forall i :: 0 <= i < |p| ==> polyLog.coeff[i] == polyLog.Value()[i];
    if valExp[0] == 0 {
      EvalAtZero(p);
      if polyLog.coeff[0] == 0 {
        return 0;
      }
      return field.exp[polyLog.coeff[0]];
    }
    res := 0;
    EvalEmpty(val);
    assert p[..0] == [];
    for i := 0 to polyLog.order + 1
      invariant res == Eval(p[..i], val)
    {
      EvalSnoc(p[..i], p[i], val);
      assert p[..i + 1] == p[..i] + [p[i]];
      if polyLog.coeff[i] != 0 {
        FieldMulLogElementProduct(field, polyLog.coeff[i], valExp[i]);
        res := FieldAdd(res, FieldMulLogElement(field, polyLog.coeff[i], valExp[i]));
      } else {
        ZeroMul(Pow(val, i));
        AddZero(res);
      }
    }
    assert p[..polyLog.order + 1] == p;
  }

  // ----- derivative

  method PolynomialFormalDerivative(poly: Polynomial, der: Polynomial)
    requires poly.Valid() && der.Valid() && poly.order == der.order + 1 && poly.coeff != der.coeff
    modifies der.coeff
    ensures der.Value() == Derivative(poly.Value())
  {
    ghost var p := poly.Value();
    for i := 0 to der.order + 1
      invariant poly.Value() == p
      invariant forall j :: 0 <= j < i ==> der.coeff[j] == Derivative(p)[j]
    {
      der.coeff[i] := FieldSum(poly.coeff[i + 1], i + 1);
    }
  }
}
