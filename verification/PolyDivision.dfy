/** Long division and products of linear factors. */
module PolyDivision {
  import opened Bits
  import opened Gf256
  import opened Poly
  import opened Convolution
  import opened FieldTables
  import opened PolyOps

  // ----- long division

  /** Changing one coefficient changes the value by one term. */
  lemma {:induction false} EvalUpdate(p: Poly, i: nat, c: byte, x: byte)
    requires i < |p|
    ensures Eval(p[i := Add(p[i], c)], x) == Add(Eval(p, x), Mul(c, Pow(x, i)))
    decreases |p|
  {
    hide Mul, Add;
    var q := p[i := Add(p[i], c)];
    if i == 0 {
      assert q[1..] == p[1..];
      MulOne(c);
      AddAssoc(p[0], c, Mul(x, Eval(p[1..], x)));
      AddAssoc(p[0], Mul(x, Eval(p[1..], x)), c);
      AddComm(c, Mul(x, Eval(p[1..], x)));
    } else {
      var t := Mul(c, Pow(x, i - 1));
      assert q[1..] == p[1..][i - 1 := Add(p[1..][i - 1], c)];
      EvalUpdate(p[1..], i - 1, c, x);
      MulAdd(x, Eval(p[1..], x), t);
      MulRotate(x, c, Pow(x, i - 1));
      AddAssoc(p[0], Mul(x, Eval(p[1..], x)), Mul(x, t));
    }
  }

  /** mod + c x^k divisor */
  function AddMultiple(mod: Poly, divisor: Poly, c: byte, k: nat): Poly
    requires k + |divisor| <= |mod|
  {
    seq(|mod|, j requires 0 <= j < |mod| =>
      if k <= j < k + |divisor| then Add(mod[j], Mul(divisor[j - k], c)) else mod[j])
  }

  lemma EvalAddMultiple(mod: Poly, divisor: Poly, c: byte, k: nat, x: byte)
    requires k + |divisor| <= |mod|
    ensures Eval(AddMultiple(mod, divisor, c, k), x) == Add(Eval(mod, x), Mul(Mul(c, Pow(x, k)), Eval(divisor, x)))
  {
    hide Mul, Add, Eval, Pow;
    var d := Scale(c, divisor);
    var top := Zeros(|mod| - k - |divisor|);
    var s := Zeros(k) + (d + top);
    forall j | 0 <= j < |mod| ensures AddMultiple(mod, divisor, c, k)[j] == Sum(mod, s)[j] {
      AddZero(mod[j]);
      if k <= j < k + |divisor| {
        MulComm(divisor[j - k], c);
      }
    }
    assert AddMultiple(mod, divisor, c, k) == Sum(mod, s);
    EvalSum(mod, s, x);
    EvalConcat(Zeros(k), d + top, x);
    EvalConcat(d, top, x);
    EvalZero(Zeros(k), x);
    EvalZero(top, x);
    MulNonzero(Pow(x, |d|), 0);
    AddZero(Eval(d, x));
    EvalScale(c, divisor, x);
    AddZero(Mul(Pow(x, k), Mul(c, Eval(divisor, x))));
    MulRotate(Pow(x, k), c, Eval(divisor, x));
    MulAssoc(c, Pow(x, k), Eval(divisor, x));
  }

  /** dividend == q divisor + mod, as functions. */
  ghost predicate Divides(dividend: Poly, divisor: Poly, q: Poly, mod: Poly) {
    forall x: byte :: Eval(dividend, x) == Add(Mul(Eval(q, x), Eval(divisor, x)), Eval(mod, x))
  }

  lemma DividesStart(p: Poly, divisor: Poly)
    ensures Divides(p, divisor, Zeros(|p|), p)
  {
    hide Mul, Add, Eval;
    forall x: byte ensures Eval(p, x) == Add(Mul(Eval(Zeros(|p|), x), Eval(divisor, x)), Eval(p, x)) {
      EvalZero(Zeros(|p|), x);
      ZeroMul(Eval(divisor, x));
      AddZero(Eval(p, x));
    }
  }

  lemma DividesStep(dividend: Poly, divisor: Poly, q: Poly, mod: Poly, c: byte, k: nat)
    requires Divides(dividend, divisor, q, mod)
    requires k < |q| && k + |divisor| <= |mod|
    ensures Divides(dividend, divisor, q[k := Add(q[k], c)], AddMultiple(mod, divisor, c, k))
  {
    hide Mul, Add, Eval, Pow;
    var q', mod' := q[k := Add(q[k], c)], AddMultiple(mod, divisor, c, k);
    forall x: byte ensures Eval(dividend, x) == Add(Mul(Eval(q', x), Eval(divisor, x)), Eval(mod', x)) {
      var t, d := Mul(c, Pow(x, k)), Eval(divisor, x);
      EvalUpdate(q, k, c, x);
      EvalAddMultiple(mod, divisor, c, k, x);
      AddMul(Eval(q, x), t, d);
      CancelMiddle(Mul(Eval(q, x), d), Mul(t, d), Eval(mod, x));
    }
  }

  lemma CancelMiddle(a: byte, b: byte, c: byte)
    ensures Add(Add(a, b), Add(c, b)) == Add(a, c)
  {
    hide Add;
    AddLaws();
  }

  /** The remainder of dividend by divisor; nothing happens when mod has too little space. */
  method PolynomialMod(field: Field, dividend: Polynomial, divisor: Polynomial, mod: Polynomial)
    returns (ghost q: Poly)
    requires Correct(field)
    requires dividend.Valid() && divisor.Valid() && mod.Valid()
    requires mod.coeff != dividend.coeff && mod.coeff != divisor.coeff
    requires divisor.coeff[divisor.order] != 0
    modifies mod.coeff
    ensures mod.order < dividend.order ==> mod.coeff[..] == old(mod.coeff[..])
    ensures forall k :: dividend.order < k < mod.coeff.Length ==> mod.coeff[k] == old(mod.coeff[k])
    ensures mod.order >= dividend.order ==>
      Divides(dividend.Value(), divisor.Value(), q, mod.coeff[..dividend.order + 1])
    ensures mod.order >= dividend.order ==>
      forall k :: divisor.order <= k <= dividend.order && k > 0 ==> mod.coeff[k] == 0
  {
    hide Mul, Add, Eval, Exp, Log, FieldDivLog, Divides;
    ghost var p, d := dividend.Value(), divisor.Value();
    q := Zeros(|p|);
    if mod.order < dividend.order {
      return;
    }
    for k := 0 to dividend.order + 1
      invariant dividend.Value() == p && divisor.Value() == d
      invariant forall j :: 0 <= j < k ==> mod.coeff[j] == p[j]
      invariant forall j :: dividend.order < j < mod.coeff.Length ==> mod.coeff[j] == old(mod.coeff[j])
    {
      mod.coeff[k] := dividend.coeff[k];
    }
    assert mod.coeff[..dividend.order + 1] == p;
    DividesStart(p, d);
    var divisorLeading := field.log[divisor.coeff[divisor.order]];
    var i := dividend.order;
    while i > 0
      invariant i <= dividend.order
      invariant dividend.Value() == p && divisor.Value() == d
      invariant |q| == |p| && Divides(p, d, q, mod.coeff[..dividend.order + 1])
      invariant forall k :: i < k <= dividend.order && divisor.order <= k ==> mod.coeff[k] == 0
      invariant forall k :: dividend.order < k < mod.coeff.Length ==> mod.coeff[k] == old(mod.coeff[k])
    {
      if i < divisor.order {
        break;
      }
      if mod.coeff[i] == 0 {
        i := i - 1;
        continue;
      }
      var qOrder := i - divisor.order;
      var qCoeff := FieldDivLog(field.log[mod.coeff[i]], divisorLeading);
      q := ReduceStep(field, p, divisor, mod, q, i, qOrder, qCoeff);
      i := i - 1;
    }
  }

  /** One step of the division clears coefficient i and leaves those above it alone. */
  method ReduceStep(field: Field, ghost p: Poly, divisor: Polynomial, mod: Polynomial, ghost q: Poly, ghost i: nat,
                    qOrder: nat, qCoeff: byte)
    returns (ghost q': Poly)
    requires Correct(field)
    requires divisor.Valid() && mod.coeff != divisor.coeff
    requires i == qOrder + divisor.order < |p| == |q| <= mod.coeff.Length
    requires divisor.coeff[divisor.order] != 0 && mod.coeff[i] != 0
    requires qCoeff == FieldDivLog(field.log[mod.coeff[i]], field.log[divisor.coeff[divisor.order]])
    requires Divides(p, divisor.Value(), q, mod.coeff[..|p|])
    modifies mod.coeff
    ensures |q'| == |p| && Divides(p, divisor.Value(), q', mod.coeff[..|p|])
    ensures mod.coeff[i] == 0 && forall k :: i < k < mod.coeff.Length ==> mod.coeff[k] == old(mod.coeff[k])
  {
    hide Mul, Add, Eval, Exp, Log, FieldDivLog, Divides;
    ghost var d, c := divisor.Value(), Exp(qCoeff);
    ghost var before, all := mod.coeff[..|p|], mod.coeff[..];
    FieldDivLogQuotient(field.log[mod.coeff[i]], field.log[divisor.coeff[divisor.order]]);
    MulComm(d[divisor.order], c);
    AddSelf(before[i]);
    SubtractMultiple(field, divisor, mod, qOrder, qCoeff);
    DividesStep(p, d, q, before, c, qOrder);
    q' := q[qOrder := Add(q[qOrder], c)];
    assert mod.coeff[..|p|] == AddMultiple(before, d, c, qOrder);
  }

  /** Subtract alpha^qCoeff x^qOrder divisor in place. */
  method SubtractMultiple(field: Field, divisor: Polynomial, mod: Polynomial, qOrder: nat, qCoeff: byte)
    requires Correct(field)
    requires divisor.Valid() && mod.coeff != divisor.coeff
    requires qOrder + divisor.order < mod.coeff.Length
    modifies mod.coeff
    ensures mod.coeff[..] == AddMultiple(old(mod.coeff[..]), divisor.Value(), Exp(qCoeff), qOrder)
  {
    hide Mul, Add, Exp, Log, FieldMulLogElement;
    ghost var d, c := divisor.Value(), Exp(qCoeff);
    for j := 0 to divisor.order + 1
      invariant divisor.Value() == d
      invariant forall k :: qOrder <= k < qOrder + j ==>
        mod.coeff[k] == Add(old(mod.coeff[k]), Mul(d[k - qOrder], c))
      invariant forall k :: 0 <= k < mod.coeff.Length && !(qOrder <= k < qOrder + j) ==>
        mod.coeff[k] == old(mod.coeff[k])
    {
      if divisor.coeff[j] == 0 {
        ZeroMul(c);
        AddZero(mod.coeff[j + qOrder]);
        continue;
      }
      FieldMulLogElementProduct(field, field.log[divisor.coeff[j]], qCoeff);
      mod.coeff[j + qOrder] :=
        FieldAdd(mod.coeff[j + qOrder], FieldMulLogElement(field, field.log[divisor.coeff[j]], qCoeff));
    }
  }

  // ----- products of linear factors

  /** The value at x of (x + roots[0]) ... (x + roots[n - 1]). */
  function RootProduct(roots: seq<byte>, x: byte): byte {
    if roots == [] then 1 else Mul(Add(x, roots[|roots| - 1]), RootProduct(roots[..|roots| - 1], x))
  }

  /** p is monic of order |roots| and is the product of the factors x + roots[i]. */
  ghost predicate FromRoots(p: Poly, roots: seq<byte>) {
    && |p| == |roots| + 1 && p[|roots|] == 1
    && forall x: byte :: Eval(p, x) == RootProduct(roots, x)
  }

  lemma FromRootsStart(p: Poly, root: byte)
    requires p == [root, 1]
    ensures FromRoots(p, [root])
  {
    hide Mul, Add;
    forall x: byte ensures Eval(p, x) == RootProduct([root], x) {
      assert p[1..] == [1] && p[1..][1..] == [];
      assert Eval([1], x) == 1 by {
        assert [1][1..] == [];
        MulNonzero(x, 0);
        AddZero(1);
      }
      MulOne(x);
      MulOne(Add(x, root));
      AddComm(x, root);
      assert [root][..0] == [];
    }
  }

  lemma FromRootsStep(p: Poly, roots: seq<byte>, l: Poly, root: byte, res: Poly)
    requires FromRoots(p, roots) && l == [root, 1]
    requires |res| == |p| + 1 && forall k :: 0 <= k < |res| ==> res[k] == Conv(l, p, k)
    ensures FromRoots(res, roots + [root])
  {
    hide Mul, Add, Eval, RootProduct, Conv;
    assert res == ProductPoly(l, p);
    forall x: byte ensures Eval(res, x) == RootProduct(roots + [root], x) {
      EvalProduct(l, p, x);
      FromRootsStart(l, root);
      RootProductSnoc(roots, root, x);
      RootProductSnoc([], root, x);
      MulOne(Add(x, root));
      assert [] + [root] == [root];
    }
    LeadingTerm(l, p);
  }

  lemma RootProductSnoc(roots: seq<byte>, root: byte, x: byte)
    ensures RootProduct(roots + [root], x) == Mul(Add(x, root), RootProduct(roots, x))
    ensures RootProduct([], x) == 1
  {
    hide Mul, Add;
    assert (roots + [root])[..|roots|] == roots;
  }

  lemma LeadingTerm(l: Poly, p: Poly)
    requires |l| == 2 && l[1] == 1 && p != []
    ensures Conv(l, p, |p|) == p[|p| - 1]
  {
    hide Mul, Add;
    var q := l[1..];
    MulNonzero(l[0], 0);
    OneMul(p[|p| - 1]);
    AddZero(p[|p| - 1]);
    assert q[1..] == [];
    assert Conv(q, p, |p| - 1) == p[|p| - 1];
  }

  /** Every root of the product is a root. */
  lemma {:induction false} RootProductZero(roots: seq<byte>, i: nat)
    requires i < |roots|
    ensures RootProduct(roots, roots[i]) == 0
    decreases |roots|
  {
    hide Mul, Add;
    var n := |roots| - 1;
    if i == n {
      AddSelf(roots[i]);
      ZeroMul(RootProduct(roots[..n], roots[i]));
    } else {
      RootProductZero(roots[..n], i);
      MulNonzero(Add(roots[i], roots[n]), 0);
    }
  }

  /** Multiply out the linear factors, swapping between two scratch buffers. */
  method PolynomialCreateFromRoots(field: Field, roots: array<byte>) returns (poly: Polynomial)
    requires Correct(field) && roots.Length > 0
    ensures fresh(poly) && fresh(poly.coeff) && poly.Valid()
    ensures poly.order == roots.Length && poly.coeff.Length == roots.Length + 1
    ensures FromRoots(poly.Value(), roots[..])
  {
    hide Mul, Add, FromRoots, Correct;
    var order := roots.Length;
    var l := new Polynomial(1);
    var scratch0 := new Polynomial(order);
    var scratch1 := new Polynomial(order);
    var product := MultiplyFactors(field, roots, l, scratch0, scratch1);
    ghost var p := product.Value();
    poly := new Polynomial(order);
    for k := 0 to order + 1
      invariant product.coeff[..] == p && poly.Valid() && poly.order == order
      invariant forall j :: 0 <= j < k ==> poly.coeff[j] == p[j]
    {
      poly.coeff[k] := product.coeff[k];
    }
    assert poly.Value() == p;
  }

  method MultiplyFactors(field: Field, roots: array<byte>, l: Polynomial, a: Polynomial, b: Polynomial)
    returns (product: Polynomial)
    requires Correct(field) && roots.Length > 0
    requires a != b && a != l && b != l && a.coeff != b.coeff && l.coeff != a.coeff && l.coeff != b.coeff
    requires roots !in {l.coeff, a.coeff, b.coeff}
    requires l.order == 1 && l.coeff.Length == 2
    requires a.coeff.Length == b.coeff.Length == roots.Length + 1
    modifies a, b, l.coeff, a.coeff, b.coeff
    ensures product in {a, b} && product.order == roots.Length && FromRoots(product.Value(), roots[..])
  {
    hide Mul, Add, FromRoots, Correct;
    ghost var all := roots[..];
    var next := b;
    product := a;
    product.coeff[0] := roots[0];
    product.coeff[1] := 1;
    product.order := 1;
    l.coeff[1] := 1;
    FromRootsStart([all[0], 1], all[0]);
    assert product.Value() == [all[0], 1] && all[..1] == [all[0]];
    for i := 1 to roots.Length
      invariant product != next && product in {a, b} && next in {a, b}
      invariant l.order == 1 && l.coeff[1] == 1 && roots[..] == all
      invariant product.order == i && FromRoots(product.Value(), all[..i])
    {
      l.coeff[0] := roots[i];
      next.order := i + 1;
      MultiplyFactor(field, l, product, next, all[..i], all[i]);
      assert all[..i + 1] == all[..i] + [all[i]];
      product, next := next, product;
    }
    assert all[..roots.Length] == all;
  }

  /** One more factor: next becomes (x + root) times current. */
  method MultiplyFactor(field: Field, l: Polynomial, current: Polynomial, next: Polynomial,
                        ghost roots: seq<byte>, ghost root: byte)
    requires Correct(field)
    requires l.Valid() && current.Valid() && next.Valid()
    requires next.coeff != l.coeff && next.coeff != current.coeff
    requires l.Value() == [root, 1] && FromRoots(current.Value(), roots)
    requires next.order == |roots| + 1
    modifies next.coeff
    ensures FromRoots(next.Value(), roots + [root])
  {
    hide Mul, Add, Correct, Conv;
    ghost var p := current.Value();
    PolynomialMul(field, l, current, next);
    FromRootsStep(p, roots, [root, 1], root, next.Value());
  }
}
