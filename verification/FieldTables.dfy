/** Field arithmetic through tables of powers and logarithms. */
module FieldTables {
  import opened Bits
  import opened Gf256
  import P = Poly

  datatype Tables = Tables(exp: seq<byte>, log: seq<byte>)

  /** exp has 512 entries so that the sum of two logarithms needs no reduction. */
  type Field = f: Tables | |f.exp| == 512 && |f.log| == 256
    witness Tables(seq(512, _ => 0), seq(256, _ => 0))

  /** The tables hold powers and logarithms; log[0] is a filler and log[1] is 255. */
  ghost predicate Correct(f: Field) {
    && (forall i :: 0 <= i < 512 ==> f.exp[i] == Exp(i))
    && f.log[0] == 0
    && forall a :: 1 <= a < 256 ==> f.log[a] == Log(a)
  }

  /** Fill both tables by repeated doubling. */
  method CreateField(primitivePolynomial: nat) returns (field: Field)
    requires primitivePolynomial == FIELD_POLYNOMIAL
    ensures Correct(field)
  {
    hide Log, Exp;
    var exp := new byte[512];
    var log := new byte[256];
    var element: nat := 1;
    exp[0] := 1;
    log[0] := 0;
    ExpStart();
    for i := 1 to 512
      invariant element < 256 && element == Exp(i - 1)
      invariant forall j :: 0 <= j < i ==> exp[j] == Exp(j)
      invariant log[0] == 0
      invariant forall j {:trigger Exp(j)} :: 1 <= j < i && j <= 255 ==> log[Exp(j)] == j
    {
      ExpStep(i);
      element := element * 2;
      element := if element > 255 then Xor(element, primitivePolynomial) else element;
      exp[i] := element;
      if i < 256 {
        LogExp(i);
        forall j | 1 <= j < i ensures Exp(j) != Exp(i) {
          ExpInjective(j, i);
        }
        log[element] := i;
      }
    }
    forall a | 1 <= a < 256 ensures log[a] == Log(a) {
      assert log[Exp(Log(a))] == Log(a);
    }
    field := Tables(exp[..], log[..]);
  }

  lemma ExpStart()
    ensures Exp(0) == 1
  {
  }

  lemma ExpStep(i: nat)
    requires i > 0
    ensures 2 * Exp(i - 1) > 255 ==> Xor(2 * Exp(i - 1), FIELD_POLYNOMIAL) == Exp(i)
    ensures 2 * Exp(i - 1) <= 255 ==> 2 * Exp(i - 1) == Exp(i)
  {
    hide Xor;
  }

  // ----- the operations

  function FieldAdd(l: byte, r: byte): byte {
    Add(l, r)
  }

  function FieldSub(l: byte, r: byte): byte {
    Add(l, r)
  }

  function FieldMul(f: Field, l: byte, r: byte): byte {
    if l == 0 || r == 0 then 0 else (
      var res := f.log[l] as int + f.log[r] as int;
      f.exp[res]
    )
  }

  function FieldDiv(f: Field, l: byte, r: byte): byte {
    if l == 0 then 0
    else if r == 0 then 0
    else (
      var res := 255 + f.log[l] as int - f.log[r] as int;
      f.exp[res]
    )
  }

  function FieldMulLog(l: byte, r: byte): byte {
    var res := l as int + r as int;
    if res > 255 then res - 255 else res
  }

  function FieldDivLog(l: byte, r: byte): byte {
    var res := 255 + l as int - r as int;
    if res > 255 then res - 255 else res
  }

  function FieldMulLogElement(f: Field, l: byte, r: byte): byte {
    var res := l as int + r as int;
    f.exp[res]
  }

  /** The remainder of a division that truncates: it has the sign of the dividend. */
  function Remainder(a: int, m: int): (r: int)
    requires m > 0
    ensures -m < r < m
  {
    if a < 0 then -((-a) % m) else a % m
  }

  function FieldPow(f: Field, elem: byte, pow: int): byte {
    var mod := Remainder(f.log[elem] as int * pow, 255);
    f.exp[if mod < 0 then mod + 255 else mod]
  }

  // ----- what they compute

  ghost function Repeat(n: nat, a: byte): byte {
    if n == 0 then 0 else Add(a, Repeat(n - 1, a))
  }

  lemma {:induction false} FieldSumRepeats(a: byte, n: nat)
    ensures FieldSum(a, n) == Repeat(n, a)
  {
    hide Add;
    if n != 0 {
      FieldSumRepeats(a, n - 1);
      AddZero(a);
      AddSelf(a);
    }
  }

  /** Adding logarithms multiplies. */
  lemma FieldMulProduct(f: Field, l: byte, r: byte)
    requires Correct(f)
    ensures FieldMul(f, l, r) == Mul(l, r)
  {
    hide Mul, Exp, Log;
    MulZero(l);
    ZeroMul(r);
    if l != 0 && r != 0 {
      ExpAdd(Log(l), Log(r));
    }
  }

  /** Subtracting logarithms divides; dividing by zero gives zero. */
  lemma FieldDivQuotient(f: Field, l: byte, r: byte)
    requires Correct(f)
    ensures FieldDiv(f, l, r) == Mul(l, Inv(r))
    ensures r != 0 ==> Mul(FieldDiv(f, l, r), r) == l
  {
    hide Mul, Exp, Log;
    MulZero(l);
    ZeroMul(Inv(r));
    if r != 0 {
      if l != 0 {
        ExpAdd(Log(l), 255 - Log(r));
      }
      MulInv(r);
      MulComm(r, Inv(r));
      MulAssoc(l, Inv(r), r);
      MulOne(l);
    }
  }

  lemma FieldMulLogElementProduct(f: Field, l: byte, r: byte)
    requires Correct(f)
    ensures FieldMulLogElement(f, l, r) == Mul(Exp(l), Exp(r))
  {
    hide Mul, Exp, Log;
    ExpAdd(l, r);
  }

  /** A product of logarithms stays a logarithm and is the filler 0 only for two fillers. */
  lemma FieldMulLogProduct(l: byte, r: byte)
    ensures Exp(FieldMulLog(l, r)) == Mul(Exp(l), Exp(r))
    ensures FieldMulLog(l, r) == 0 <==> l == 0 && r == 0
  {
    hide Mul, Exp;
    ExpAdd(l, r);
    if l + r > 255 {
      ExpPeriod(l + r - 255);
    }
  }

  lemma FieldDivLogQuotient(l: byte, r: byte)
    ensures Mul(Exp(FieldDivLog(l, r)), Exp(r)) == Exp(l)
  {
    hide Mul, Exp;
    ExpAdd(FieldDivLog(l, r), r);
    ExpPeriod(l);
  }

  /** The logarithm of 0 is the filler 0, so every power of 0 comes out as 1. */
  lemma FieldPowPower(f: Field, elem: byte, pow: int)
    requires Correct(f)
    ensures FieldPow(f, elem, pow) ==
      if elem == 0 then 1 else if pow >= 0 then P.Pow(elem, pow) else P.Pow(Inv(elem), -pow)
  {
    hide Exp, Log, Mul;
    var log := f.log[elem];
    if elem == 0 {
      assert log as int * pow == 0;
      ExpStart();
    } else if pow >= 0 {
      P.PowExp(log, pow);
      ProductSign(log, pow);
      ExpMod(log * pow);
    } else {
      P.PowExp(255 - log, -pow);
      NegativeIndex(log, -pow);
      ExpMod((255 - log) * -pow);
    }
  }

  lemma ProductSign(a: nat, b: nat)
    ensures a * b >= 0
  {
  }

  /** Modulo 255 a logarithm times a negative power is its complement times the positive one. */
  lemma NegativeIndex(log: byte, n: int)
    requires n > 0 && log <= 255
    ensures (255 - log) * n >= 0
    ensures var mod := Remainder(log as int * -n, 255);
      (if mod < 0 then mod + 255 else mod) == ((255 - log) * n) % 255
  {
    var t := log as int * n;
    assert log as int * -n == -t && (255 - log) * n == 255 * n - t;
    var q, x := t / 255, t % 255;
    if x == 0 {
      ModUnique(255 * n - t, 255, n - q, 0);
    } else {
      ModUnique(255 * n - t, 255, n - q - 1, 255 - x);
    }
  }

  lemma {:induction false} ExpMod(i: nat)
    ensures Exp(i % 255) == Exp(i)
  {
    hide Exp;
    if i >= 255 {
      ExpMod(i - 255);
      ExpPeriod(i - 255);
    }
  }
}
