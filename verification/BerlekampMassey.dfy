/** Berlekamp-Massey search for the error locator, in place on two coefficient buffers. */
module BerlekampMassey {
  import opened Bits
  import opened Gf256
  import opened Poly
  import opened Convolution
  import opened Lfsr
  import opened FieldTables
  import opened PolyOps

  /** The sum of the register's taps on the syndromes up to i. */
  method Discrepancy(field: Field, syndromes: array<byte>, locator: Polynomial, numErrors: nat, i: nat)
    returns (discrepancy: byte)
    requires Correct(field)
    requires numErrors <= i < syndromes.Length && syndromes.Length < locator.coeff.Length
    requires locator.coeff[0] == 1 && DegreeAtMost(locator.coeff[..], numErrors)
    ensures discrepancy == Conv(locator.coeff[..], syndromes[..], i)
  {
    hide Mul, Add, Conv, FieldMul, Correct;
    ghost var c, s := locator.coeff[..], syndromes[..];
    discrepancy := syndromes[i];
    assert c[..1] == [] + [1] && c[..0] == [];
    ConvSnoc([], 1, s, i);
    ConvEmpty(s, i);
    OneMul(s[i]);
    AddZero(s[i]);
    for j := 1 to numErrors + 1
      invariant discrepancy == Conv(c[..j], s, i)
    {
      assert c[..j + 1] == c[..j] + [c[j]];
      ConvSnoc(c[..j], c[j], s, i);
      FieldMulProduct(field, locator.coeff[j], syndromes[i - j]);
      discrepancy := FieldAdd(discrepancy, FieldMul(field, locator.coeff[j], syndromes[i - j]));
    }
    ConvTrim(c[..numErrors + 1], c[numErrors + 1..], s, i);
    assert c[..numErrors + 1] + c[numErrors + 1..] == c;
  }

  /** The factor discrepancy / lastDiscrepancy. */
  ghost function Ratio(d: byte, v: byte): byte {
    Mul(d, Inv(v))
  }

  lemma RatioProperty(d: byte, v: byte)
    requires v != 0
    ensures Mul(Ratio(d, v), v) == d
  {
    hide Mul, Inv;
    MulInv(v);
    MulComm(v, Inv(v));
    MulAssoc(d, Inv(v), v);
    MulOne(d);
  }

  lemma ScaledTap(field: Field, x: byte, d: byte, v: byte)
    requires Correct(field)
    ensures FieldDiv(field, FieldMul(field, x, d), v) == Mul(Ratio(d, v), x)
  {
    hide Mul, Inv, FieldDiv, FieldMul, Correct;
    FieldMulProduct(field, x, d);
    FieldDivQuotient(field, Mul(x, d), v);
    MulAssoc(x, d, Inv(v));
    MulComm(x, Ratio(d, v));
  }

  /** Lengthen the register: the locator is corrected and the last locator becomes the old one. */
  method Lengthen(field: Field, locator: Polynomial, last: Polynomial, delay: nat, d: byte, v: byte)
    requires Correct(field)
    requires locator != last && locator.coeff != last.coeff && locator.coeff.Length == last.coeff.Length
    requires last.order + delay < last.coeff.Length && 1 <= delay
    requires locator.order <= last.order + delay
    requires DegreeAtMost(locator.coeff[..], locator.order) && DegreeAtMost(last.coeff[..], last.order)
    modifies locator, last, locator.coeff, last.coeff
    ensures locator.coeff[..] == Combine(old(locator.coeff[..]), old(last.coeff[..]), Ratio(d, v), delay)
    ensures last.coeff[..] == old(locator.coeff[..])
    ensures locator.order == old(last.order) + delay && last.order == old(locator.order)
  {
    hide Mul, Add, Ratio, Correct, Combine, DegreeAtMost;
    ghost var c, b, top := locator.coeff[..], last.coeff[..], last.order + delay;
    ShiftLast(field, last, delay, d, v);
    CombineShifted(c, b, last.coeff[..], Ratio(d, v), delay, locator.order, last.order);
    AddLast(locator, last, delay);
    var tempOrder := locator.order;
    locator.order := last.order + delay;
    last.order := tempOrder;
  }

  /** Correcting by the shifted and scaled register changes nothing above its order. */
  lemma CombineShifted(c: Poly, b: Poly, shifted: Poly, q: byte, delay: nat, l: nat, lb: nat)
    requires |c| == |b| == |shifted| && lb + delay < |b| && l <= lb + delay
    requires DegreeAtMost(c, l) && DegreeAtMost(b, lb)
    requires forall k :: 0 <= k < delay ==> shifted[k] == 0
    requires forall k :: delay <= k <= lb + delay ==> shifted[k] == Mul(q, b[k - delay])
    requires forall k :: lb + delay < k < |b| ==> shifted[k] == 0
    ensures Combine(c, b, q, delay) == Sum(c, shifted)
    ensures forall k :: lb + delay < k < |b| ==> Sum(c, shifted)[k] == 0 == shifted[k] == c[k]
  {
    hide Mul, Add;
    forall k | lb + delay < k < |c| ensures Combine(c, b, q, delay)[k] == Sum(c, shifted)[k] == 0 {
      MulNonzero(q, 0);
      AddZero(0);
    }
  }

  /** locator becomes the sum of both and last the old locator, up to the new order. */
  method AddLast(locator: Polynomial, last: Polynomial, delay: nat)
    requires locator != last && locator.coeff != last.coeff && locator.coeff.Length == last.coeff.Length
    requires last.order + delay < last.coeff.Length
    requires forall k :: last.order + delay < k < last.coeff.Length ==>
      last.coeff[k] == locator.coeff[k] == Sum(locator.coeff[..], last.coeff[..])[k]
    modifies locator.coeff, last.coeff
    ensures locator.coeff[..] == Sum(old(locator.coeff[..]), old(last.coeff[..]))
    ensures last.coeff[..] == old(locator.coeff[..])
  {
    hide Add;
    ghost var c, b := locator.coeff[..], last.coeff[..];
    for j := 0 to last.order + delay + 1
      invariant forall k :: 0 <= k < j ==> locator.coeff[k] == Add(c[k], b[k])
      invariant forall k :: 0 <= k < j ==> last.coeff[k] == c[k]
      invariant forall k :: j <= k < |c| ==> locator.coeff[k] == c[k]
      invariant forall k :: j <= k < |c| ==> last.coeff[k] == b[k]
    {
      var temp := locator.coeff[j];
      locator.coeff[j] := FieldAdd(locator.coeff[j], last.coeff[j]);
      last.coeff[j] := temp;
    }
  }

  /** Shift the last locator up by the delay and scale it, from the top down. */
  method ShiftLast(field: Field, last: Polynomial, delay: nat, d: byte, v: byte)
    requires Correct(field)
    requires last.order + delay < last.coeff.Length && 1 <= delay
    requires DegreeAtMost(last.coeff[..], last.order)
    modifies last.coeff
    ensures forall k :: 0 <= k < delay ==> last.coeff[k] == 0
    ensures forall k :: delay <= k <= last.order + delay ==>
      last.coeff[k] == Mul(Ratio(d, v), old(last.coeff[k - delay]))
    ensures forall k :: last.order + delay < k < last.coeff.Length ==> last.coeff[k] == 0
  {
    hide Mul, Ratio, FieldMul, FieldDiv, Correct;
    ghost var b := last.coeff[..];
    var j: int := last.order;
    while j >= 0
      invariant -1 <= j <= last.order
      invariant forall k :: 0 <= k <= j + delay ==> last.coeff[k] == b[k]
      invariant forall k :: j + delay < k <= last.order + delay ==> last.coeff[k] == Mul(Ratio(d, v), b[k - delay])
      invariant forall k :: last.order + delay < k < last.coeff.Length ==> last.coeff[k] == b[k]
    {
      ScaledTap(field, b[j], d, v);
      last.coeff[j + delay] := FieldDiv(field, FieldMul(field, last.coeff[j], d), v);
      j := j - 1;
    }
    j := delay - 1;
    while j >= 0
      invariant -1 <= j < delay
      invariant forall k :: j < k < delay ==> last.coeff[k] == 0
      invariant forall k :: delay <= k <= last.order + delay ==> last.coeff[k] == Mul(Ratio(d, v), b[k - delay])
      invariant forall k :: last.order + delay < k < last.coeff.Length ==> last.coeff[k] == b[k]
    {
      last.coeff[j] := 0;
      j := j - 1;
    }
  }

  /** Correct the locator and keep the last locator. */
  method Adjust(field: Field, locator: Polynomial, last: Polynomial, delay: nat, d: byte, v: byte)
    requires Correct(field)
    requires locator != last && locator.coeff != last.coeff && locator.coeff.Length == last.coeff.Length
    requires last.order + delay < last.coeff.Length
    requires DegreeAtMost(last.coeff[..], last.order)
    modifies locator, locator.coeff
    ensures locator.coeff[..] == Combine(old(locator.coeff[..]), last.coeff[..], Ratio(d, v), delay)
    ensures locator.order == if last.order + delay > old(locator.order) then last.order + delay else old(locator.order)
  {
    hide Mul, Add, Ratio, FieldMul, FieldDiv, Correct;
    ghost var c, b, q := locator.coeff[..], last.coeff[..], Ratio(d, v);
    var j: int := last.order;
    while j >= 0
      invariant -1 <= j <= last.order
      invariant locator.order == old(locator.order)
      invariant forall k :: 0 <= k <= j + delay ==> locator.coeff[k] == c[k]
      invariant forall k :: j + delay < k <= last.order + delay ==>
        locator.coeff[k] == Add(c[k], Mul(q, b[k - delay]))
      invariant forall k :: last.order + delay < k < |c| ==> locator.coeff[k] == c[k]
    {
      ScaledTap(field, b[j], d, v);
      locator.coeff[j + delay] :=
        FieldAdd(locator.coeff[j + delay], FieldDiv(field, FieldMul(field, last.coeff[j], d), v));
      j := j - 1;
    }
    forall k | 0 <= k < |c| && !(delay <= k <= last.order + delay) ensures c[k] == Combine(c, b, q, delay)[k] {
      MulNonzero(q, 0);
      AddZero(c[k]);
    }
    locator.order := if last.order + delay > locator.order then last.order + delay else locator.order;
  }

  method ResetLocators(locator: Polynomial, last: Polynomial)
    requires locator != last && locator.coeff != last.coeff && locator.coeff.Length == last.coeff.Length > 0
    modifies locator, last, locator.coeff, last.coeff
    ensures locator.coeff[..] == last.coeff[..] == Unit(locator.coeff.Length - 1)
    ensures locator.order == last.order == 0
  {
    for k := 0 to locator.coeff.Length
      invariant forall j :: 0 <= j < k ==> locator.coeff[j] == 0
    {
      locator.coeff[k] := 0;
    }
    locator.coeff[0] := 1;
    locator.order := 0;
    for k := 0 to locator.coeff.Length
      invariant locator.order == 0 && locator.coeff[..] == Unit(locator.coeff.Length - 1)
      invariant forall j :: 0 <= j < k ==> last.coeff[j] == locator.coeff[j]
    {
      last.coeff[k] := locator.coeff[k];
    }
    last.order := 0;
  }

  /** The shortest register that generates the syndromes; its order field is its length. */
  method FindErrorLocator(field: Field, syndromes: array<byte>, locator: Polynomial, last: Polynomial)
    returns (order: nat)
    requires Correct(field)
    requires locator != last && locator.coeff != last.coeff
    requires syndromes != locator.coeff && syndromes != last.coeff
    requires locator.coeff.Length == last.coeff.Length == syndromes.Length + 1
    modifies locator, last, locator.coeff, last.coeff
    ensures locator.order == order <= syndromes.Length
    ensures Generates(locator.coeff[..], order, syndromes[..], syndromes.Length)
    ensures NoShorter(order, syndromes[..], syndromes.Length)
    ensures order == syndromes.Length > 0 ==> OnlyLast(syndromes[..], syndromes.Length)
  {
    hide Mul, Add, Conv, Ratio, Correct, Generates, NoShorter;
    var numErrors := 0;
    ghost var s := syndromes[..];
    ResetLocators(locator, last);
    var lastDiscrepancy: byte := 1;
    var delayLength := 1;
    MasseyStart(s);
    for i := locator.order to syndromes.Length
      invariant syndromes[..] == s
      invariant locator.order == numErrors
      invariant MasseyState(locator.coeff[..], numErrors, last.coeff[..], last.order, delayLength, lastDiscrepancy, s, i)
    {
      ghost var c, b, v, m := locator.coeff[..], last.coeff[..], lastDiscrepancy, delayLength;
      MasseyBounds(c, numErrors, b, last.order, m, v, s, i);
      MasseyShape(c, numErrors, b, last.order, m, v, s, i);
      var discrepancy := Discrepancy(field, syndromes, locator, numErrors, i);
      if discrepancy == 0 {
        MasseyKeep(c, numErrors, b, last.order, m, v, s, i);
        delayLength := delayLength + 1;
        continue;
      }
      RatioProperty(discrepancy, v);
      if 2 * numErrors <= i {
        MasseyGrow(c, numErrors, b, last.order, m, v, Ratio(discrepancy, v), s, i);
        Lengthen(field, locator, last, delayLength, discrepancy, lastDiscrepancy);
        numErrors := i + 1 - numErrors;
        lastDiscrepancy := discrepancy;
        delayLength := 1;
        continue;
      }
      MasseyAdjust(c, numErrors, b, last.order, m, v, Ratio(discrepancy, v), s, i);
      Adjust(field, locator, last, delayLength, discrepancy, lastDiscrepancy);
      delayLength := delayLength + 1;
    }
    order := locator.order;
  }

  lemma MasseyShape(c: Poly, l: nat, b: Poly, lb: nat, m: nat, v: byte, s: Poly, i: nat)
    requires MasseyState(c, l, b, lb, m, v, s, i)
    ensures c[0] == 1 && DegreeAtMost(c, l) && DegreeAtMost(b, lb)
  {
    hide Conv;
  }
}
