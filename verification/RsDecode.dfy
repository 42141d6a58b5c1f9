/** The phases of the Reed-Solomon decoder over its buffers, and what they add up to. */
module RsDecode {
  import opened Bits
  import opened Gf256
  import opened Poly
  import opened Convolution
  import opened FieldTables
  import opened PolyOps
  import opened ErrorTheory

  const BLOCK_LENGTH: nat := 255
  const FIRST_CONSECUTIVE_ROOT: nat := 1
  const GENERATOR_ROOT_GAP: nat := 1

  /** The polynomial of a word: last byte lowest, zeros above. */
  function ToPoly(word: seq<byte>): (p: Poly)
    requires |word| <= BLOCK_LENGTH
    ensures |p| == BLOCK_LENGTH
  {
    seq(BLOCK_LENGTH, i requires 0 <= i < BLOCK_LENGTH => if i < |word| then word[|word| - 1 - i] else 0)
  }

  /** The first n syndromes of a received polynomial. */
  function Syndromes(p: Poly, n: nat): (s: Poly)
    ensures |s| == n
  {
    seq(n, k requires 0 <= k < n => Eval(p, GeneratorRoot(k)))
  }

  // ----- phases

  /** Reverse the word into the received polynomial and pad it. */
  method LoadReceived(encoded: seq<byte>, received: Polynomial)
    requires |encoded| <= BLOCK_LENGTH && received.coeff.Length == BLOCK_LENGTH && received.order == BLOCK_LENGTH - 1
    modifies received.coeff
    ensures received.Value() == ToPoly(encoded)
  {
    var n := |encoded|;
    for i := 0 to n
      invariant forall j :: 0 <= j < i ==> received.coeff[j] == encoded[n - 1 - j]
    {
      received.coeff[i] := encoded[n - (i + 1)];
    }
    for i := 0 to BLOCK_LENGTH - n
      invariant forall j :: 0 <= j < n ==> received.coeff[j] == encoded[n - 1 - j]
      invariant forall j :: n <= j < n + i ==> received.coeff[j] == 0
    {
      received.coeff[i + n] := 0;
    }
  }

  ghost predicate RootTables(tables: seq<seq<byte>>, n: nat) {
    |tables| == n && forall k :: 0 <= k < n ==> PowerTable(tables[k], GeneratorRoot(k), BLOCK_LENGTH)
  }

  ghost predicate ElementTables(tables: seq<seq<byte>>, n: nat) {
    |tables| == 256 && forall i :: 0 <= i < 256 ==> PowerTable(tables[i], i, n)
  }

  /** Evaluate the received polynomial at every generator root. */
  method FindSyndromes(field: Field, received: Polynomial, rootExp: seq<seq<byte>>, syndromes: array<byte>)
    returns (allZero: bool)
    requires Correct(field) && received.Valid() && received.order == BLOCK_LENGTH - 1
    requires RootTables(rootExp, syndromes.Length) && syndromes != received.coeff
    modifies syndromes
    ensures syndromes[..] == Syndromes(received.Value(), syndromes.Length)
    ensures allZero <==> Vanishes(received.Value(), syndromes.Length)
  {
    hide Eval, GeneratorRoot, PowerTable, Correct;
    ghost var p := received.Value();
    allZero := true;
    for i := 0 to syndromes.Length
      invariant received.Value() == p
      invariant forall k :: 0 <= k < i ==> syndromes[k] == Eval(p, GeneratorRoot(k))
      invariant allZero <==> forall k :: 0 <= k < i ==> Eval(p, GeneratorRoot(k)) == 0
    {
      var eval := PolynomialEvalLut(field, received, rootExp[i], GeneratorRoot(i));
      if eval != 0 {
        allZero := false;
      }
      syndromes[i] := eval;
    }
  }

  /** The locator with logarithms for coefficients; a zero coefficient keeps the filler 0. */
  method LocatorToLog(field: Field, locator: Polynomial, locatorLog: Polynomial)
    requires Correct(field) && locator.Valid() && locator.order < locatorLog.coeff.Length
    requires locatorLog != locator && locatorLog.coeff != locator.coeff
    modifies locatorLog, locatorLog.coeff
    ensures locatorLog.Valid() && locatorLog.order == locator.order
    ensures LogForm(locatorLog.Value(), locator.Value())
  {
    hide Log;
    ghost var p := locator.Value();
    for i := 0 to locator.order + 1
      invariant locator.Value() == p
      invariant forall j :: 0 <= j < i ==> locatorLog.coeff[j] == if p[j] == 0 then 0 else Log(p[j])
    {
      locatorLog.coeff[i] := field.log[locator.coeff[i]];
    }
    locatorLog.order := locator.order;
  }

  /** The field elements below n at which p vanishes, in increasing order. */
  ghost function RootsBelow(p: Poly, n: nat): (roots: Poly)
    requires n <= 256
    ensures forall j :: 0 <= j < |roots| ==> roots[j] < n && Eval(p, roots[j]) == 0
    ensures Distinct(roots)
  {
    if n == 0 then [] else RootsBelow(p, n - 1) + if Eval(p, n - 1) == 0 then [n - 1] else []
  }

  lemma {:induction false} RootsBelowComplete(p: Poly, n: nat, x: byte)
    requires x < n <= 256 && Eval(p, x) == 0
    ensures x in RootsBelow(p, n)
  {
    hide Eval;
    if x < n - 1 {
      RootsBelowComplete(p, n - 1, x);
    }
  }

  /** A nonzero polynomial has no more roots than its order. */
  lemma RootsBelowCount(p: Poly, n: nat)
    requires n <= 256 && p != [] && p[0] != 0
    ensures |RootsBelow(p, n)| <= |p| - 1
  {
    hide Eval;
    if |RootsBelow(p, n)| >= |p| {
      ManyRoots(p, RootsBelow(p, n));
    }
  }

  /** Chien search: try every field element, and report whether there are as many roots as the order. */
  method FactorizeErrorLocator(field: Field, locatorLog: Polynomial, roots: array<byte>,
                               elementExp: seq<seq<byte>>, ghost p: Poly)
    returns (complete: bool)
    requires Correct(field) && locatorLog.Valid() && LogForm(locatorLog.Value(), p)
    requires ElementTables(elementExp, locatorLog.order + 1) && p[0] != 0
    requires locatorLog.order <= roots.Length && roots != locatorLog.coeff
    modifies roots
    ensures |RootsBelow(p, 256)| <= locatorLog.order
    ensures roots[..|RootsBelow(p, 256)|] == RootsBelow(p, 256)
    ensures complete <==> |RootsBelow(p, 256)| == locatorLog.order
  {
    hide Eval, PowerTable, Correct;
    for k := 0 to locatorLog.order
      invariant LogForm(locatorLog.Value(), p)
    {
      roots[k] := 0;
    }
    var root := 0;
    RootsBelowCount(p, 0);
    for i := 0 to 256
      invariant LogForm(locatorLog.Value(), p)
      invariant root == |RootsBelow(p, i)| <= locatorLog.order
      invariant roots[..root] == RootsBelow(p, i)
    {
      var eval := PolynomialEvalLogLut(field, locatorLog, elementExp[i], p, i);
      RootsBelowCount(p, i + 1);
      if eval == 0 {
        roots[root] := i;
        root := root + 1;
      }
    }
    complete := root == locatorLog.order;
  }

  /** The locations are the logarithms of the reciprocals of the roots. */
  method FindErrorLocations(field: Field, generatorRootGap: nat, roots: array<byte>, locations: array<byte>, numErrors: nat)
    requires Correct(field) && generatorRootGap == GENERATOR_ROOT_GAP
    requires numErrors <= roots.Length && numErrors <= locations.Length && roots != locations
    modifies locations
    ensures forall i :: 0 <= i < numErrors && roots[i] != 0 ==> locations[i] < 255 && Exp(locations[i]) == Inv(roots[i])
  {
    hide Inv, Exp, Log, FieldDiv, FieldPow;
    for i := 0 to numErrors
      invariant forall j :: 0 <= j < i && roots[j] != 0 ==> locations[j] < 255 && Exp(locations[j]) == Inv(roots[j])
    {
      if roots[i] == 0 {
        continue;
      }
      var loc := FieldDiv(field, 1, roots[i]);
      ReciprocalNonzero(field, roots[i]);
      var j := 0;
      while j < 256
        invariant 0 <= j <= 256
        invariant forall k :: 0 <= k < j ==> FieldPow(field, k, generatorRootGap) != loc
      {
        if FieldPow(field, j, generatorRootGap) == loc {
          break;
        }
        j := j + 1;
      }
      LocationFound(field, loc, j);
      locations[i] := field.log[j];
    }
  }

  lemma ReciprocalNonzero(field: Field, root: byte)
    requires Correct(field) && root != 0
    ensures FieldDiv(field, 1, root) == Inv(root) != 0
  {
    hide Inv, Mul, FieldDiv;
    FieldDivQuotient(field, 1, root);
    OneMul(Inv(root));
    MulInv(root);
  }

  /** The scan stops at 0 for the point 1, because the power of 0 comes out as 1, and else at the point itself. */
  lemma LocationFound(field: Field, loc: byte, j: nat)
    requires Correct(field) && loc != 0 && j <= 256
    requires forall k :: 0 <= k < j ==> FieldPow(field, k, 1) != loc
    requires j < 256 ==> FieldPow(field, j, 1) == loc
    ensures j < 256 && field.log[j] < 255 && Exp(field.log[j]) == loc
  {
    hide Exp, Log, FieldPow, Mul;
    FieldPowPower(field, loc, 1);
    PowSelf(loc);
    assert j <= loc;
    FieldPowPower(field, j, 1);
    if j == 0 {
      ExpStart();
    } else {
      PowSelf(j);
      FieldPowPower(field, 0, 1);
      assert FieldPow(field, 0, 1) != loc;
      AlphaOrder();
    }
  }

  /** The error evaluator: locator times syndromes, cut to the order of its buffer. */
  method FindErrorEvaluator(field: Field, locator: Polynomial, syndromes: array<byte>, evaluator: Polynomial)
    requires Correct(field) && locator.Valid() && syndromes.Length > 0
    requires evaluator.order + 1 == evaluator.coeff.Length == syndromes.Length
    requires evaluator.coeff != locator.coeff && evaluator.coeff != syndromes
    modifies evaluator.coeff
    ensures evaluator.Value() == Evaluator(locator.Value(), syndromes[..])
  {
    hide Conv, Correct;
    ghost var p, s := locator.Value(), syndromes[..];
    var syndromePoly := new Polynomial.Over(syndromes, syndromes.Length - 1);
    assert syndromePoly.Value() == s;
    PolynomialMul(field, locator, syndromePoly, evaluator);
    assert evaluator.Value() == Evaluator(p, s);
  }

  /** Forney: evaluator over derivative at every root. */
  method FindErrorValues(field: Field, syndromes: array<byte>, locator: Polynomial, evaluator: Polynomial,
                         derivative: Polynomial, roots: array<byte>, vals: array<byte>, elementExp: seq<seq<byte>>)
    requires Correct(field)
    requires locator.Valid() && 1 <= locator.order < syndromes.Length
    requires evaluator.order + 1 == evaluator.coeff.Length == syndromes.Length == derivative.coeff.Length
    requires evaluator.coeff != locator.coeff && evaluator.coeff != syndromes
    requires derivative != locator && derivative.coeff != locator.coeff
    requires derivative != evaluator && derivative.coeff != evaluator.coeff
    requires vals !in {locator.coeff, evaluator.coeff, derivative.coeff, roots}
    requires roots != evaluator.coeff && roots != derivative.coeff
    requires locator.order <= vals.Length && locator.order <= roots.Length
    requires ElementTables(elementExp, syndromes.Length)
    modifies evaluator.coeff, derivative, derivative.coeff, vals
    ensures forall i :: 0 <= i < locator.order && roots[i] != 0 ==>
      vals[i] == ForneyValue(locator.Value(), old(syndromes[..]), roots[i])
  {
    hide Eval, Mul, Inv, Conv, Pow, Correct, FieldMul, FieldDiv, FieldPow, PowerTable, Evaluator, Derivative;
    ghost var p, s, order := locator.Value(), syndromes[..], locator.order;
    FindErrorEvaluator(field, locator, syndromes, evaluator);
    derivative.order := locator.order - 1;
    PolynomialFormalDerivative(locator, derivative);
    for i := 0 to locator.order
      invariant evaluator.Value() == Evaluator(p, s) && derivative.Valid() && derivative.Value() == Derivative(p)
      invariant forall j :: 0 <= j < i && roots[j] != 0 ==> vals[j] == ForneyValue(p, s, roots[j])
    {
      if roots[i] == 0 {
        continue;
      }
      PowerTablePrefix(elementExp[roots[i]], roots[i], syndromes.Length, derivative.order + 1);
      var num := PolynomialEvalLut(field, evaluator, elementExp[roots[i]], roots[i]);
      var den := PolynomialEvalLut(field, derivative, elementExp[roots[i]], roots[i]);
      ErrorValue(field, roots[i], num, den);
      vals[i] := FieldMul(field, FieldPow(field, roots[i], FIRST_CONSECUTIVE_ROOT - 1), FieldDiv(field, num, den));
    }
  }

  lemma PowerTablePrefix(table: seq<byte>, x: byte, n: nat, m: nat)
    requires PowerTable(table, x, n) && m <= n
    ensures PowerTable(table, x, m)
  {
  }

  /** The factor for a first root other than alpha is one here. */
  lemma ErrorValue(field: Field, root: byte, num: byte, den: byte)
    requires Correct(field)
    ensures FieldMul(field, FieldPow(field, root, 0), FieldDiv(field, num, den)) == Mul(num, Inv(den))
  {
    hide Mul, Inv, FieldMul, FieldDiv, FieldPow, Correct;
    FieldPowPower(field, root, 0);
    PowZero(root);
    FieldDivQuotient(field, num, den);
    FieldMulProduct(field, 1, FieldDiv(field, num, den));
    OneMul(Mul(num, Inv(den)));
  }

  /** Subtract the values at their locations, one after the other. */
  function Corrected(p: Poly, locs: seq<nat>, vals: Poly): (q: Poly)
    requires |vals| == |locs| && forall j :: 0 <= j < |locs| ==> locs[j] < |p|
    ensures |q| == |p|
  {
    if locs == [] then p
    else
      var n := |locs| - 1;
      var t := Corrected(p, locs[..n], vals[..n]);
      t[locs[n] := Add(t[locs[n]], vals[n])]
  }

  method CorrectErrors(received: Polynomial, locations: array<byte>, vals: array<byte>, numErrors: nat)
    requires received.Valid() && received.order + 1 == received.coeff.Length
    requires received.coeff != locations && received.coeff != vals
    requires numErrors <= locations.Length && numErrors <= vals.Length
    requires forall j :: 0 <= j < numErrors ==> locations[j] < received.coeff.Length
    modifies received.coeff
    ensures received.Value() == Corrected(old(received.Value()), locations[..numErrors], vals[..numErrors])
  {
    hide Add;
    ghost var p, locs, v := received.Value(), locations[..numErrors], vals[..numErrors];
    assert locs[..0] == [] && v[..0] == [];
    for i := 0 to numErrors
      invariant locations[..numErrors] == locs && vals[..numErrors] == v
      invariant received.Value() == Corrected(p, locs[..i], v[..i])
    {
      assert locs[..i + 1][..i] == locs[..i] && v[..i + 1][..i] == v[..i];
      assert locations[i] == locs[i] && vals[i] == v[i];
      received.coeff[locations[i]] := FieldSub(received.coeff[locations[i]], vals[i]);
    }
    assert locs[..numErrors] == locs && v[..numErrors] == v;
  }

  /** The message bytes, highest order first. */
  method ExtractMessage(received: Polynomial, encodedLength: nat, msgLength: nat) returns (msg: seq<byte>)
    requires received.Valid() && msgLength <= encodedLength <= received.order + 1
    ensures |msg| == msgLength && forall i :: 0 <= i < msgLength ==> msg[i] == received.Value()[encodedLength - 1 - i]
  {
    var out := new byte[msgLength];
    for i := 0 to msgLength
      invariant forall j :: 0 <= j < i ==> out[j] == received.coeff[encodedLength - 1 - j]
    {
      out[i] := received.coeff[encodedLength - (i + 1)];
    }
    msg := out[..];
  }
}
