/** The decoder: its buffers, allocated on first use, and the decoding of one block. */
module RsDecoder {
  import opened Bits
  import opened Gf256
  import opened Poly
  import opened Convolution
  import opened Lfsr
  import opened FieldTables
  import opened PolyOps
  import opened BerlekampMassey
  import opened ErrorTheory
  import opened RsDecode
  import opened RsTheorems

  /** A word whose polynomial vanishes at all generator roots. */
  ghost predicate IsCodeword(word: seq<byte>, minDistance: nat) {
    |word| <= BLOCK_LENGTH && Vanishes(ToPoly(word), minDistance)
  }

  /** Horner's rule over the bytes in the order in which they are sent. */
  function Horner(word: seq<byte>, x: byte): byte {
    if word == [] then 0 else Add(Mul(x, Horner(word[..|word| - 1], x)), word[|word| - 1])
  }

  lemma {:induction false} HornerEval(word: seq<byte>, x: byte)
    requires |word| <= BLOCK_LENGTH
    ensures Eval(ToPoly(word), x) == Horner(word, x)
    decreases |word|
  {
    hide Mul, Add;
    if word == [] {
      EvalZero(ToPoly(word), x);
    } else {
      var n := |word| - 1;
      HornerEval(word[..n], x);
      var q := ToPoly(word[..n])[..BLOCK_LENGTH - 1];
      assert ToPoly(word[..n]) == q + [0];
      assert ToPoly(word)[0] == word[n] && ToPoly(word)[1..] == q;
      EvalConcat(q, [0], x);
      EvalZero([0], x);
      MulZero(Pow(x, |q|));
      AddZero(Eval(q, x));
      AddComm(word[n], Mul(x, Eval(q, x)));
    }
  }

  lemma RootValue(word: seq<byte>, k: nat)
    requires |word| <= BLOCK_LENGTH
    ensures Eval(ToPoly(word), GeneratorRoot(k)) == Horner(word, Exp(k + 1))
  {
    hide Exp, Eval, Horner;
    HornerEval(word, Exp(k + 1));
  }

  /** Horner's rule gives zero at the powers 1 to n of alpha. */
  ghost predicate Checks(word: seq<byte>, n: nat) {
    forall j :: 1 <= j <= n ==> Horner(word, Exp(j)) == 0
  }

  lemma HornerVanishes(word: seq<byte>, n: nat)
    requires |word| <= BLOCK_LENGTH && Checks(word, n)
    ensures Vanishes(ToPoly(word), n)
  {
    hide Horner, Eval, Exp, ToPoly, GeneratorRoot;
    forall k | 0 <= k < n ensures Eval(ToPoly(word), GeneratorRoot(k)) == 0 {
      RootValue(word, k);
    }
  }

  lemma VanishesHorner(word: seq<byte>, n: nat, j: nat)
    requires |word| <= BLOCK_LENGTH && Vanishes(ToPoly(word), n) && 1 <= j <= n
    ensures Horner(word, Exp(j)) == 0
  {
    hide Horner, Eval, Exp, ToPoly, GeneratorRoot;
    RootValue(word, j - 1);
  }

  /** Just the code words, in the order in which their bytes are sent, pass this check. */
  lemma CodewordSent(word: seq<byte>, n: nat)
    requires |word| <= 255
    ensures IsCodeword(word, n) <==> Checks(word, n)
  {
    hide ToPoly, Vanishes;
    if IsCodeword(word, n) {
      forall j | 1 <= j <= n ensures Horner(word, Exp(j)) == 0 {
        VanishesHorner(word, n, j);
      }
    } else if Checks(word, n) {
      HornerVanishes(word, n);
      assert false;
    }
  }

  /** With two roots the message 1 has the parity 6, 8: the generator is x^2 + 6 x + 8. */
  lemma SmallCodeword()
    ensures IsCodeword([1, 6, 8], 2)
  {
    hide Horner, IsCodeword, Exp;
    SmallSums();
    FirstPowers();
    forall j | 1 <= j <= 2 ensures Horner([1, 6, 8], Exp(j)) == 0 {
      if j == 1 {
      } else {
      }
    }
    CodewordSent([1, 6, 8], 2);
  }

  lemma FirstPowers()
    ensures Exp(1) == 2 && Exp(2) == 4
  {
    assert Exp(0) == 1;
    hide Exp;
  }

  lemma SmallSums()
    ensures Horner([1, 6, 8], 2) == 0 && Horner([1, 6, 8], 4) == 0
  {
    assert Horner([], 2) == 0 && Horner([], 4) == 0;
    hide Horner;
    SmallProducts();
    HornerStep([], 1, 2);
    HornerStep([], 1, 4);
    assert [] + [1] == [1] && [1] + [6] == [1, 6] && [1, 6] + [8] == [1, 6, 8];
    HornerStep([1], 6, 2);
    HornerStep([1], 6, 4);
    HornerStep([1, 6], 8, 2);
    HornerStep([1, 6], 8, 4);
    hide Mul, Add;
  }

  lemma HornerStep(word: seq<byte>, b: byte, x: byte)
    ensures Horner(word + [b], x) == Add(Mul(x, Horner(word, x)), b)
  {
    hide Mul, Add;
    assert (word + [b])[..|word|] == word;
  }

  lemma SmallProducts()
    ensures Mul(2, 0) == Mul(4, 0) == 0 && Mul(2, 1) == 2 && Mul(4, 1) == 4 && Mul(2, 4) == 8 && Mul(4, 2) == 8
    ensures Add(0, 1) == 1 && Add(2, 6) == 4 && Add(4, 6) == 2 && Add(8, 8) == 0
  {
  }

  datatype Result =
    | Decoded(msg: seq<byte>)
    | Failed
    // The locator has one coefficient more than the tables of powers have entries,
    // so the Chien search would read past their end.
    | TableOverrun

  // ----- steps of the argument

  lemma LocatorFacts(c: Poly, order: nat, s: Poly, n: nat)
    requires |s| == n && |c| == n + 1 && order <= n && !IsZero(s)
    requires Generates(c, order, s, n) && NoShorter(order, s, n)
    requires order == n > 0 ==> OnlyLast(s, n)
    ensures order >= 1 && c[0] == 1 && (order == n <==> OnlyLast(s, n))
    ensures Generates(c[..order + 1], order, s, n)
  {
    hide Conv;
    GeneratesCut(c, order, s, n);
    if order == 0 {
      forall k | 0 <= k < n ensures s[k] == 0 {
        ConvConstant(c, s, k);
      }
    }
    if OnlyLast(s, n) {
      OnlyLastLength(c, order, s, n);
    }
  }

  lemma ElementTablesPrefix(tables: seq<seq<byte>>, n: nat, m: nat)
    requires ElementTables(tables, n) && m <= n
    ensures ElementTables(tables, m)
  {
    hide Pow, Exp;
  }

  lemma ZeroSyndromes(p: Poly, n: nat)
    ensures Vanishes(p, n) <==> IsZero(Syndromes(p, n))
    ensures IsZero(Syndromes(p, n)) ==> !OnlyLast(Syndromes(p, n), n)
  {
    hide Eval, GeneratorRoot;
    var s := Syndromes(p, n);
    if IsZero(s) {
      forall k | 0 <= k < n ensures Eval(p, GeneratorRoot(k)) == 0 {
        assert s[k] == 0;
      }
    }
  }

  /** A locator with as many roots as cells splits, and zero is not a root. */
  lemma RootsSplit(c: Poly, order: nat, s: Poly, n: nat)
    requires |c| == order + 1 && Generates(c, order, s, n) && |RootsBelow(c, 256)| == order
    ensures SplitsAt(c, RootsBelow(c, 256))
  {
    hide Eval, Conv;
    EvalAtZero(c);
  }

  lemma SplitsNonzero(c: Poly, roots: Poly)
    requires SplitsAt(c, roots)
    ensures |c| == |roots| + 1 && forall j :: 0 <= j < |roots| ==> roots[j] != 0
  {
  }

  /** Some codeword lies within half the minimum distance. */
  ghost predicate WithinBound(encoded: seq<byte>, sent: seq<byte>, n: nat) {
    |sent| == |encoded| && IsCodeword(sent, n) && 2 * Distance(encoded, sent) <= n
  }

  /** Within the bound the locator is no longer than the number of errors, so it fits the tables and splits. */
  lemma LocateWithinBound(encoded: seq<byte>, n: nat, c: Poly, order: nat)
    requires n > 0 && |encoded| <= BLOCK_LENGTH && |c| == order + 1
    requires Generates(c, order, Syndromes(ToPoly(encoded), n), n)
    requires NoShorter(order, Syndromes(ToPoly(encoded), n), n)
    ensures forall sent: seq<byte> :: WithinBound(encoded, sent, n) ==>
      |RootsBelow(c, 256)| == order <= Distance(encoded, sent) < n
  {
    hide Generates, NoShorter, Syndromes, Vanishes, Support, Sum, ToPoly, Distance, RootsBelow;
    forall sent: seq<byte> | WithinBound(encoded, sent, n)
      ensures |RootsBelow(c, 256)| == order <= Distance(encoded, sent) < n
    {
      DistanceSupport(encoded, sent);
      LocatorComplete(ToPoly(encoded), ToPoly(sent), n, c, order);
    }
  }

  /** The message bytes of a word's polynomial. */
  ghost predicate MessageOf(q: Poly, msg: seq<byte>, length: nat) {
    |q| >= length >= |msg| && forall i :: 0 <= i < |msg| ==> msg[i] == q[length - 1 - i]
  }

  /** The message is that of a code word that differs from the received word in fewer places than the code has roots. */
  ghost predicate Corrects(encoded: seq<byte>, msg: seq<byte>, n: nat) {
    && n <= |encoded| <= BLOCK_LENGTH && |msg| == |encoded| - n
    && exists q: Poly ::
      |q| == BLOCK_LENGTH && Vanishes(q, n) && MessageOf(q, msg, |encoded|) && |Support(Sum(ToPoly(encoded), q))| < n
  }

  /** The locator has as many roots as the code, so the tables of powers are overrun. */
  ghost predicate Overruns(encoded: seq<byte>, n: nat) {
    |encoded| <= BLOCK_LENGTH && OnlyLast(Syndromes(ToPoly(encoded), n), n)
  }

  /** A shortest register for the syndromes has fewer roots than cells, so that it is no word's error locator. */
  ghost predicate Unsplit(encoded: seq<byte>, n: nat) {
    |encoded| <= BLOCK_LENGTH &&
    exists c: Poly, l: nat ::
      && |c| == l + 1 && Generates(c, l, Syndromes(ToPoly(encoded), n), n) && l < n
      && NoShorter(l, Syndromes(ToPoly(encoded), n), n) && |RootsBelow(c, 256)| < l
  }

  lemma UnsplitBy(encoded: seq<byte>, n: nat, c: Poly, l: nat)
    requires |encoded| <= BLOCK_LENGTH && |c| == l + 1 && l < n && Generates(c, l, Syndromes(ToPoly(encoded), n), n)
    requires NoShorter(l, Syndromes(ToPoly(encoded), n), n) && |RootsBelow(c, 256)| != l
    ensures Unsplit(encoded, n)
  {
    hide RootsBelow, Generates, NoShorter, Syndromes, ToPoly;
    LocatorRootCount(c, l, Syndromes(ToPoly(encoded), n), n);
  }

  /** A codeword no further from the received word than a codeword within the bound is that codeword. */
  lemma NearestCodeword(encoded: seq<byte>, n: nat, q: Poly, msg: seq<byte>, w: nat)
    requires |encoded| <= BLOCK_LENGTH && |q| == BLOCK_LENGTH && Vanishes(q, n)
    requires |Support(Sum(ToPoly(encoded), q))| <= w
    requires n <= |encoded| && |msg| == |encoded| - n && MessageOf(q, msg, |encoded|)
    ensures forall sent: seq<byte> :: WithinBound(encoded, sent, n) && w <= Distance(encoded, sent) ==>
      msg == sent[..|sent| - n]
  {
    hide Vanishes, Support, Sum, Distance;
    forall sent: seq<byte> | WithinBound(encoded, sent, n) && w <= Distance(encoded, sent)
      ensures msg == sent[..|sent| - n]
    {
      DistanceSupport(encoded, sent);
      UniqueCodeword(ToPoly(encoded), ToPoly(sent), q, n);
    }
  }

  lemma NoCorrection(p: Poly)
    ensures |Support(Sum(p, p))| == 0
  {
    hide Add;
    forall i | 0 <= i < |p| ensures Sum(p, p)[i] == 0 {
      AddSelf(p[i]);
    }
    SupportZero(Sum(p, p));
  }

  // ----- the buffers

  /** The powers of every generator root, one for each coefficient of a block. */
  method BuildRootTables(field: Field, generatorRoots: array<byte>) returns (tables: seq<seq<byte>>)
    requires Correct(field)
    requires forall k :: 0 <= k < generatorRoots.Length ==> generatorRoots[k] == GeneratorRoot(k)
    ensures RootTables(tables, generatorRoots.Length)
  {
    hide GeneratorRoot, PowerTable, Correct;
    tables := [];
    for i := 0 to generatorRoots.Length
      invariant RootTables(tables, i)
    {
      var table := PolynomialBuildExpLut(field, generatorRoots[i], BLOCK_LENGTH - 1);
      tables := tables + [table];
    }
  }

  /** The first powers of every field element. */
  method BuildElementTables(field: Field, minDistance: nat) returns (tables: seq<seq<byte>>)
    requires Correct(field) && 0 < minDistance
    ensures ElementTables(tables, minDistance)
  {
    hide PowerTable, Correct;
    tables := [];
    for i := 0 to 256
      invariant |tables| == i && forall k :: 0 <= k < i ==> PowerTable(tables[k], k, minDistance)
    {
      var table := PolynomialBuildExpLut(field, i, minDistance - 1);
      tables := tables + [table];
    }
  }

  method NewErrorBuffers(n: nat) returns (syndromes: array<byte>, roots: array<byte>, vals: array<byte>, locations: array<byte>)
    ensures fresh(syndromes) && fresh(roots) && fresh(vals) && fresh(locations)
    ensures syndromes.Length == vals.Length == locations.Length == n && roots.Length == 2 * n
    ensures syndromes != roots && syndromes != vals && syndromes != locations
    ensures roots != vals && roots != locations && vals != locations
  {
    syndromes := new byte[n](_ => 0);
    roots := new byte[2 * n](_ => 0);
    vals := new byte[n];
    locations := new byte[n];
  }

  method NewLocators(n: nat)
    returns (received: Polynomial, locator: Polynomial, locatorLog: Polynomial, last: Polynomial)
    ensures fresh(received) && fresh(locator) && fresh(locatorLog) && fresh(last)
    ensures fresh(received.coeff) && fresh(locator.coeff) && fresh(locatorLog.coeff) && fresh(last.coeff)
    ensures received.coeff.Length == BLOCK_LENGTH && received.order == BLOCK_LENGTH - 1
    ensures locator.coeff.Length == locatorLog.coeff.Length == last.coeff.Length == n + 1
    ensures received != locator && received != locatorLog && received != last
    ensures locator != locatorLog && locator != last && locatorLog != last
    ensures received.coeff != locator.coeff && received.coeff != locatorLog.coeff && received.coeff != last.coeff
    ensures locator.coeff != locatorLog.coeff && locator.coeff != last.coeff && locatorLog.coeff != last.coeff
  {
    received := new Polynomial(BLOCK_LENGTH - 1);
    locator := new Polynomial(n);
    locatorLog := new Polynomial(n);
    last := new Polynomial(n);
  }

  class Decoder {
    const field: Field
    const minDistance: nat
    const syndromes: array<byte>
    const receivedPolynomial: Polynomial
    const errorLocator: Polynomial
    const errorLocatorLog: Polynomial
    const lastErrorLocator: Polynomial
    const errorEvaluator: Polynomial
    const errorLocatorDerivative: Polynomial
    const errorRoots: array<byte>
    const errorVals: array<byte>
    const errorLocations: array<byte>
    const generatorRootExp: seq<seq<byte>>
    const elementExp: seq<seq<byte>>

    /** Everything decoding writes to. */
    ghost function Objects(): set<object> {
      {syndromes, receivedPolynomial.coeff, errorLocator, errorLocator.coeff, errorLocatorLog, errorLocatorLog.coeff,
       lastErrorLocator, lastErrorLocator.coeff, errorEvaluator.coeff, errorLocatorDerivative,
       errorLocatorDerivative.coeff, errorRoots, errorVals, errorLocations}
    }

    /** No two buffers share memory. */
    ghost predicate Separate() {
      && syndromes != receivedPolynomial.coeff && syndromes != errorLocator.coeff
      && syndromes != errorLocatorLog.coeff && syndromes != lastErrorLocator.coeff
      && syndromes != errorEvaluator.coeff && syndromes != errorLocatorDerivative.coeff && syndromes != errorRoots
      && syndromes != errorVals && syndromes != errorLocations
      && receivedPolynomial.coeff != errorLocator.coeff && receivedPolynomial.coeff != errorLocatorLog.coeff
      && receivedPolynomial.coeff != lastErrorLocator.coeff && receivedPolynomial.coeff != errorEvaluator.coeff
      && receivedPolynomial.coeff != errorLocatorDerivative.coeff && receivedPolynomial.coeff != errorRoots
      && receivedPolynomial.coeff != errorVals && receivedPolynomial.coeff != errorLocations
      && errorLocator.coeff != errorLocatorLog.coeff && errorLocator.coeff != lastErrorLocator.coeff
      && errorLocator.coeff != errorEvaluator.coeff && errorLocator.coeff != errorLocatorDerivative.coeff
      && errorLocator.coeff != errorRoots && errorLocator.coeff != errorVals && errorLocator.coeff != errorLocations
      && errorLocatorLog.coeff != lastErrorLocator.coeff && errorLocatorLog.coeff != errorEvaluator.coeff
      && errorLocatorLog.coeff != errorLocatorDerivative.coeff && errorLocatorLog.coeff != errorRoots
      && errorLocatorLog.coeff != errorVals && errorLocatorLog.coeff != errorLocations
      && lastErrorLocator.coeff != errorEvaluator.coeff && lastErrorLocator.coeff != errorLocatorDerivative.coeff
      && lastErrorLocator.coeff != errorRoots && lastErrorLocator.coeff != errorVals
      && lastErrorLocator.coeff != errorLocations
      && errorEvaluator.coeff != errorLocatorDerivative.coeff && errorEvaluator.coeff != errorRoots
      && errorEvaluator.coeff != errorVals && errorEvaluator.coeff != errorLocations
      && errorLocatorDerivative.coeff != errorRoots && errorLocatorDerivative.coeff != errorVals
      && errorLocatorDerivative.coeff != errorLocations
      && errorRoots != errorVals && errorRoots != errorLocations
      && errorVals != errorLocations
      && receivedPolynomial != errorLocator && receivedPolynomial != errorLocatorLog
      && receivedPolynomial != lastErrorLocator && receivedPolynomial != errorLocatorDerivative
      && errorLocator != errorLocatorLog && errorLocator != lastErrorLocator && errorLocator != errorEvaluator
      && errorLocator != errorLocatorDerivative
      && errorLocatorLog != lastErrorLocator && errorLocatorLog != errorEvaluator
      && errorLocatorLog != errorLocatorDerivative
      && lastErrorLocator != errorEvaluator && lastErrorLocator != errorLocatorDerivative
      && errorEvaluator != errorLocatorDerivative
    }

    ghost predicate Valid()
      reads receivedPolynomial, errorEvaluator
    {
      && Separate() && Correct(field) && 0 < minDistance < BLOCK_LENGTH
      && syndromes.Length == errorEvaluator.coeff.Length == errorLocatorDerivative.coeff.Length == minDistance
      && errorVals.Length == errorLocations.Length == minDistance && errorRoots.Length == 2 * minDistance
      && receivedPolynomial.coeff.Length == BLOCK_LENGTH && receivedPolynomial.order == BLOCK_LENGTH - 1
      && errorLocator.coeff.Length == errorLocatorLog.coeff.Length == lastErrorLocator.coeff.Length == minDistance + 1
      && errorEvaluator.order == minDistance - 1
      && RootTables(generatorRootExp, minDistance) && ElementTables(elementExp, minDistance)
    }

    constructor (field: Field, minDistance: nat, generatorRoots: array<byte>)
      requires Correct(field) && 0 < minDistance < BLOCK_LENGTH && generatorRoots.Length == minDistance
      requires forall k :: 0 <= k < minDistance ==> generatorRoots[k] == GeneratorRoot(k)
      ensures Valid() && fresh(Objects()) && this.field == field && this.minDistance == minDistance
    {
      hide Exp, RootTables, ElementTables, Correct;
      this.field := field;
      this.minDistance := minDistance;
      var s, r, v, l := NewErrorBuffers(minDistance);
      var p, loc, locLog, last := NewLocators(minDistance);
      var rootTables := BuildRootTables(field, generatorRoots);
      var elementTables := BuildElementTables(field, minDistance);
      syndromes, errorRoots, errorVals, errorLocations := s, r, v, l;
      receivedPolynomial, errorLocator, errorLocatorLog, lastErrorLocator := p, loc, locLog, last;
      errorEvaluator := new Polynomial(minDistance - 1);
      errorLocatorDerivative := new Polynomial(minDistance - 1);
      generatorRootExp, elementExp := rootTables, elementTables;
    }

    /** Syndromes of a word; true when it is a codeword already. */
    method Receive(encoded: seq<byte>) returns (allZero: bool)
      requires Valid() && |encoded| <= BLOCK_LENGTH
      modifies receivedPolynomial.coeff, syndromes
      ensures Valid()
      ensures receivedPolynomial.Value() == ToPoly(encoded)
      ensures syndromes[..] == Syndromes(ToPoly(encoded), minDistance)
      ensures allZero <==> Vanishes(ToPoly(encoded), minDistance)
    {
      hide Correct, RootTables, ElementTables, ToPoly, Syndromes, Vanishes;
      LoadReceived(encoded, receivedPolynomial);
      allZero := FindSyndromes(field, receivedPolynomial, generatorRootExp, syndromes);
    }

    /** The locator of the current syndromes and, if it splits, all its roots. */
    method Locate(ghost s: Poly) returns (order: nat, overrun: bool, complete: bool)
      requires Valid() && s == syndromes[..] && !IsZero(s)
      modifies errorLocator, errorLocator.coeff, lastErrorLocator, lastErrorLocator.coeff,
               errorLocatorLog, errorLocatorLog.coeff, errorRoots
      ensures Valid() && errorLocator.order == order && 1 <= order <= minDistance
      ensures syndromes[..] == s && receivedPolynomial.Value() == old(receivedPolynomial.Value())
      ensures Generates(errorLocator.Value(), order, s, minDistance) && NoShorter(order, s, minDistance)
      ensures overrun <==> OnlyLast(s, minDistance)
      ensures overrun <==> order == minDistance
      ensures !overrun ==> (complete <==> |RootsBelow(errorLocator.Value(), 256)| == order)
      ensures !overrun && complete ==> errorRoots[..order] == RootsBelow(errorLocator.Value(), 256)
    {
      hide Correct, RootTables, ElementTables, Generates, NoShorter, RootsBelow, LogForm, Conv;
      order := FindErrorLocator(field, syndromes, errorLocator, lastErrorLocator);
      ghost var c := errorLocator.coeff[..];
      LocatorFacts(c, order, s, minDistance);
      overrun := order >= minDistance;
      complete := false;
      if !overrun {
        LocatorToLog(field, errorLocator, errorLocatorLog);
        ElementTablesPrefix(elementExp, minDistance, order + 1);
        complete := FactorizeErrorLocator(field, errorLocatorLog, errorRoots, elementExp, errorLocator.Value());
      }
    }

    /** Locations and values of the errors, subtracted from the received polynomial. */
    method Repair(ghost s: Poly, ghost roots: Poly)
      requires Valid() && s == syndromes[..] && errorLocator.Valid() && 1 <= errorLocator.order < minDistance
      requires roots == errorRoots[..errorLocator.order] && SplitsAt(errorLocator.Value(), roots)
      requires s == Syndromes(receivedPolynomial.Value(), minDistance)
      requires Generates(errorLocator.Value(), |roots|, s, minDistance)
      modifies errorEvaluator.coeff, errorLocatorDerivative, errorLocatorDerivative.coeff,
               errorLocations, errorVals, receivedPolynomial.coeff
      ensures Valid() && Vanishes(receivedPolynomial.Value(), minDistance)
      ensures |Support(Sum(old(receivedPolynomial.Value()), receivedPolynomial.Value()))| <= |roots|
    {
      hide Correct, RootTables, ElementTables, Generates, SplitsAt, Syndromes, Vanishes, Corrected, Support, Sum, Exp, Inv, ForneyValue;
      ghost var p, c, order := receivedPolynomial.Value(), errorLocator.Value(), errorLocator.order;
      SplitsNonzero(c, roots);
      FindErrorLocations(field, GENERATOR_ROOT_GAP, errorRoots, errorLocations, errorLocator.order);
      ghost var locs := errorLocations[..order];
      FindErrorValues(field, syndromes, errorLocator, errorEvaluator, errorLocatorDerivative, errorRoots, errorVals, elementExp);
      ghost var vals := errorVals[..order];
      assert ForneyValues(c, s, roots, vals) && LocatedAt(locs, roots);
      CorrectErrors(receivedPolynomial, errorLocations, errorVals, errorLocator.order);
      DecodeSound(p, minDistance, c, roots, locs, vals);
      CorrectedWeight(p, locs, vals);
    }

    /** Decode one block of at most 255 bytes, the parity included. */
    method Decode(encoded: seq<byte>) returns (res: Result)
      requires Valid() && minDistance <= |encoded|
      modifies Objects()
      ensures Valid()
      ensures |encoded| > BLOCK_LENGTH ==> res == Failed
      // the tables are overrun exactly when all syndromes but the last are zero
      ensures res == TableOverrun <==> Overruns(encoded, minDistance)
      // it fails only when a shortest register is no locator
      ensures |encoded| <= BLOCK_LENGTH && res == Failed ==> Unsplit(encoded, minDistance)
      // soundness on every word: a decoded block is a codeword
      ensures res.Decoded? ==> Vanishes(receivedPolynomial.Value(), minDistance)
      ensures res.Decoded? ==>
        |res.msg| == |encoded| - minDistance && MessageOf(receivedPolynomial.Value(), res.msg, |encoded|)
      ensures res.Decoded? ==> Corrects(encoded, res.msg, minDistance)
      // bounded-distance decoding
      ensures forall sent: seq<byte> :: WithinBound(encoded, sent, minDistance) ==>
        res == Decoded(sent[..|sent| - minDistance])
    {
      hide Correct, RootTables, ElementTables, Generates, NoShorter, SplitsAt, Syndromes, Vanishes, Support, Sum, ToPoly,
           Distance, OnlyLast, RootsBelow, WithinBound, Separate, Unsplit;
      if |encoded| > BLOCK_LENGTH {
        LongWord(encoded, minDistance);
        return Failed;
      }
      var msgLength := |encoded| - minDistance;
      ghost var p := ToPoly(encoded);
      ghost var s := Syndromes(p, minDistance);
      ghost var w := 0;
      WithinBoundLength(encoded, minDistance);
      var allZero := Receive(encoded);
      ZeroSyndromes(p, minDistance);
      NoCorrection(p);
      if !allZero {
        var order, overrun, complete := Locate(s);
        ghost var c := errorLocator.Value();
        LocateWithinBound(encoded, minDistance, c, order);
        if overrun {
          return TableOverrun;
        }
        if !complete {
          UnsplitBy(encoded, minDistance, c, order);
          return Failed;
        }
        RootsSplit(c, order, s, minDistance);
        Repair(s, RootsBelow(c, 256));
        w := order;
      }
      ghost var q := receivedPolynomial.Value();
      var msg := ExtractMessage(receivedPolynomial, |encoded|, msgLength);
      NearestCodeword(encoded, minDistance, q, msg, w);
      res := Decoded(msg);
    }
  }

  lemma LongWord(encoded: seq<byte>, n: nat)
    requires |encoded| > BLOCK_LENGTH
    ensures forall sent: seq<byte> :: !WithinBound(encoded, sent, n)
  {
    hide Vanishes;
  }

  lemma WithinBoundLength(encoded: seq<byte>, n: nat)
    ensures forall sent: seq<byte> :: WithinBound(encoded, sent, n) ==> |sent| == |encoded|
  {
    hide Vanishes, Distance;
  }
}
