/** The Reed-Solomon codec: generator, systematic encoder, and the decoder created on first use. */
module ReedSolomon {
  import opened Bits
  import opened Gf256
  import opened Poly
  import opened FieldTables
  import opened PolyOps
  import opened PolyDivision
  import opened ErrorTheory
  import opened RsDecode
  import opened RsDecoder

  // ----- the generator

  ghost predicate ConsecutiveRoots(roots: seq<byte>) {
    forall k :: 0 <= k < |roots| ==> roots[k] == GeneratorRoot(k)
  }

  /** Consecutive powers of alpha, and the monic polynomial with these roots. */
  method BuildGenerator(field: Field, nroots: nat, firstConsecutiveRoot: nat, rootGap: nat)
    returns (generator: Polynomial, roots: array<byte>)
    requires Correct(field) && 0 < nroots < BLOCK_LENGTH
    requires firstConsecutiveRoot == FIRST_CONSECUTIVE_ROOT && rootGap == GENERATOR_ROOT_GAP
    ensures fresh(generator) && fresh(generator.coeff) && fresh(roots) && generator.coeff != roots
    ensures roots.Length == nroots && ConsecutiveRoots(roots[..])
    ensures generator.order == nroots && generator.coeff.Length == nroots + 1
    ensures FromRoots(generator.Value(), roots[..])
  {
    hide Exp, FromRoots;
    roots := new byte[nroots];
    for i := 0 to nroots
      invariant forall k :: 0 <= k < i ==> roots[k] == GeneratorRoot(k)
    {
      roots[i] := field.exp[(rootGap * (i + firstConsecutiveRoot)) % 255];
    }
    generator := PolynomialCreateFromRoots(field, roots);
  }

  // ----- what the encoder leaves behind

  /** The word of a message and its parity. */
  lemma EncodedVanishes(message: Poly, remainder: Poly, generator: Poly, roots: seq<byte>, q: Poly, n: nat)
    requires |message| == |remainder| == BLOCK_LENGTH && |roots| == n
    requires FromRoots(generator, roots) && ConsecutiveRoots(roots)
    requires Divides(message, generator, q, remainder)
    ensures Vanishes(Sum(message, remainder), n)
  {
    hide Mul, Add, Eval, RootProduct, GeneratorRoot;
    forall k | 0 <= k < n ensures Eval(Sum(message, remainder), GeneratorRoot(k)) == 0 {
      var x := GeneratorRoot(k);
      EvalSum(message, remainder, x);
      assert roots[k] == x;
      RootProductZero(roots, k);
      assert Eval(generator, x) == RootProduct(roots, x);
      MulNonzero(Eval(q, x), 0);
      AddZero(Eval(remainder, x));
      AddSelf(Eval(remainder, x));
    }
  }

  /** Coefficient i of the polynomial of a message followed by n zeros. */
  function MessageCoef(msg: seq<byte>, i: nat, n: nat): byte {
    if n <= i < n + |msg| then msg[n + |msg| - 1 - i] else 0
  }

  /** The low coefficients of the remainder, highest order first. */
  function Parity(remainder: Poly, n: nat): seq<byte>
    requires n <= |remainder|
  {
    seq(n, i requires 0 <= i < n => remainder[n - 1 - i])
  }

  /** The word sent is the sum of message polynomial and remainder. */
  lemma EmittedWord(msg: seq<byte>, message: Poly, remainder: Poly, n: nat)
    requires 0 < n < BLOCK_LENGTH && |msg| + n <= BLOCK_LENGTH
    requires |message| == |remainder| == BLOCK_LENGTH
    requires forall i :: 0 <= i < BLOCK_LENGTH ==> message[i] == MessageCoef(msg, i, n)
    requires forall i :: n <= i < BLOCK_LENGTH ==> remainder[i] == 0
    ensures ToPoly(msg + Parity(remainder, n)) == Sum(message, remainder)
  {
    hide Add;
    var word := msg + Parity(remainder, n);
    forall i | 0 <= i < BLOCK_LENGTH ensures ToPoly(word)[i] == Sum(message, remainder)[i] {
      AddZero(message[i]);
      AddZero(remainder[i]);
    }
  }

  class ReedSolomon {
    const blockLength: nat := BLOCK_LENGTH
    const messageLength: nat
    const minDistance: nat
    const field: Field
    const generator: Polynomial
    const generatorRoots: array<byte>
    const encodedPolynomial: Polynomial
    const encodedRemainder: Polynomial
    var decoder: Decoder?
    /** The objects the decoder depends on. */
    ghost var repr: set<object>

    ghost predicate ValidEncoder()
      reads EncoderObjects()
    {
      && Correct(field) && 0 < minDistance < blockLength && messageLength == blockLength - minDistance
      && generatorRoots.Length == minDistance && ConsecutiveRoots(generatorRoots[..])
      && generator.order == minDistance && generator.coeff.Length == minDistance + 1
      && FromRoots(generator.Value(), generatorRoots[..])
      && encodedPolynomial.order == encodedRemainder.order == blockLength - 1
      && encodedPolynomial.coeff.Length == encodedRemainder.coeff.Length == blockLength
      && encodedRemainder.coeff != encodedPolynomial.coeff && encodedRemainder.coeff != generator.coeff
      && encodedPolynomial.coeff != generator.coeff
      && generatorRoots != encodedPolynomial.coeff && generatorRoots != encodedRemainder.coeff
    }

    /** The objects the encoder depends on. */
    ghost function EncoderObjects(): set<object> {
      {generator, generator.coeff, generatorRoots, encodedPolynomial, encodedPolynomial.coeff,
       encodedRemainder, encodedRemainder.coeff}
    }

    ghost predicate Valid()
      reads this, EncoderObjects(), repr
    {
      && ValidEncoder()
      && (decoder == null ==> repr == {})
      && (decoder != null ==>
          && repr == decoder.Objects() + {decoder.receivedPolynomial, decoder.errorEvaluator}
          && decoder.Valid() && decoder.field == field && decoder.minDistance == minDistance)
      && EncoderObjects() !! repr && this !in EncoderObjects() && this !in repr
    }

    constructor (primitivePolynomial: nat, firstConsecutiveRoot: nat, generatorRootGap: nat, numRoots: nat)
      requires primitivePolynomial == FIELD_POLYNOMIAL && 0 < numRoots < BLOCK_LENGTH
      requires firstConsecutiveRoot == FIRST_CONSECUTIVE_ROOT && generatorRootGap == GENERATOR_ROOT_GAP
      ensures Valid() && minDistance == numRoots && decoder == null && repr == {}
      ensures fresh(EncoderObjects())
    {
      hide Correct, FromRoots, ConsecutiveRoots;
      var f := CreateField(primitivePolynomial);
      field := f;
      minDistance := numRoots;
      messageLength := BLOCK_LENGTH - numRoots;
      var g, r := BuildGenerator(f, numRoots, firstConsecutiveRoot, generatorRootGap);
      generator, generatorRoots := g, r;
      encodedPolynomial := new Polynomial(BLOCK_LENGTH - 1);
      encodedRemainder := new Polynomial(BLOCK_LENGTH - 1);
      decoder := null;
      repr := {};
    }

    /** Message followed by parity; -1 when the message does not fit, else the block length. */
    method Encode(msg: seq<byte>) returns (ret: int, encoded: seq<byte>)
      requires Valid()
      modifies encodedPolynomial.coeff, encodedRemainder.coeff
      ensures Valid()
      ensures |msg| + minDistance > 255 ==> ret == -1 && encoded == []
      ensures |msg| + minDistance <= 255 ==> ret == 255 && |encoded| == |msg| + minDistance
      ensures |msg| + minDistance <= 255 ==> encoded[..|msg|] == msg && IsCodeword(encoded, minDistance)
    {
      hide Correct, FromRoots, ConsecutiveRoots, Divides, Vanishes, Sum;
      if |msg| > messageLength {
        return -1, [];
      }
      LoadMessage(msg);
      ghost var message := encodedPolynomial.Value();
      LeadingOne();
      ghost var q := PolynomialMod(field, encodedPolynomial, generator, encodedRemainder);
      ghost var remainder := encodedRemainder.Value();
      EncodedVanishes(message, remainder, generator.Value(), generatorRoots[..], q, minDistance);
      encoded := Emit(msg);
      EmittedWord(msg, message, remainder, minDistance);
      ret := blockLength;
    }

    lemma LeadingOne()
      requires ValidEncoder()
      ensures generator.coeff[generator.order] != 0
    {
      hide Correct, RootProduct, Eval;
      assert generator.Value()[minDistance] == 1;
    }

    /** The message in the upper coefficients, highest order first, zeros elsewhere. */
    method LoadMessage(msg: seq<byte>)
      requires ValidEncoder() && |msg| <= messageLength
      modifies encodedPolynomial.coeff
      ensures ValidEncoder()
      ensures forall i :: 0 <= i < blockLength ==> encodedPolynomial.coeff[i] == MessageCoef(msg, i, minDistance)
    {
      hide Correct, FromRoots, ConsecutiveRoots;
      var c := encodedPolynomial.coeff;
      var padLength := messageLength - |msg|;
      ghost var top := minDistance + |msg|;
      for i := 0 to |msg|
        invariant ValidEncoder()
        invariant forall k :: top - i <= k < top ==> c[k] == MessageCoef(msg, k, minDistance)
      {
        c[encodedPolynomial.order - (i + padLength)] := msg[i];
      }
      for j := 0 to padLength
        invariant ValidEncoder()
        invariant forall k :: minDistance <= k < top ==> c[k] == MessageCoef(msg, k, minDistance)
        invariant forall k :: top <= k < top + j ==> c[k] == 0
      {
        c[encodedPolynomial.order + 1 - padLength + j] := 0;
      }
      for j := 0 to encodedPolynomial.order + 1 - messageLength
        invariant ValidEncoder()
        invariant forall k :: minDistance <= k < top ==> c[k] == MessageCoef(msg, k, minDistance)
        invariant forall k :: top <= k < blockLength ==> c[k] == 0
        invariant forall k :: 0 <= k < j ==> c[k] == 0
      {
        c[j] := 0;
      }
    }

    /** Byte order back to highest order first: the message, then the remainder. */
    method Emit(msg: seq<byte>) returns (encoded: seq<byte>)
      requires ValidEncoder() && |msg| <= messageLength
      requires forall i :: 0 <= i < blockLength ==> encodedPolynomial.coeff[i] == MessageCoef(msg, i, minDistance)
      ensures encoded == msg + Parity(encodedRemainder.Value(), minDistance)
    {
      hide Correct, FromRoots, ConsecutiveRoots;
      var out := new byte[|msg| + minDistance];
      var padLength := messageLength - |msg|;
      ghost var parity := Parity(encodedRemainder.Value(), minDistance);
      for i := 0 to |msg|
        invariant forall j :: 0 <= j < i ==> out[j] == msg[j]
      {
        out[i] := encodedPolynomial.coeff[encodedPolynomial.order - (i + padLength)];
      }
      for i := 0 to minDistance
        invariant forall j :: 0 <= j < |msg| + i ==> out[j] == (msg + parity)[j]
      {
        out[|msg| + i] := encodedRemainder.coeff[minDistance - (i + 1)];
      }
      encoded := out[..];
    }

    /** Set up the decoder's buffers and tables. */
    method CreateDecoder()
      requires Valid() && decoder == null
      modifies this
      ensures Valid() && decoder != null && fresh(repr)
    {
      hide Correct, FromRoots, ConsecutiveRoots;
      RootsAre();
      decoder := new Decoder(field, minDistance, generatorRoots);
      repr := decoder.Objects() + {decoder.receivedPolynomial, decoder.errorEvaluator};
    }

    /** Decode one block, setting up the decoder the first time. */
    method Decode(encoded: seq<byte>) returns (res: Result)
      requires Valid() && minDistance <= |encoded|
      modifies this, repr
      ensures Valid() && fresh(repr - old(repr))
      ensures |encoded| > 255 ==> res == Failed
      ensures res == TableOverrun <==> Overruns(encoded, minDistance)
      ensures |encoded| <= blockLength && res == Failed ==> Unsplit(encoded, minDistance)
      ensures res.Decoded? ==> Corrects(encoded, res.msg, minDistance)
      ensures forall sent: seq<byte> :: WithinBound(encoded, sent, minDistance) ==>
        res == Decoded(sent[..|sent| - minDistance])
    {
      hide Correct, FromRoots, ConsecutiveRoots, WithinBound, Vanishes, MessageOf, ValidEncoder, Decoder.Valid,
           Corrects, Syndromes, Unsplit;
      if |encoded| > blockLength {
        LongWord(encoded, minDistance);
        return Failed;
      }
      if decoder == null {
        CreateDecoder();
      }
      res := decoder.Decode(encoded);
    }

    lemma RootsAre()
      requires ValidEncoder()
      ensures forall k :: 0 <= k < minDistance ==> generatorRoots[k] == GeneratorRoot(k)
    {
      hide Correct, FromRoots, GeneratorRoot;
      assert forall k :: 0 <= k < minDistance ==> generatorRoots[k] == generatorRoots[..][k];
    }
  }
}
