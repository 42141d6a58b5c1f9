/** The words on which the decoder's tables of powers are overrun: there are some of every length, and no code word is near
    them. */
module RsOverrun {
  import opened Bits
  import opened Gf256
  import opened Poly
  import opened Convolution
  import opened Lfsr
  import opened PolyOps
  import opened PolyDivision
  import opened ErrorTheory
  import opened RsDecode
  import opened RsTheorems
  import opened RsDecoder

  /** The first n generator roots. */
  function FirstRoots(n: nat): (roots: seq<byte>)
    ensures |roots| == n
  {
    seq(n, i requires 0 <= i < n => GeneratorRoot(i))
  }

  /** The monic polynomial with just these roots. */
  lemma {:induction false} MonicPoly(n: nat) returns (p: Poly)
    ensures FromRoots(p, FirstRoots(n))
  {
    hide Eval, Conv, GeneratorRoot;
    if n == 0 {
      p := [1];
      EvalOne();
      assert FirstRoots(0) == [];
    } else {
      var q := MonicPoly(n - 1);
      var l := [GeneratorRoot(n - 1), 1];
      p := ProductPoly(l, q);
      FromRootsStep(q, FirstRoots(n - 1), l, GeneratorRoot(n - 1), p);
      assert FirstRoots(n) == FirstRoots(n - 1) + [GeneratorRoot(n - 1)];
    }
  }

  lemma EvalOne()
    ensures forall x: byte :: Eval([1], x) == 1
  {
    forall x: byte ensures Eval([1], x) == 1 {
      hide Mul, Add;
      assert Eval([1], x) == Add(1, Mul(x, Eval([], x)));
      MulZero(x);
      AddZero(1);
    }
  }

  /** At another power of alpha the product of the differences is not zero. */
  lemma {:induction false} ProductNonzero(n: nat, k: nat)
    requires n <= k < 254
    ensures RootProduct(FirstRoots(n), GeneratorRoot(k)) != 0
  {
    hide Mul, Add, Exp;
    if n != 0 {
      var x, r := GeneratorRoot(k), GeneratorRoot(n - 1);
      assert FirstRoots(n) == FirstRoots(n - 1) + [r];
      ProductNonzero(n - 1, k);
      RootProductSnoc(FirstRoots(n - 1), r, x);
      ExpSeparates(k + 1, n);
      AddEqualZero(x, r);
      MulNonzero(Add(x, r), RootProduct(FirstRoots(n - 1), x));
    }
  }

  /** The bytes of a polynomial, highest order first, after as many zeros as the length leaves. */
  function WordOf(p: Poly, length: nat): (word: seq<byte>)
    requires |p| <= length
    ensures |word| == length
  {
    seq(length, i requires 0 <= i < length => if i < length - |p| then 0 else p[length - 1 - i])
  }

  /** Words of every length from n to 255 have all of n syndromes but the last zero. */
  lemma OverrunWord(n: nat, length: nat) returns (word: seq<byte>)
    requires 0 < n <= length <= BLOCK_LENGTH && n < 255
    ensures |word| == length && OnlyLast(Syndromes(ToPoly(word), n), n)
  {
    hide Eval, GeneratorRoot, RootProduct;
    var roots := FirstRoots(n - 1);
    var p := MonicPoly(n - 1);
    word := WordOf(p, length);
    var zeros := Zeros(BLOCK_LENGTH - n);
    assert ToPoly(word) == p + zeros;
    var s := Syndromes(ToPoly(word), n);
    forall k | 0 <= k < n ensures s[k] == RootProduct(roots, GeneratorRoot(k)) {
      EvalPadded(p, zeros, GeneratorRoot(k));
      assert s[k] == Eval(ToPoly(word), GeneratorRoot(k));
    }
    ProductNonzero(n - 1, n - 1);
    forall k | 0 <= k < n - 1 ensures s[k] == 0 {
      RootProductZero(roots, k);
    }
  }

  lemma EvalPadded(p: Poly, zeros: Poly, x: byte)
    requires IsZero(zeros)
    ensures Eval(p + zeros, x) == Eval(p, x)
  {
    hide Eval, Mul, Add;
    EvalConcat(p, zeros, x);
    EvalZero(zeros, x);
    MulZero(Pow(x, |p|));
    AddZero(Eval(p, x));
  }

  // ----- how far they are from code words

  /** The locator of fewer errors than the code has roots would be too short a register for the syndromes. */
  lemma FarFromCodewords(p: Poly, cw: Poly, n: nat)
    requires |p| == |cw| == BLOCK_LENGTH && Vanishes(cw, n) && 0 < n && OnlyLast(Syndromes(p, n), n)
    ensures |Support(Sum(p, cw))| >= n
  {
    hide Add, Mul, Eval, Dot, Support, Exp, Inv, Conv, LocatorOf, Generates, Vanishes, OnlyLast, Syndromes;
    var e := Sum(p, cw);
    var locs := Support(e);
    var vals, xs := Pick(e, locs), Points(locs);
    PointsDistinct(locs);
    forall j | 0 <= j < |xs| ensures Eval(LocatorOf(xs), Inv(xs[j])) == 0 {
      LocatorOfProperty(xs, j);
    }
    SyndromesOfErrors(p, cw, n);
    LocatorOfProperty(xs, |xs|);
    PowerSumsGenerated(LocatorOf(xs), Product(vals, xs), xs, n);
    OnlyLastLength(LocatorOf(xs), |xs|, Syndromes(p, n), n);
  }

  /** No message can be decoded from a word that overruns the tables. */
  lemma OverrunFar(word: seq<byte>, msg: seq<byte>, n: nat)
    requires 0 < n && Overruns(word, n)
    ensures !Corrects(word, msg, n)
  {
    hide Vanishes, Support, Syndromes, OnlyLast, MessageOf;
    if Corrects(word, msg, n) {
      var q: Poly :|
        |q| == BLOCK_LENGTH && Vanishes(q, n) && MessageOf(q, msg, |word|) && |Support(Sum(ToPoly(word), q))| < n;
      FarFromCodewords(ToPoly(word), q, n);
      assert false;
    }
  }
}
