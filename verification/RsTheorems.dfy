/** What the decoder's phases add up to: soundness on every word and bounded-distance decoding. */
module RsTheorems {
  import opened Bits
  import opened Gf256
  import opened Poly
  import opened Convolution
  import opened Lfsr
  import opened PolyDivision
  import opened ErrorTheory
  import opened RsDecode

  // ----- corrections

  lemma {:induction false} CorrectedEval(p: Poly, locs: seq<nat>, vals: Poly, x: byte)
    requires |vals| == |locs| && forall j :: 0 <= j < |locs| ==> locs[j] < |p|
    ensures Eval(Corrected(p, locs, vals), x) == Add(Eval(p, x), Dot(vals, Terms(locs, x)))
    decreases |locs|
  {
    hide Mul, Add, Eval, Pow;
    if locs == [] {
      AddZero(Eval(p, x));
    } else {
      var n := |locs| - 1;
      var l, v := locs[..n], vals[..n];
      var t := Corrected(p, l, v);
      CorrectedEval(p, l, v, x);
      EvalUpdate(t, locs[n], vals[n], x);
      DotSnoc(v, Terms(l, x), vals[n], Pow(x, locs[n]));
      assert v + [vals[n]] == vals && Terms(l, x) + [Pow(x, locs[n])] == Terms(locs, x);
      AddAssoc(Eval(p, x), Dot(v, Terms(l, x)), Mul(vals[n], Pow(x, locs[n])));
    }
  }

  /** The locations found belong to the roots. */
  ghost predicate LocatedAt(locs: seq<nat>, roots: Poly) {
    |locs| == |roots| && forall j :: 0 <= j < |locs| ==> locs[j] < BLOCK_LENGTH && Exp(locs[j]) == Inv(roots[j])
  }

  /** Soundness: whenever the locator splits, the corrected word vanishes at every generator root,
      however many errors there were. */
  lemma DecodeSound(p: Poly, n: nat, c: Poly, roots: Poly, locs: seq<nat>, vals: Poly)
    requires |p| == BLOCK_LENGTH
    requires SplitsAt(c, roots) && |roots| <= n && Generates(c, |roots|, Syndromes(p, n), n)
    requires LocatedAt(locs, roots) && ForneyValues(c, Syndromes(p, n), roots, vals)
    ensures Vanishes(Corrected(p, locs, vals), n)
  {
    hide Mul, Add, Eval, Dot, Exp, Inv, ForneyValue, Corrected;
    var s, xs := Syndromes(p, n), Points(locs);
    assert xs == Inverses(roots);
    ForneyReproduces(c, s, roots, vals);
    forall k | 0 <= k < n ensures Eval(Corrected(p, locs, vals), GeneratorRoot(k)) == 0 {
      CorrectedEval(p, locs, vals, GeneratorRoot(k));
      RootTerms(locs, vals, k);
      assert PowerSums(Product(vals, xs), xs, n)[k] == s[k];
      AddSelf(s[k]);
    }
  }

  // ----- weights

  lemma {:induction false} SupportSum(a: Poly, b: Poly)
    requires |a| == |b|
    ensures |Support(Sum(a, b))| <= |Support(a)| + |Support(b)|
    decreases |a|
  {
    hide Add;
    if a != [] {
      var n := |a| - 1;
      assert Sum(a, b)[..n] == Sum(a[..n], b[..n]);
      SupportSum(a[..n], b[..n]);
      AddZero(0);
    }
  }

  lemma {:induction false} SupportUpdate(a: Poly, i: nat, v: byte)
    requires i < |a|
    ensures |Support(a[i := v])| <= |Support(a)| + 1
    decreases |a|
  {
    var n := |a| - 1;
    if i == n {
      assert a[i := v][..n] == a[..n];
    } else {
      assert a[i := v][..n] == a[..n][i := v];
      SupportUpdate(a[..n], i, v);
    }
  }

  lemma {:induction false} SupportZero(a: Poly)
    requires IsZero(a)
    ensures Support(a) == []
    decreases |a|
  {
    if a != [] {
      SupportZero(a[..|a| - 1]);
    }
  }

  /** A correction moves a word by at most the number of its locations. */
  lemma {:induction false} CorrectedWeight(p: Poly, locs: seq<nat>, vals: Poly)
    requires |vals| == |locs| && forall j :: 0 <= j < |locs| ==> locs[j] < |p|
    ensures |Support(Sum(p, Corrected(p, locs, vals)))| <= |locs|
    decreases |locs|
  {
    hide Add, Support;
    if locs == [] {
      forall i | 0 <= i < |p| ensures Sum(p, p)[i] == 0 {
        AddSelf(p[i]);
      }
      SupportZero(Sum(p, p));
    } else {
      var n := |locs| - 1;
      var t := Corrected(p, locs[..n], vals[..n]);
      var v := Add(t[locs[n]], vals[n]);
      CorrectedWeight(p, locs[..n], vals[..n]);
      assert Sum(p, t[locs[n] := v]) == Sum(p, t)[locs[n] := Add(p[locs[n]], v)];
      SupportUpdate(Sum(p, t), locs[n], Add(p[locs[n]], v));
    }
  }

  /** Two codewords around one word whose distances sum to at most n are the same. */
  lemma UniqueCodeword(p: Poly, c: Poly, d: Poly, n: nat)
    requires |p| == |c| == |d| == BLOCK_LENGTH && Vanishes(c, n) && Vanishes(d, n)
    requires |Support(Sum(p, c))| + |Support(Sum(p, d))| <= n
    ensures c == d
  {
    hide Add, Eval, Support, GeneratorRoot;
    var e := Sum(c, d);
    forall i | 0 <= i < |p| ensures e[i] == Sum(Sum(p, c), Sum(p, d))[i] {
      CancelFirst(p[i], c[i], d[i]);
    }
    assert e == Sum(Sum(p, c), Sum(p, d));
    SupportSum(Sum(p, c), Sum(p, d));
    forall k | 0 <= k < n ensures Eval(e, GeneratorRoot(k)) == 0 {
      EvalSum(c, d, GeneratorRoot(k));
      AddSelf(0);
    }
    MinimumDistance(e, n);
    forall i | 0 <= i < |c| ensures c[i] == d[i] {
      assert e[i] == 0;
      AddEqualZero(c[i], d[i]);
    }
  }

  lemma CancelFirst(a: byte, b: byte, c: byte)
    ensures Add(b, c) == Add(Add(a, b), Add(a, c))
  {
    hide Add;
    AddLaws();
  }

  // ----- the locator within the error bound

  lemma {:induction false} DistinctSet<T>(s: seq<T>)
    requires Distinct(s)
    ensures |set x | x in s| == |s|
  {
    if s != [] {
      var n := |s| - 1;
      DistinctSet(s[..n]);
      assert (set x | x in s) == (set x | x in s[..n]) + {s[n]} by {
        assert s == s[..n] + [s[n]];
      }
    }
  }

  lemma DistinctWithin<T>(a: seq<T>, b: seq<T>)
    requires Distinct(a) && Distinct(b) && forall j :: 0 <= j < |a| ==> a[j] in b
    ensures |a| <= |b|
  {
    DistinctSet(a);
    DistinctSet(b);
    SubsetSmaller(set x | x in a, set x | x in b);
  }

  lemma InverseSeparates(x: byte, y: byte)
    requires x != 0 && y != 0 && x != y
    ensures Inv(x) != Inv(y)
  {
    hide Mul, Inv;
    MulInv(x);
    MulInv(y);
    if Inv(x) == Inv(y) {
      MulComm(x, Inv(x));
      MulComm(y, Inv(x));
      MulCancel(Inv(x), x, y);
    }
  }

  /** The syndromes of a corrupted codeword are the power sums of its error points. */
  lemma SyndromesOfErrors(p: Poly, cw: Poly, n: nat)
    requires |p| == |cw| == BLOCK_LENGTH && Vanishes(cw, n)
    ensures var e := Sum(p, cw);
            var xs := Points(Support(e));
            Syndromes(p, n) == PowerSums(Product(Pick(e, Support(e)), xs), xs, n)
  {
    hide Add, Mul, Eval, Dot, Support, Exp;
    var e := Sum(p, cw);
    var locs := Support(e);
    var vals, xs := Pick(e, locs), Points(locs);
    forall k | 0 <= k < n ensures Syndromes(p, n)[k] == PowerSums(Product(vals, xs), xs, n)[k] {
      EvalSum(p, cw, GeneratorRoot(k));
      AddZero(Eval(p, GeneratorRoot(k)));
      assert Eval(cw, GeneratorRoot(k)) == 0;
      EvalSupport(e, GeneratorRoot(k));
      RootTerms(locs, vals, k);
    }
  }

  /** With at most n / 2 errors the shortest register has one cell per error at most, and the Chien
      search finds a root for every cell. */
  lemma LocatorComplete(p: Poly, cw: Poly, n: nat, c: Poly, l: nat)
    requires |p| == |cw| == BLOCK_LENGTH && Vanishes(cw, n)
    requires 2 * |Support(Sum(p, cw))| <= n
    requires |c| == l + 1 && Generates(c, l, Syndromes(p, n), n) && NoShorter(l, Syndromes(p, n), n)
    ensures |RootsBelow(c, 256)| == l <= |Support(Sum(p, cw))|
  {
    hide Add, Mul, Eval, Dot, Support, Exp, Inv, Conv, RootsBelow, LocatorOf, Generates;
    var e := Sum(p, cw);
    var locs := Support(e);
    var vals, xs := Pick(e, locs), Points(locs);
    var w := Product(vals, xs);
    PointsDistinct(locs);
    forall j | 0 <= j < |xs| ensures w[j] != 0 && Eval(LocatorOf(xs), Inv(xs[j])) == 0 {
      SupportNonzero(e, j);
      MulNonzero(vals[j], xs[j]);
      LocatorOfProperty(xs, j);
    }
    SyndromesOfErrors(p, cw, n);
    LocatorOfProperty(xs, |xs|);
    PowerSumsGenerated(LocatorOf(xs), w, xs, n);
    assert l <= |xs|;
    var inv := Inverses(xs);
    forall j | 0 <= j < |xs| ensures inv[j] in RootsBelow(c, 256) {
      LocatorRoots(c, w, xs, n, j);
      RootsBelowComplete(c, 256, inv[j]);
    }
    forall i, j | 0 <= i < j < |xs| ensures Inv(xs[i]) != Inv(xs[j]) {
      InverseSeparates(xs[i], xs[j]);
    }
    LocatorRootCount(c, l, Syndromes(p, n), n);
    DistinctWithin(inv, RootsBelow(c, 256));
  }

  lemma LocatorRootCount(c: Poly, l: nat, s: Poly, n: nat)
    requires |c| == l + 1 && Generates(c, l, s, n)
    ensures |RootsBelow(c, 256)| <= l && Distinct(RootsBelow(c, 256))
  {
    hide RootsBelow;
    RootsBelowCount(c, 256);
  }

  /** Cutting the buffer at the register's length leaves a register. */
  lemma GeneratesCut(c: Poly, l: nat, s: Poly, n: nat)
    requires Generates(c, l, s, n) && l < |c|
    ensures Generates(c[..l + 1], l, s, n)
  {
    hide Conv;
    var low, high := c[..l + 1], c[l + 1..];
    assert low + high == c && IsZero(high);
    forall k | l <= k < n ensures Conv(low, s, k) == 0 {
      ConvTrim(low, high, s, k);
    }
  }

  // ----- distance of words

  /** The number of positions in which two words differ. */
  function Distance(a: seq<byte>, b: seq<byte>): nat
    requires |a| == |b|
  {
    if a == [] then 0 else (if a[0] != b[0] then 1 else 0) + Distance(a[1..], b[1..])
  }

  /** Differing bytes are exactly the nonzero coefficients of the difference. */
  lemma {:induction false} DistanceSupport(a: seq<byte>, b: seq<byte>)
    requires |a| == |b| <= BLOCK_LENGTH
    ensures |Support(Sum(ToPoly(a), ToPoly(b)))| == Distance(a, b)
  {
    hide Add;
    var e := Sum(ToPoly(a), ToPoly(b));
    AddZero(0);
    SupportTrim(e, |a|);
    DistancePrefix(a, b, e);
  }

  lemma {:induction false} SupportTrim(e: Poly, n: nat)
    requires n <= |e| && forall i :: n <= i < |e| ==> e[i] == 0
    ensures Support(e) == Support(e[..n])
    decreases |e|
  {
    if n < |e| {
      SupportTrim(e[..|e| - 1], n);
      assert e[..|e| - 1][..n] == e[..n];
    } else {
      assert e[..n] == e;
    }
  }

  lemma {:induction false} DistancePrefix(a: seq<byte>, b: seq<byte>, e: Poly)
    requires |a| == |b| <= |e|
    requires forall i :: 0 <= i < |a| ==> e[i] == Add(a[|a| - 1 - i], b[|a| - 1 - i])
    ensures |Support(e[..|a|])| == Distance(a, b)
    decreases |a|
  {
    hide Add;
    if a != [] {
      var n := |a| - 1;
      DistancePrefix(a[1..], b[1..], e);
      assert e[..n + 1][..n] == e[..n];
      AddEqualZero(a[0], b[0]);
    } else {
      assert e[..0] == [];
    }
  }
}
