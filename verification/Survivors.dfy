/** Minimum-cost paths, and the paths that the survivor bits trace. */
module Survivors {
  import opened Bits
  import opened ConvCode

  /** The encoder's last input bits are zeros: the decoder considers only such paths. */
  ghost predicate Flushed(path: seq<bit>, sets: nat) {
    forall i :: 0 <= i < |path| && sets - 6 <= i ==> path[i] == 0
  }

  /** No path of the same length is cheaper. */
  ghost predicate Minimal(soft: seq<byte>, sets: nat, path: seq<bit>) {
    && 2 * |path| <= |soft| && Flushed(path, sets)
    && forall other: seq<bit> :: |other| == |path| && Flushed(other, sets) ==> Cost(soft, path) <= Cost(soft, other)
  }

  /** Bit k of the message is that of a minimum-cost path, over all slices or over enough of them from the bit on. */
  ghost predicate Decided(soft: seq<byte>, sets: nat, k: nat, b: bit) {
    exists path: seq<bit> ::
      k < |path| <= sets && (|path| == sets || |path| >= k + DECISION_DEPTH) && Minimal(soft, sets, path) && path[k] == b
  }

  // ----- ties

  /** Which predecessor of a state after slice t is taken when both attain its minimum: the high one in the last six
      slices, the low one before. */
  function Preferred(sets: nat, t: nat): bit {
    if t + 6 < sets then 0 else 1
  }

  /** Going back from s along h attains the minimum, and h is preferred if the other predecessor does too. */
  ghost predicate Survives(soft: seq<byte>, sets: nat, t: nat, s: state, h: bit)
    requires 2 * t + 2 <= |soft| && 6 <= t
  {
    Optimal(soft, t, s, h) && (Optimal(soft, t, s, 1 - h) ==> h == Preferred(sets, t))
  }

  /** Bit k is the last in which two paths differ. */
  ghost predicate Parting(p: seq<bit>, q: seq<bit>, k: nat) {
    |p| == |q| && k < |p| && p[k] != q[k] && p[k + 1..] == q[k + 1..]
  }

  lemma {:induction false} PartingExists(p: seq<bit>, q: seq<bit>) returns (k: nat)
    requires |p| == |q| && p != q
    ensures Parting(p, q, k) && k < |p| && p[k] != q[k]
  {
    var n := |p| - 1;
    if p[n] != q[n] {
      k := n;
    } else {
      assert p == p[..n] + [p[n]] && q == q[..n] + [q[n]];
      k := PartingExists(p[..n], q[..n]);
      assert p[k + 1..] == p[..n][k + 1..] + [p[n]] && q[k + 1..] == q[..n][k + 1..] + [q[n]];
    }
  }

  lemma PartingBack(p: seq<bit>, q: seq<bit>, k: nat)
    requires Parting(p, q, k)
    ensures Parting(q, p, k)
  {
  }

  /** Of all paths to the same state that cost no more, it has the preferred bit where they last differ. Bit k is lost in
      slice k + 6. */
  ghost predicate Favoured(soft: seq<byte>, sets: nat, path: seq<bit>)
    requires 2 * |path| <= |soft|
  {
    forall other: seq<bit>, k: nat ::
      Parting(path, other, k) && State(other) == State(path) && Cost(soft, other) <= Cost(soft, path) ==>
      path[k] == Preferred(sets, k + 6)
  }

  /** The one of the minimum-cost paths of its length that ends in the lowest state and is favoured. */
  ghost predicate Canonical(soft: seq<byte>, sets: nat, path: seq<bit>) {
    && Minimal(soft, sets, path) && Favoured(soft, sets, path)
    && forall other: seq<bit> :: |other| == |path| && Minimal(soft, sets, other) ==> State(path) <= State(other)
  }

  /** There is only one. */
  lemma CanonicalUnique(soft: seq<byte>, sets: nat, p: seq<bit>, q: seq<bit>)
    requires Canonical(soft, sets, p) && Canonical(soft, sets, q) && |p| == |q|
    ensures p == q
  {
    hide Cost, State, Flushed, Parting;
    if p != q {
      var k := PartingExists(p, q);
      PartingBack(p, q, k);
      assert false;
    }
  }

  // ----- live states

  /** After n slices the states that flushed paths can be in are the multiples of this. */
  function Skip(sets: nat, n: nat): (k: nat)
    requires n <= sets
    ensures 0 < k <= NUM_STATES
  {
    if sets - n >= 6 then 1
    else if sets - n == 5 then 2
    else if sets - n == 4 then 4
    else if sets - n == 3 then 8
    else if sets - n == 2 then 16
    else if sets - n == 1 then 32
    else 64
  }

  predicate Multiple(s: nat, every: nat)
    requires every > 0
  {
    s % every == 0
  }

  ghost predicate Live(sets: nat, n: nat, s: state) {
    n <= sets && Multiple(s, Skip(sets, n))
  }

  lemma SkipStep(sets: nat, n: nat)
    requires n < sets
    ensures Skip(sets, n) <= HIGH_BASE
    ensures Skip(sets, n + 1) == if sets - n <= 6 then 2 * Skip(sets, n) else 1
    ensures sets - n > 6 ==> Skip(sets, n) == 1
  {
  }

  /** Only a zero leads from a live state to a live state in the tail. */
  lemma LiveNext(sets: nat, n: nat, q: state, b: bit)
    requires n < sets
    ensures Live(sets, n + 1, Next(q, b)) <==> Live(sets, n, q) && (n < sets - 6 || b == 0)
  {
    SkipStep(sets, n);
    var m := Skip(sets, n);
    hide Skip;
    if sets - n <= 6 {
      assert m == 1 || m == 2 || m == 4 || m == 8 || m == 16 || m == 32 by {
        SkipValues(sets, n);
      }
      var x := KeptBits(q, b, m, q / m, q % m);
      var v := 2 * (q % m) + b;
      assert Next(q, b) == 2 * m * x + v && 0 <= v < 2 * m;
      ModUnique(Next(q, b), 2 * m, x, v);
    } else {
      ModOne(q);
      ModOne(Next(q, b));
    }
  }

  lemma ModOne(s: int)
    ensures s % 1 == 0
  {
  }

  lemma SkipValues(sets: nat, n: nat)
    requires n < sets
    ensures var m := Skip(sets, n); m == 1 || m == 2 || m == 4 || m == 8 || m == 16 || m == 32
  {
  }

  /** The predecessors of a live state are live. */
  lemma LivePred(sets: nat, n: nat, s: state, h: bit)
    requires n < sets && Live(sets, n + 1, s)
    ensures Live(sets, n, Pred(s, h))
  {
    hide Live, Pred;
    PredForward(s, h);
    LiveNext(sets, n, Pred(s, h), s % 2);
  }

  lemma {:induction false} FlushedLive(path: seq<bit>, sets: nat)
    requires |path| <= sets && sets >= 6
    ensures Flushed(path, sets) <==> Live(sets, |path|, State(path))
  {
    if path == [] {
      assert Skip(sets, 0) == 1;
    } else {
      hide Live, State;
      var n := |path| - 1;
      var prefix, b := path[..n], path[n];
      assert prefix + [b] == path;
      FlushedLive(prefix, sets);
      RegisterStep(prefix, b);
      LiveNext(sets, n, State(prefix), b);
      FlushedSnoc(prefix, b, sets);
    }
  }

  lemma FlushedSnoc(path: seq<bit>, b: bit, sets: nat)
    ensures Flushed(path + [b], sets) <==> Flushed(path, sets) && (|path| < sets - 6 || b == 0)
  {
    var longer := path + [b];
    if Flushed(longer, sets) {
      assert longer[|path|] == b;
      forall i | 0 <= i < |path| && sets - 6 <= i ensures path[i] == 0 {
        assert longer[i] == path[i];
      }
    }
  }

  /** A path that attains the minimum of the cheapest live state has minimum cost. */
  lemma CheapestMinimal(soft: seq<byte>, sets: nat, path: seq<bit>)
    requires 6 <= |path| <= sets && 2 * |path| <= |soft|
    requires Live(sets, |path|, State(path)) && Cost(soft, path) == Best(soft, |path| - 1, State(path))
    requires forall s: state :: Live(sets, |path|, s) ==>
      Best(soft, |path| - 1, State(path)) <= Best(soft, |path| - 1, s)
    ensures Minimal(soft, sets, path)
  {
    hide Live, State, Cost, Best, Flushed;
    FlushedLive(path, sets);
    forall other: seq<bit> | |other| == |path| && Flushed(other, sets)
      ensures Cost(soft, path) <= Cost(soft, other)
    {
      FlushedLive(other, sets);
      BestLower(soft, other);
    }
  }

  // ----- survivors

  type row = s: seq<bit> | |s| == NUM_STATES witness seq(64, _ => 0)

  /** The oldest bits along the survivor of state s, back through all the rows. */
  function Trace(rows: seq<row>, s: state): (bits: seq<bit>)
    ensures |bits| == |rows|
    decreases |rows|
  {
    if rows == [] then []
    else
      var last := |rows| - 1;
      Trace(rows[..last], Pred(s, rows[last][s])) + [rows[last][s]]
  }

  /** Row k holds, for the live states of slice k + 6, the predecessor that attains the minimum, the preferred one if both
      do. */
  ghost predicate OptimalRow(soft: seq<byte>, sets: nat, k: nat, r: row)
    requires k + 7 <= sets && 2 * sets <= |soft|
  {
    forall s: state :: Live(sets, k + 7, s) ==> Survives(soft, sets, k + 6, s, r[s])
  }

  ghost predicate OptimalRows(soft: seq<byte>, sets: nat, rows: seq<row>) {
    && |rows| + 6 <= sets && 2 * sets <= |soft|
    && forall k :: 0 <= k < |rows| ==> OptimalRow(soft, sets, k, rows[k])
  }

  /** A state is the word of the last six bits. */
  lemma StateWord(path: seq<bit>)
    requires |path| >= 6
    ensures var n := |path| - 6;
      State(path) == Word6(path[n], path[n + 1], path[n + 2], path[n + 3], path[n + 4], path[n + 5])
  {
    hide State, Register;
    var n := |path| - 6;
    var p := path[..n];
    var a, b, c, d, e, f := path[n], path[n + 1], path[n + 2], path[n + 3], path[n + 4], path[n + 5];
    RegisterStep(p, a);
    RegisterStep(p + [a], b);
    RegisterStep(p + [a] + [b], c);
    RegisterStep(p + [a] + [b] + [c], d);
    RegisterStep(p + [a] + [b] + [c] + [d], e);
    RegisterStep(p + [a] + [b] + [c] + [d] + [e], f);
    assert path == p + [a] + [b] + [c] + [d] + [e] + [f];
    hide Next;
    SixShifts(State(p), a, b, c, d, e, f);
  }

  /** The bit a state is about to lose is the input of six slices ago. */
  lemma OldestBit(path: seq<bit>)
    requires |path| >= 6
    ensures State(path) / HIGH_BASE == path[|path| - 6]
  {
    hide State;
    StateWord(path);
  }

  /** Paths to the same state have the same last six bits. */
  lemma SameTail(p: seq<bit>, q: seq<bit>)
    requires |p| == |q| >= 6 && State(p) == State(q)
    ensures p[|p| - 6..] == q[|q| - 6..]
  {
    hide State, Word6;
    StateWord(p);
    StateWord(q);
    var n := |p| - 6;
    WordBits(p[n], p[n + 1], p[n + 2], p[n + 3], p[n + 4], p[n + 5],
             q[n], q[n + 1], q[n + 2], q[n + 3], q[n + 4], q[n + 5]);
  }

  lemma WordBits(a: bit, b: bit, c: bit, d: bit, e: bit, f: bit, a1: bit, b1: bit, c1: bit, d1: bit, e1: bit, f1: bit)
    requires Word6(a, b, c, d, e, f) == Word6(a1, b1, c1, d1, e1, f1)
    ensures a == a1 && b == b1 && c == c1 && d == d1 && e == e1 && f == f1
  {
  }

  /** A path with a cheaper end is not favoured over: a branch that costs no more than the minimum attains it. */
  lemma OtherBranch(soft: seq<byte>, other: seq<bit>, s: state) returns (h: bit)
    requires |other| >= 7 && 2 * |other| <= |soft| && State(other) == s
    requires Cost(soft, other) <= Best(soft, |other| - 1, s)
    ensures other[|other| - 1] == s % 2 && State(other[..|other| - 1]) == Pred(s, h) && other[|other| - 7] == h
    ensures Optimal(soft, |other| - 1, s, h) && Cost(soft, other[..|other| - 1]) == Best(soft, |other| - 2, Pred(s, h))
  {
    hide Branch, Cost, Register, State, Best, Pred, BranchRegister, Next;
    var n := |other| - 1;
    var prefix, b := other[..n], other[n];
    assert prefix + [b] == other;
    RegisterStep(prefix, b);
    h := State(prefix) / HIGH_BASE;
    NewestBit(State(prefix), b);
    NextPred(State(prefix), b);
    OldestBit(prefix);
    BestLower(soft, prefix);
    CostStep(soft, prefix, b);
    BestUpper(soft, n, s, h);
  }

  lemma NewestBit(q: state, b: bit)
    ensures Next(q, b) % 2 == b
  {
  }

  /** One more slice keeps a survivor favoured. */
  lemma FavouredStep(soft: seq<byte>, sets: nat, prefix: seq<bit>, path: seq<bit>, s: state, h: bit)
    requires |prefix| >= 6 && path == prefix + [s % 2] && 2 * |path| <= |soft| && Favoured(soft, sets, prefix)
    requires State(path) == s && State(prefix) == Pred(s, h) && prefix[|prefix| - 6] == h
    requires Cost(soft, path) == Best(soft, |prefix|, s) && Cost(soft, prefix) == Best(soft, |prefix| - 1, Pred(s, h))
    requires Survives(soft, sets, |prefix|, s, h)
    ensures Favoured(soft, sets, path)
  {
    hide Branch, Cost, Register, State, Best, Pred, BranchRegister, Optimal, Survives, Preferred, Parting, Favoured;
    assert path[..|path| - 1] == prefix && path[|path| - 7] == h;
    forall other: seq<bit>, k: nat | |other| == |path| && k < |path| &&
      Parting(path, other, k) && State(other) == State(path) && Cost(soft, other) <= Cost(soft, path)
      ensures path[k] == Preferred(sets, k + 6)
    {
      var h1 := OtherBranch(soft, other, s);
      if h1 == h {
        PartingPrefix(path, other, k);
        FavouredBit(soft, sets, prefix, other[..|other| - 1], k);
      } else {
        PartedAt(path, other, k);
        TakenPreferred(soft, sets, |prefix|, s, h, h1);
      }
    }
    AllFavoured(soft, sets, path);
  }

  lemma AllFavoured(soft: seq<byte>, sets: nat, path: seq<bit>)
    requires 2 * |path| <= |soft|
    requires forall other: seq<bit>, k: nat ::
      (|other| == |path| && k < |path| && Parting(path, other, k) && State(other) == State(path)
       && Cost(soft, other) <= Cost(soft, path)) ==>
      path[k] == Preferred(sets, k + 6)
    ensures Favoured(soft, sets, path)
  {
  }

  lemma FavouredBit(soft: seq<byte>, sets: nat, path: seq<bit>, other: seq<bit>, k: nat)
    requires |other| == |path| && k < |path| && 2 * |path| <= |soft|
    requires Favoured(soft, sets, path) && Parting(path, other, k)
    requires State(other) == State(path) && Cost(soft, other) <= Cost(soft, path)
    ensures path[k] == Preferred(sets, k + 6)
  {
    hide State, Cost, Preferred;
  }

  /** Paths that merge in their last slice differ last in the bit that is lost then. */
  lemma PartedAt(p: seq<bit>, q: seq<bit>, k: nat)
    requires |p| == |q| >= 7 && Parting(p, q, k) && State(p) == State(q) && p[|p| - 7] != q[|q| - 7]
    ensures k == |p| - 7
  {
    hide State, Parting;
    SameTail(p, q);
    PartingOldest(p, q, k);
  }

  lemma TakenPreferred(soft: seq<byte>, sets: nat, t: nat, s: state, h: bit, h1: bit)
    requires 2 * t + 2 <= |soft| && 6 <= t && Survives(soft, sets, t, s, h) && h1 != h && Optimal(soft, t, s, h1)
    ensures h == Preferred(sets, t)
  {
    hide Optimal, Preferred;
  }

  lemma PartingPrefix(p: seq<bit>, q: seq<bit>, k: nat)
    requires Parting(p, q, k) && p[|p| - 1] == q[|q| - 1]
    ensures Parting(p[..|p| - 1], q[..|q| - 1], k)
  {
    var n := |p| - 1;
    assert k < n;
    assert p[k + 1..] == p[..n][k + 1..] + [p[n]] && q[k + 1..] == q[..n][k + 1..] + [q[n]];
  }

  lemma PartingOldest(p: seq<bit>, q: seq<bit>, k: nat)
    requires Parting(p, q, k) && |p| >= 7 && p[|p| - 6..] == q[|q| - 6..] && p[|p| - 7] != q[|q| - 7]
    ensures k == |p| - 7
  {
    var n := |p| - 7;
    forall i | n < i < |p| ensures p[i] == q[i] {
      assert p[n + 1..][i - n - 1] == q[n + 1..][i - n - 1];
    }
    forall i | k < i < |p| ensures p[i] == q[i] {
      assert p[k + 1..][i - k - 1] == q[k + 1..][i - k - 1];
    }
  }

  /** No two paths of six slices lead to the same state. */
  lemma FavouredFirst(soft: seq<byte>, sets: nat, path: seq<bit>)
    requires |path| == 6 && 2 * |path| <= |soft|
    ensures Favoured(soft, sets, path)
  {
    hide State, Cost, Preferred;
    forall other: seq<bit>, k: nat ensures !(Parting(path, other, k) && State(other) == State(path)) {
      if |other| == 6 && State(other) == State(path) {
        SameTail(path, other);
        assert path[0..] == other[0..];
      }
    }
  }

  /** The survivor bits of a live state trace a path of minimum cost to it, the favoured one. */
  lemma {:induction false} TraceOptimal(soft: seq<byte>, sets: nat, rows: seq<row>, s: state) returns (path: seq<bit>)
    requires OptimalRows(soft, sets, rows) && Live(sets, |rows| + 6, s)
    ensures |path| == |rows| + 6 && State(path) == s && Cost(soft, path) == Best(soft, |rows| + 5, s)
    ensures path[..|rows|] == Trace(rows, s) && Favoured(soft, sets, path)
    decreases |rows|
  {
    hide Branch, Cost, Register, State, Best, Live, Pred, BranchRegister, Favoured;
    if rows == [] {
      path := BestAttained(soft, 5, s);
      assert path[..0] == [];
      FavouredFirst(soft, sets, path);
    } else {
      var last := |rows| - 1;
      var h: bit := rows[last][s];
      assert OptimalRow(soft, sets, last, rows[last]);
      LivePred(sets, last + 6, s, h);
      var prefix := TraceOptimal(soft, sets, rows[..last], Pred(s, h));
      path := prefix + [s % 2];
      RegisterStep(prefix, s % 2);
      CostStep(soft, prefix, s % 2);
      PredForward(s, h);
      OldestBit(prefix);
      PredOldest(s, h);
      assert path[..last] == prefix[..last];
      assert path[..last + 1] == prefix[..last] + [h];
      assert State(path) == s;
      FavouredStep(soft, sets, prefix, path, s, h);
    }
  }

  lemma PredOldest(s: state, h: bit)
    ensures Pred(s, h) / HIGH_BASE == h
  {
  }
}
