/** The sync word, the mapping of bits to symbols, and the deframer that resolves the rotation of the constellation. */
module Framing {
  import opened Bits
  import opened BitIo

  const SYNC_WORD: nat := 0x341CC540819D8963
  const WORD_RANGE: nat := 0x1_0000_0000_0000_0000
  const SYNC_BITS: nat := 64
  const SYNC_SYMS: nat := SYNC_BITS / 2
  const FRAME_SYMS: nat := 8168
  const MAX_SYNC_ERRORS: nat := 5

  const AMPLITUDE: real := 0.070710678118

  /** A sample of the constellation. */
  datatype Complex = Complex(re: real, im: real)

  function Times(a: Complex, b: Complex): Complex {
    Complex(a.re * b.re - a.im * b.im, a.im * b.re + a.re * b.im)
  }

  type symbol = x: int | 0 <= x < 4

  type rotation = x: int | 0 <= x < 4

  /** The point for two bits, the first in the upper place. */
  function Point(s: symbol): (p: Complex)
    ensures s == 0 ==> p == Complex(-0.070710678118, -0.070710678118)
    ensures s == 1 ==> p == Complex(-0.070710678118, 0.070710678118)
    ensures s == 2 ==> p == Complex(0.070710678118, -0.070710678118)
    ensures s == 3 ==> p == Complex(0.070710678118, 0.070710678118)
  {
    Complex(if s >= 2 then AMPLITUDE else -AMPLITUDE, if s % 2 == 1 then AMPLITUDE else -AMPLITUDE)
  }

  /** The two bits a sample is nearest to; a part that is zero gives a zero. */
  function Decide(x: Complex): (s: symbol)
    ensures x.re <= 0.0 && x.im <= 0.0 ==> s == 0
    ensures x.re <= 0.0 && x.im > 0.0 ==> s == 1
    ensures x.re > 0.0 && x.im <= 0.0 ==> s == 2
    ensures x.re > 0.0 && x.im > 0.0 ==> s == 3
  {
    (if x.re > 0.0 then 2 else 0) + (if x.im > 0.0 then 1 else 0)
  }

  /** What turns a constellation rotated by r quarters back. */
  function TurnBack(r: rotation): Complex {
    if r == 0 then Complex(1.0, 0.0) else if r == 1 then Complex(0.0, -1.0) else if r == 2 then Complex(-1.0, 0.0)
    else Complex(0.0, 1.0)
  }

  /** A sample rotated by r quarters. */
  function Turned(x: Complex, r: rotation): Complex {
    if r == 0 then x else if r == 1 then Complex(-x.im, x.re) else if r == 2 then Complex(-x.re, -x.im) else Complex(x.im, -x.re)
  }

  lemma TurnedBack(x: Complex, r: rotation)
    ensures Times(Turned(x, r), TurnBack(r)) == x
  {
  }

  // ----- words of symbols

  /** The symbol of a point rotated by a quarter. */
  function Quarter(s: symbol): symbol {
    if s == 0 then 2 else if s == 1 then 0 else if s == 3 then 1 else 3
  }

  function Rotated(s: symbol, r: rotation): symbol {
    if r == 0 then s else if r == 1 then Quarter(s) else if r == 2 then 3 - s else 3 - Quarter(s)
  }

  /** Deciding a rotated sample that is on neither axis rotates the decision. */
  lemma DecideTurned(x: Complex, r: rotation)
    requires x.re != 0.0 && x.im != 0.0
    ensures Decide(Turned(x, r)) == Rotated(Decide(x), r)
  {
  }

  lemma DecidePoint(s: symbol)
    ensures Decide(Point(s)) == s && Point(s).re != 0.0 && Point(s).im != 0.0
  {
  }

  /** The n low symbols of a word, the uppermost first. */
  function Symbols(w: nat, n: nat): (s: seq<symbol>)
    ensures |s| == n
  {
    if n == 0 then [] else Symbols(w / 4, n - 1) + [w % 4]
  }

  function Value(s: seq<symbol>): nat {
    if s == [] then 0 else 4 * Value(s[..|s| - 1]) + s[|s| - 1]
  }

  function RotatedAll(s: seq<symbol>, r: rotation): (t: seq<symbol>)
    ensures |t| == |s|
  {
    seq(|s|, i requires 0 <= i < |s| => Rotated(s[i], r))
  }

  /** The sync word as the receiver sees it when the constellation is rotated by r quarters. */
  function SyncRotated(r: rotation): nat {
    Value(RotatedAll(Symbols(SYNC_WORD, SYNC_SYMS), r))
  }

  // ----- distances

  /** The number of the n low bits in which two words differ. */
  function Hamming(a: nat, b: nat, n: nat): nat {
    if n == 0 then 0 else (if a % 2 != b % 2 then 1 else 0) + Hamming(a / 2, b / 2, n - 1)
  }

  method Distance(a: nat, b: nat) returns (dist: nat)
    ensures dist == Hamming(a, b, SYNC_BITS)
  {
    dist := 0;
    var x, y := a, b;
    for i := 0 to SYNC_BITS
      invariant dist + Hamming(x, y, SYNC_BITS - i) == Hamming(a, b, SYNC_BITS)
    {
      dist := dist + if x % 2 != y % 2 then 1 else 0;
      x, y := x / 2, y / 2;
    }
  }

  lemma {:induction false} Triangle(a: nat, b: nat, c: nat, n: nat)
    ensures Hamming(a, c, n) <= Hamming(a, b, n) + Hamming(b, c, n)
    ensures Hamming(a, b, n) == Hamming(b, a, n)
  {
    if n != 0 {
      Triangle(a / 2, b / 2, c / 2, n - 1);
    }
  }

  function SymbolDistance(s: symbol, t: symbol): nat {
    (if s % 2 != t % 2 then 1 else 0) + (if s / 2 != t / 2 then 1 else 0)
  }

  lemma HammingStep(a: nat, b: nat, s: symbol, t: symbol, n: nat)
    ensures Hamming(4 * a + s, 4 * b + t, n + 2) == SymbolDistance(s, t) + Hamming(a, b, n)
  {
    var x, y := 4 * a + s, 4 * b + t;
    assert x / 2 == 2 * a + s / 2 && y / 2 == 2 * b + t / 2;
    assert x / 2 / 2 == a && y / 2 / 2 == b;
    assert Hamming(x, y, n + 2) == (if x % 2 != y % 2 then 1 else 0) + Hamming(x / 2, y / 2, n + 1);
  }

  lemma SymbolsApart(s: symbol, r: rotation, q: rotation)
    requires r != q
    ensures SymbolDistance(Rotated(s, r), Rotated(s, q)) == if (r + q) % 2 == 1 then 1 else 2
  {
  }

  /** Two rotations by an odd number of quarters apart change one bit of every symbol, opposite ones both. */
  lemma {:induction false} RotationsApart(s: seq<symbol>, r: rotation, q: rotation)
    requires r != q
    ensures Hamming(Value(RotatedAll(s, r)), Value(RotatedAll(s, q)), 2 * |s|) ==
      if (r + q) % 2 == 1 then |s| else 2 * |s|
  {
    hide Hamming, Rotated, SymbolDistance;
    if s == [] {
      NoBitsApart(Value(RotatedAll(s, r)), Value(RotatedAll(s, q)));
    } else {
      var n := |s| - 1;
      RotationsApart(s[..n], r, q);
      SymbolsApart(s[n], r, q);
      assert RotatedAll(s, r)[..n] == RotatedAll(s[..n], r) && RotatedAll(s, q)[..n] == RotatedAll(s[..n], q);
      HammingStep(Value(RotatedAll(s[..n], r)), Value(RotatedAll(s[..n], q)), Rotated(s[n], r), Rotated(s[n], q), 2 * n);
    }
  }

  lemma NoBitsApart(a: nat, b: nat)
    ensures Hamming(a, b, 0) == 0
  {
  }

  /** The register is close enough to the sync word in this rotation. */
  predicate Matches(shift: nat, r: rotation) {
    Hamming(shift, SyncRotated(r), SYNC_BITS) <= MAX_SYNC_ERRORS
  }

  /** No register is close to the sync word in two rotations. */
  lemma MatchUnique(shift: nat, r: rotation, q: rotation)
    requires Matches(shift, r) && Matches(shift, q)
    ensures r == q
  {
    hide Hamming, Symbols, Value, RotatedAll;
    if r != q {
      RotationsApart(Symbols(SYNC_WORD, SYNC_SYMS), r, q);
      Triangle(SyncRotated(r), shift, SyncRotated(q), SYNC_BITS);
    }
  }

  // ----- computing the rotations

  lemma {:induction false} ValueSymbols(w: nat, n: nat)
    requires w < Pow2(2 * n)
    ensures Value(Symbols(w, n)) == w
  {
    if n != 0 {
      Pow2Twice(n);
      ValueSymbols(w / 4, n - 1);
      assert Symbols(w, n)[..n - 1] == Symbols(w / 4, n - 1);
    }
  }

  lemma TwoSteps(n: nat)
    ensures Pow2(n + 2) == 4 * Pow2(n)
  {
    hide Pow2;
    Pow2Step(n);
    Pow2Step(n + 1);
  }

  lemma Pow2Twice(n: nat)
    requires n > 0
    ensures Pow2(2 * n) == 4 * Pow2(2 * (n - 1))
  {
    hide Pow2;
    TwoSteps(2 * (n - 1));
  }

  lemma {:induction false} ValueBound(s: seq<symbol>)
    ensures Value(s) < Pow2(2 * |s|)
  {
    if s != [] {
      ValueBound(s[..|s| - 1]);
      Pow2Twice(|s|);
    }
  }

  /** The complement of a word is the word of the opposite symbols. */
  lemma {:induction false} Opposite(s: seq<symbol>, t: seq<symbol>)
    requires |s| == |t| && forall i :: 0 <= i < |s| ==> t[i] == 3 - s[i]
    ensures Value(t) == Pow2(2 * |s|) - 1 - Value(s)
  {
    if s != [] {
      var n := |s| - 1;
      Opposite(s[..n], t[..n]);
      Pow2Twice(|s|);
    }
  }

  lemma {:induction false} Pow2Sum(a: nat, b: nat)
    ensures Pow2(a + b) == Pow2(a) * Pow2(b)
  {
    if a != 0 {
      Pow2Sum(a - 1, b);
      assert Pow2(a + b) == 2 * Pow2(a - 1 + b);
    }
  }

  lemma WordRange()
    ensures Pow2(64) == WORD_RANGE
  {
    hide Pow2;
    Pow2Byte();
    Pow2Sum(8, 8);
    Pow2Sum(16, 16);
    Pow2Sum(32, 32);
  }

  // ----- the framer

  function Points(s: seq<symbol>): (p: seq<Complex>)
    ensures |p| == |s|
  {
    seq(|s|, i requires 0 <= i < |s| => Point(s[i]))
  }

  /** Bits two by two, the first in the upper place. */
  function BitPairs(bits: seq<bit>): (s: seq<symbol>)
    ensures |s| == |bits| / 2
  {
    seq(|bits| / 2, i requires 0 <= i < |bits| / 2 => 2 * bits[2 * i] as int + bits[2 * i + 1] as int)
  }

  lemma {:induction false} SymbolAt(w: nat, n: nat, k: nat)
    requires k < n
    ensures Symbols(w, n)[k] == Low(Shr(w, 2 * (n - 1 - k)), 2)
  {
    LowTwo(w);
    if k < n - 1 {
      SymbolAt(w / 4, n - 1, k);
      ShrTwo(w, 2 * (n - 1 - k));
    }
  }

  lemma LowTwo(w: nat)
    ensures Low(w, 2) == w % 4 && Shr(w, 0) == w
  {
    assert Low(w, 2) == 2 * Low(w / 2, 1) + w % 2;
    assert Low(w / 2, 1) == 2 * Low(w / 2 / 2, 0) + w / 2 % 2;
  }

  lemma ShrTwo(w: nat, k: nat)
    requires k >= 2
    ensures Shr(w, k) == Shr(w / 4, k - 2)
  {
    assert Shr(w, k) == Shr(w / 2, k - 1) == Shr(w / 2 / 2, k - 2);
  }

  /** Bits 2 * j and 2 * j + 1 of a byte. */
  lemma PairOfByte(b: byte, j: nat)
    requires j < 4
    ensures Low(Shr(b, 6 - 2 * j), 2) == 2 * BitsOf(b, 8)[2 * j] as int + BitsOf(b, 8)[2 * j + 1] as int
  {
    hide BitsOf, Low, Shr;
    var x := Shr(b, 6 - 2 * j);
    BitsSplit(b, 2 * j + 2, 6 - 2 * j);
    BitsSplit(x, 2 * j, 2);
    LowTwo(x);
    LastTwo(x);
    assert BitsOf(b, 8)[2 * j] == BitsOf(x, 2 * j + 2)[2 * j] == BitsOf(x, 2)[0];
    assert BitsOf(b, 8)[2 * j + 1] == BitsOf(x, 2 * j + 2)[2 * j + 1] == BitsOf(x, 2)[1];
  }

  lemma LastTwo(x: nat)
    ensures BitsOf(x, 2) == [x / 2 % 2, x % 2] && x % 4 == 2 * (x / 2 % 2) + x % 2
  {
    assert BitsOf(x, 2) == BitsOf(x / 2, 1) + [x % 2];
    assert BitsOf(x / 2, 1) == BitsOf(x / 2 / 2, 0) + [x / 2 % 2];
  }

  lemma DataSymbol(input: seq<byte>, i: nat)
    requires i < 4 * |input|
    ensures Low(Shr(input[i / 4], 6 - 2 * (i % 4)), 2) == BitPairs(ToBits(input))[i]
  {
    hide ToBits, BitsOf, Low, Shr;
    var q, j := i / 4, i % 4;
    PairOfByte(input[q], j);
    ToBitsAt(input, q, 2 * j);
    ToBitsAt(input, q, 2 * j + 1);
    assert 2 * i == 8 * q + 2 * j;
  }

  class Framer {
    const syncSyms: seq<Complex>

    ghost predicate Valid() {
      syncSyms == Points(Symbols(SYNC_WORD, SYNC_SYMS))
    }

    constructor ()
      ensures Valid()
    {
      hide Low, Shr, Symbols, Point;
      var syms: seq<Complex> := [];
      ghost var sync := Symbols(SYNC_WORD, SYNC_SYMS);
      for k := 0 to SYNC_SYMS
        invariant syms == Points(sync)[..k]
      {
        SymbolAt(SYNC_WORD, SYNC_SYMS, k);
        syms := syms + [Point(Low(Shr(SYNC_WORD, 62 - 2 * k), 2))];
      }
      syncSyms := syms;
    }

    /** The sync symbols, then count bits two by two. */
    method Encode(input: seq<byte>, out: array<Complex>, count: nat) returns (n: nat)
      requires Valid() && count <= 8 * |input| && out.Length >= SYNC_SYMS + count / 2
      modifies out
      ensures n == SYNC_SYMS + count / 2
      ensures out[..n] == Points(Symbols(SYNC_WORD, SYNC_SYMS)) + Points(BitPairs(ToBits(input)))[..count / 2]
    {
      hide Low, Shr, Symbols, Point, ToBits, BitPairs;
      for k := 0 to SYNC_SYMS
        invariant out[..k] == syncSyms[..k]
      {
        out[k] := syncSyms[k];
      }
      var dataSyms := count / 2;
      ghost var data := BitPairs(ToBits(input));
      for i := 0 to dataSyms
        invariant out[..SYNC_SYMS + i] == syncSyms + Points(data)[..i]
      {
        DataSymbol(input, i);
        var bits := Low(Shr(input[i / 4], 6 - 2 * (i % 4)), 2);
        out[SYNC_SYMS + i] := Point(bits);
        assert Points(data)[..i + 1] == Points(data)[..i] + [Point(bits)];
      }
      n := SYNC_SYMS + dataSyms;
    }
  }

  // ----- the deframer

  /** The register after one more symbol. */
  function Push(shift: nat, s: symbol): nat {
    (shift * 4 + s) % WORD_RANGE
  }

  /** The register after the symbols. */
  function PushAll(shift: nat, s: seq<symbol>): nat {
    if s == [] then shift else Push(PushAll(shift, s[..|s| - 1]), s[|s| - 1])
  }

  function DecideAll(x: seq<Complex>): (s: seq<symbol>)
    ensures |s| == |x|
  {
    seq(|x|, i requires 0 <= i < |x| => Decide(x[i]))
  }

  /** The state between samples; pending are the symbols of the frame being received. */
  datatype DeframerState = DeframerState(recv: nat, pending: seq<Complex>, knownRot: rotation, symRot: Complex, shift: nat,
                                         frames: seq<seq<Complex>>)

  /** The only rotation in which the register is close to the sync word. */
  function Detected(shift: nat): (r: int)
    ensures -1 <= r < 4
  {
    if Matches(shift, 0) then 0 else if Matches(shift, 1) then 1 else if Matches(shift, 2) then 2
    else if Matches(shift, 3) then 3 else -1
  }

  function DeframeStep(d: DeframerState, x: Complex): DeframerState {
    if d.recv != 0 then
      var pending := d.pending + [Times(x, d.symRot)];
      if d.recv == 1 then d.(recv := 0, pending := [], frames := d.frames + [pending])
      else d.(recv := d.recv - 1, pending := pending)
    else
      var shift := Push(d.shift, Decide(x));
      var r := Detected(shift);
      if r < 0 then d.(shift := shift)
      else d.(recv := FRAME_SYMS, pending := [], knownRot := r, symRot := TurnBack(r), shift := shift)
  }

  function Deframe(d: DeframerState, input: seq<Complex>): DeframerState {
    if input == [] then d else DeframeStep(Deframe(d, input[..|input| - 1]), input[|input| - 1])
  }

  class Deframer {
    var recv: nat
    var outCount: nat
    var knownRot: rotation
    const syncRots: seq<nat>
    var symRot: Complex
    var shift: nat
    const writeBuf: array<Complex>
    /** The frames passed on. */
    var frames: seq<seq<Complex>>

    ghost predicate Valid()
      reads this
    {
      && |syncRots| == 4 && (forall r: rotation :: syncRots[r] == SyncRotated(r))
      && writeBuf.Length >= FRAME_SYMS && shift < WORD_RANGE
      && (recv > 0 ==> outCount + recv == FRAME_SYMS)
    }

    ghost function State(): DeframerState
      reads this, writeBuf
      requires Valid()
    {
      DeframerState(recv, if recv > 0 then writeBuf[..outCount] else [], knownRot, symRot, shift, frames)
    }

    /** The sync word in all rotations. The quadrature and the register start with whatever was in memory. */
    constructor (quad0: nat, shift0: nat)
      requires quad0 < WORD_RANGE && shift0 < WORD_RANGE
      ensures Valid() && recv == 0 && frames == [] && shift == shift0 && fresh(writeBuf)
    {
      hide Low, Shr, Symbols, Quarter, Push, Value;
      ghost var sync := Symbols(SYNC_WORD, SYNC_SYMS);
      var quad := quad0;
      ghost var pushed: seq<symbol> := [];
      for k := 0 to SYNC_SYMS
        invariant pushed == seq(k, i requires 0 <= i < k => Quarter(sync[i])) && quad == PushAll(quad0, pushed)
      {
        SymbolAt(SYNC_WORD, SYNC_SYMS, k);
        var sym := Low(Shr(SYNC_WORD, 62 - 2 * k), 2);
        quad := Push(quad, Quarter(sym));
        assert (pushed + [Quarter(sym)])[..k] == pushed;
        pushed := pushed + [Quarter(sym)];
      }
      SyncRotations(quad0, pushed);
      syncRots := [SYNC_WORD, quad, WORD_RANGE - 1 - SYNC_WORD, WORD_RANGE - 1 - quad];
      recv, outCount, knownRot := 0, 0, 0;
      symRot := Complex(0.0, 0.0);
      shift := shift0;
      writeBuf := new Complex[FRAME_SYMS];
      frames := [];
    }

    /** The rotation in which the register matches, starting from the last one known, which the search updates. */
    method FindRotation()
      requires Valid() && recv == 0
      modifies this
      ensures Valid() && shift == old(shift) && frames == old(frames)
      ensures var r := Detected(shift);
        if r < 0 then recv == 0 && knownRot == old(knownRot) && symRot == old(symRot)
        else recv == FRAME_SYMS && outCount == 0 && knownRot == r && symRot == TurnBack(r)
    {
      hide Matches, SyncRotated;
      ghost var before := knownRot;
      for i := 0 to 4
        invariant Valid() && shift == old(shift) && frames == old(frames)
        invariant recv == 0 ==> knownRot == before && symRot == old(symRot)
        invariant recv == 0 ==> forall j :: 0 <= j < i ==> !Matches(shift, Around(before, j))
        invariant recv != 0 ==> recv == FRAME_SYMS && outCount == 0 && Matches(shift, knownRot) && symRot == TurnBack(knownRot)
      {
        var testRot := Around(knownRot, i);
        var dist := Distance(shift, syncRots[testRot]);
        MatchesDistance(shift, testRot);
        if dist < 6 {
          if recv != 0 {
            MatchUnique(shift, knownRot, testRot);
          }
          knownRot := testRot;
          symRot := TurnBack(knownRot);
          recv := FRAME_SYMS;
          outCount := 0;
        }
      }
      DetectedMatch(shift);
      if recv != 0 {
        MatchUnique(shift, knownRot, Detected(shift));
      } else if Detected(shift) >= 0 {
        var j := AroundReaches(before, Detected(shift));
        assert false;
      }
    }

    /** One sample: part of the frame being received, or of a sync word yet to be found. */
    method Sample(x: Complex)
      requires Valid()
      modifies this, writeBuf
      ensures Valid() && State() == DeframeStep(old(State()), x)
    {
      hide Detected, SyncRotated;
      if recv != 0 {
        ghost var pending := writeBuf[..outCount];
        writeBuf[outCount] := Times(x, symRot);
        outCount := outCount + 1;
        assert writeBuf[..outCount] == pending + [Times(x, symRot)];
        recv := recv - 1;
        if recv == 0 {
          frames := frames + [writeBuf[..outCount]];
        }
      } else {
        var sym := Decide(x);
        shift := Push(shift, sym);
        FindRotation();
        assert recv != 0 ==> writeBuf[..outCount] == [];
      }
    }

    /** One read of the input stream. */
    method Run(input: seq<Complex>)
      requires Valid()
      modifies this, writeBuf
      ensures Valid() && State() == Deframe(old(State()), input)
    {
      hide DeframeStep;
      ghost var start := State();
      assert input[..0] == [];
      for i := 0 to |input|
        invariant Valid() && State() == Deframe(start, input[..i])
      {
        Sample(input[i]);
        assert input[..i + 1][..i] == input[..i];
      }
      assert input[..|input|] == input;
    }

    /** Two reads leave the state of one. */
    method RunTwice(a: seq<Complex>, b: seq<Complex>)
      requires Valid()
      modifies this, writeBuf
      ensures Valid() && State() == Deframe(old(State()), a + b)
    {
      ghost var start := State();
      Run(a);
      Run(b);
      DeframeSplit(start, a, b);
    }
  }

  /** The rotation i quarters on. */
  function Around(r: rotation, i: nat): rotation {
    (r + i) % 4
  }

  /** Four turns reach every rotation. */
  lemma AroundReaches(r: rotation, q: rotation) returns (j: nat)
    ensures j < 4 && Around(r, j) == q
  {
    j := (q as int + 4 - r as int) % 4;
  }

  lemma MatchesDistance(shift: nat, r: rotation)
    ensures Matches(shift, r) <==> Hamming(shift, SyncRotated(r), SYNC_BITS) < 6
  {
    hide Hamming, SyncRotated;
  }

  lemma DetectedMatch(shift: nat)
    ensures Detected(shift) >= 0 ==> Matches(shift, Detected(shift))
    ensures Detected(shift) < 0 ==> forall r: rotation :: !Matches(shift, r)
  {
    hide Matches;
  }

  // ----- the register

  lemma PushMod(x: nat, s: symbol)
    ensures Push(x % WORD_RANGE, s) == (x * 4 + s) % WORD_RANGE
  {
    var y := (x % WORD_RANGE) * 4 + s;
    ModUnique(x * 4 + s, WORD_RANGE, 4 * (x / WORD_RANGE) + y / WORD_RANGE, y % WORD_RANGE);
  }

  lemma {:induction false} PushAllValue(shift: nat, s: seq<symbol>)
    requires shift < WORD_RANGE
    ensures PushAll(shift, s) == (shift * Pow2(2 * |s|) + Value(s)) % WORD_RANGE
  {
    hide Push;
    if s == [] {
      assert shift * Pow2(0) == shift;
    } else {
      var n := |s| - 1;
      PushAllValue(shift, s[..n]);
      Pow2Twice(|s|);
      hide Pow2;
      var p := Pow2(2 * n);
      assert 4 * (shift * p) == shift * (4 * p);
      PushMod(shift * p + Value(s[..n]), s[n]);
    }
  }

  /** Thirty-two symbols fill the register, whatever it held before. */
  lemma RegisterFilled(shift: nat, s: seq<symbol>)
    requires shift < WORD_RANGE && |s| == SYNC_SYMS
    ensures PushAll(shift, s) == Value(s)
  {
    hide Pow2, Value, PushAll;
    PushAllValue(shift, s);
    ValueBound(s);
    WordRange();
    assert shift * WORD_RANGE + Value(s) == WORD_RANGE * shift + Value(s);
  }

  /** The words the constructor computes. */
  lemma SyncRotations(quad0: nat, quarters: seq<symbol>)
    requires quad0 < WORD_RANGE
    requires quarters == RotatedAll(Symbols(SYNC_WORD, SYNC_SYMS), 1)
    ensures SyncRotated(0) == SYNC_WORD && SyncRotated(1) == PushAll(quad0, quarters)
    ensures SyncRotated(2) == WORD_RANGE - 1 - SYNC_WORD
    ensures SyncRotated(3) == WORD_RANGE - 1 - PushAll(quad0, quarters)
  {
    hide Pow2, Value, PushAll, Symbols, Quarter;
    var sync := Symbols(SYNC_WORD, SYNC_SYMS);
    WordRange();
    ValueSymbols(SYNC_WORD, SYNC_SYMS);
    assert RotatedAll(sync, 0) == sync;
    RegisterFilled(quad0, quarters);
    Opposite(sync, RotatedAll(sync, 2));
    Opposite(quarters, RotatedAll(sync, 3));
  }

  /** The number of bits in which two sequences of symbols differ. */
  function BitErrors(s: seq<symbol>, t: seq<symbol>): nat
    requires |s| == |t|
  {
    if s == [] then 0
    else BitErrors(s[..|s| - 1], t[..|t| - 1]) + SymbolDistance(s[|s| - 1], t[|t| - 1])
  }

  lemma {:induction false} BitErrorsHamming(s: seq<symbol>, t: seq<symbol>)
    requires |s| == |t|
    ensures Hamming(Value(s), Value(t), 2 * |s|) == BitErrors(s, t)
  {
    hide Hamming, SymbolDistance;
    if s == [] {
      NoBitsApart(Value(s), Value(t));
    } else {
      var n := |s| - 1;
      BitErrorsHamming(s[..n], t[..n]);
      HammingStep(Value(s[..n]), Value(t[..n]), s[n], t[n], 2 * n);
    }
  }

  /** The last 32 symbols match in a rotation exactly when at most five of their bits are wrong. */
  lemma SyncTolerance(shift: nat, s: seq<symbol>, r: rotation)
    requires shift < WORD_RANGE && |s| == SYNC_SYMS
    ensures Matches(PushAll(shift, s), r) <==>
      BitErrors(s, RotatedAll(Symbols(SYNC_WORD, SYNC_SYMS), r)) <= MAX_SYNC_ERRORS
  {
    hide Value, PushAll, Hamming, BitErrors, Symbols, RotatedAll;
    RegisterFilled(shift, s);
    BitErrorsHamming(s, RotatedAll(Symbols(SYNC_WORD, SYNC_SYMS), r));
  }

  // ----- what the deframer guarantees

  /** How the input is split into reads does not matter. */
  lemma {:induction false} DeframeSplit(d: DeframerState, a: seq<Complex>, b: seq<Complex>)
    ensures Deframe(d, a + b) == Deframe(Deframe(d, a), b)
    decreases |b|
  {
    hide DeframeStep;
    if b == [] {
      assert a + b == a;
    } else {
      var n := |b| - 1;
      DeframeSplit(d, a, b[..n]);
      assert (a + b)[..|a| + n] == a + b[..n];
    }
  }

  /** Every frame passed on has 8168 symbols. */
  ghost predicate WholeFrames(d: DeframerState) {
    && (d.recv > 0 ==> |d.pending| + d.recv == FRAME_SYMS)
    && forall i :: 0 <= i < |d.frames| ==> |d.frames[i]| == FRAME_SYMS
  }

  lemma {:induction false} DeframeWhole(d: DeframerState, input: seq<Complex>)
    requires WholeFrames(d)
    ensures WholeFrames(Deframe(d, input))
    decreases |input|
  {
    hide Detected, Matches;
    if input != [] {
      DeframeWhole(d, input[..|input| - 1]);
    }
  }

  function TurnedAll(s: seq<Complex>, r: rotation): (t: seq<Complex>)
    ensures |t| == |s|
  {
    seq(|s|, i requires 0 <= i < |s| => Turned(s[i], r))
  }

  /** While a frame is received, its samples are turned back. */
  lemma {:induction false} Receiving(d: DeframerState, data: seq<Complex>, r: rotation, n: nat)
    requires d.recv == FRAME_SYMS && d.pending == [] && d.symRot == TurnBack(r) && n <= |data| == FRAME_SYMS
    ensures var e := Deframe(d, TurnedAll(data, r)[..n]);
      if n < FRAME_SYMS then e == d.(recv := FRAME_SYMS - n, pending := data[..n])
      else e == d.(recv := 0, pending := [], frames := d.frames + [data])
    decreases n
  {
    hide Times, Turned, TurnBack;
    var input := TurnedAll(data, r);
    if n > 0 {
      Receiving(d, data, r, n - 1);
      assert input[..n][..n - 1] == input[..n - 1];
      TurnedBack(data[n - 1], r);
      assert data[..n] == data[..n - 1] + [data[n - 1]];
      assert data[..FRAME_SYMS] == data;
    } else {
      assert input[..0] == [];
    }
  }

  /** While nothing matches, samples only move the register. */
  lemma {:induction false} Searching(d: DeframerState, x: seq<Complex>)
    requires d.recv == 0
    requires forall k :: 0 < k <= |x| ==> Detected(PushAll(d.shift, DecideAll(x)[..k])) < 0
    ensures Deframe(d, x) == d.(shift := PushAll(d.shift, DecideAll(x)))
    decreases |x|
  {
    hide Detected, Push, Decide;
    var s := DecideAll(x);
    if x != [] {
      var n := |x| - 1;
      assert DecideAll(x[..n]) == s[..n];
      forall k | 0 < k <= n ensures Detected(PushAll(d.shift, DecideAll(x[..n])[..k])) < 0 {
        assert s[..n][..k] == s[..k];
      }
      Searching(d, x[..n]);
      assert s[..n + 1] == s;
      assert Detected(PushAll(d.shift, s[..n + 1])) < 0;
    }
  }

  /** A sync word rotated by r quarters, found where it ends and not before, delivers the frame turned back exactly,
      whatever rotation was known before. The register at its end may differ from the sync word in five bits. */
  lemma FrameRecovered(d: DeframerState, sync: seq<Complex>, data: seq<Complex>, r: rotation)
    requires d.recv == 0 && sync != [] && |data| == FRAME_SYMS
    requires forall k :: 0 < k < |sync| ==> Detected(PushAll(d.shift, DecideAll(sync)[..k])) < 0
    requires Matches(PushAll(d.shift, DecideAll(sync)), r)
    ensures var e := Deframe(d, sync + TurnedAll(data, r));
      && e.frames == d.frames + [data] && e.recv == 0 && e.knownRot == r
      && e.shift == PushAll(d.shift, DecideAll(sync))
  {
    hide Matches, Push, Decide, Detected, Turned, TurnBack, Times;
    var n := |sync| - 1;
    var s := DecideAll(sync);
    assert DecideAll(sync[..n]) == s[..n];
    forall k | 0 < k <= n ensures Detected(PushAll(d.shift, DecideAll(sync[..n])[..k])) < 0 {
      assert s[..n][..k] == s[..k];
    }
    Searching(d, sync[..n]);
    var e := Deframe(d, sync);
    DetectedMatch(PushAll(d.shift, s));
    MatchUnique(PushAll(d.shift, s), r, Detected(PushAll(d.shift, s)));
    assert e.recv == FRAME_SYMS && e.pending == [] && e.symRot == TurnBack(r) && e.frames == d.frames && e.knownRot == r;
    DeframeSplit(d, sync, TurnedAll(data, r));
    Receiving(e, data, r, FRAME_SYMS);
    assert TurnedAll(data, r)[..FRAME_SYMS] == TurnedAll(data, r);
  }
}
