/** A sync word is found only where it ends: frames sent one after the other are delivered in order, whatever their
    rotations and with up to five wrong bits in every sync word. */
module SyncSearch {
  import opened Bits
  import opened Framing
  import opened SyncWord

  /** The symbols of the sync word received in rotation r. */
  function SyncTurned(r: rotation): (s: seq<symbol>)
    ensures |s| == SYNC_SYMS
  {
    RotatedAll(Symbols(SYNC_WORD, SYNC_SYMS), r)
  }

  // ----- bit errors

  lemma {:induction false} ErrorsTriangle(a: seq<symbol>, b: seq<symbol>, c: seq<symbol>)
    requires |a| == |b| == |c|
    ensures BitErrors(a, c) <= BitErrors(a, b) + BitErrors(b, c) && BitErrors(a, b) == BitErrors(b, a)
    decreases |a|
  {
    if a != [] {
      var n := |a| - 1;
      ErrorsTriangle(a[..n], b[..n], c[..n]);
    }
  }

  lemma {:induction false} ErrorsSplit(a: seq<symbol>, b: seq<symbol>, k: nat)
    requires |a| == |b| && k <= |a|
    ensures BitErrors(a, b) == BitErrors(a[..k], b[..k]) + BitErrors(a[k..], b[k..])
    decreases |a|
  {
    hide SymbolDistance;
    var n := |a| - 1;
    if k < |a| {
      ErrorsSplit(a[..n], b[..n], k);
      assert a[..n][..k] == a[..k] && b[..n][..k] == b[..k];
      assert a[k..][..n - k] == a[..n][k..] && b[k..][..n - k] == b[..n][k..];
    } else {
      assert a[..k] == a && b[..k] == b;
    }
  }

  /** A stretch has no more errors than the whole. */
  lemma ErrorsWithin(a: seq<symbol>, b: seq<symbol>, i: nat, j: nat)
    requires |a| == |b| && i <= j <= |a|
    ensures BitErrors(a[i..j], b[i..j]) <= BitErrors(a, b)
  {
    hide BitErrors;
    ErrorsSplit(a, b, j);
    ErrorsSplit(a[..j], b[..j], i);
    assert a[..j][i..] == a[i..j] && b[..j][i..] == b[i..j];
  }

  /** The bits in which two turned symbols differ: only the difference of the rotations counts, and opposite rotations
      swap equal and different bits. */
  lemma DistanceTurned(a: symbol, b: symbol, q: rotation, p: rotation)
    ensures SymbolDistance(Rotated(a, q), Rotated(b, p)) ==
      var r := Around(q, 4 - p);
      if r < 2 then SymbolDistance(Rotated(a, r), b) else 2 - SymbolDistance(Rotated(a, r - 2), b)
  {
    hide SymbolDistance;
    var r := Around(q, 4 - p);
    ApartDistance(Rotated(a, q), Rotated(b, p));
    ApartDistance(Rotated(a, if r < 2 then r else r - 2), b);
    TurnedBoth(a, b, q, p);
  }

  lemma TurnedBoth(a: symbol, b: symbol, q: rotation, p: rotation)
    ensures Apart(Rotated(a, q), Rotated(b, p)) ==
      var r := Around(q, 4 - p);
      if r < 2 then Apart(Rotated(a, r), b) else 2 - Apart(Rotated(a, r - 2), b)
  {
    AroundDifference(q, p);
    hide Around;
    if q == 0 {
    } else if q == 1 {
    } else if q == 2 {
    } else {
    }
  }

  lemma AroundDifference(q: rotation, p: rotation)
    ensures Around(q, 4 - p) == if q >= p then q - p else q + 4 - p
  {
  }

  lemma {:induction false} ErrorsTurned(a: seq<symbol>, b: seq<symbol>, q: rotation, p: rotation)
    requires |a| == |b|
    ensures BitErrors(RotatedAll(a, q), RotatedAll(b, p)) ==
      var r := Around(q, 4 - p);
      if r < 2 then BitErrors(RotatedAll(a, r), b) else 2 * |a| - BitErrors(RotatedAll(a, r - 2), b)
    decreases |a|
  {
    hide Rotated, SymbolDistance;
    if a != [] {
      var n := |a| - 1;
      ErrorsTurned(a[..n], b[..n], q, p);
      DistanceTurned(a[n], b[n], q, p);
      assert RotatedAll(a, q)[..n] == RotatedAll(a[..n], q) && RotatedAll(b, p)[..n] == RotatedAll(b[..n], p);
      assert RotatedAll(a, 0)[..n] == RotatedAll(a[..n], 0) && RotatedAll(a, 1)[..n] == RotatedAll(a[..n], 1);
    }
  }

  // ----- the sync word against its shifts

  lemma {:induction false} LagBitErrors(m: nat, r: bit, i: nat, n: nat)
    requires m + i + n <= SYNC_SYMS
    ensures BitErrors(RotatedAll(SyncSymbols(SYNC_SYMS)[m + i..m + i + n], r), SyncSymbols(SYNC_SYMS)[i..i + n])
         == LagErrors(m, r, i, n)
  {
    hide SymbolDistance, SyncSymbol, Apart;
    if n != 0 {
      var s := SyncSymbols(SYNC_SYMS);
      LagBitErrors(m, r, i, n - 1);
      assert RotatedAll(s[m + i..m + i + n], r)[..n - 1] == RotatedAll(s[m + i..m + i + n - 1], r);
      assert s[i..i + n][..n - 1] == s[i..i + n - 1];
      ApartDistance(Rotated(SyncSymbol(m + i + n - 1), r), SyncSymbol(i + n - 1));
    }
  }

  /** Sixteen symbols of the sync word and of its shift. */
  lemma SixteenErrors(m: nat, r: bit)
    requires 1 <= m <= 16
    ensures var s, i := SyncSymbols(SYNC_SYMS), LagStart(m);
      m + i + 16 <= SYNC_SYMS && 11 <= BitErrors(RotatedAll(s[m + i..m + i + 16], r), s[i..i + 16]) <= 21
  {
    hide BitErrors, Rotated, LagErrors, SyncSymbol, LagStart;
    var i := LagStart(m);
    LagTable(m, r);
    LagBitErrors(m, r, i, 16);
  }

  /** The sync word shifted by up to sixteen symbols differs from itself in at least eleven bits, in any two rotations. */
  lemma Unlike(m: nat, q: rotation, p: rotation)
    requires 1 <= m <= 16
    ensures BitErrors(SyncTurned(q)[m..], SyncTurned(p)[..SYNC_SYMS - m]) >= 11
  {
    hide BitErrors, SyncTurned, Rotated, LagErrors, SyncSymbol, LagStart, Around;
    var s, i := SyncSymbols(SYNC_SYMS), LagStart(m);
    var r := Around(q, 4 - p);
    SixteenErrors(m, if r < 2 then r else r - 2);
    var a, b := s[m + i..m + i + 16], s[i..i + 16];
    ErrorsTurned(a, b, q, p);
    ErrorsWithin(SyncTurned(q)[m..], SyncTurned(p)[..SYNC_SYMS - m], i, i + 16);
    TurnedSlice(q, m + i, m + i + 16);
    TurnedSlice(p, i, i + 16);
    assert SyncTurned(q)[m..][i..i + 16] == SyncTurned(q)[m + i..m + i + 16];
    assert SyncTurned(p)[..SYNC_SYMS - m][i..i + 16] == SyncTurned(p)[i..i + 16];
  }

  lemma TurnedSlice(r: rotation, i: nat, j: nat)
    requires i <= j <= SYNC_SYMS
    ensures SyncTurned(r)[i..j] == RotatedAll(SyncSymbols(SYNC_SYMS)[i..j], r)
  {
    hide Symbols, Rotated, SyncSymbol;
    SyncWordSymbols();
  }

  function ZeroSymbols(n: nat): (s: seq<symbol>)
    ensures |s| == n
  {
    seq(n, _ => 0)
  }

  lemma {:induction false} ZeroBitErrors(r: bit, i: nat, n: nat)
    requires i + n <= SYNC_SYMS
    ensures BitErrors(ZeroSymbols(n), RotatedAll(SyncSymbols(SYNC_SYMS)[i..i + n], r)) == ZeroErrors(r, i, n)
  {
    hide SymbolDistance, SyncSymbol, Apart;
    if n != 0 {
      var s := SyncSymbols(SYNC_SYMS);
      ZeroBitErrors(r, i, n - 1);
      assert RotatedAll(s[i..i + n], r)[..n - 1] == RotatedAll(s[i..i + n - 1], r);
      assert ZeroSymbols(n)[..n - 1] == ZeroSymbols(n - 1);
      ApartDistance(0, Rotated(SyncSymbol(i + n - 1), r));
    }
  }

  /** So does a register that starts with sixteen zeros. */
  lemma UnlikeZeros(p: rotation)
    ensures BitErrors(ZeroSymbols(16), SyncTurned(p)[..16]) >= 11
  {
    hide BitErrors, Symbols, Rotated, ZeroErrors, SyncSymbol, Around;
    SyncWordSymbols();
    ZeroTable();
    var s, z := SyncSymbols(SYNC_SYMS)[..16], ZeroSymbols(16);
    var r: bit := if p == 0 || p == 2 then 0 else 1;
    ZeroBitErrors(r, 0, 8);
    ZeroBitErrors(r, 8, 8);
    ErrorsSplit(z, RotatedAll(s, r), 8);
    assert z[..8] == ZeroSymbols(8) == z[8..];
    assert RotatedAll(s, r)[..8] == RotatedAll(SyncSymbols(SYNC_SYMS)[0..8], r);
    assert RotatedAll(s, r)[8..] == RotatedAll(SyncSymbols(SYNC_SYMS)[8..16], r);
    assert SyncTurned(p)[..16] == RotatedAll(s, p);
    OppositeErrors(z, s, p, r);
  }

  /** Turned by half, equal and different bits change places. */
  lemma {:induction false} OppositeErrors(z: seq<symbol>, s: seq<symbol>, p: rotation, r: bit)
    requires |z| == |s| && (p == r || p == r + 2)
    ensures BitErrors(z, RotatedAll(s, p)) ==
      if p == r then BitErrors(z, RotatedAll(s, r)) else 2 * |s| - BitErrors(z, RotatedAll(s, r))
    decreases |s|
  {
    hide SymbolDistance, Rotated;
    if s != [] {
      var n := |s| - 1;
      OppositeErrors(z[..n], s[..n], p, r);
      assert RotatedAll(s, p)[..n] == RotatedAll(s[..n], p) && RotatedAll(s, r)[..n] == RotatedAll(s[..n], r);
      OppositeDistance(z[n], s[n], r);
    }
  }

  lemma OppositeDistance(z: symbol, s: symbol, r: bit)
    ensures SymbolDistance(z, Rotated(s, r + 2)) == 2 - SymbolDistance(z, Rotated(s, r))
  {
    hide SymbolDistance;
    ApartDistance(z, Rotated(s, r + 2));
    ApartDistance(z, Rotated(s, r));
  }

  // ----- the register between two sync words

  lemma {:induction false} PushAllConcat(shift: nat, a: seq<symbol>, b: seq<symbol>)
    ensures PushAll(shift, a + b) == PushAll(PushAll(shift, a), b)
    decreases |b|
  {
    hide Push;
    if b == [] {
      assert a + b == a;
    } else {
      var n := |b| - 1;
      PushAllConcat(shift, a, b[..n]);
      assert (a + b)[..|a| + n] == a + b[..n];
    }
  }

  lemma PushAllRange(shift: nat, s: seq<symbol>)
    requires shift < WORD_RANGE
    ensures PushAll(shift, s) < WORD_RANGE
  {
  }

  /** The symbols are those of the sync word in rotation r but for five bits. */
  predicate Close(s: seq<symbol>, r: rotation) {
    |s| == SYNC_SYMS && BitErrors(s, SyncTurned(r)) <= MAX_SYNC_ERRORS
  }

  lemma {:induction false} NoBitErrors(s: seq<symbol>)
    ensures BitErrors(s, s) == 0
  {
    if s != [] {
      NoBitErrors(s[..|s| - 1]);
    }
  }

  /** Samples of the sync word that are decided rightly before they are rotated are close to it. */
  lemma DecidedClose(x: seq<Complex>, r: rotation)
    requires |x| == SYNC_SYMS
    requires forall i :: 0 <= i < |x| ==> x[i].re != 0.0 && x[i].im != 0.0 && Decide(x[i]) == Symbols(SYNC_WORD, SYNC_SYMS)[i]
    ensures Close(DecideAll(TurnedAll(x, r)), r)
  {
    hide Symbols, Decide, Turned, Rotated;
    var s := DecideAll(TurnedAll(x, r));
    forall i | 0 <= i < |x| ensures s[i] == SyncTurned(r)[i] {
      DecideTurned(x[i], r);
    }
    assert s == SyncTurned(r);
    NoBitErrors(s);
  }

  /** The sync word as it is sent, in any rotation. */
  lemma CleanSync(r: rotation)
    ensures Close(DecideAll(TurnedAll(Points(Symbols(SYNC_WORD, SYNC_SYMS)), r)), r)
  {
    hide Symbols, Decide, Point, Close;
    var s := Symbols(SYNC_WORD, SYNC_SYMS);
    forall i | 0 <= i < SYNC_SYMS
      ensures Points(s)[i].re != 0.0 && Points(s)[i].im != 0.0 && Decide(Points(s)[i]) == s[i]
    {
      DecidePoint(s[i]);
    }
    DecidedClose(Points(s), r);
  }

  /** No part of the symbols but the whole makes the register match. */
  ghost predicate NoEarlyMatch(shift: nat, s: seq<symbol>) {
    forall k :: 0 < k < |s| ==> Detected(PushAll(shift, s[..k])) < 0
  }

  /** Sixteen or more symbols of a sync word do not look like its end. */
  lemma HeadUnlike(t: seq<symbol>, r: rotation, k: nat, p: rotation)
    requires Close(t, r) && 16 <= k < SYNC_SYMS
    ensures BitErrors(t[..k], SyncTurned(p)[SYNC_SYMS - k..]) >= 6
  {
    hide BitErrors, SyncTurned;
    var m := SYNC_SYMS - k;
    Unlike(m, p, r);
    ErrorsWithin(t, SyncTurned(r), 0, k);
    assert t[0..k] == t[..k] && SyncTurned(r)[0..k] == SyncTurned(r)[..k];
    ErrorsTriangle(SyncTurned(p)[m..], t[..k], SyncTurned(r)[..k]);
  }

  /** Sixteen or more last symbols of a sync word do not look like its start. */
  lemma RestUnlike(s: seq<symbol>, q: rotation, k: nat, p: rotation)
    requires Close(s, q) && 1 <= k <= 16
    ensures BitErrors(s[k..], SyncTurned(p)[..SYNC_SYMS - k]) >= 6
  {
    hide BitErrors, SyncTurned;
    Unlike(k, q, p);
    ErrorsWithin(s, SyncTurned(q), k, SYNC_SYMS);
    assert s[k..SYNC_SYMS] == s[k..] && SyncTurned(q)[k..SYNC_SYMS] == SyncTurned(q)[k..];
    ErrorsTriangle(SyncTurned(q)[k..], s[k..], SyncTurned(p)[..SYNC_SYMS - k]);
  }

  lemma ZerosUnlike(k: nat, p: rotation)
    requires 1 <= k <= 16
    ensures BitErrors(ZeroSymbols(SYNC_SYMS)[k..], SyncTurned(p)[..SYNC_SYMS - k]) >= 6
  {
    hide BitErrors, SyncTurned;
    UnlikeZeros(p);
    ErrorsWithin(ZeroSymbols(SYNC_SYMS)[k..], SyncTurned(p)[..SYNC_SYMS - k], 0, 16);
    assert ZeroSymbols(SYNC_SYMS)[k..][0..16] == ZeroSymbols(16);
    assert SyncTurned(p)[..SYNC_SYMS - k][0..16] == SyncTurned(p)[..16];
  }

  /** After symbols s and the first k of t the register holds the last 32 of them. */
  lemma NotYet(shift: nat, s: seq<symbol>, t: seq<symbol>, k: nat)
    requires shift < WORD_RANGE && |s| == |t| == SYNC_SYMS && 0 < k < SYNC_SYMS
    requires forall p: rotation ::
      BitErrors(s[k..], SyncTurned(p)[..SYNC_SYMS - k]) >= 6 || BitErrors(t[..k], SyncTurned(p)[SYNC_SYMS - k..]) >= 6
    ensures Detected(PushAll(PushAll(shift, s), t[..k])) < 0
  {
    hide BitErrors, SyncTurned, Matches, PushAll, Detected;
    var held, earlier := s[k..] + t[..k], PushAll(shift, s[..k]);
    assert s == s[..k] + s[k..];
    PushAllConcat(shift, s[..k], s[k..]);
    PushAllConcat(earlier, s[k..], t[..k]);
    PushAllRange(shift, s[..k]);
    DetectedMatch(PushAll(earlier, held));
    forall p: rotation ensures !Matches(PushAll(earlier, held), p) {
      SyncTolerance(earlier, held, p);
      TurnedIs(p);
      ErrorsSplit(held, SyncTurned(p), SYNC_SYMS - k);
      assert held[..SYNC_SYMS - k] == s[k..] && held[SYNC_SYMS - k..] == t[..k];
    }
  }

  lemma TurnedIs(p: rotation)
    ensures SyncTurned(p) == RotatedAll(Symbols(SYNC_WORD, SYNC_SYMS), p)
  {
  }

  /** The register that a sync word leaves does not match before the next sync word ends, whatever their rotations. */
  lemma NoMatchBetween(shift: nat, s: seq<symbol>, q: rotation, t: seq<symbol>, r: rotation)
    requires shift < WORD_RANGE && Close(s, q) && Close(t, r)
    ensures NoEarlyMatch(PushAll(shift, s), t)
  {
    hide BitErrors, SyncTurned, PushAll, Detected;
    forall k | 0 < k < |t| ensures Detected(PushAll(PushAll(shift, s), t[..k])) < 0 {
      forall p: rotation ensures BitErrors(s[k..], SyncTurned(p)[..SYNC_SYMS - k]) >= 6
                              || BitErrors(t[..k], SyncTurned(p)[SYNC_SYMS - k..]) >= 6 {
        if k <= 16 {
          RestUnlike(s, q, k, p);
        } else {
          HeadUnlike(t, r, k, p);
        }
      }
      NotYet(shift, s, t, k);
    }
  }

  lemma {:induction false} ZeroRegister(n: nat)
    ensures PushAll(0, ZeroSymbols(n)) == 0
  {
    if n != 0 {
      ZeroRegister(n - 1);
      assert ZeroSymbols(n)[..n - 1] == ZeroSymbols(n - 1);
    }
  }

  /** Neither does a cleared register. */
  lemma NoMatchFromZero(t: seq<symbol>, r: rotation)
    requires Close(t, r)
    ensures NoEarlyMatch(0, t)
  {
    hide BitErrors, SyncTurned, PushAll, Detected;
    var z := ZeroSymbols(SYNC_SYMS);
    ZeroRegister(SYNC_SYMS);
    forall k | 0 < k < |t| ensures Detected(PushAll(0, t[..k])) < 0 {
      forall p: rotation ensures BitErrors(z[k..], SyncTurned(p)[..SYNC_SYMS - k]) >= 6
                              || BitErrors(t[..k], SyncTurned(p)[SYNC_SYMS - k..]) >= 6 {
        if k <= 16 {
          ZerosUnlike(k, p);
        } else {
          HeadUnlike(t, r, k, p);
        }
      }
      NotYet(0, z, t, k);
    }
  }

  // ----- a register that matches early

  lemma {:induction false} NoHamming(a: nat, n: nat)
    ensures Hamming(a, a, n) == 0
  {
    if n != 0 {
      NoHamming(a / 2, n - 1);
    }
  }

  /** The sync word without its last symbol. */
  const EARLY_REGISTER: nat := 0x0D07315020676258

  /** With it in the register the first symbol of an unturned sync word matches already. */
  lemma EarlyRegister(t: seq<symbol>)
    requires |t| == SYNC_SYMS && t[0] == 0
    ensures !NoEarlyMatch(EARLY_REGISTER, t)
  {
    hide Hamming, Symbols, Matches, SyncRotated;
    var shift := EARLY_REGISTER;
    assert t[..1][..0] == [];
    assert PushAll(shift, t[..1]) == Push(PushAll(shift, []), t[0]) == 4 * shift + 0;
    NoHamming(shift, 62);
    HammingStep(shift, shift, 0, 3, 62);
    assert SymbolDistance(0, 3) == 2;
    UnturnedSync();
    MatchesDistance(4 * shift, 0);
    DetectedMatch(PushAll(shift, t[..1]));
  }

  lemma UnturnedSync()
    ensures SyncRotated(0) == SYNC_WORD
  {
    hide Symbols, Value;
    var s := Symbols(SYNC_WORD, SYNC_SYMS);
    WordRange();
    ValueSymbols(SYNC_WORD, SYNC_SYMS);
    assert RotatedAll(s, 0) == s;
  }

  // ----- exactly when a frame is delivered

  /** A frame whose samples follow those received for a sync word comes out, whatever it holds. */
  ghost predicate Delivers(d: DeframerState, sync: seq<Complex>, r: rotation) {
    forall data: seq<Complex> :: |data| == FRAME_SYMS ==> Deframe(d, sync + TurnedAll(data, r)).frames == d.frames + [data]
  }

  /** A stretch shorter than a frame completes none. */
  lemma {:induction false} ShortStretch(d: DeframerState, x: seq<Complex>)
    requires d.recv == 0 && |x| < FRAME_SYMS
    ensures var e := Deframe(d, x); e.frames == d.frames && (e.recv == 0 || e.recv > FRAME_SYMS - |x|)
    decreases |x|
  {
    hide Detected, Push, Decide;
    if x != [] {
      ShortStretch(d, x[..|x| - 1]);
    }
  }

  /** What a frame started in rotation q makes of its samples. */
  function TurnedBackAll(x: seq<Complex>, q: rotation): (s: seq<Complex>)
    ensures |s| == |x|
  {
    seq(|x|, i requires 0 <= i < |x| => Times(x[i], TurnBack(q)))
  }

  lemma TurnedBackAgain(x: seq<Complex>, q: rotation)
    ensures TurnedAll(TurnedBackAll(x, q), q) == x
  {
  }

  /** A register that matches too early takes the rest of the sync word for data. */
  lemma EarlyMatchLoses(d: DeframerState, sync: seq<Complex>, r: rotation, k: nat, data: seq<Complex>)
    requires d.recv == 0 && |sync| == SYNC_SYMS && |data| == FRAME_SYMS
    requires 0 < k < SYNC_SYMS && Detected(PushAll(d.shift, DecideAll(sync)[..k])) >= 0
    requires forall j :: 0 < j < k ==> Detected(PushAll(d.shift, DecideAll(sync)[..j])) < 0
    ensures var q := Detected(PushAll(d.shift, DecideAll(sync)[..k]));
      var e := Deframe(d, sync + TurnedAll(data, r));
      |e.frames| == |d.frames| + 1 && |e.frames[|d.frames|]| == FRAME_SYMS
      && e.frames[|d.frames|][0] == Times(sync[k], TurnBack(q))
  {
    hide Detected, Push, PushAll, Decide, Turned, TurnBack, Times, Deframe;
    var q := Detected(PushAll(d.shift, DecideAll(sync)[..k]));
    var input := sync + TurnedAll(data, r);
    var taken, after := input[k..k + FRAME_SYMS], input[k + FRAME_SYMS..];
    var e := Starting(d, sync, k);
    DeframeSplit(d, input[..k], taken);
    DeframeSplit(d, input[..k] + taken, after);
    assert input == input[..k] + taken + after && input[..k] == sync[..k];
    TurnedBackAgain(taken, q);
    var g := TurnedBackAll(taken, q);
    assert TurnedAll(g, q)[..FRAME_SYMS] == taken;
    Receiving(e, g, q, FRAME_SYMS);
    ShortStretch(Deframe(e, taken), after);
  }

  /** The first match starts a frame. */
  lemma Starting(d: DeframerState, sync: seq<Complex>, k: nat) returns (e: DeframerState)
    requires d.recv == 0 && 0 < k <= |sync| && Detected(PushAll(d.shift, DecideAll(sync)[..k])) >= 0
    requires forall j :: 0 < j < k ==> Detected(PushAll(d.shift, DecideAll(sync)[..j])) < 0
    ensures e == Deframe(d, sync[..k]) && e.recv == FRAME_SYMS && e.pending == [] && e.frames == d.frames
    ensures e.symRot == TurnBack(Detected(PushAll(d.shift, DecideAll(sync)[..k])))
  {
    hide Detected, Push, Decide, TurnBack, Times;
    var n, s := k - 1, DecideAll(sync);
    assert DecideAll(sync[..n]) == s[..n] && sync[..k][..n] == sync[..n] && s[..k][..n] == s[..n];
    forall j | 0 < j <= n ensures Detected(PushAll(d.shift, DecideAll(sync[..n])[..j])) < 0 {
      assert s[..n][..j] == s[..j];
    }
    Searching(d, sync[..n]);
    e := Deframe(d, sync[..k]);
  }

  /** A frame is delivered whatever it holds if and only if the register does not match before the sync word's end. */
  lemma DeliversExactly(d: DeframerState, sync: seq<Complex>, r: rotation)
    requires d.recv == 0 && d.shift < WORD_RANGE && Close(DecideAll(sync), r)
    ensures Delivers(d, sync, r) <==> NoEarlyMatch(d.shift, DecideAll(sync))
  {
    hide Detected, PushAll, Deframe, BitErrors, Matches, TurnedAll;
    var s := DecideAll(sync);
    if NoEarlyMatch(d.shift, s) {
      SyncTolerance(d.shift, s, r);
      forall data: seq<Complex> | |data| == FRAME_SYMS
        ensures Deframe(d, sync + TurnedAll(data, r)).frames == d.frames + [data]
      {
        FrameRecovered(d, sync, data, r);
      }
    } else {
      var k := FirstMatch(d.shift, s);
      var y := Times(sync[k], TurnBack(Detected(PushAll(d.shift, s[..k]))));
      var data: seq<Complex> := seq(FRAME_SYMS, _ => Complex(y.re + 1.0, y.im));
      EarlyMatchLoses(d, sync, r, k, data);
      assert Deframe(d, sync + TurnedAll(data, r)).frames != d.frames + [data];
    }
  }

  /** With the sync word all but its last symbol in the register, some frame is lost. */
  lemma EarlyRegisterLoses(d: DeframerState, sync: seq<Complex>)
    requires d.recv == 0 && d.shift == EARLY_REGISTER && Close(DecideAll(sync), 0) && Decide(sync[0]) == 0
    ensures !Delivers(d, sync, 0)
  {
    hide BitErrors, SyncTurned, Delivers, NoEarlyMatch;
    EarlyRegister(DecideAll(sync));
    DeliversExactly(d, sync, 0);
  }

  lemma FirstMatch(shift: nat, s: seq<symbol>) returns (k: nat)
    requires !NoEarlyMatch(shift, s)
    ensures 0 < k < |s| && Detected(PushAll(shift, s[..k])) >= 0
    ensures forall j :: 0 < j < k ==> Detected(PushAll(shift, s[..j])) < 0
  {
    hide Detected, PushAll;
    k := 1;
    while Detected(PushAll(shift, s[..k])) < 0
      invariant 0 < k < |s| && forall j :: 0 < j < k ==> Detected(PushAll(shift, s[..j])) < 0
      decreases |s| - k
    {
      k := k + 1;
    }
  }

  // ----- frames one after the other

  /** What is received for a sync word, and a frame's samples before the constellation's rotation. */
  datatype Burst = Burst(sync: seq<Complex>, data: seq<Complex>, rot: rotation)

  /** At most five bits of the sync word are wrong. */
  ghost predicate Heard(b: Burst) {
    Close(DecideAll(b.sync), b.rot) && |b.data| == FRAME_SYMS
  }

  function Samples(b: Burst): seq<Complex> {
    b.sync + TurnedAll(b.data, b.rot)
  }

  function AllSamples(bs: seq<Burst>): seq<Complex> {
    if bs == [] then [] else AllSamples(bs[..|bs| - 1]) + Samples(bs[|bs| - 1])
  }

  function AllData(bs: seq<Burst>): (d: seq<seq<Complex>>)
    ensures |d| == |bs|
  {
    seq(|bs|, i requires 0 <= i < |bs| => bs[i].data)
  }

  /** The register after the symbols, whatever was in it before. */
  ghost predicate LeftBy(register: nat, s: seq<symbol>) {
    exists shift: nat :: shift < WORD_RANGE && register == PushAll(shift, s)
  }

  /** Frames sent one after the other are delivered in order, each turned back exactly, if the register does not match
      within the first sync word. */
  lemma {:induction false} BackToBack(d: DeframerState, bs: seq<Burst>)
    requires d.recv == 0 && d.shift < WORD_RANGE
    requires forall i :: 0 <= i < |bs| ==> Heard(bs[i])
    requires bs != [] ==> NoEarlyMatch(d.shift, DecideAll(bs[0].sync))
    ensures var e := Deframe(d, AllSamples(bs));
      && e.recv == 0 && e.frames == d.frames + AllData(bs)
      && (bs != [] ==> LeftBy(e.shift, DecideAll(bs[|bs| - 1].sync)))
    decreases |bs|
  {
    hide Close, NoEarlyMatch, PushAll, DecideAll, TurnedAll, Matches;
    if bs != [] {
      var n := |bs| - 1;
      var b := bs[n];
      hide Deframe;
      BackToBack(d, bs[..n]);
      var e := Deframe(d, AllSamples(bs[..n]));
      DeframeSplit(d, AllSamples(bs[..n]), Samples(b));
      if n > 0 {
        var last := DecideAll(bs[n - 1].sync);
        var shift: nat :| shift < WORD_RANGE && e.shift == PushAll(shift, last);
        NoMatchBetween(shift, last, bs[n - 1].rot, DecideAll(b.sync), b.rot);
        PushAllRange(shift, last);
      } else {
        assert bs[..n] == [] && AllSamples(bs[..n]) == [];
        DeframeNothing(d);
      }
      HeardRecovered(e, b);
      assert AllData(bs) == AllData(bs[..n]) + [b.data];
    }
  }

  lemma DeframeNothing(d: DeframerState)
    ensures Deframe(d, []) == d
  {
  }

  lemma HeardRecovered(d: DeframerState, b: Burst)
    requires d.recv == 0 && d.shift < WORD_RANGE && Heard(b) && NoEarlyMatch(d.shift, DecideAll(b.sync))
    ensures var e := Deframe(d, Samples(b));
      e.recv == 0 && e.frames == d.frames + [b.data] && e.shift == PushAll(d.shift, DecideAll(b.sync))
  {
    hide Detected, PushAll, Deframe, BitErrors, Matches, TurnedAll;
    SyncTolerance(d.shift, DecideAll(b.sync), b.rot);
    FrameRecovered(d, b.sync, b.data, b.rot);
  }
}
