/** The weight of the difference of two paths: the code is linear, and a difference weighs nine once it is over or
    long. */
module FreeDistance {
  import opened Bits
  import opened BitIo
  import opened ConvCode

  const FREE_DISTANCE: nat := 9

  // ----- linearity

  lemma TapStep(a: nat, poly: nat)
    ensures Tap(a, poly) == ((a % 2) * (poly % 2) + Tap(a / 2, poly / 2)) % 2
  {
    hide And, PopCount;
    AndStep(a, poly);
    PopStep(And(a, poly));
  }

  lemma TapZero(poly: nat)
    ensures Tap(0, poly) == 0
  {
    AndNone(poly);
  }

  lemma {:induction false} TapXor(a: nat, b: nat, poly: nat)
    ensures Tap(Xor(a, b), poly) == (Tap(a, poly) + Tap(b, poly)) % 2
    decreases a + b
  {
    hide Tap, Xor;
    if a == 0 && b == 0 {
      XorZero(0);
      TapZero(poly);
    } else {
      XorParity(a, b);
      TapStep(a, poly);
      TapStep(b, poly);
      TapStep(Xor(a, b), poly);
      TapXor(a / 2, b / 2, poly / 2);
      ParitySum(a % 2, b % 2, poly % 2, Tap(a / 2, poly / 2), Tap(b / 2, poly / 2));
    }
  }

  lemma ParitySum(a: bit, b: bit, p: bit, s: bit, t: bit)
    ensures (((a as int + b as int) % 2) * p as int + (s as int + t as int) % 2) % 2
         == ((a as int * p as int + s as int) % 2 + (b as int * p as int + t as int) % 2) % 2
  {
    if p == 0 {
    } else {
    }
  }

  /** The number of ones of a register's outputs. */
  function Weight(r: nat): (w: nat)
    ensures w <= 2
  {
    Out(r) % 2 + Out(r) / 2
  }

  lemma OutTaps(r: nat)
    ensures Out(r) % 2 == Tap(r, 113) && Out(r) / 2 == Tap(r, 87)
  {
    hide Tap;
  }

  // ----- the difference of two paths

  function Difference(p: seq<bit>, x: seq<bit>): (d: seq<bit>)
    requires |p| == |x|
    ensures |d| == |p|
  {
    seq(|p|, i requires 0 <= i < |p| => if p[i] == x[i] then 0 else 1)
  }

  lemma {:induction false} XorLow(a: nat, b: nat, k: nat)
    ensures Low(Xor(a, b), k) == Xor(Low(a, k), Low(b, k))
  {
    hide Xor;
    if k == 0 {
      XorZero(0);
    } else {
      XorParity(a, b);
      XorLow(a / 2, b / 2, k - 1);
      LowStep(a, k);
      LowStep(b, k);
      LowStep(Xor(a, b), k);
      XorHalves(Low(a, k), Low(b, k));
    }
    hide Low;
  }

  lemma LowStep(v: nat, k: nat)
    requires k > 0
    ensures Low(v, k) % 2 == v % 2 && Low(v, k) / 2 == Low(v / 2, k - 1)
    ensures Low(v, k) == 2 * Low(v / 2, k - 1) + v % 2
  {
  }

  lemma XorHalves(a: nat, b: nat)
    ensures Xor(a, b) == (a % 2 + b % 2) % 2 + 2 * Xor(a / 2, b / 2)
  {
  }

  lemma {:induction false} LowMod(v: nat, k: nat)
    ensures Low(v, k) == v % Pow2(k)
  {
    if k != 0 {
      var p := Pow2(k - 1);
      LowMod(v / 2, k - 1);
      HalfMod(v, p);
    }
  }

  lemma HalfMod(v: nat, p: nat)
    requires p > 0
    ensures v % (2 * p) == 2 * (v / 2 % p) + v % 2
  {
    var q, r := v / 2 / p, v / 2 % p;
    DivMod(v / 2, p, q, r);
    TwiceProduct(p, q);
    TwiceProduct(q, p);
    ModUnique(v, 2 * p, q, 2 * r + v % 2);
  }

  lemma DivMod(v: nat, p: nat, q: nat, r: nat)
    requires p > 0 && q == v / p && r == v % p
    ensures v == p * q + r && r < p
  {
  }

  lemma LowSix(r: register)
    ensures Low(r, 6) == r % NUM_STATES
  {
    hide Low;
    LowMod(r, 6);
    assert Pow2(6) == 64;
  }

  /** The register of the difference is the difference of the registers. */
  lemma {:induction false} RegisterDifference(p: seq<bit>, x: seq<bit>)
    requires |p| == |x|
    ensures Register(Difference(p, x)) == Xor(Register(p), Register(x))
  {
    hide Xor, Register, Low;
    if p == [] {
      XorZero(0);
      NoRegister();
    } else {
      var n := |p| - 1;
      var a, b, d := p[..n], x[..n], Difference(p[..n], x[..n]);
      assert p == a + [p[n]] && x == b + [x[n]] && Difference(p, x) == d + [Difference(p, x)[n]];
      RegisterDifference(a, b);
      RegisterStep(a, p[n]);
      RegisterStep(b, x[n]);
      RegisterStep(d, Difference(p, x)[n]);
      XorLow(Register(a), Register(b), 6);
      LowSix(Register(a));
      LowSix(Register(b));
      LowSix(Register(d));
      XorHalves(Register(p), Register(x));
      ShiftedHalves(Register(p), State(a), p[n]);
      ShiftedHalves(Register(x), State(b), x[n]);
    }
  }

  lemma NoRegister()
    ensures Register([]) == 0
  {
  }

  lemma ShiftedHalves(r: nat, s: nat, b: bit)
    requires r == 2 * s + b
    ensures r / 2 == s && r % 2 == b
  {
  }

  // ----- the weight of a difference

  /** The ones of the outputs along a path. */
  function PathWeight(d: seq<bit>): nat {
    if d == [] then 0 else PathWeight(d[..|d| - 1]) + Weight(Register(d))
  }

  /** Whether the k-th bit from the end is a one. */
  predicate Recent(d: seq<bit>, k: nat) {
    1 <= k <= |d| && d[|d| - k] == 1
  }

  function One(x: bool): bit {
    if x then 1 else 0
  }

  /** A register by its bits, the oldest first. */
  function Word7(a: bool, b: bool, c: bool, d: bool, e: bool, f: bool, g: bool): nat {
    64 * One(a) as int + 32 * One(b) as int + 16 * One(c) as int + 8 * One(d) as int
    + 4 * One(e) as int + 2 * One(f) as int + One(g) as int
  }

  /** The weight of its outputs: one for each polynomial that taps an odd number of ones. */
  function Weight7(a: bool, b: bool, c: bool, e: bool, f: bool, g: bool): nat {
    (if ((a != b) != (c != g)) then 1 else 0) + (if (((a != c) != (e != f)) != g) then 1 else 0)
  }

  /** One more bit is tapped if the polynomial is odd. */
  lemma TapShift(x: nat, b: bool, poly: nat)
    ensures Tap(2 * x + One(b), poly) == if b && poly % 2 == 1 then 1 - Tap(x, poly / 2) else Tap(x, poly / 2)
  {
    hide Tap;
    TapStep(2 * x + One(b), poly);
    assert (2 * x + One(b)) / 2 == x && (2 * x + One(b)) % 2 == One(b);
  }

  /** The register grows bit by bit. */
  predicate Grows(p: nat, q: nat, r: nat, s: nat, t: nat, u: nat, v: nat, a: bool, b: bool, c: bool, d: bool, e: bool,
                  f: bool, g: bool)
  {
    && p == 2 * 0 + One(a) && q == 2 * p + One(b) && r == 2 * q + One(c) && s == 2 * r + One(d)
    && t == 2 * s + One(e) && u == 2 * t + One(f) && v == 2 * u + One(g)
  }

  lemma TapFirst(p: nat, q: nat, r: nat, s: nat, t: nat, u: nat, v: nat, a: bool, b: bool, c: bool, d: bool, e: bool,
                 f: bool, g: bool)
    requires Grows(p, q, r, s, t, u, v, a, b, c, d, e, f, g)
    ensures Tap(v, 113) == if (a != b) != (c != g) then 1 else 0
  {
    hide Tap, One;
    TapShift(u, g, 113);
    TapShift(t, f, 56);
    TapShift(s, e, 28);
    TapShift(r, d, 14);
    TapShift(q, c, 7);
    TapShift(p, b, 3);
    TapShift(0, a, 1);
    TapZero(0);
  }

  lemma TapSecond(p: nat, q: nat, r: nat, s: nat, t: nat, u: nat, v: nat, a: bool, b: bool, c: bool, d: bool, e: bool,
                  f: bool, g: bool)
    requires Grows(p, q, r, s, t, u, v, a, b, c, d, e, f, g)
    ensures Tap(v, 87) == if ((a != c) != (e != f)) != g then 1 else 0
  {
    hide Tap, One;
    TapShift(u, g, 87);
    TapShift(t, f, 43);
    TapShift(s, e, 21);
    TapShift(r, d, 10);
    TapShift(q, c, 5);
    TapShift(p, b, 2);
    TapShift(0, a, 1);
    TapZero(0);
  }

  /** The outputs of a register by its bits. */
  lemma SevenTaps(a: bool, b: bool, c: bool, d: bool, e: bool, f: bool, g: bool)
    ensures Tap(Word7(a, b, c, d, e, f, g), 113) == if (a != b) != (c != g) then 1 else 0
    ensures Tap(Word7(a, b, c, d, e, f, g), 87) == if ((a != c) != (e != f)) != g then 1 else 0
  {
    hide Tap;
    var p: nat := One(a);
    var q: nat := 2 * p + One(b);
    var r: nat := 2 * q + One(c);
    var s: nat := 2 * r + One(d);
    var t: nat := 2 * s + One(e);
    var u: nat := 2 * t + One(f);
    var v: nat := 2 * u + One(g);
    assert v == Word7(a, b, c, d, e, f, g);
    hide Word7;
    TapFirst(p, q, r, s, t, u, v, a, b, c, d, e, f, g);
    TapSecond(p, q, r, s, t, u, v, a, b, c, d, e, f, g);
  }

  lemma WeightBits(a: bool, b: bool, c: bool, d: bool, e: bool, f: bool, g: bool)
    ensures Weight(Word7(a, b, c, d, e, f, g)) == Weight7(a, b, c, e, f, g)
  {
    hide Tap, Out, Word7;
    OutTaps(Word7(a, b, c, d, e, f, g));
    SevenTaps(a, b, c, d, e, f, g);
  }

  /** For every state but 0, a lower bound on six times the weight of a difference that has led there and is not over,
      less the slices since it began. */
  function Slack6(a: bool, b: bool, c: bool, d: bool, e: bool, f: bool): nat {
    if a then
      if b then
        if c then
          if d then
            if e then (if f then 29 else 29) else (if f then 28 else 27)
          else
            if e then (if f then 27 else 20) else (if f then 26 else 26)
        else
          if d then
            if e then (if f then 30 else 30) else (if f then 19 else 24)
          else
            if e then (if f then 25 else 18) else (if f then 31 else 31)
      else
        if c then
          if d then
            if e then (if f then 29 else 29) else (if f then 20 else 29)
          else
            if e then (if f then 22 else 18) else (if f then 28 else 28)
        else
          if d then
            if e then (if f then 26 else 26) else (if f then 20 else 17)
          else
            if e then (if f then 18 else 30) else (if f then 32 else 32)
    else
      if b then
        if c then
          if d then
            if e then (if f then 24 else 28) else (if f then 21 else 21)
          else
            if e then (if f then 25 else 25) else (if f then 19 else 28)
        else
          if d then
            if e then (if f then 24 else 21) else (if f then 23 else 23)
          else
            if e then (if f then 21 else 21) else (if f then 19 else 27)
      else
        if c then
          if d then
            if e then (if f then 25 else 16) else (if f then 20 else 20)
          else
            if e then (if f then 25 else 25) else (if f then 16 else 20)
        else
          if d then
            if e then (if f then 17 else 15) else (if f then 21 else 21)
          else
            if e then (if f then 16 else 16) else (if f then 11 else 0)
  }

  /** The bound holds along every branch that does not end the difference. */
  lemma SlackKept(a: bool, b: bool, c: bool, d: bool, e: bool, f: bool, g: bool)
    requires (a || b || c || d || e || f) && (b || c || d || e || f || g)
    ensures Slack6(b, c, d, e, f, g) + 1 <= Slack6(a, b, c, d, e, f) + 6 * Weight7(a, b, c, e, f, g)
  {
  }

  /** The seven most recent bits as a register. */
  function Window(d: seq<bit>): nat {
    Word7(Recent(d, 7), Recent(d, 6), Recent(d, 5), Recent(d, 4), Recent(d, 3), Recent(d, 2), Recent(d, 1))
  }

  /** The register holds the seven most recent bits. */
  lemma {:induction false} RegisterRecent(d: seq<bit>)
    ensures Register(d) == Window(d)
  {
    hide Register, State, Window;
    if d == [] {
      NoRegister();
      EmptyWindow();
    } else {
      var n := |d| - 1;
      assert d == d[..n] + [d[n]];
      RegisterRecent(d[..n]);
      RegisterStep(d[..n], d[n]);
      WindowShift(d[..n], d[n]);
    }
  }

  lemma EmptyWindow()
    ensures Window([]) == 0
  {
  }

  lemma WindowShift(t: seq<bit>, b: bit)
    requires Register(t) == Window(t)
    ensures 2 * State(t) + b == Window(t + [b])
  {
    hide Register, Recent, Word7;
    RecentShift(t, b, 1);
    RecentShift(t, b, 2);
    RecentShift(t, b, 3);
    RecentShift(t, b, 4);
    RecentShift(t, b, 5);
    RecentShift(t, b, 6);
    DropOldest(Recent(t, 7), Recent(t, 6), Recent(t, 5), Recent(t, 4), Recent(t, 3), Recent(t, 2), Recent(t, 1), b);
  }

  lemma DropOldest(a: bool, b: bool, c: bool, d: bool, e: bool, f: bool, g: bool, x: bit)
    ensures 2 * (Word7(a, b, c, d, e, f, g) % NUM_STATES) + x == Word7(b, c, d, e, f, g, x == 1)
  {
    ModUnique(Word7(a, b, c, d, e, f, g), NUM_STATES, One(a), Word7(false, b, c, d, e, f, g));
  }

  /** A new bit makes the others one older. */
  lemma RecentShift(t: seq<bit>, b: bit, k: nat)
    requires k >= 1
    ensures Recent(t + [b], 1) == (b == 1)
    ensures Recent(t + [b], k + 1) == Recent(t, k)
  {
    var d := t + [b];
    if k <= |t| {
      assert d[|d| - (k + 1)] == t[|t| - k];
    }
  }

  // ----- a difference that is over, or lasts

  /** One of the six most recent bits is a one: the difference is not over. */
  predicate Lasts(d: seq<bit>) {
    Recent(d, 6) || Recent(d, 5) || Recent(d, 4) || Recent(d, 3) || Recent(d, 2) || Recent(d, 1)
  }

  function Slack(d: seq<bit>): nat {
    Slack6(Recent(d, 6), Recent(d, 5), Recent(d, 4), Recent(d, 3), Recent(d, 2), Recent(d, 1))
  }

  lemma PathWeightStep(d: seq<bit>, b: bit)
    ensures PathWeight(d + [b]) == PathWeight(d) +
      Weight7(Recent(d, 6), Recent(d, 5), Recent(d, 4), Recent(d, 2), Recent(d, 1), b == 1)
  {
    hide Weight, Register, Weight7, Word7;
    var e := d + [b];
    assert e[..|d|] == d;
    RegisterRecent(e);
    RecentShift(d, b, 1);
    RecentShift(d, b, 2);
    RecentShift(d, b, 3);
    RecentShift(d, b, 4);
    RecentShift(d, b, 5);
    RecentShift(d, b, 6);
    hide Recent;
    WeightBits(Recent(e, 7), Recent(e, 6), Recent(e, 5), Recent(e, 4), Recent(e, 3), Recent(e, 2), Recent(e, 1));
  }

  /** An error event: the difference begins at j and is not over before slice n. */
  ghost predicate Event(d: seq<bit>, j: nat, n: nat) {
    && j < n <= |d| && d[j] == 1 && !Lasts(d[..j])
    && forall i :: j < i < n ==> Lasts(d[..i])
  }

  /** The ones of the outputs in slices a to b. */
  function WeightIn(d: seq<bit>, a: nat, b: nat): int
    requires a <= |d| && b <= |d|
  {
    PathWeight(d[..b]) - PathWeight(d[..a])
  }

  /** From any slice on, as long as it lasts, a difference weighs in proportion; its end adds more. */
  lemma {:induction false} LastingWeight(d: seq<bit>, i: nat, n: nat)
    requires i <= n <= |d| && forall m :: i <= m < n ==> Lasts(d[..m])
    requires i == n ==> Lasts(d[..n])
    ensures Lasts(d[..n]) ==> 6 * WeightIn(d, i, n) + Slack(d[..i]) >= n - i + Slack(d[..n])
    ensures !Lasts(d[..n]) ==> 6 * WeightIn(d, i, n) + Slack(d[..i]) >= n - i + 43
    decreases n
  {
    hide PathWeight, Recent, Weight7, Slack6;
    if i < n {
      var t, b := d[..n - 1], d[n - 1];
      assert d[..n] == t + [b] && Lasts(t);
      LastingWeight(d, i, n - 1);
      PathWeightStep(t, b);
      RecentShift(t, b, 1);
      RecentShift(t, b, 2);
      RecentShift(t, b, 3);
      RecentShift(t, b, 4);
      RecentShift(t, b, 5);
      if Lasts(d[..n]) {
        SlackKept(Recent(t, 6), Recent(t, 5), Recent(t, 4), Recent(t, 3), Recent(t, 2), Recent(t, 1), b == 1);
      } else {
        LastOne();
      }
    }
  }

  /** The first slice of an event. */
  lemma EventStart(d: seq<bit>, j: nat)
    requires j < |d| && d[j] == 1 && !Lasts(d[..j])
    ensures WeightIn(d, j, j + 1) == 2 && Lasts(d[..j + 1]) && Slack(d[..j + 1]) == 11
  {
    hide PathWeight, Recent, Weight7, Slack6;
    var t, b := d[..j], d[j];
    assert d[..j + 1] == t + [b];
    PathWeightStep(t, b);
    RecentShift(t, b, 1);
    RecentShift(t, b, 2);
    RecentShift(t, b, 3);
    RecentShift(t, b, 4);
    RecentShift(t, b, 5);
    FirstOne();
  }

  /** An event weighs in proportion to how long it has lasted. */
  lemma EventWeight(d: seq<bit>, j: nat, n: nat)
    requires Event(d, j, n)
    ensures Lasts(d[..n]) ==> 6 * WeightIn(d, j, n) >= n - j + 11
    ensures !Lasts(d[..n]) ==> 6 * WeightIn(d, j, n) >= n - j + 43 && n - j >= 7
  {
    hide PathWeight, Lasts, Slack;
    EventStart(d, j);
    LastingWeight(d, j + 1, n);
    SlackBounds(d[..n]);
    if !Lasts(d[..n]) {
      OverAfter(d, j, n);
    }
  }

  /** An event lasts for seven slices at least. */
  lemma OverAfter(d: seq<bit>, j: nat, n: nat)
    requires Event(d, j, n) && !Lasts(d[..n])
    ensures n - j >= 7
  {
    if n - j < 7 {
      assert Recent(d[..n], n - j);
    }
  }

  lemma FirstOne()
    ensures Slack6(false, false, false, false, false, true) == 11
    ensures Weight7(false, false, false, false, false, true) == 2
  {
  }

  lemma LastOne()
    ensures Slack6(true, false, false, false, false, false) == 32
    ensures Weight7(true, false, false, false, false, false) == 2
  {
  }

  lemma SlackBounds(d: seq<bit>)
    ensures Lasts(d) ==> 11 <= Slack(d) <= 32
  {
    hide Recent;
  }

  /** The number of windows of two decision depths that slices fall into. */
  function Windows(slices: nat): nat {
    (slices + 2 * DECISION_DEPTH - 1) / (2 * DECISION_DEPTH)
  }

  /** An event that is over, or has lasted for the decision depth, weighs nine, and seven more for every further two decision
      depths. */
  lemma DifferenceWeight(d: seq<bit>, j: nat, n: nat)
    requires Event(d, j, n)
    requires !Lasts(d[..n]) || n - j >= 42
    ensures Windows(n - j) >= 1 && WeightIn(d, j, n) >= 9 + 7 * (Windows(n - j) - 1)
  {
    hide PathWeight, Lasts, Slack;
    EventWeight(d, j, n);
  }

  /** Every one belongs to an event. */
  lemma {:induction false} EventAt(d: seq<bit>, k: nat) returns (j: nat)
    requires k < |d| && d[k] == 1
    ensures j <= k && Event(d, j, k + 1)
  {
    if Lasts(d[..k]) {
      var m := LatestOne(d, k);
      j := EventAt(d, m);
      forall i | m < i <= k ensures Lasts(d[..i]) {
        assert Recent(d[..i], i - m);
      }
    } else {
      j := k;
    }
  }

  lemma LatestOne(d: seq<bit>, k: nat) returns (m: nat)
    requires k <= |d| && Lasts(d[..k])
    ensures m < k <= m + 6 && d[m] == 1
  {
    var t := d[..k];
    m := k - if Recent(t, 1) then 1 else if Recent(t, 2) then 2 else if Recent(t, 3) then 3 else if Recent(t, 4) then 4
             else if Recent(t, 5) then 5 else 6;
  }

  /** An event goes on to where it is over, or to the end. */
  lemma EventEnd(d: seq<bit>, j: nat, k: nat) returns (n: nat)
    requires Event(d, j, k + 1)
    ensures k < n && Event(d, j, n) && (Lasts(d[..n]) ==> n == |d|)
  {
    hide Lasts;
    n := k + 1;
    while n < |d| && Lasts(d[..n])
      invariant k < n && Event(d, j, n)
    {
      n := n + 1;
    }
  }

  /** When it is over, both paths are in the same state. */
  lemma OverAlike(p: seq<bit>, x: seq<bit>)
    requires |p| == |x| && !Lasts(Difference(p, x))
    ensures State(p) == State(x)
  {
    hide Register, Xor, Low;
    var d := Difference(p, x);
    RegisterDifference(p, x);
    RegisterRecent(d);
    XorLow(Register(p), Register(x), 6);
    LowSix(Register(d));
    LowSix(Register(p));
    LowSix(Register(x));
    XorNothing(State(p), State(x));
  }

  lemma {:induction false} XorNothing(a: nat, b: nat)
    requires Xor(a, b) == 0
    ensures a == b
  {
    if a != 0 || b != 0 {
      XorNothing(a / 2, b / 2);
    }
  }
}
