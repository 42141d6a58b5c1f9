/** The rate 1/2, constraint length 7 code: outputs, branch metrics, paths, and their minimum cost. */
module ConvCode {
  import opened Bits

  const RATE: nat := 2
  const ORDER: nat := 7
  const NUM_REGISTERS: nat := 128
  const NUM_STATES: nat := 64
  const HIGH_BASE: nat := 32
  /** A bit is decided when the paths are at least this many slices longer. */
  const DECISION_DEPTH: nat := 6 * ORDER
  /** 0161 and 0127, octal. */
  const POLYNOMIALS: seq<nat> := [113, 87]

  type register = x: int | 0 <= x < NUM_REGISTERS
  type state = x: int | 0 <= x < NUM_STATES

  // ----- the output table

  function And(a: nat, b: nat): nat {
    if a == 0 || b == 0 then 0 else (a % 2) * (b % 2) + 2 * And(a / 2, b / 2)
  }

  function PopCount(a: nat): nat {
    if a == 0 then 0 else a % 2 + PopCount(a / 2)
  }

  /** The output bit of one polynomial for the register contents. */
  function Tap(r: nat, poly: nat): bit {
    PopCount(And(r, poly)) % 2
  }

  /** Both output bits, the first polynomial's in the low place. */
  function Out(r: nat): (o: nat)
    ensures o < 4
  {
    Tap(r, 113) + 2 * Tap(r, 87)
  }

  method FillTable(rate: nat, order: nat, poly: seq<nat>) returns (table: seq<nat>)
    requires rate == RATE && order == ORDER && poly == POLYNOMIALS
    ensures |table| == NUM_REGISTERS && forall r :: 0 <= r < NUM_REGISTERS ==> table[r] == Out(r)
  {
    hide And, PopCount;
    var t := new nat[NUM_REGISTERS];
    for i := 0 to NUM_REGISTERS
      invariant forall r :: 0 <= r < i ==> t[r] == Out(r)
    {
      var out := 0;
      var mask := 1;
      for j := 0 to rate
        invariant mask == if j == 0 then 1 else if j == 1 then 2 else 4
        invariant out == if j == 0 then 0 else if j == 1 then Tap(i, 113) else Out(i)
      {
        out := out + if PopCount(And(i, poly[j])) % 2 != 0 then mask else 0;
        mask := mask * 2;
      }
      t[i] := out;
    }
    table := t[..];
  }

  /** Both polynomials see the newest bit: sibling branches have complementary outputs. */
  lemma SiblingOutputs(q: nat)
    ensures Out(2 * q + 1) == 3 - Out(2 * q)
  {
    SiblingTap(q, 113);
    SiblingTap(q, 87);
    hide Tap;
  }

  lemma SiblingTap(q: nat, poly: nat)
    requires poly % 2 == 1
    ensures Tap(2 * q + 1, poly) == 1 - Tap(2 * q, poly)
  {
    hide And, PopCount;
    AndStep(2 * q + 1, poly);
    AndStep(2 * q, poly);
    PopStep(1 + 2 * And(q, poly / 2));
    PopStep(2 * And(q, poly / 2));
  }

  lemma AndStep(a: nat, b: nat)
    ensures And(a, b) == (a % 2) * (b % 2) + 2 * And(a / 2, b / 2)
  {
  }

  lemma PopStep(a: nat)
    ensures PopCount(a) == a % 2 + PopCount(a / 2)
  {
  }

  lemma AndNone(b: nat)
    ensures And(0, b) == And(0, b / 2) == And(0, b / 4) == 0
    ensures PopCount(0) == 0
  {
  }

  // ----- branch metrics

  function Abs(x: int): nat {
    if x < 0 then -x else x
  }

  /** Linear soft distance of an output to a pair of soft symbols, 255 standing for a one. */
  function Distance(o: nat, y0: byte, y1: byte): (d: nat)
    requires o < 4
    ensures d <= 510
  {
    Abs(y0 - 255 * (o % 2)) + Abs(y1 - 255 * (o / 2))
  }

  /** The two's complement of the low bit, masked to a byte. */
  method MetricSoftDistanceLinear(hard: nat, soft: seq<byte>, start: nat, len: nat) returns (dist: nat)
    requires hard < 4 && len == RATE && start + len <= |soft|
    ensures dist == Distance(hard, soft[start], soft[start + 1])
      == Abs(soft[start] as int - if hard % 2 == 1 then 255 else 0)
         + Abs(soft[start + 1] as int - if hard >= 2 then 255 else 0)
  {
    var hardX := hard;
    dist := 0;
    for i := 0 to len
      invariant hardX == if i == 0 then hard else if i == 1 then hard / 2 else 0
      invariant dist == if i == 0 then 0 else if i == 1 then Abs(soft[start] - 255 * (hard % 2))
                        else Distance(hard, soft[start], soft[start + 1])
    {
      var softX := (-((hardX % 2) as int)) % 256;
      hardX := hardX / 2;
      var d := soft[start + i] as int - softX;
      dist := dist + if d < 0 then -d else d;
    }
  }

  /** Complementary outputs have distances that sum to 510. */
  lemma ComplementDistance(o: nat, y0: byte, y1: byte)
    requires o < 4
    ensures Distance(o, y0, y1) + Distance(3 - o, y0, y1) == 510
  {
    assert Abs(y0) + Abs(y0 - 255) == 255 && Abs(y1) + Abs(y1 - 255) == 255;
    if o == 0 {
    } else if o == 1 {
    } else if o == 2 {
    } else {
    }
  }

  /** The metric of register r at slice t. */
  function Branch(soft: seq<byte>, t: nat, r: nat): (d: nat)
    requires 2 * t + 1 < |soft|
    ensures d <= 510
  {
    Distance(Out(r), soft[2 * t], soft[2 * t + 1])
  }

  // ----- paths

  /** The register after shifting in the bits, the newest in the low place. */
  function Register(path: seq<bit>): register {
    if path == [] then 0 else (2 * Register(path[..|path| - 1]) + path[|path| - 1]) % NUM_REGISTERS
  }

  /** The trellis state is the register without its oldest bit. */
  function State(path: seq<bit>): state {
    Register(path) % NUM_STATES
  }

  /** The state after one more input bit. */
  function Next(q: state, b: bit): state {
    (2 * q + b) % NUM_STATES
  }

  /** The cost of a path over the slices after the first; the first slice's metric is discarded
      because the first exchange of the metric buffers exchanges nothing. */
  function Cost(soft: seq<byte>, path: seq<bit>): nat
    requires 2 * |path| <= |soft|
  {
    if |path| <= 1 then 0
    else Cost(soft, path[..|path| - 1]) + Branch(soft, |path| - 1, Register(path))
  }

  lemma RegisterStep(path: seq<bit>, b: bit)
    ensures Register(path + [b]) == 2 * State(path) + b
    ensures State(path + [b]) == Next(State(path), b)
  {
    assert (path + [b])[..|path|] == path;
    ShiftIn(Register(path), b);
  }

  /** Shifting drops the oldest bit. */
  lemma ShiftIn(r: register, b: bit)
    ensures (2 * r + b) % NUM_REGISTERS == 2 * (r % NUM_STATES) + b
  {
  }

  lemma CostUnfold(soft: seq<byte>, path: seq<bit>)
    requires 2 * |path| <= |soft| && |path| >= 2
    ensures Cost(soft, path) == Cost(soft, path[..|path| - 1]) + Branch(soft, |path| - 1, Register(path))
  {
    hide Branch, Register;
  }

  lemma CostStep(soft: seq<byte>, path: seq<bit>, b: bit)
    requires 2 * |path| + 2 <= |soft| && path != []
    ensures Cost(soft, path + [b]) == Cost(soft, path) + Branch(soft, |path|, 2 * State(path) + b)
  {
    hide Branch, Register, State, Cost;
    RegisterStep(path, b);
    assert (path + [b])[..|path|] == path;
    CostUnfold(soft, path + [b]);
  }

  // ----- minimum cost

  /** The number of states reachable after slice t. */
  function Reach(t: nat): nat {
    if t == 0 then 2 else if t == 1 then 4 else if t == 2 then 8 else if t == 3 then 16 else if t == 4 then 32 else 64
  }

  /** The predecessor of s with oldest bit h. */
  function Pred(s: state, h: bit): state {
    s / 2 + HIGH_BASE * h
  }

  /** The register of the branch from that predecessor to s. */
  function BranchRegister(s: state, h: bit): register {
    s + NUM_STATES * h
  }

  /** The minimum cost of the paths that end in state s after slice t. */
  function Best(soft: seq<byte>, t: nat, s: state): nat
    requires 2 * t + 2 <= |soft| && s < Reach(t)
    decreases t
  {
    if t == 0 then 0
    else
      var low := Best(soft, t - 1, Pred(s, 0)) + Branch(soft, t, BranchRegister(s, 0));
      if t < 6 then low
      else
        var high := Best(soft, t - 1, Pred(s, 1)) + Branch(soft, t, BranchRegister(s, 1));
        if low <= high then low else high
  }

  /** Going back from s along h attains the minimum. */
  ghost predicate Optimal(soft: seq<byte>, t: nat, s: state, h: bit)
    requires 2 * t + 2 <= |soft| && 6 <= t
  {
    Best(soft, t, s) == Best(soft, t - 1, Pred(s, h)) + Branch(soft, t, BranchRegister(s, h))
  }

  /** Every branch into s costs at least the minimum. */
  lemma BestBranch(soft: seq<byte>, t: nat, q: state, b: bit)
    requires 2 * t + 2 <= |soft| && t >= 1 && q < Reach(t - 1)
    ensures Next(q, b) < Reach(t)
    ensures Best(soft, t, Next(q, b)) <= Best(soft, t - 1, q) + Branch(soft, t, 2 * q + b)
  {
    hide Best, Branch, Pred, BranchRegister, Next;
    NextPred(q, b);
    NextReach(t, q, b);
    BestUpper(soft, t, Next(q, b), q / HIGH_BASE);
  }

  lemma NextPred(q: state, b: bit)
    ensures Pred(Next(q, b), q / HIGH_BASE) == q
    ensures BranchRegister(Next(q, b), q / HIGH_BASE) == 2 * q + b
  {
  }

  lemma NextReach(t: nat, q: state, b: bit)
    requires t >= 1 && q < Reach(t - 1)
    ensures Next(q, b) < Reach(t) && (t < 6 ==> q < HIGH_BASE)
  {
  }

  lemma BestUpper(soft: seq<byte>, t: nat, s: state, h: bit)
    requires 2 * t + 2 <= |soft| && t >= 1 && s < Reach(t) && (t < 6 ==> h == 0) && Pred(s, h) < Reach(t - 1)
    ensures Best(soft, t, s) <= Best(soft, t - 1, Pred(s, h)) + Branch(soft, t, BranchRegister(s, h))
  {
    hide Branch, Pred, BranchRegister;
  }

  /** No path is cheaper than the minimum of its final state. */
  lemma {:induction false} BestLower(soft: seq<byte>, path: seq<bit>)
    requires path != [] && 2 * |path| <= |soft|
    ensures State(path) < Reach(|path| - 1)
    ensures Best(soft, |path| - 1, State(path)) <= Cost(soft, path)
    decreases |path|
  {
    hide Branch, Best, Cost, Register, State;
    var n := |path| - 1;
    var prefix := path[..n];
    assert prefix + [path[n]] == path;
    RegisterStep(prefix, path[n]);
    if n == 0 {
      FirstSlice(soft, path);
    } else {
      BestLower(soft, prefix);
      CostStep(soft, prefix, path[n]);
      BestBranch(soft, n, State(prefix), path[n]);
    }
  }

  lemma FirstSlice(soft: seq<byte>, path: seq<bit>)
    requires |path| == 1 && 2 <= |soft|
    ensures State(path) == path[0] && Cost(soft, path) == 0 && forall s: state :: s < 2 ==> Best(soft, 0, s) == 0
  {
    RegisterStep([], path[0]);
    assert [] + [path[0]] == path;
    assert State([]) == 0;
    hide Register, State;
  }

  /** One of the branches into s attains the minimum. */
  lemma BestChoice(soft: seq<byte>, t: nat, s: state) returns (h: bit)
    requires 2 * t + 2 <= |soft| && s < Reach(t) && t >= 1
    ensures Pred(s, h) < Reach(t - 1)
    ensures Best(soft, t, s) == Best(soft, t - 1, Pred(s, h)) + Branch(soft, t, BranchRegister(s, h))
  {
    hide Branch;
    h := if t < 6 || Optimal(soft, t, s, 0) then 0 else 1;
  }

  /** The minimum is attained. */
  lemma {:induction false} BestAttained(soft: seq<byte>, t: nat, s: state) returns (path: seq<bit>)
    requires 2 * t + 2 <= |soft| && s < Reach(t)
    ensures |path| == t + 1 && State(path) == s && Cost(soft, path) == Best(soft, t, s)
    decreases t
  {
    hide Branch, Cost, Register, State, Best, Reach, Pred, BranchRegister;
    if t == 0 {
      path := [if s == 0 then 0 else 1];
      FirstSlice(soft, path);
      ReachFirst();
    } else {
      var h := BestChoice(soft, t, s);
      var prefix := BestAttained(soft, t - 1, Pred(s, h));
      path := prefix + [s % 2];
      RegisterStep(prefix, s % 2);
      CostStep(soft, prefix, s % 2);
      PredForward(s, h);
      assert State(path) == s;
    }
  }

  lemma ReachFirst()
    ensures Reach(0) == 2
  {
  }

  /** Shifting the newest bit of s into a predecessor leads to s. */
  lemma PredForward(s: state, h: bit)
    ensures 2 * Pred(s, h) + s % 2 == BranchRegister(s, h)
    ensures Next(Pred(s, h), s % 2) == s
  {
  }

  // ----- states as words of six bits

  function Word6(a: bit, b: bit, c: bit, d: bit, e: bit, f: bit): state {
    32 * a as int + 16 * b as int + 8 * c as int + 4 * d as int + 2 * e as int + f as int
  }

  lemma StateBits(s: state) returns (a: bit, b: bit, c: bit, d: bit, e: bit, f: bit)
    ensures s == Word6(a, b, c, d, e, f)
  {
    var r: int := s;
    a := if r < 32 then 0 else 1;
    r := r - 32 * a as int;
    b := if r < 16 then 0 else 1;
    r := r - 16 * b as int;
    c := if r < 8 then 0 else 1;
    r := r - 8 * c as int;
    d := if r < 4 then 0 else 1;
    r := r - 4 * d as int;
    e := if r < 2 then 0 else 1;
    f := r - 2 * e as int;
  }

  /** Six shifts replace the whole state. */
  lemma SixShifts(q: state, a: bit, b: bit, c: bit, d: bit, e: bit, f: bit)
    ensures Next(Next(Next(Next(Next(Next(q, a), b), c), d), e), f) == Word6(a, b, c, d, e, f)
  {
    hide Next;
    var x := KeptBits(q, a, 1, q, 0);
    var r := Next(q, a);
    var v: int := a;
    x := KeptBits(r, b, 2, x, v);
    r, v := Next(r, b), 2 * v + b;
    x := KeptBits(r, c, 4, x, v);
    r, v := Next(r, c), 2 * v + c;
    x := KeptBits(r, d, 8, x, v);
    r, v := Next(r, d), 2 * v + d;
    x := KeptBits(r, e, 16, x, v);
    r, v := Next(r, e), 2 * v + e;
    x := KeptBits(r, f, 32, x, v);
  }

  lemma NextShift(q: state, b: bit)
    ensures Next(q, b) == 2 * q + b - if q < HIGH_BASE then 0 else NUM_STATES
  {
  }

  /** A shift keeps the low bits: v below m moves up and the newest bit joins it. */
  lemma KeptBits(q: state, b: bit, m: int, x: int, v: int) returns (y: int)
    requires m == 1 || m == 2 || m == 4 || m == 8 || m == 16 || m == 32
    requires q == m * x + v && 0 <= v < m
    ensures Next(q, b) == 2 * m * y + 2 * v + b
  {
    NextShift(q, b);
    hide Next;
    y := if q < HIGH_BASE then x else x - HIGH_BASE / m;
    assert m * (HIGH_BASE / m) == HIGH_BASE;
    assert q >= HIGH_BASE ==> m * y == m * x - m * (HIGH_BASE / m);
    assert 2 * m * y == 2 * (m * y);
  }
}
