/** The noise margin cannot be widened, and the metric of the first slice would matter: one more unit of deviation and the
    wrong message is decoded. */
module MarginTight {
  import opened Bits
  import opened BitIo
  import opened ConvCode
  import opened Survivors
  import opened FreeDistance
  import opened NoiseMargin
  import opened CodeWords
  import ConvDecode

  /** The path with its first bit changed. */
  function Flip(x: seq<bit>): (p: seq<bit>)
    requires x != []
    ensures |p| == |x|
  {
    x[0 := 1 - x[0]]
  }

  /** The code word of the path with three bits of the other path's code word, and one bit just past the middle; the first
      two symbols are given. */
  function Spoiled(x: seq<bit>, y0: byte, y1: byte): (soft: seq<byte>)
    ensures |soft| == 2 * |x|
  {
    seq(2 * |x|, i requires 0 <= i < 2 * |x| =>
      if i == 0 then y0 else if i == 1 then y1 else SpoiledBit(i, CodeBits(x)[i]))
  }

  function SpoiledBit(i: nat, c: bit): byte {
    if i == 3 || i == 5 || i == 8 then 255 * (1 - c as int)
    else if i == 9 then if c == 1 then 127 else 128
    else 255 * c as int
  }

  /** What the path pays up to slice n. */
  function Paid(n: nat): nat {
    if n <= 1 then 0 else if n == 2 then 255 else if n <= 4 then 510 else MARGIN + 1
  }

  /** What the other path pays. */
  function PaidFlipped(n: nat): nat {
    if n <= 4 then 0 else if n == 5 then 127 else if n == 6 then 382 else MARGIN
  }

  /** The soft symbols of slice t. */
  lemma SpoiledAt(x: seq<bit>, y0: byte, y1: byte, t: nat)
    requires 1 <= t < |x|
    ensures var o := Out(Register(x[..t + 1]));
            && Spoiled(x, y0, y1)[2 * t] == SpoiledBit(2 * t, o % 2)
            && Spoiled(x, y0, y1)[2 * t + 1] == SpoiledBit(2 * t + 1, o / 2)
  {
    hide Out, Register, SpoiledBit, CodeBits;
    CodeBitsAt(x, t);
  }

  /** The outputs of the two paths in slice t, the first excepted, differ where the changed bit is tapped. */
  predicate Parted(t: nat, o: nat, q: nat) {
    t >= 1 && (o % 2 == q % 2 <==> t <= 3 || t >= 7) && (o / 2 == q / 2 <==> t == 3 || t == 5 || t >= 7)
  }

  /** How far a soft symbol is from the bit it was made from, and from the other. */
  lemma SpoiledBoth(i: nat, c: bit)
    ensures Abs(SpoiledBit(i, c) - 255 * c as int) ==
      if i == 3 || i == 5 || i == 8 then 255 else if i == 9 then 128 else 0
    ensures Abs(SpoiledBit(i, c) - 255 * (1 - c as int)) ==
      if i == 3 || i == 5 || i == 8 then 0 else if i == 9 then 127 else 255
  {
  }

  /** The distance of outputs o to the soft symbols made from them. */
  lemma SpoiledOwn(t: nat, o: nat)
    requires o < 4
    ensures Distance(o, SpoiledBit(2 * t, o % 2), SpoiledBit(2 * t + 1, o / 2)) ==
      if t == 1 || t == 2 then 255 else if t == 4 then 383 else 0
  {
    hide Abs, SpoiledBit;
    SpoiledBoth(2 * t, o % 2);
    SpoiledBoth(2 * t + 1, o / 2);
  }

  /** The distance of the other path's outputs q. */
  lemma SpoiledOther(t: nat, o: nat, q: nat)
    requires o < 4 && q < 4 && Parted(t, o, q)
    ensures Distance(q, SpoiledBit(2 * t, o % 2), SpoiledBit(2 * t + 1, o / 2)) ==
      if t == 4 then 127 else if t == 5 then 255 else if t == 6 then 510 else 0
  {
    hide Abs, SpoiledBit;
    SpoiledBoth(2 * t, o % 2);
    SpoiledBoth(2 * t + 1, o / 2);
  }

  lemma SpoiledSlice(x: seq<bit>, y0: byte, y1: byte, t: nat)
    requires 1 <= t < |x|
    ensures Branch(Spoiled(x, y0, y1), t, Register(x[..t + 1])) ==
      if t == 1 || t == 2 then 255 else if t == 4 then 383 else 0
  {
    hide Out, Register, Spoiled, Distance, SpoiledBit;
    SpoiledAt(x, y0, y1, t);
    SpoiledOwn(t, Out(Register(x[..t + 1])));
  }

  /** The registers of the two paths differ in the first bit as long as it stays. */
  lemma FlippedRegister(x: seq<bit>, t: nat)
    requires t < |x|
    ensures Xor(Register(Flip(x)[..t + 1]), Register(x[..t + 1])) ==
      if t == 0 then 1 else if t == 1 then 2 else if t == 2 then 4 else if t == 3 then 8 else if t == 4 then 16
      else if t == 5 then 32 else if t == 6 then 64 else 0
  {
    hide Xor, Register;
    var p := Flip(x);
    var d := Difference(p[..t + 1], x[..t + 1]);
    RegisterDifference(p[..t + 1], x[..t + 1]);
    RegisterRecent(d);
    assert d[0] == 1 && forall i :: 1 <= i <= t ==> d[i] == 0;
    hide Difference;
    assert forall k :: Recent(d, k) == (k == t + 1);
  }

  /** The outputs of a register with a single one. */
  lemma SingleOne(t: nat)
    requires 1 <= t <= 6
    ensures var r := if t == 1 then 2 else if t == 2 then 4 else if t == 3 then 8 else if t == 4 then 16
                     else if t == 5 then 32 else 64;
            && Tap(r, 113) == (if t >= 4 then 1 else 0)
            && Tap(r, 87) == (if t == 3 || t == 5 then 0 else 1)
  {
    hide Tap;
    if t == 1 {
      SevenTaps(false, false, false, false, false, true, false);
    } else if t == 2 {
      SevenTaps(false, false, false, false, true, false, false);
    } else if t == 3 {
      SevenTaps(false, false, false, true, false, false, false);
    } else if t == 4 {
      SevenTaps(false, false, true, false, false, false, false);
    } else if t == 5 {
      SevenTaps(false, true, false, false, false, false, false);
    } else {
      SevenTaps(true, false, false, false, false, false, false);
    }
  }

  /** Where the outputs of the two paths differ. */
  lemma FlippedOutputs(x: seq<bit>, t: nat)
    requires 1 <= t < |x|
    ensures Parted(t, Out(Register(x[..t + 1])), Out(Register(Flip(x)[..t + 1])))
  {
    hide Xor, Register, Tap, Out, Flip;
    var r, s := Register(Flip(x)[..t + 1]), Register(x[..t + 1]);
    FlippedRegister(x, t);
    TapXor(r, s, 113);
    TapXor(r, s, 87);
    OutTaps(r);
    OutTaps(s);
    if t <= 6 {
      SingleOne(t);
    } else {
      TapZero(113);
      TapZero(87);
    }
  }

  lemma FlippedSlice(x: seq<bit>, y0: byte, y1: byte, t: nat)
    requires 1 <= t < |x|
    ensures Branch(Spoiled(x, y0, y1), t, Register(Flip(x)[..t + 1])) ==
      if t == 4 then 127 else if t == 5 then 255 else if t == 6 then 510 else 0
  {
    hide Out, Register, Flip, Spoiled, Distance, SpoiledBit;
    FlippedOutputs(x, t);
    SpoiledAt(x, y0, y1, t);
    SpoiledOther(t, Out(Register(x[..t + 1])), Out(Register(Flip(x)[..t + 1])));
  }

  lemma {:induction false} SpoiledCosts(x: seq<bit>, y0: byte, y1: byte, n: nat)
    requires 1 <= n <= |x|
    ensures Cost(Spoiled(x, y0, y1), x[..n]) == Paid(n) && Cost(Spoiled(x, y0, y1), Flip(x)[..n]) == PaidFlipped(n)
  {
    hide Branch, Register, Flip, Spoiled;
    if n > 1 {
      hide Cost;
      var soft := Spoiled(x, y0, y1);
      SpoiledCosts(x, y0, y1, n - 1);
      CostUnfold(soft, x[..n]);
      CostUnfold(soft, Flip(x)[..n]);
      assert x[..n][..n - 1] == x[..n - 1] && Flip(x)[..n][..n - 1] == Flip(x)[..n - 1];
      SpoiledSlice(x, y0, y1, n - 1);
      FlippedSlice(x, y0, y1, n - 1);
    }
  }

  /** Whatever the first two symbols, the path costs one unit more than the margin and the other path the margin, and every
      decision is for the other path. */
  lemma SpoiledDecided(x: seq<bit>, y0: byte, y1: byte, k: nat, b: bit)
    requires |x| >= 7 && Flushed(x, |x|) && k < |x|
    ensures Cost(Spoiled(x, y0, y1), x) == MARGIN + 1 && Cost(Spoiled(x, y0, y1), Flip(x)) == MARGIN
    ensures Decided(Spoiled(x, y0, y1), |x|, k, b) ==> b == Flip(x)[k]
  {
    hide Cost, Spoiled, Flip, CodeBits, Decided, Flushed, Tolerated;
    var sets, soft := |x|, Spoiled(x, y0, y1);
    assert x[..sets] == x && Flip(x)[..sets] == Flip(x);
    SpoiledCosts(x, y0, y1, sets);
    FlipFlushed(x, sets);
    CostTolerated(soft, Flip(x));
    if Decided(soft, sets, k, b) {
      DecidedTrue(soft, sets, Flip(x), k, b, 0);
    }
  }

  lemma FlipFlushed(x: seq<bit>, sets: nat)
    requires |x| == sets > 6 && Flushed(x, sets)
    ensures Flushed(Flip(x), sets)
  {
  }

  /** The other path has minimum cost, and the path has not. */
  lemma SpoiledMinimal(x: seq<bit>, y0: byte, y1: byte) returns (path: seq<bit>)
    requires |x| >= 7 && Flushed(x, |x|)
    ensures path == Flip(x) && Minimal(Spoiled(x, y0, y1), |x|, path)
  {
    hide Cost, Spoiled, Flip, CodeBits, Tolerated;
    var sets, soft := |x|, Spoiled(x, y0, y1);
    path := CheapestPath(soft, sets);
    forall k | 0 <= k < sets ensures path[k] == Flip(x)[k] {
      SpoiledDecided(x, y0, y1, k, path[k]);
      assert Decided(soft, sets, k, path[k]);
    }
    assert path == Flip(x);
  }

  /** Some flushed path has minimum cost. */
  lemma CheapestPath(soft: seq<byte>, sets: nat) returns (path: seq<bit>)
    requires sets >= 7 && 2 * sets <= |soft|
    ensures |path| == sets && Minimal(soft, sets, path)
  {
    hide Best, Cost, State;
    path := BestAttained(soft, sets - 1, 0);
    CheapestMinimal(soft, sets, path);
  }

  // ----- what is decoded

  /** How far two symbols are from the same bit twice. */
  function Far(y0: byte, y1: byte, b: bit): nat {
    Deviation(y0, b) + Deviation(y1, b)
  }

  /** The distances of the two paths' code words from the first two symbols. */
  lemma FirstSlices(x: seq<bit>, soft: seq<byte>)
    requires x != [] && 2 * |x| <= |soft|
    ensures Branch(soft, 0, Register(x[..1])) == Far(soft[0], soft[1], x[0])
    ensures Branch(soft, 0, Register(Flip(x)[..1])) == Far(soft[0], soft[1], 1 - x[0])
  {
    hide Out, Register, Deviation, Branch;
    FirstOutput(x[0]);
    FirstOutput(1 - x[0]);
    BranchDeviations(soft, 0, Register([x[0]]));
    BranchDeviations(soft, 0, Register([1 - x[0]]));
    assert x[..1] == [x[0]] && Flip(x)[..1] == [1 - x[0]];
  }

  lemma FirstOutput(b: bit)
    ensures Out(Register([b])) == 3 * b
  {
    hide Tap, Out;
    RegisterStep([], b);
    assert [] + [b] == [b];
    NoRegister();
    OutTaps(0);
    TapZero(113);
    TapZero(87);
    SiblingOutputs(0);
  }

  /** The first slice of the path's code word is received as sent. */
  function SpoiledClean(x: seq<bit>): (soft: seq<byte>)
    requires x != []
    ensures |soft| == 2 * |x|
  {
    Spoiled(x, 255 * x[0] as int, 255 * x[0] as int)
  }

  /** For every message some soft symbols are one unit further from its code word than the margin, but 509 units closer
      than to that of another message; the metric that the decoder discards is what tells. */
  lemma MarginExact(msg: seq<byte>)
    ensures var x := Input(msg); var soft := SpoiledClean(x);
      && SoftDistance(soft, CodeBits(x)) == 893
      && SoftDistance(soft, CodeBits(Flip(x))) == 1402
  {
    hide Cost, CodeBits, SoftDistance, Branch, Flushed, Register, Far, Input, SpoiledClean;
    var x := Input(msg);
    var soft := SpoiledClean(x);
    InputFlushed(msg);
    CleanStart(x);
    SpoiledDecided(x, soft[0], soft[1], 0, 0);
    FirstSlices(x, soft);
    DistanceCost(soft, x);
    DistanceCost(soft, Flip(x));
  }

  lemma CleanStart(x: seq<bit>)
    requires x != []
    ensures var soft := SpoiledClean(x);
      && soft == Spoiled(x, soft[0], soft[1])
      && Far(soft[0], soft[1], x[0]) == 0 && Far(soft[0], soft[1], 1 - x[0]) == 510
  {
    hide SpoiledBit;
  }

  lemma InputFlushed(msg: seq<byte>)
    ensures Flushed(Input(msg), |Input(msg)|) && |Input(msg)| >= 8
  {
  }

  /** Whatever the decoder makes of them is not the message. */
  lemma SpoiledLost(msg: seq<byte>, bits: seq<bit>, out: seq<byte>)
    requires msg != [] && ConvDecode.Output(SpoiledClean(Input(msg)), |Input(msg)|, bits, out)
    ensures |out| == |msg| && out != msg
  {
    hide Cost, Spoiled, Decided, Flushed, Minimal, ToBits;
    var x := Input(msg);
    InputFlushed(msg);
    assert Decided(SpoiledClean(x), |x|, 0, bits[0]);
    SpoiledDecided(x, 255 * x[0] as int, 255 * x[0] as int, 0, bits[0]);
    assert x[0] == ToBits(msg)[0] && ToBits(out)[0] == bits[0];
  }

  lemma SpoiledSize(m: seq<byte>)
    requires m != []
    ensures var n, b := |SpoiledClean(Input(m))|, |m|;
      && n == 16 * b + 16 && n % RATE == 0 && n / RATE == |Input(m)| && 24 <= n
  {
    hide Input, SpoiledClean;
  }

  /** The decoder returns another message. */
  method DecodeSpoiled(decoder: ConvDecode.Decoder, m: seq<byte>, soft: seq<byte>, msg: array<byte>) returns (ret: int)
    requires decoder.Valid() && m != [] && soft == SpoiledClean(Input(m)) && |m| <= msg.Length
    modifies decoder.Objects(), msg
    ensures ret == |m| && msg[..ret] != m
  {
    hide ConvDecode.Decoder.Valid, ConvDecode.Output, WithinMargin, SpoiledClean, Input;
    ghost var bits, off;
    SpoiledSize(m);
    ret, bits, off := decoder.DecodeSoft(soft, |soft|, msg);
    SpoiledLost(m, bits, msg[..ret]);
  }

  // ----- the first slice's metric

  /** No flushed path's code word is closer. */
  ghost predicate Closest(soft: seq<byte>, sets: nat, path: seq<bit>)
    requires |path| == sets && 2 * sets <= |soft|
  {
    forall other: seq<bit> :: |other| == sets && Flushed(other, sets) ==>
      SoftDistance(soft, CodeBits(path)) <= SoftDistance(soft, CodeBits(other))
  }

  /** Whatever comes after the first two symbols, minimum-cost paths are closest. */
  ghost predicate CostDecides(y0: byte, y1: byte, sets: nat) {
    forall soft: seq<byte>, path: seq<bit> ::
      |soft| == 2 * sets >= 2 && soft[0] == y0 && soft[1] == y1 && |path| == sets && Minimal(soft, sets, path) ==>
        Closest(soft, sets, path)
  }

  /** Symbols that sum to 255 are as far from both outputs of the first slice. */
  lemma EvenStart(soft: seq<byte>, path: seq<bit>)
    requires path != [] && 2 * |path| <= |soft| && soft[0] as int + soft[1] as int == 255
    ensures SoftDistance(soft, CodeBits(path)) == 255 + Cost(soft, path)
  {
    hide Cost, CodeBits, SoftDistance, Branch, Register;
    DistanceCost(soft, path);
    FirstSlices(path, soft);
  }

  /** A flushed path that starts with the given bit. */
  function Start(b: bit, sets: nat): (x: seq<bit>)
    requires sets >= 7
    ensures |x| == sets && x[0] == b && Flushed(x, sets)
  {
    seq(sets, i => if i == 0 then b else 0)
  }

  /** The discarded metric never matters if and only if the first two symbols sum to 255. */
  lemma FirstSliceMatters(y0: byte, y1: byte, sets: nat)
    requires sets >= 7
    ensures CostDecides(y0, y1, sets) <==> y0 as int + y1 as int == 255
  {
    hide Cost, CodeBits, SoftDistance, Flushed, Spoiled, Flip, Branch, Register;
    if y0 as int + y1 as int == 255 {
      forall soft: seq<byte>, path: seq<bit> |
        |soft| == 2 * sets && soft[0] == y0 && soft[1] == y1 && |path| == sets && Minimal(soft, sets, path)
        ensures Closest(soft, sets, path)
      {
        EvenStart(soft, path);
        forall other: seq<bit> | |other| == sets && Flushed(other, sets)
          ensures SoftDistance(soft, CodeBits(path)) <= SoftDistance(soft, CodeBits(other))
        {
          EvenStart(soft, other);
        }
      }
    } else {
      var x := Start(if y0 as int + y1 as int < 255 then 0 else 1, sets);
      SpoiledFurther(x, y0, y1);
    }
  }

  /** The path of minimum cost is not the closest if the first two symbols are on the other one's side. */
  lemma SpoiledFurther(x: seq<bit>, y0: byte, y1: byte)
    requires |x| >= 7 && Flushed(x, |x|)
    requires if x[0] == 0 then y0 as int + y1 as int < 255 else y0 as int + y1 as int > 255
    ensures !CostDecides(y0, y1, |x|)
  {
    hide Cost, CodeBits, SoftDistance, Flushed, Minimal, Branch, Register, Far;
    var soft := Spoiled(x, y0, y1);
    assert soft[0] == y0 && soft[1] == y1;
    hide Spoiled;
    var path := SpoiledMinimal(x, y0, y1);
    SpoiledDecided(x, y0, y1, 0, 0);
    FirstSlices(x, soft);
    SidesApart(y0, y1, x[0]);
    DistanceCost(soft, x);
    DistanceCost(soft, path);
    assert !Closest(soft, |x|, path);
  }

  lemma SidesApart(y0: byte, y1: byte, b: bit)
    requires if b == 0 then y0 as int + y1 as int < 255 else y0 as int + y1 as int > 255
    ensures Far(y0, y1, b) + 2 <= Far(y0, y1, 1 - b)
  {
  }
}
