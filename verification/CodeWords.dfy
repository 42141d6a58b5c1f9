/** Code words, and the messages that soft symbols near them stand for. */
module CodeWords {
  import opened Bits
  import opened BitIo
  import opened ConvCode
  import opened Survivors
  import opened FreeDistance
  import opened NoiseMargin

  /** Zeros shifted in after the message. */
  const FLUSH: nat := ORDER + 1

  /** What the encoder shifts in for a message. */
  function Input(msg: seq<byte>): (path: seq<bit>)
    ensures |path| == 8 * |msg| + FLUSH
  {
    ToBits(msg) + Zeros(FLUSH)
  }

  /** The message after six zeros and before eight. */
  function Padded(msg: seq<byte>): seq<bit> {
    [0, 0, 0, 0, 0, 0] + ToBits(msg) + [0, 0, 0, 0, 0, 0, 0, 0]
  }

  /** Eight zeros follow the message. */
  lemma InputEnds(msg: seq<byte>)
    ensures Input(msg) == ToBits(msg) + [0, 0, 0, 0, 0, 0, 0, 0]
  {
    hide ToBits;
  }

  /** Two output bits are the parities of input bits: the polynomials are 1110001 and 1010111, oldest bit first. */
  predicate Parities(p: seq<bit>, c: seq<bit>, t: nat) {
    && t + 6 < |p| && 2 * t + 1 < |c|
    && c[2 * t] == (p[t] as int + p[t + 1] as int + p[t + 2] as int + p[t + 6] as int) % 2
    && c[2 * t + 1] == (p[t] as int + p[t + 2] as int + p[t + 4] as int + p[t + 5] as int + p[t + 6] as int) % 2
  }

  /** So are the outputs of all slices. */
  ghost predicate Convolved(p: seq<bit>, c: seq<bit>) {
    2 * |p| == |c| + 12 && forall t :: 0 <= t < |p| - 6 ==> Parities(p, c, t)
  }

  /** Every slice's outputs by the input bits, after six zeros. */
  lemma CodeBitsTaps(x: seq<bit>, p: seq<bit>, t: nat)
    requires t < |x| && p == [0, 0, 0, 0, 0, 0] + x
    ensures CodeBits(x)[2 * t] == (p[t] as int + p[t + 1] as int + p[t + 2] as int + p[t + 6] as int) % 2
    ensures CodeBits(x)[2 * t + 1] ==
      (p[t] as int + p[t + 2] as int + p[t + 4] as int + p[t + 5] as int + p[t + 6] as int) % 2
  {
    hide CodeBits, Register, Word7;
    LastSeven(x, p, t);
    WindowTaps(x, p, t);
  }

  lemma WindowTaps(x: seq<bit>, p: seq<bit>, t: nat)
    requires t < |x| && |p| == |x| + 6
    requires Register(x[..t + 1]) == Word7(p[t] == 1, p[t + 1] == 1, p[t + 2] == 1, p[t + 3] == 1, p[t + 4] == 1,
                                           p[t + 5] == 1, p[t + 6] == 1)
    ensures CodeBits(x)[2 * t] == (p[t] as int + p[t + 1] as int + p[t + 2] as int + p[t + 6] as int) % 2
    ensures CodeBits(x)[2 * t + 1] ==
      (p[t] as int + p[t + 2] as int + p[t + 4] as int + p[t + 5] as int + p[t + 6] as int) % 2
  {
    hide CodeBits, Register, Out, Word7;
    CodeBitsAt(x, t);
    RegisterTaps(Register(x[..t + 1]), p[t], p[t + 1], p[t + 2], p[t + 3], p[t + 4], p[t + 5], p[t + 6]);
  }

  /** A register holds the last seven bits. */
  lemma LastSeven(x: seq<bit>, p: seq<bit>, t: nat)
    requires t < |x| && p == [0, 0, 0, 0, 0, 0] + x
    ensures Register(x[..t + 1]) == Word7(p[t] == 1, p[t + 1] == 1, p[t + 2] == 1, p[t + 3] == 1, p[t + 4] == 1,
                                          p[t + 5] == 1, p[t + 6] == 1)
  {
    hide Register, Recent, Word7;
    var d := x[..t + 1];
    RegisterRecent(d);
    forall k | 1 <= k <= 7 ensures Recent(d, k) == (p[t + 7 - k] == 1) {
      RecentAt(x, p, t, k);
    }
  }

  lemma RegisterTaps(r: nat, a: bit, b: bit, c: bit, d: bit, e: bit, f: bit, g: bit)
    requires r == Word7(a == 1, b == 1, c == 1, d == 1, e == 1, f == 1, g == 1)
    ensures Out(r) % 2 == (a as int + b as int + c as int + g as int) % 2
    ensures Out(r) / 2 == (a as int + c as int + e as int + f as int + g as int) % 2
  {
    hide Out, Tap, Word7;
    OutTaps(r);
    SevenTaps(a == 1, b == 1, c == 1, d == 1, e == 1, f == 1, g == 1);
    FourParity(a, b, c, g);
    FiveParity(a, c, e, f, g);
  }

  lemma SliceParities(x: seq<bit>, p: seq<bit>, t: nat)
    requires t < |x| && p == [0, 0, 0, 0, 0, 0] + x
    ensures Parities(p, CodeBits(x), t)
  {
    hide CodeBits;
    CodeBitsTaps(x, p, t);
  }

  lemma AllTaps(x: seq<bit>, p: seq<bit>)
    requires p == [0, 0, 0, 0, 0, 0] + x
    ensures Convolved(p, CodeBits(x))
  {
    hide CodeBits, Parities;
    forall t | 0 <= t < |x| ensures Parities(p, CodeBits(x), t) {
      SliceParities(x, p, t);
    }
  }

  lemma RecentAt(x: seq<bit>, p: seq<bit>, t: nat, k: nat)
    requires t < |x| && p == [0, 0, 0, 0, 0, 0] + x && 1 <= k <= 7
    ensures Recent(x[..t + 1], k) == (p[t + 7 - k] == 1)
  {
  }

  lemma FourParity(a: bit, b: bit, c: bit, g: bit)
    ensures (if ((a == 1) != (b == 1)) != ((c == 1) != (g == 1)) then 1 else 0)
         == (a as int + b as int + c as int + g as int) % 2
  {
  }

  lemma FiveParity(a: bit, c: bit, e: bit, f: bit, g: bit)
    ensures (if (((a == 1) != (c == 1)) != ((e == 1) != (f == 1))) != (g == 1) then 1 else 0)
         == (a as int + c as int + e as int + f as int + g as int) % 2
  {
  }

  lemma CodeBitsSnoc(path: seq<bit>, b: bit)
    ensures CodeBits(path + [b]) == CodeBits(path) + LowBits(Out(Register(path + [b])), 2)
  {
    hide Out, Register;
    assert (path + [b])[..|path|] == path;
    TwoBits(Out(Register(path + [b])));
  }

  lemma TwoBits(o: nat)
    requires o < 4
    ensures LowBits(o, 2) == [o % 2, o / 2]
  {
    assert LowBits(o / 2, 1) == [o / 2 % 2] + LowBits(o / 2 / 2, 0);
  }

  /** The soft symbols are close enough to the code word of the message: for some cut, in all windows of 168 soft symbols
      after the first slice. The cuts 0 and 127 are those of the total deviation and of symbols on the right side. */
  ghost predicate WithinMargin(soft: seq<byte>, msg: seq<byte>) {
    16 * |msg| + 16 <= |soft| && exists cut: nat :: Tolerated(soft, CodeBits(Input(msg)), cut)
  }

  /** A total deviation within the margin is enough; the first slice does not count. */
  lemma CloseWithin(soft: seq<byte>, msg: seq<byte>)
    requires 16 * |msg| + 16 <= |soft|
    ensures Cost(soft, Input(msg)) <= 892 ==> WithinMargin(soft, msg)
    ensures SoftDistance(soft, CodeBits(Input(msg))) <= 892 ==> WithinMargin(soft, msg)
  {
    hide Cost, CodeBits, SoftDistance, Tolerated;
    DistanceCost(soft, Input(msg));
    if Cost(soft, Input(msg)) <= MARGIN {
      CostTolerated(soft, Input(msg));
    }
  }

  lemma {:induction false} SideExcess(soft: seq<byte>, bits: seq<bit>, a: nat, b: nat)
    requires a <= b <= |bits| <= |soft|
    requires forall i :: a <= i < b ==> Deviation(soft[i], bits[i]) <= 127
    ensures Excess(soft, bits, 127, a, b) == 0
    decreases b
  {
    hide Deviation;
    if a < b {
      SideExcess(soft, bits, a, b - 1);
    }
  }

  /** It is enough that every symbol is on the right side, whatever the total deviation. */
  lemma SidesWithin(soft: seq<byte>, msg: seq<byte>)
    requires 16 * |msg| + 16 <= |soft|
    requires forall i :: 2 <= i < 16 * |msg| + 16 ==> Deviation(soft[i], CodeBits(Input(msg))[i]) <= 127
    ensures WithinMargin(soft, msg)
  {
    hide CodeBits, Deviation, Excess, Input;
    var c := CodeBits(Input(msg));
    forall a, b | 2 <= a <= b <= |c| && b - a <= WINDOW ensures Excess(soft, c, 127, a, b) + 7 * 127 <= MARGIN {
      SideExcess(soft, c, a, b);
    }
    assert Tolerated(soft, c, 127);
  }

  /** The number of soft symbols from a to b that deviate by more than the cut. */
  function WrongBits(soft: seq<byte>, bits: seq<bit>, cut: nat, a: nat, b: nat): nat
    requires b <= |bits| <= |soft|
  {
    if b <= a then 0
    else WrongBits(soft, bits, cut, a, b - 1) + if Deviation(soft[b - 1], bits[b - 1]) <= cut then 0 else 1
  }

  lemma {:induction false} WrongExcess(soft: seq<byte>, bits: seq<bit>, cut: nat, a: nat, b: nat)
    requires a <= b <= |bits| <= |soft| && cut <= 127
    requires forall i :: a <= i < b ==> Deviation(soft[i], bits[i]) <= 255 - cut
    ensures Excess(soft, bits, cut, a, b) <= Gain(cut, WrongBits(soft, bits, cut, a, b))
    decreases b
  {
    hide Deviation, Over, Gain;
    if a < b {
      var wrong := WrongBits(soft, bits, cut, a, b - 1);
      WrongExcess(soft, bits, cut, a, b - 1);
      OverGain(Deviation(soft[b - 1], bits[b - 1]), cut);
      GainSum(cut, wrong, 1);
    } else {
      GainSum(cut, 0, 0);
    }
  }

  lemma OverGain(deviation: nat, cut: nat)
    requires cut <= 127 && deviation <= 255 - cut
    ensures Over(deviation, cut) <= if deviation <= cut then 0 else Gain(cut, 1)
  {
  }

  lemma ThreeGains(cut: nat, wrong: nat)
    requires cut <= 127 && wrong <= 3
    ensures Gain(cut, wrong) + 7 * cut <= MARGIN
  {
    if wrong == 0 {
    } else if wrong == 1 {
    } else if wrong == 2 {
    } else {
    }
  }

  /** Any number of bits may be wrong as long as no window has more than three, if symbols deviate by the cut at most from
      the right bit or the wrong one. The cut 0 is that of hard decisions. */
  lemma ThreeWrongBits(soft: seq<byte>, msg: seq<byte>, cut: nat)
    requires 16 * |msg| + 16 <= |soft| && cut <= 127
    requires forall i :: 2 <= i < 16 * |msg| + 16 ==> Deviation(soft[i], CodeBits(Input(msg))[i]) <= 255 - cut
    requires forall a, b :: 2 <= a <= b <= 16 * |msg| + 16 && b - a <= 168 ==>
      WrongBits(soft, CodeBits(Input(msg)), cut, a, b) <= 3
    ensures WithinMargin(soft, msg)
  {
    hide CodeBits, Excess, WrongBits, Input, Deviation, Gain;
    var c := CodeBits(Input(msg));
    forall a, b | 2 <= a <= b <= |c| && b - a <= WINDOW ensures Excess(soft, c, cut, a, b) + 7 * cut <= MARGIN {
      WrongExcess(soft, c, cut, a, b);
      ThreeGains(cut, WrongBits(soft, c, cut, a, b));
    }
    assert Tolerated(soft, c, cut);
  }

  /** Within the margin, the decided bits are those of the message. */
  lemma MarginDecides(soft: seq<byte>, sets: nat, msg: seq<byte>, bits: seq<bit>)
    requires sets == 8 * |msg| + FLUSH && WithinMargin(soft, msg)
    requires |bits| <= sets && forall k :: 0 <= k < |bits| ==> Decided(soft, sets, k, bits[k])
    ensures bits == Input(msg)[..|bits|]
  {
    hide Decided, CodeBits, Tolerated;
    var x := Input(msg);
    var cut: nat :| Tolerated(soft, CodeBits(x), cut);
    assert Flushed(x, sets);
    hide Flushed, Input;
    forall k | 0 <= k < |bits| ensures bits[k] == x[k] {
      DecidedTrue(soft, sets, x, k, bits[k], cut);
    }
  }

  /** The whole bytes of the decided bits are the message. */
  lemma MarginDecodes(soft: seq<byte>, sets: nat, msg: seq<byte>, bits: seq<bit>, out: seq<byte>)
    requires sets == 8 * |msg| + FLUSH && WithinMargin(soft, msg)
    requires |bits| + 6 == sets && forall k :: 0 <= k < |bits| ==> Decided(soft, sets, k, bits[k])
    requires |out| == |bits| / 8 && ToBits(out) == bits[..8 * |out|]
    ensures out == msg
  {
    hide Decided, ToBits, WithinMargin;
    MarginDecides(soft, sets, msg, bits);
    assert bits[..8 * |msg|] == ToBits(msg);
    ToBitsInjective(out, msg);
  }
}
