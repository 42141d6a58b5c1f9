/** The conversion of samples to soft symbols, on real numbers. */
module SoftSymbols {
  import opened Bits
  import opened Framing
  import opened NoiseMargin

  /** Conversion to an integer drops the fraction. */
  function Truncated(x: real): int {
    if x < 0.0 then -((-x).Floor) else x.Floor
  }

  function Clamp(x: int, lo: int, hi: int): (r: int)
    requires lo <= hi
    ensures lo <= r <= hi
  {
    if x < lo then lo else if x > hi then hi else x
  }

  /** One part of a sample. */
  function SoftSymbol(x: real): byte {
    Clamp(Truncated(x * 127.0 + 128.0), 0, 255)
  }

  /** The real part of the sample first. */
  function SoftAll(samples: seq<Complex>): (soft: seq<byte>)
    ensures |soft| == 2 * |samples|
  {
    seq(2 * |samples|, k requires 0 <= k < 2 * |samples| => SoftSymbol(Part(samples, k)))
  }

  function Part(samples: seq<Complex>, k: nat): real
    requires k < 2 * |samples|
  {
    if k % 2 == 0 then samples[k / 2].re else samples[k / 2].im
  }

  method Soften(samples: seq<Complex>) returns (soft: seq<byte>)
    ensures soft == SoftAll(samples)
  {
    var count := 2 * |samples|;
    soft := [];
    for i := 0 to count
      invariant soft == SoftAll(samples)[..i]
    {
      soft := soft + [SoftSymbol(Part(samples, i))];
    }
  }

  /** The part has the bit's sign and reaches far enough for the cut; 127 is that of the sign alone. */
  predicate Firm(x: real, b: bit, cut: nat) {
    if b == 1 then 127.0 * x >= 127.0 - cut as real else 127.0 * x < cut as real - 127.0
  }

  /** Soft symbols deviate by no more than a cut if and only if the parts are firm. */
  lemma SoftFirm(x: real, b: bit, cut: nat)
    requires cut <= 127
    ensures Deviation(SoftSymbol(x), b) <= cut <==> Firm(x, b, cut)
  {
  }

  /** Symbols of unit amplitude received without noise become 38 and 217. */
  lemma CleanLevels()
    ensures Firm(0.70710678118, 1, 38) && !Firm(0.70710678118, 1, 37)
    ensures Firm(-0.70710678118, 0, 38) && !Firm(-0.70710678118, 0, 37)
  {
  }
}
