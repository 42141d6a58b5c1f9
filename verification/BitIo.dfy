/** The bit writer and reader that pack bits into bytes, most significant bit first. */
module BitIo {
  import opened Bits

  // ----- shifts and masks

  /** v >> k */
  function Shr(v: nat, k: nat): (r: nat)
    ensures r <= v
  {
    if k == 0 then v else Shr(v / 2, k - 1)
  }

  /** The k low bits of v. */
  function Low(v: nat, k: nat): (r: nat)
    ensures r < Pow2(k)
  {
    if k == 0 then 0 else 2 * Low(v / 2, k - 1) + v % 2
  }

  /** v << k, cut to a byte. */
  function ShlByte(v: nat, k: nat): byte {
    (v * Pow2(k)) % 256
  }

  // ----- numbers as bits

  /** The n low bits of v, most significant first. */
  function BitsOf(v: nat, n: nat): (s: seq<bit>)
    ensures |s| == n
  {
    if n == 0 then [] else BitsOf(v / 2, n - 1) + [v % 2]
  }

  /** The n low bits of v, least significant first. */
  function LowBits(v: nat, n: nat): (s: seq<bit>)
    ensures |s| == n
  {
    if n == 0 then [] else [v % 2] + LowBits(v / 2, n - 1)
  }

  /** The two orders. */
  lemma BitOrders()
    ensures BitsOf(1, 3) == [0, 0, 1] && LowBits(1, 3) == [1, 0, 0]
  {
    assert BitsOf(0, 1) == [0] && BitsOf(0, 2) == [0, 0];
    assert LowBits(0, 1) == [0] && LowBits(0, 2) == [0, 0];
  }

  function ToBits(bytes: seq<byte>): (s: seq<bit>)
    ensures |s| == 8 * |bytes|
  {
    if bytes == [] then [] else ToBits(bytes[..|bytes| - 1]) + BitsOf(bytes[|bytes| - 1], 8)
  }

  function Reverse<T>(s: seq<T>): (r: seq<T>)
    ensures |r| == |s|
  {
    if s == [] then [] else Reverse(s[1..]) + [s[0]]
  }

  function Zeros(n: nat): seq<bit> {
    seq(n, _ => 0)
  }

  lemma ToBitsSnoc(bytes: seq<byte>, b: byte)
    ensures ToBits(bytes + [b]) == ToBits(bytes) + BitsOf(b, 8)
  {
    hide BitsOf;
    assert (bytes + [b])[..|bytes|] == bytes;
  }

  lemma {:induction false} ToBitsConcat(a: seq<byte>, b: seq<byte>)
    ensures ToBits(a + b) == ToBits(a) + ToBits(b)
    decreases |b|
  {
    hide BitsOf;
    if b == [] {
      assert a + b == a;
    } else {
      var n := |b| - 1;
      ToBitsConcat(a, b[..n]);
      assert (a + b)[..|a| + n] == a + b[..n];
    }
  }

  lemma {:induction false} ToBitsAt(bytes: seq<byte>, q: nat, r: nat)
    requires q < |bytes| && r < 8
    ensures ToBits(bytes)[8 * q + r] == BitsOf(bytes[q], 8)[r]
  {
    hide BitsOf;
    if q < |bytes| - 1 {
      ToBitsAt(bytes[..|bytes| - 1], q, r);
    }
  }

  /** The bits of a number fall into those of its upper and of its lower part. */
  lemma {:induction false} BitsSplit(v: nat, a: nat, b: nat)
    ensures BitsOf(v, a + b) == BitsOf(Shr(v, b), a) + BitsOf(v, b)
    decreases b
  {
    if b != 0 {
      BitsSplit(v / 2, a, b - 1);
    }
  }

  lemma {:induction false} BitsLow(v: nat, n: nat)
    ensures BitsOf(Low(v, n), n) == BitsOf(v, n)
  {
    if n != 0 {
      BitsLow(v / 2, n - 1);
    }
  }

  lemma {:induction false} LowIdempotent(v: nat, n: nat)
    ensures v < Pow2(n) ==> Low(v, n) == v && Shr(v, n) == 0
  {
    if n != 0 {
      LowIdempotent(v / 2, n - 1);
    }
  }

  lemma {:induction false} ZeroBits(n: nat)
    ensures BitsOf(0, n) == Zeros(n)
  {
    if n != 0 {
      ZeroBits(n - 1);
      assert Zeros(n) == Zeros(n - 1) + [0];
    }
  }

  /** Bits determine a number of their width. */
  lemma {:induction false} BitsInjective(v: nat, w: nat, n: nat)
    requires v < Pow2(n) && w < Pow2(n) && BitsOf(v, n) == BitsOf(w, n)
    ensures v == w
  {
    if n != 0 {
      assert BitsOf(v, n)[n - 1] == v % 2 && BitsOf(w, n)[n - 1] == w % 2;
      assert BitsOf(v, n)[..n - 1] == BitsOf(v / 2, n - 1) && BitsOf(w, n)[..n - 1] == BitsOf(w / 2, n - 1);
      BitsInjective(v / 2, w / 2, n - 1);
    }
  }

  lemma {:induction false} BitsShift(v: nat, n: nat, k: nat)
    ensures BitsOf(v * Pow2(k), n + k) == BitsOf(v, n) + Zeros(k)
    decreases k
  {
    if k == 0 {
      assert Zeros(0) == [];
    } else {
      BitsShift(v, n, k - 1);
      TwiceProduct(v, Pow2(k - 1));
      BitsTwice(v * Pow2(k - 1), n + k);
      assert Zeros(k) == Zeros(k - 1) + [0];
    }
  }

  lemma TwiceProduct(v: nat, p: nat)
    ensures v * (2 * p) == 2 * (v * p) == (2 * v) * p
  {
  }

  lemma BitsTwice(w: nat, n: nat)
    requires n > 0
    ensures BitsOf(2 * w, n) == BitsOf(w, n - 1) + [0]
  {
  }

  lemma {:induction false} LowBitsReverse(v: nat, n: nat)
    ensures LowBits(v, n) == Reverse(BitsOf(v, n))
  {
    hide Reverse;
    if n == 0 {
      ReverseNothing<bit>(BitsOf(v, 0));
    } else {
      LowBitsReverse(v / 2, n - 1);
      ReverseSnoc<bit>(BitsOf(v / 2, n - 1), v % 2);
    }
  }

  lemma {:induction false} ReverseSnoc<T>(s: seq<T>, x: T)
    ensures Reverse(s + [x]) == [x] + Reverse(s)
  {
    if s == [] {
      assert s + [x] == [x];
    } else {
      assert (s + [x])[1..] == s[1..] + [x];
      ReverseSnoc(s[1..], x);
    }
  }

  lemma {:induction false} ReverseTwice<T>(s: seq<T>)
    ensures Reverse(Reverse(s)) == s
  {
    if s != [] {
      ReverseSnoc(Reverse(s[1..]), s[0]);
      ReverseTwice(s[1..]);
    }
  }

  /** The number of bytes that bits take up. */
  method BytesFor(bits: nat) returns (bytes: nat)
    ensures 8 * bytes - 8 < bits <= 8 * bytes
  {
    bytes := if bits % 8 != 0 then bits / 8 + 1 else bits / 8;
  }

  // ----- the writer

  class BitWriter {
    /** The bits of the unfinished byte, already shifted by one. */
    var currentByte: byte
    var currentByteLen: nat
    var bytes: array<byte>
    var byteIndex: nat
    var len: nat

    ghost predicate Valid()
      reads this
    {
      && currentByteLen < 8 && byteIndex <= bytes.Length
      && currentByte % 2 == 0 && currentByte / 2 < Pow2(currentByteLen)
    }

    /** Everything written since the buffer was set. */
    ghost function Contents(): (s: seq<bit>)
      reads this, bytes
      requires Valid()
      ensures |s| == 8 * byteIndex + currentByteLen
    {
      ToBits(bytes[..byteIndex]) + BitsOf(currentByte / 2, currentByteLen)
    }

    /** The whole bytes that n more bits complete fit the buffer. */
    ghost predicate Room(n: nat)
      reads this
    {
      8 * byteIndex + currentByteLen + n < 8 * bytes.Length + 8
    }

    constructor ()
      ensures Valid() && fresh(bytes)
    {
      currentByte, currentByteLen, byteIndex, len := 0, 0, 0, 0;
      bytes := new byte[0];
    }

    method Reconfigure(bytes: array<byte>, len: nat)
      modifies this
      ensures Valid() && Contents() == [] && this.bytes == bytes && this.len == len
      ensures byteIndex == currentByteLen == 0
    {
      this.bytes, this.len := bytes, len;
      currentByte, currentByteLen, byteIndex := 0, 0, 0;
      assert bytes[..0] == [];
    }

    /** Between bytes the contents are those of the buffer so far. */
    lemma AtByte()
      requires Valid() && 8 * byteIndex + currentByteLen == 8 * bytes.Length
      ensures Contents() == ToBits(bytes[..])
    {
      hide ToBits;
      assert byteIndex == bytes.Length && currentByteLen == 0;
      assert bytes[..byteIndex] == bytes[..];
      NoBits(currentByte / 2);
    }

    method Write1(val: byte)
      requires Valid() && Room(1)
      modifies this, bytes
      ensures Valid() && bytes == old(bytes)
      ensures 8 * byteIndex + currentByteLen == old(8 * byteIndex + currentByteLen) + 1
      ensures Contents() == old(Contents()) + [val % 2]
    {
      hide ToBits, BitsOf, Pow2;
      ghost var before := bytes[..byteIndex];
      PushBit(currentByte / 2, currentByteLen, val % 2);
      currentByte := currentByte + val % 2;
      currentByteLen := currentByteLen + 1;
      if currentByteLen == 8 {
        bytes[byteIndex] := currentByte;
        assert bytes[..byteIndex + 1] == before + [currentByte];
        ToBitsSnoc(before, currentByte);
        byteIndex := byteIndex + 1;
        currentByteLen := 0;
        currentByte := 0;
        NoBits(0);
      } else {
        currentByte := currentByte * 2 % 256;
        assert bytes[..byteIndex] == before;
      }
    }

    /** n bits of val, least significant first. */
    method Write(val: byte, n: nat)
      requires Valid() && Room(n)
      modifies this, bytes
      ensures Valid() && bytes == old(bytes)
      ensures Contents() == old(Contents()) + LowBits(val, n)
      ensures 8 * byteIndex + currentByteLen == old(8 * byteIndex + currentByteLen) + n
    {
      hide ToBits, BitsOf, Pow2;
      var v := val;
      ghost var before := Contents();
      for j := 0 to n
        invariant Valid() && bytes == old(bytes)
        invariant 8 * byteIndex + currentByteLen == old(8 * byteIndex + currentByteLen) + j
        invariant Contents() + LowBits(v, n - j) == before + LowBits(val, n)
      {
        ghost var now, rest := Contents(), LowBits(v / 2, n - j - 1);
        assert LowBits(v, n - j) == [v % 2] + rest;
        Write1(v);
        assert Contents() + rest == now + ([v % 2] + rest);
        v := v / 2;
      }
    }

    /** The first n elements of a list, last element first. */
    method WriteBitlistReversed(l: array<bit>, n: nat)
      requires Valid() && Room(n) && n <= l.Length
      modifies this, bytes
      ensures Valid() && bytes == old(bytes)
      ensures 8 * byteIndex + currentByteLen == old(8 * byteIndex + currentByteLen) + n
      ensures Contents() == old(Contents()) + Reverse(l[..n])
    {
      hide ToBits, BitsOf, Pow2, Reverse, Contents;
      var p := n;
      ReverseNothing(l[..0]);
      if currentByteLen != 0 {
        var closeLen := if 8 - currentByteLen < n then 8 - currentByteLen else n;
        var open := currentByteLen + closeLen < 8;
        CloseByte(l, n, closeLen);
        p := n - closeLen;
        if open {
          return;
        }
      }
      var fullBytes := p / 8;
      FullBytes(l, p, fullBytes);
      p := p - 8 * fullBytes;
      OpenByte(l, p);
    }

    /** Complete the current byte, or add all there is to it. */
    method CloseByte(l: array<bit>, p: nat, closeLen: nat)
      requires Valid() && Room(closeLen) && closeLen <= p <= l.Length && currentByteLen + closeLen <= 8
      modifies this, bytes
      ensures Valid() && bytes == old(bytes)
      ensures 8 * byteIndex + currentByteLen == old(8 * byteIndex + currentByteLen) + closeLen
      ensures Contents() + Reverse(l[..p - closeLen]) == old(Contents()) + Reverse(l[..p])
    {
      hide ToBits, BitsOf, Pow2, Reverse;
      ghost var before, rest := bytes[..byteIndex], Reverse(l[..p - closeLen]);
      var b := Accumulate(l, p, closeLen, currentByte, currentByteLen);
      PushFits(b / 2, currentByteLen + closeLen);
      ghost var packed := BitsOf(b / 2, currentByteLen + closeLen);
      if currentByteLen + closeLen == 8 {
        b := b / 2;
        bytes[byteIndex] := b;
        assert bytes[..byteIndex + 1] == before + [b];
        ToBitsSnoc(before, b);
        byteIndex := byteIndex + 1;
        currentByteLen := 0;
        currentByte := 0;
        NoBits(0);
      } else {
        currentByte := b;
        currentByteLen := currentByteLen + closeLen;
        assert bytes[..byteIndex] == before;
      }
      assert Contents() == ToBits(before) + packed;
      assert (ToBits(before) + packed) + rest == ToBits(before) + (packed + rest);
    }

    /** Whole bytes, eight elements at a time. */
    method FullBytes(l: array<bit>, p: nat, fullBytes: nat)
      requires Valid() && Room(8 * fullBytes) && 8 * fullBytes <= p <= l.Length
      requires currentByteLen == 0
      modifies this`byteIndex, bytes
      ensures Valid() && byteIndex == old(byteIndex) + fullBytes
      ensures Contents() + Reverse(l[..p - 8 * fullBytes]) == old(Contents()) + Reverse(l[..p])
    {
      hide ToBits, BitsOf, Pow2, Reverse;
      ghost var goal := Contents() + Reverse(l[..p]);
      for i := 0 to fullBytes
        invariant Valid() && byteIndex == old(byteIndex) + i
        invariant Contents() + Reverse(l[..p - 8 * i]) == goal
      {
        var q := p - 8 * i;
        ghost var before, rest, eight := bytes[..byteIndex], Reverse(l[..q - 8]), l[q - 8..q];
        var b := 128 * l[q - 1] as int + 64 * l[q - 2] as int + 32 * l[q - 3] as int + 16 * l[q - 4] as int
               + 8 * l[q - 5] as int + 4 * l[q - 6] as int + 2 * l[q - 7] as int + l[q - 8] as int;
        PackEight(b, eight);
        assert l[..q] == l[..q - 8] + eight;
        ReverseConcat(l[..q - 8], eight);
        NoBits(currentByte / 2);
        assert Contents() + (Reverse(eight) + rest) == ToBits(before) + Reverse(eight) + rest;
        bytes[byteIndex] := b;
        byteIndex := byteIndex + 1;
        assert bytes[..byteIndex] == before + [b];
        ToBitsSnoc(before, b);
      }
    }

    /** The rest, fewer than eight elements, begins a new byte. */
    method OpenByte(l: array<bit>, p: nat)
      requires Valid() && currentByteLen == 0 && p < 8 && p <= l.Length
      modifies this
      ensures Valid() && bytes == old(bytes) && byteIndex == old(byteIndex) && currentByteLen == p
      ensures Contents() == old(Contents()) + Reverse(l[..p])
    {
      hide ToBits, BitsOf, Pow2, Reverse;
      NoBits(currentByte / 2);
      NoBits(0);
      var b := Accumulate(l, p, p, 0, 0);
      ReverseNothing(l[..p - p]);
      assert BitsOf(b / 2, p) == BitsOf(b / 2, p) + Reverse(l[..p - p]);
      PushFits(b / 2, p);
      currentByte := b;
      currentByteLen := p;
    }

    /** Close the unfinished byte. It is shifted one place further than it has room for, so its first bit is lost,
        and it stays behind as the current byte. */
    method FlushByte()
      requires Valid() && (currentByteLen != 0 ==> byteIndex < bytes.Length)
      modifies this, bytes
      ensures bytes == old(bytes) && len == old(len) && currentByteLen == 0
      ensures bytes[..old(byteIndex)] == old(bytes[..byteIndex])
      ensures old(currentByteLen) == 0 ==> byteIndex == old(byteIndex) && currentByte == old(currentByte)
      ensures old(currentByteLen) != 0 ==>
        byteIndex == old(byteIndex) + 1 && currentByte == bytes[old(byteIndex)]
      ensures old(currentByteLen) != 0 ==>
        BitsOf(bytes[old(byteIndex)], 8) == FlushedBits(old(currentByte / 2), old(currentByteLen))
    {
      hide ToBits, BitsOf, Pow2, FlushedBits, ShlByte;
      if currentByteLen != 0 {
        FlushedByte(currentByte / 2, currentByteLen);
        currentByte := ShlByte(currentByte, 8 - currentByteLen);
        bytes[byteIndex] := currentByte;
        byteIndex := byteIndex + 1;
        currentByteLen := 0;
      }
    }

    /** The bytes completed so far. */
    method Length() returns (n: nat)
      requires Valid()
      ensures n == byteIndex && |Contents()| / 8 == n
    {
      n := byteIndex;
    }
  }

  /** Take count elements from below p into a byte that already holds bits, shifting by one each time. */
  method Accumulate(l: array<bit>, p: nat, count: nat, b0: nat, ghost len0: nat) returns (b: nat)
    requires count <= p <= l.Length && len0 + count <= 8
    requires b0 % 2 == 0 && b0 / 2 < Pow2(len0)
    ensures b % 2 == 0 && b / 2 < Pow2(len0 + count)
    ensures BitsOf(b / 2, len0 + count) + Reverse(l[..p - count]) == BitsOf(b0 / 2, len0) + Reverse(l[..p])
  {
    hide BitsOf, Pow2, Reverse;
    b := b0;
    for i := 0 to count
      invariant b % 2 == 0 && b / 2 < Pow2(len0 + i)
      invariant BitsOf(b / 2, len0 + i) + Reverse(l[..p - i]) == BitsOf(b0 / 2, len0) + Reverse(l[..p])
    {
      var x := l[p - i - 1];
      PushBit(b / 2, len0 + i, x);
      assert l[..p - i] == l[..p - i - 1] + [x];
      ReverseSnoc(l[..p - i - 1], x);
      ghost var packed, rest := BitsOf(b / 2, len0 + i), Reverse(l[..p - i - 1]);
      assert (packed + [x]) + rest == packed + ([x] + rest);
      b := (b + x) * 2;
    }
  }

  lemma ReverseNothing<T>(s: seq<T>)
    ensures s == [] ==> Reverse(s) == []
  {
  }

  lemma PushFits(v: nat, n: nat)
    requires v < Pow2(n) && n <= 8
    ensures v < 256 && (n < 8 ==> 2 * v < 256)
  {
    Pow2Byte();
    Pow2Grows(n, if n < 8 then 7 else 8);
  }

  lemma FourBits(a: bit, b: bit, c: bit, d: bit)
    ensures var v := 8 * a as int + 4 * b as int + 2 * c as int + d as int; v < 16 && BitsOf(v, 4) == [a, b, c, d]
  {
    hide BitsOf, Pow2;
    NoBits(0);
    PushBit(0, 0, a);
    PushBit(a, 1, b);
    PushBit(2 * a as int + b as int, 2, c);
    PushBit(4 * a as int + 2 * b as int + c as int, 3, d);
  }

  /** Eight bits make a byte. */
  lemma EightBits(a: bit, b: bit, c: bit, d: bit, e: bit, f: bit, g: bit, h: bit)
    ensures var v := 128 * a as int + 64 * b as int + 32 * c as int + 16 * d as int
                   + 8 * e as int + 4 * f as int + 2 * g as int + h as int;
            v < 256 && BitsOf(v, 8) == [a, b, c, d, e, f, g, h]
  {
    hide BitsOf;
    FourBits(a, b, c, d);
    FourBits(e, f, g, h);
    assert Pow2(4) == 16;
    hide Pow2;
    JoinBits(8 * a as int + 4 * b as int + 2 * c as int + d as int, 4, 8 * e as int + 4 * f as int + 2 * g as int + h as int, 4);
  }

  /** The byte of eight list elements, last element first. */
  lemma PackEight(v: int, s: seq<bit>)
    requires |s| == 8
    requires v == 128 * s[7] as int + 64 * s[6] as int + 32 * s[5] as int + 16 * s[4] as int
                + 8 * s[3] as int + 4 * s[2] as int + 2 * s[1] as int + s[0] as int
    ensures 0 <= v < 256 && BitsOf(v, 8) == Reverse(s)
  {
    hide BitsOf, Reverse;
    EightBits(s[7], s[6], s[5], s[4], s[3], s[2], s[1], s[0]);
    ReverseEight(s);
  }

  lemma {:induction false} ReverseConcat<T>(a: seq<T>, b: seq<T>)
    ensures Reverse(a + b) == Reverse(b) + Reverse(a)
  {
    if a == [] {
      assert a + b == b;
    } else {
      assert (a + b)[1..] == a[1..] + b;
      ReverseConcat(a[1..], b);
    }
  }

  lemma {:induction false} ReverseAt<T>(s: seq<T>, i: nat)
    requires i < |s|
    ensures Reverse(s)[i] == s[|s| - 1 - i]
  {
    if i < |s| - 1 {
      ReverseAt(s[1..], i);
    }
  }

  lemma ReverseEight(s: seq<bit>)
    requires |s| == 8
    ensures Reverse(s) == [s[7], s[6], s[5], s[4], s[3], s[2], s[1], s[0]]
  {
    hide Reverse;
    forall i | 0 <= i < 8 ensures Reverse(s)[i] == s[7 - i] {
      ReverseAt(s, i);
    }
  }

  lemma NoBits(v: nat)
    ensures BitsOf(v, 0) == [] && Pow2(0) == 1
  {
  }

  /** One more bit at the low end. */
  lemma PushBit(v: nat, n: nat, b: bit)
    requires v < Pow2(n) && n < 8
    ensures BitsOf(2 * v + b, n + 1) == BitsOf(v, n) + [b] && 2 * v + b < Pow2(n + 1) <= 256
    ensures n < 7 ==> Pow2(n + 1) <= 128
  {
    assert (2 * v + b) / 2 == v && (2 * v + b) % 2 == b;
    Pow2Byte();
    Pow2Grows(n + 1, if n < 7 then 7 else 8);
  }

  lemma {:induction false} Pow2Grows(m: nat, n: nat)
    requires m <= n
    ensures Pow2(m) <= Pow2(n)
  {
    if m < n {
      Pow2Grows(m, n - 1);
    }
  }

  // ----- flushing an unfinished byte

  /** The byte written for n unfinished bits, 0 < n < 8: the first of them is gone. */
  function FlushedBits(v: nat, n: nat): seq<bit>
    requires 0 < n < 8
  {
    BitsOf(v, n)[1..] + Zeros(9 - n)
  }

  lemma FlushedByte(v: nat, n: nat)
    requires 0 < n < 8 && v < Pow2(n)
    ensures BitsOf(ShlByte(2 * v, 8 - n), 8) == FlushedBits(v, n)
  {
    hide BitsOf, Pow2;
    var w := v * Pow2(9 - n);
    Pow2Step(8 - n);
    TwiceProduct(v, Pow2(8 - n));
    assert ShlByte(2 * v, 8 - n) == w % 256;
    BitsShift(v, n, 9 - n);
    BitsSplit(w, 1, 8);
    assert BitsOf(w, 8) == BitsOf(w, 9)[1..];
    LowByteBits(w);
  }

  lemma LowByteBits(w: nat)
    ensures BitsOf(w % 256, 8) == BitsOf(w, 8)
  {
    hide BitsOf, Pow2;
    Pow2Byte();
    BitsMod(w % 256, w / 256, 8);
    assert w % 256 + (w / 256) * Pow2(8) == w;
  }

  lemma Pow2Step(k: nat)
    ensures Pow2(k + 1) == 2 * Pow2(k)
  {
  }

  lemma {:induction false} BitsMod(v: nat, j: nat, n: nat)
    ensures BitsOf(v + j * Pow2(n), n) == BitsOf(v, n)
  {
    if n != 0 {
      var m := j * Pow2(n - 1);
      assert j * Pow2(n) == 2 * m;
      assert (v + 2 * m) / 2 == v / 2 + m && (v + 2 * m) % 2 == v % 2;
      BitsMod(v / 2, j, n - 1);
    }
  }

  /** The flush pads an unfinished byte with zeros exactly when all its bits are zeros. */
  lemma FlushPads(v: nat, n: nat)
    requires 0 < n < 8 && v < Pow2(n)
    ensures FlushedBits(v, n) == BitsOf(v, n) + Zeros(8 - n) <==> BitsOf(v, n) == Zeros(n)
  {
    hide BitsOf, Pow2;
    var padded := BitsOf(v, n) + Zeros(8 - n);
    if BitsOf(v, n) == Zeros(n) {
      assert FlushedBits(v, n) == padded;
    }
    if FlushedBits(v, n) == padded {
      assert FlushedBits(v, n) == padded[1..] + [0];
      Shifted(padded);
      assert BitsOf(v, n) == padded[..n];
    }
  }

  /** Bits that stay the same when shifted are all zeros. */
  lemma Shifted(s: seq<bit>)
    requires |s| == 8 && s == s[1..] + [0]
    ensures s == Zeros(8)
  {
    assert s[7] == 0 && s[6] == s[7] && s[5] == s[6] && s[4] == s[5];
    assert s[3] == s[4] && s[2] == s[3] && s[1] == s[2] && s[0] == s[1];
  }

  // ----- what the contents determine

  /** A writer's contents determine its whole state: writing a list reversed leaves the same bytes and the same
      unfinished byte as writing its elements one by one from the back. */
  lemma ContentsDetermine(a: seq<byte>, x: byte, m: nat, b: seq<byte>, y: byte, n: nat)
    requires m < 8 && x % 2 == 0 && x / 2 < Pow2(m)
    requires n < 8 && y % 2 == 0 && y / 2 < Pow2(n)
    requires ToBits(a) + BitsOf(x / 2, m) == ToBits(b) + BitsOf(y / 2, n)
    ensures a == b && x == y && m == n
  {
    hide ToBits, BitsOf, Pow2;
    var s := ToBits(a) + BitsOf(x / 2, m);
    assert |a| == |b| && m == n;
    assert ToBits(a) == s[..8 * |a|] == ToBits(b);
    assert BitsOf(x / 2, m) == s[8 * |a|..] == BitsOf(y / 2, n);
    BitsInjective(x / 2, y / 2, m);
    ToBitsInjective(a, b);
  }

  lemma {:induction false} ToBitsInjective(a: seq<byte>, b: seq<byte>)
    requires ToBits(a) == ToBits(b)
    ensures a == b
    decreases |a|
  {
    hide BitsOf, Pow2;
    if a != [] {
      var n := |a| - 1;
      Pow2Byte();
      assert ToBits(a)[..8 * n] == ToBits(a[..n]) && ToBits(b)[..8 * n] == ToBits(b[..n]);
      assert ToBits(a)[8 * n..] == BitsOf(a[n], 8) && ToBits(b)[8 * n..] == BitsOf(b[n], 8);
      ToBitsInjective(a[..n], b[..n]);
      BitsInjective(a[n], b[n], 8);
      assert a == a[..n] + [a[n]] && b == b[..n] + [b[n]];
    }
  }

  // ----- the reader

  /** The bits of a byte back to front. */
  function ReverseByte(b: byte): (r: byte) {
    b / 128 % 2 + b / 64 % 2 * 2 + b / 32 % 2 * 4 + b / 16 % 2 * 8
    + b / 8 % 2 * 16 + b / 4 % 2 * 32 + b / 2 % 2 * 64 + b % 2 * 128
  }

  class BitReader {
    var currentByte: byte
    var byteIndex: nat
    var len: nat
    var currentByteLen: nat
    var bytes: seq<byte>

    ghost predicate Valid()
      reads this
    {
      byteIndex < |bytes| && currentByteLen <= 8 && currentByte == bytes[byteIndex]
    }

    /** The bits not read yet. */
    ghost function Remaining(): seq<bit>
      reads this
      requires Valid()
    {
      BitsOf(currentByte, currentByteLen) + ToBits(bytes[byteIndex + 1..])
    }

    /** The first byte is fetched at once, so there must be one. */
    constructor (bytes: seq<byte>, len: nat)
      requires bytes != []
      ensures Valid() && Remaining() == ToBits(bytes) && this.len == len
    {
      this.bytes, this.len := bytes, len;
      currentByteLen := 8;
      currentByte := bytes[0];
      byteIndex := 0;
      new;
      hide ToBits, BitsOf;
      ToBitsCons(bytes);
    }

    /** The next n bits, the first of them in the low place. */
    method Read(n: nat) returns (val: byte)
      requires Valid() && n <= 8 && n <= |Remaining()|
      modifies this
      ensures Valid()
      ensures val < Pow2(n) && LowBits(val, n) == old(Remaining())[..n]
      ensures Remaining() == old(Remaining())[n..]
    {
      hide ToBits, BitsOf, Pow2, LowBits, ReverseByte, Low, Shr;
      var read: nat := 0;
      var n1 := n;
      ghost var hi, h := 0, 0;
      NoBits(0);
      if currentByteLen < n {
        ToBitsCons(bytes[byteIndex + 1..]);
        BitsLow(currentByte, currentByteLen);
        read := Low(currentByte, currentByteLen);
        hi, h := read, currentByteLen;
        byteIndex := byteIndex + 1;
        currentByte := bytes[byteIndex];
        n1 := n - currentByteLen;
        currentByteLen := 8;
        read := read * Pow2(n1);
      }
      ghost var rest := ToBits(bytes[byteIndex + 1..]);
      assert old(Remaining()) == BitsOf(hi, h) + BitsOf(currentByte, currentByteLen) + rest;
      TakeJoined(hi, h, currentByte, currentByteLen, n1);
      read := read + Low(Shr(currentByte, currentByteLen - n1), n1);
      currentByteLen := currentByteLen - n1;
      assert old(Remaining()) == BitsOf(read, n) + Remaining();
      PushFits(read, n);
      ReverseTop(read, n);
      val := Shr(ReverseByte(read), 8 - n);
    }
  }

  /** The h bits taken before, and n more from the upper part of c bits. */
  lemma TakeJoined(hi: nat, h: nat, v: nat, c: nat, n: nat)
    requires hi < Pow2(h) && n <= c
    ensures var read := hi * Pow2(n) + Low(Shr(v, c - n), n);
            && BitsOf(hi, h) + BitsOf(v, c) == BitsOf(read, h + n) + BitsOf(v, c - n)
            && read < Pow2(h + n)
  {
    hide BitsOf, Low, Shr, Pow2;
    TakeBits(v, c, n);
    JoinBits(hi, h, Low(Shr(v, c - n), n), n);
  }

  /** The upper n of c bits. */
  lemma TakeBits(v: nat, c: nat, n: nat)
    requires n <= c
    ensures BitsOf(v, c) == BitsOf(Low(Shr(v, c - n), n), n) + BitsOf(v, c - n)
  {
    hide BitsOf, Low, Shr;
    BitsSplit(v, n, c - n);
    BitsLow(Shr(v, c - n), n);
  }

  lemma {:induction false} JoinBits(hi: nat, h: nat, lo: nat, l: nat)
    requires hi < Pow2(h) && lo < Pow2(l)
    ensures BitsOf(hi * Pow2(l) + lo, h + l) == BitsOf(hi, h) + BitsOf(lo, l)
    ensures hi * Pow2(l) + lo < Pow2(h + l)
    decreases l
  {
    if l != 0 {
      var m := hi * Pow2(l - 1);
      assert hi * Pow2(l) == 2 * m;
      assert (2 * m + lo) / 2 == m + lo / 2 && (2 * m + lo) % 2 == lo % 2;
      JoinBits(hi, h, lo / 2, l - 1);
    }
  }

  lemma ByteSplit(v: byte) returns (a: bit, b: bit, c: bit, d: bit, e: bit, f: bit, g: bit, h: bit)
    ensures v == 128 * a as int + 64 * b as int + 32 * c as int + 16 * d as int
               + 8 * e as int + 4 * f as int + 2 * g as int + h as int
  {
    var r: int := v;
    a := if r < 128 then 0 else 1;
    r := r - 128 * a as int;
    b := if r < 64 then 0 else 1;
    r := r - 64 * b as int;
    c := if r < 32 then 0 else 1;
    r := r - 32 * c as int;
    d := if r < 16 then 0 else 1;
    r := r - 16 * d as int;
    e := if r < 8 then 0 else 1;
    r := r - 8 * e as int;
    f := if r < 4 then 0 else 1;
    r := r - 4 * f as int;
    g := if r < 2 then 0 else 1;
    h := r - 2 * g as int;
  }

  /** The first of a byte's bits is worth 128, the last 1. */
  lemma ByteValue(bytes: seq<byte>, q: nat)
    requires q < |bytes|
    ensures var s := ToBits(bytes)[8 * q..8 * q + 8];
      bytes[q] == 128 * s[0] as int + 64 * s[1] as int + 32 * s[2] as int + 16 * s[3] as int
                + 8 * s[4] as int + 4 * s[5] as int + 2 * s[6] as int + s[7] as int
  {
    hide BitsOf, ToBits;
    var s := ToBits(bytes)[8 * q..8 * q + 8];
    forall r | 0 <= r < 8 ensures s[r] == BitsOf(bytes[q], 8)[r] {
      ToBitsAt(bytes, q, r);
    }
    assert s == BitsOf(bytes[q], 8);
    BitsValue(bytes[q]);
  }

  lemma BitsValue(v: byte)
    ensures var s := BitsOf(v, 8);
      v == 128 * s[0] as int + 64 * s[1] as int + 32 * s[2] as int + 16 * s[3] as int
         + 8 * s[4] as int + 4 * s[5] as int + 2 * s[6] as int + s[7] as int
  {
    hide BitsOf;
    var a, b, c, d, e, f, g, h := ByteSplit(v);
    EightBits(a, b, c, d, e, f, g, h);
  }

  lemma ReverseByteBits(v: byte)
    ensures BitsOf(ReverseByte(v), 8) == Reverse(BitsOf(v, 8))
  {
    hide BitsOf, Reverse;
    hide ReverseByte;
    var a, b, c, d, e, f, g, h := ByteSplit(v);
    EightBits(a, b, c, d, e, f, g, h);
    EightBits(h, g, f, e, d, c, b, a);
    ReverseEight(BitsOf(v, 8));
    ReverseByteOf(v, a, b, c, d, e, f, g, h);
  }

  lemma ReverseByteOf(v: byte, a: int, b: int, c: int, d: int, e: int, f: int, g: int, h: int)
    requires 0 <= a < 2 && 0 <= b < 2 && 0 <= c < 2 && 0 <= d < 2 && 0 <= e < 2 && 0 <= f < 2 && 0 <= g < 2 && 0 <= h < 2
    requires v == 128 * a + 64 * b + 32 * c + 16 * d + 8 * e + 4 * f + 2 * g + h
    ensures ReverseByte(v) == 128 * h + 64 * g + 32 * f + 16 * e + 8 * d + 4 * c + 2 * b + a
  {
    BitAt(v, 128, 0, a, v - 128 * a);
    BitAt(v, 64, a, b, v - 128 * a - 64 * b);
    BitAt(v, 32, 2 * a + b, c, 16 * d + 8 * e + 4 * f + 2 * g + h);
    BitAt(v, 16, 4 * a + 2 * b + c, d, 8 * e + 4 * f + 2 * g + h);
    BitAt(v, 8, 8 * a + 4 * b + 2 * c + d, e, 4 * f + 2 * g + h);
    BitAt(v, 4, 16 * a + 8 * b + 4 * c + 2 * d + e, f, 2 * g + h);
    BitAt(v, 2, 32 * a + 16 * b + 8 * c + 4 * d + 2 * e + f, g, h);
    BitAt(v, 1, 64 * a + 32 * b + 16 * c + 8 * d + 4 * e + 2 * f + g, h, 0);
  }

  /** The bit of weight m. */
  lemma BitAt(v: int, m: int, hi: int, x: int, lo: int)
    requires m > 0 && 0 <= x < 2 && 0 <= lo < m && v == 2 * m * hi + m * x + lo
    ensures v / m % 2 == x
  {
    ModUnique(v, m, 2 * hi + x, lo);
  }

  lemma {:induction false} ShrBound(v: nat, a: nat, b: nat)
    requires v < Pow2(a + b)
    ensures Shr(v, b) < Pow2(a)
    decreases b
  {
    if b != 0 {
      ShrBound(v / 2, a, b - 1);
    }
  }

  /** The reversed byte shifted down holds the n bits of v, least significant first. */
  lemma ReverseTop(v: byte, n: nat)
    requires n <= 8 && v < Pow2(n)
    ensures var r := Shr(ReverseByte(v), 8 - n); r < Pow2(n) && LowBits(r, n) == BitsOf(v, n)
  {
    hide BitsOf, Reverse, Pow2, Shr, Low, LowBits, ReverseByte;
    var w := ReverseByte(v);
    var bits := BitsOf(v, n);
    Pow2Byte();
    LowIdempotent(v, n);
    ZeroBits(8 - n);
    BitsSplit(v, 8 - n, n);
    ReverseByteBits(v);
    ReverseConcat(Zeros(8 - n), bits);
    BitsSplit(w, n, 8 - n);
    assert BitsOf(Shr(w, 8 - n), n) == BitsOf(w, 8)[..n] == Reverse(bits);
    LowBitsReverse(Shr(w, 8 - n), n);
    ReverseTwice(bits);
    ShrBound(w, n, 8 - n);
  }

  lemma {:induction false} ToBitsCons(bytes: seq<byte>)
    requires bytes != []
    ensures ToBits(bytes) == BitsOf(bytes[0], 8) + ToBits(bytes[1..])
  {
    hide BitsOf;
    assert bytes == bytes[..1] + bytes[1..];
    ToBitsConcat(bytes[..1], bytes[1..]);
    assert bytes[..1][..0] == [];
  }

  // ----- reading undoes writing

  /** The bits of a sequence of writes of the given widths. */
  function WriteAll(vals: seq<byte>, widths: seq<nat>): seq<bit>
    requires |vals| == |widths|
  {
    if vals == [] then [] else LowBits(vals[0], widths[0]) + WriteAll(vals[1..], widths[1..])
  }

  /** The number of bits of all the writes. */
  function TotalWidth(widths: seq<nat>): nat {
    if widths == [] then 0 else widths[0] + TotalWidth(widths[1..])
  }

  lemma {:induction false} WriteAllLength(vals: seq<byte>, widths: seq<nat>)
    requires |vals| == |widths|
    ensures |WriteAll(vals, widths)| == TotalWidth(widths)
  {
    hide LowBits;
    if vals != [] {
      WriteAllLength(vals[1..], widths[1..]);
    }
  }

  lemma {:induction false} LowBitsInjective(v: nat, w: nat, n: nat)
    requires w < Pow2(n) && LowBits(v, n) == LowBits(w, n)
    ensures w == Low(v, n)
  {
    if n != 0 {
      assert LowBits(v, n)[0] == v % 2 && LowBits(w, n)[0] == w % 2;
      assert LowBits(v, n)[1..] == LowBits(v / 2, n - 1) && LowBits(w, n)[1..] == LowBits(w / 2, n - 1);
      LowBitsInjective(v / 2, w / 2, n - 1);
    }
  }

  /** The next write's bits, and those of the writes after it. */
  lemma WriteAllNext(vals: seq<byte>, widths: seq<nat>, i: nat)
    requires i < |vals| == |widths|
    ensures WriteAll(vals[i..], widths[i..]) == LowBits(vals[i], widths[i]) + WriteAll(vals[i + 1..], widths[i + 1..])
    ensures TotalWidth(widths[i..]) == widths[i] + TotalWidth(widths[i + 1..])
  {
    hide LowBits;
    assert vals[i..][1..] == vals[i + 1..] && widths[i..][1..] == widths[i + 1..];
  }

  /** Write the values one after the other into a fresh buffer. */
  method WriteValues(vals: seq<byte>, widths: seq<nat>) returns (bytes: seq<byte>)
    requires |vals| == |widths| && TotalWidth(widths) % 8 == 0
    ensures ToBits(bytes) == WriteAll(vals, widths)
  {
    hide ToBits, BitsOf, LowBits, Pow2, WriteAll, TotalWidth;
    var count, i := 0, 0;
    assert widths[0..] == widths && vals[0..] == vals;
    while i < |widths|
      invariant i <= |widths| && count + TotalWidth(widths[i..]) == TotalWidth(widths)
    {
      WriteAllNext(vals, widths, i);
      count := count + widths[i];
      i := i + 1;
    }
    NothingWritten(vals[|vals|..], widths[|vals|..]);
    var buffer := new byte[count / 8];
    var writer := new BitWriter();
    writer.Reconfigure(buffer, buffer.Length);
    for k := 0 to |vals|
      invariant writer.Valid() && writer.bytes == buffer && fresh(buffer) && fresh(writer)
      invariant 8 * writer.byteIndex + writer.currentByteLen + TotalWidth(widths[k..]) == count
      invariant writer.Contents() + WriteAll(vals[k..], widths[k..]) == WriteAll(vals, widths)
    {
      WriteAllNext(vals, widths, k);
      ghost var before := writer.Contents();
      writer.Write(vals[k], widths[k]);
      assert before + (LowBits(vals[k], widths[k]) + WriteAll(vals[k + 1..], widths[k + 1..]))
          == writer.Contents() + WriteAll(vals[k + 1..], widths[k + 1..]);
    }
    writer.AtByte();
    bytes := buffer[..];
  }

  lemma NothingWritten(vals: seq<byte>, widths: seq<nat>)
    requires vals == [] && widths == []
    ensures WriteAll(vals, widths) == [] && TotalWidth(widths) == 0
  {
  }

  /** Reads of the same widths return what was written, cut to the width. */
  method WriteThenRead(vals: seq<byte>, widths: seq<nat>) returns (read: seq<byte>)
    requires |vals| == |widths| && TotalWidth(widths) % 8 == 0 && TotalWidth(widths) > 0
    requires forall i :: 0 <= i < |widths| ==> widths[i] <= 8
    ensures |read| == |vals| && forall i :: 0 <= i < |vals| ==> read[i] == Low(vals[i], widths[i])
  {
    hide ToBits, BitsOf, LowBits, Pow2, WriteAll, TotalWidth, Low;
    var bytes := WriteValues(vals, widths);
    WriteAllLength(vals, widths);
    NoBytes();
    var reader := new BitReader(bytes, |bytes|);
    read := [];
    assert widths[0..] == widths && vals[0..] == vals;
    for i := 0 to |widths|
      invariant reader.Valid() && fresh(reader) && |read| == i
      invariant reader.Remaining() == WriteAll(vals[i..], widths[i..])
      invariant forall k :: 0 <= k < i ==> read[k] == Low(vals[k], widths[k])
    {
      WriteAllNext(vals, widths, i);
      var val := reader.Read(widths[i]);
      LowBitsInjective(vals[i], val, widths[i]);
      read := read + [val];
    }
  }

  lemma NoBytes()
    ensures ToBits([]) == []
  {
  }
}
