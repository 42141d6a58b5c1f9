/** Bytes as integers and the bitwise exclusive or on natural numbers of any width. */
module Bits {

  type bit = x: int | 0 <= x < 2

  type byte = x: int | 0 <= x < 256

  type uint16 = x: int | 0 <= x < 0x10000

  /** Two bytes, the high one first, as a number. */
  function Word(hi: byte, lo: byte): uint16 {
    hi as int * 256 + lo as int
  }

  /** Sixteen-bit arithmetic wraps around. */
  function AddWord(a: uint16, b: uint16): uint16 {
    (a as int + b as int) % 0x10000
  }

  function SubWord(a: uint16, b: uint16): uint16 {
    (a as int - b as int) % 0x10000
  }

  /** The remainder is the only one. */
  lemma ModUnique(a: int, m: int, x: int, v: int)
    requires m > 0 && a == m * x + v && 0 <= v < m
    ensures a % m == v && a / m == x
  {
    var d := a / m - x;
    assert m * d == m * (a / m) - m * x;
    assert m * d < m && m * d > -m;
    assert d < 1;
    assert d > -1;
  }

  /** Bitwise exclusive or, least significant bit first. */
  function Xor(a: nat, b: nat): nat {
    if a == 0 && b == 0 then 0 else (a % 2 + b % 2) % 2 + 2 * Xor(a / 2, b / 2)
  }

  lemma {:induction false} XorComm(a: nat, b: nat)
    ensures Xor(a, b) == Xor(b, a)
  {
    if a != 0 || b != 0 {
      XorComm(a / 2, b / 2);
    }
  }

  lemma {:induction false} XorZero(a: nat)
    ensures Xor(a, 0) == a == Xor(0, a)
  {
    if a != 0 {
      XorZero(a / 2);
    }
  }

  lemma {:induction false} XorSelf(a: nat)
    ensures Xor(a, a) == 0
  {
    if a != 0 {
      XorSelf(a / 2);
    }
  }

  lemma XorParity(a: nat, b: nat)
    ensures Xor(a, b) % 2 == (a % 2 + b % 2) % 2
    ensures Xor(a, b) / 2 == Xor(a / 2, b / 2)
  {
  }

  lemma {:induction false} XorAssoc(a: nat, b: nat, c: nat)
    ensures Xor(Xor(a, b), c) == Xor(a, Xor(b, c))
    decreases a + b + c
  {
    hide Xor;
    if a == 0 && b == 0 && c == 0 {
      XorZero(0);
    } else {
      XorAssoc(a / 2, b / 2, c / 2);
      XorParity(a, b);
      XorParity(b, c);
      XorParity(Xor(a, b), c);
      XorParity(a, Xor(b, c));
    }
  }

  /** A sum of numbers of k bits has k bits. */
  lemma {:induction false} XorBound(a: nat, b: nat, k: nat)
    requires a < Pow2(k) && b < Pow2(k)
    ensures Xor(a, b) < Pow2(k)
  {
    if k != 0 {
      XorParity(a, b);
      XorBound(a / 2, b / 2, k - 1);
    } else {
      XorZero(0);
    }
  }

  function Pow2(k: nat): nat
    ensures Pow2(k) > 0
  {
    if k == 0 then 1 else 2 * Pow2(k - 1)
  }

  lemma Pow2Byte()
    ensures Pow2(7) == 128 && Pow2(8) == 256
  {
    assert Pow2(4) == 16;
  }

  /** The top bits of two numbers of k + 1 bits cancel. */
  lemma {:induction false} XorTopBits(a: nat, b: nat, k: nat)
    requires Pow2(k) <= a < Pow2(k + 1) && Pow2(k) <= b < Pow2(k + 1)
    ensures Xor(a, b) < Pow2(k)
  {
    XorParity(a, b);
    if k == 0 {
      assert a / 2 == 0 && b / 2 == 0;
    } else {
      XorTopBits(a / 2, b / 2, k - 1);
    }
  }

  /** A sum has its top bit set exactly when one of the two terms has. */
  lemma XorTopBit(a: nat, b: nat, k: nat)
    requires a < Pow2(k + 1) && b < Pow2(k + 1)
    ensures Xor(a, b) >= Pow2(k) <==> (a >= Pow2(k)) != (b >= Pow2(k))
  {
    hide Xor;
    if a >= Pow2(k) && b >= Pow2(k) {
      XorTopBits(a, b, k);
    } else if a < Pow2(k) && b < Pow2(k) {
      XorBound(a, b, k);
    } else {
      XorAssoc(a, b, b);
      XorSelf(b);
      XorZero(a);
      XorComm(a, b);
      XorAssoc(b, a, a);
      XorSelf(a);
      XorZero(b);
      if Xor(a, b) < Pow2(k) {
        if a < Pow2(k) {
          XorBound(Xor(a, b), a, k);
        } else {
          XorBound(Xor(a, b), b, k);
        }
      }
    }
  }

  /** A bit above all the bits of a number is added without carry. */
  lemma {:induction false} XorAddBit(r: nat, k: nat)
    requires r < Pow2(k)
    ensures Xor(r, Pow2(k)) == r + Pow2(k)
  {
    XorParity(r, Pow2(k));
    if k == 0 {
      XorZero(0);
    } else {
      XorAddBit(r / 2, k - 1);
    }
  }

  /** m with k zero bits appended. */
  function Shift(m: nat, k: nat): nat {
    if k == 0 then m else 2 * Shift(m, k - 1)
  }

  /** A bit and a number whose bits all lie above it add without carry. */
  lemma {:induction false} XorDisjoint(k: nat, m: nat)
    ensures Xor(Pow2(k), Shift(m, k + 1)) == Pow2(k) + Shift(m, k + 1)
  {
    XorParity(Pow2(k), Shift(m, k + 1));
    if k == 0 {
      XorZero(m);
    } else {
      XorDisjoint(k - 1, m);
    }
    hide Xor;
  }

  /** The exclusive or of two bytes. */
  function Add(a: byte, b: byte): (c: byte) {
    Pow2Byte();
    XorBound(a, b, 8);
    Xor(a, b)
  }

  lemma AddComm(a: byte, b: byte)
    ensures Add(a, b) == Add(b, a)
  {
    XorComm(a, b);
  }

  lemma AddAssoc(a: byte, b: byte, c: byte)
    ensures Add(Add(a, b), c) == Add(a, Add(b, c))
  {
    XorAssoc(a, b, c);
  }

  lemma AddZero(a: byte)
    ensures Add(a, 0) == a == Add(0, a)
  {
    XorZero(a);
  }

  lemma AddSelf(a: byte)
    ensures Add(a, a) == 0
  {
    XorSelf(a);
  }

  /** The middle terms of a sum of four change places. */
  lemma AddSwap(a: byte, b: byte, c: byte, d: byte)
    ensures Add(Add(a, b), Add(c, d)) == Add(Add(a, c), Add(b, d))
  {
    hide Add;
    AddAssoc(a, b, Add(c, d));
    AddAssoc(b, c, d);
    AddComm(b, c);
    AddAssoc(c, b, d);
    AddAssoc(a, c, Add(b, d));
  }

  /** Equal sums with one equal term have their other terms equal. */
  lemma AddCancel(a: byte, b: byte, c: byte)
    requires Add(a, b) == Add(a, c)
    ensures b == c
  {
    hide Add;
    AddAssoc(a, a, b);
    AddAssoc(a, a, c);
    AddSelf(a);
    AddZero(b);
    AddZero(c);
  }

  lemma AddEqualZero(a: byte, b: byte)
    ensures Add(a, b) == 0 <==> a == b
  {
    hide Add;
    AddSelf(a);
    if Add(a, b) == 0 {
      AddCancel(a, b, a);
    }
  }

  /** The laws of addition, for sums too long to rearrange by hand. */
  lemma AddLaws()
    ensures forall a: byte, b: byte :: Add(a, b) == Add(b, a)
    ensures forall a: byte, b: byte, c: byte :: Add(Add(a, b), c) == Add(a, Add(b, c))
    ensures forall a: byte, b: byte :: Add(a, Add(a, b)) == b
  {
    hide Add;
    forall a: byte, b: byte ensures Add(a, b) == Add(b, a) {
      AddComm(a, b);
    }
    forall a: byte, b: byte, c: byte ensures Add(Add(a, b), c) == Add(a, Add(b, c)) {
      AddAssoc(a, b, c);
    }
    forall a: byte, b: byte ensures Add(a, Add(a, b)) == b {
      AddAssoc(a, a, b);
      AddSelf(a);
      AddZero(b);
    }
  }
}
