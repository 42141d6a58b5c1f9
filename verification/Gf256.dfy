/** The field GF(2^8) with the polynomial x^8 + x^7 + x^2 + x + 1 (0x187), defined without tables:
    addition is exclusive or, multiplication is the schoolbook shift-and-add product. */
module Gf256 {
  import opened Bits

  const FIELD_POLYNOMIAL: nat := 0x187

  /** Multiplication by alpha = x, reduced by the field polynomial. */
  function Xtime(a: byte): byte {
    XtimeBound(a);
    if 2 * a > 255 then Xor(2 * a, FIELD_POLYNOMIAL) else 2 * a
  }

  /** Multiplying the highest power by alpha reduces by x^8 + x^7 + x^2 + x + 1. */
  lemma Reduction()
    ensures Xtime(128) == 0x87 && forall a: byte :: a < 128 ==> Xtime(a) == 2 * a
  {
  }

  function Select(bit: bool, a: nat): nat {
    if bit then a else 0
  }

  /** The reference product: the sum of alpha^i * a over the set bits i of b. */
  function Mul(a: byte, b: byte): byte
    decreases b
  {
    if b == 0 then 0 else Add(Select(b % 2 == 1, a), Mul(Xtime(a), b / 2))
  }

  /** alpha^i */
  function Exp(i: nat): byte {
    if i == 0 then 1 else Xtime(Exp(i - 1))
  }

  /** alpha^i * a */
  function XtimeN(i: nat, a: byte): byte {
    if i == 0 then a else Xtime(XtimeN(i - 1, a))
  }

  // ----- linearity

  lemma XtimeBound(a: byte)
    ensures 2 * a > 255 ==> Xor(2 * a, FIELD_POLYNOMIAL) < 256
  {
    if 2 * a > 255 {
      Pow2Byte();
      XorTopBits(2 * a, FIELD_POLYNOMIAL, 8);
    }
  }

  lemma SelectAdd(s: bool, t: bool, a: nat)
    ensures Xor(Select(s, a), Select(t, a)) == Select(s != t, a)
  {
    XorZero(a);
    XorZero(0);
    XorSelf(a);
    hide Xor;
  }

  lemma AddSelect(s: bool, a: byte, b: byte)
    ensures Select(s, Add(a, b)) == Add(Select(s, a), Select(s, b))
  {
    AddZero(0);
    hide Add;
  }

  lemma XorSwap(a: nat, b: nat, c: nat, d: nat)
    ensures Xor(Xor(a, b), Xor(c, d)) == Xor(Xor(a, c), Xor(b, d))
  {
    hide Xor;
    XorAssoc(a, b, Xor(c, d));
    XorAssoc(b, c, d);
    XorComm(b, c);
    XorAssoc(c, b, d);
    XorAssoc(a, c, Xor(b, d));
  }

  lemma XtimeSelect(a: byte)
    ensures Xtime(a) == Xor(2 * a, Select(a >= 128, FIELD_POLYNOMIAL))
  {
    XorZero(2 * a);
  }

  lemma AddIsXor(a: byte, b: byte)
    ensures Add(a, b) == Xor(a, b)
  {
  }

  lemma XtimeAdd(a: byte, b: byte)
    ensures Xtime(Add(a, b)) == Add(Xtime(a), Xtime(b))
  {
    hide Xor, Xtime, Add, Select;
    var p := FIELD_POLYNOMIAL;
    XtimeSelect(a);
    XtimeSelect(b);
    XtimeSelect(Add(a, b));
    XorParity(2 * a, 2 * b);
    Pow2Byte();
    XorTopBit(a, b, 7);
    SelectAdd(a >= 128, b >= 128, p);
    AddIsXor(a, b);
    AddIsXor(Xtime(a), Xtime(b));
    XorSwap(2 * a, Select(a >= 128, p), 2 * b, Select(b >= 128, p));
    var e := Select(Add(a, b) >= 128, p);
    assert 2 * Xor(a, b) == Xor(2 * a, 2 * b);
  }

  lemma SelectXtime(s: bool, a: byte)
    ensures Select(s, Xtime(a)) == Xtime(Select(s, a))
  {
    hide Xor;
  }

  lemma MulZero(a: byte)
    ensures Mul(a, 0) == 0
  {
  }

  lemma MulStep(a: byte, b: byte)
    ensures Mul(a, b) == Add(Select(b % 2 == 1, a), Mul(Xtime(a), b / 2))
  {
    AddZero(0);
    MulZero(Xtime(a));
    hide Xtime, Add;
  }

  lemma MulOne(a: byte)
    ensures Mul(a, 1) == a
  {
    MulStep(a, 1);
    MulZero(Xtime(a));
    AddZero(a);
  }

  /** A power of two times b is a shift as long as nothing overflows. */
  lemma {:induction false} PowerMul(k: nat, b: byte)
    requires Pow2(k) < 256 && Shift(b, k) < 256
    ensures Mul(Pow2(k), b) == Shift(b, k)
    decreases b
  {
    hide Mul, Add, Xor;
    if b == 0 {
      MulZero(Pow2(k));
      ShiftZero(k);
    } else {
      MulStep(Pow2(k), b);
      ShiftHalf(b, k);
      if b / 2 == 0 {
        MulZero(Xtime(Pow2(k)));
        AddZero(Pow2(k));
        ShiftOne(k);
      } else {
        ShiftLeast(b / 2, k + 1);
        PowerMul(k + 1, b / 2);
        if b % 2 == 1 {
          AddDisjoint(k, b / 2);
        } else {
          AddZero(Shift(b / 2, k + 1));
        }
      }
    }
  }

  lemma AddDisjoint(k: nat, m: nat)
    requires Pow2(k) + Shift(m, k + 1) < 256
    ensures Add(Pow2(k), Shift(m, k + 1)) == Pow2(k) + Shift(m, k + 1)
  {
    XorDisjoint(k, m);
    hide Xor;
  }

  lemma {:induction false} ShiftZero(k: nat)
    ensures Shift(0, k) == 0
  {
    if k != 0 {
      ShiftZero(k - 1);
    }
  }

  lemma {:induction false} ShiftOne(k: nat)
    ensures Shift(1, k) == Pow2(k)
  {
    if k != 0 {
      ShiftOne(k - 1);
    }
  }

  lemma {:induction false} ShiftLeast(m: nat, k: nat)
    requires m > 0
    ensures Shift(m, k) >= Pow2(k)
  {
    if k != 0 {
      ShiftLeast(m, k - 1);
    }
  }

  lemma {:induction false} ShiftHalf(b: nat, k: nat)
    ensures Shift(b, k) == Select(b % 2 == 1, Pow2(k)) + Shift(b / 2, k + 1)
  {
    if k != 0 {
      ShiftHalf(b, k - 1);
    }
  }

  lemma OneMul(b: byte)
    ensures Mul(1, b) == b
  {
    PowerMul(0, b);
    hide Mul;
  }

  lemma {:induction false} AddMul(a: byte, c: byte, b: byte)
    ensures Mul(Add(a, c), b) == Add(Mul(a, b), Mul(c, b))
    decreases b
  {
    hide Mul, Xtime, Add;
    if b == 0 {
      MulZero(a);
      MulZero(c);
      MulZero(Add(a, c));
      AddZero(0);
    } else {
      MulStep(Add(a, c), b);
      MulStep(a, b);
      MulStep(c, b);
      AddMul(Xtime(a), Xtime(c), b / 2);
      XtimeAdd(a, c);
      AddSelect(b % 2 == 1, a, c);
      AddSwap(Select(b % 2 == 1, a), Select(b % 2 == 1, c), Mul(Xtime(a), b / 2), Mul(Xtime(c), b / 2));
    }
  }

  lemma {:induction false} XtimeMul(a: byte, b: byte)
    ensures Mul(Xtime(a), b) == Xtime(Mul(a, b))
    decreases b
  {
    if b == 0 {
      MulZero(a);
      MulZero(Xtime(a));
    } else {
      MulStep(a, b);
      MulStep(Xtime(a), b);
      XtimeMul(Xtime(a), b / 2);
      SelectXtime(b % 2 == 1, a);
      XtimeAdd(Select(b % 2 == 1, a), Mul(Xtime(a), b / 2));
    }
    hide Mul, Xor, Add;
  }

  // ----- powers of alpha

  lemma {:induction false} ExpMul(i: nat, b: byte)
    ensures Mul(Exp(i), b) == XtimeN(i, b)
  {
    hide Mul, Xtime;
    if i == 0 {
      OneMul(b);
    } else {
      ExpMul(i - 1, b);
      XtimeMul(Exp(i - 1), b);
    }
  }

  lemma {:induction false} XtimeNExp(i: nat, j: nat)
    ensures XtimeN(i, Exp(j)) == Exp(i + j)
  {
    hide Xtime;
    if i != 0 {
      XtimeNExp(i - 1, j);
    }
  }

  /** Exponents add under multiplication. */
  lemma ExpAdd(i: nat, j: nat)
    ensures Mul(Exp(i), Exp(j)) == Exp(i + j)
  {
    ExpMul(i, Exp(j));
    XtimeNExp(i, j);
    hide Mul, Xtime;
  }


  // ----- the order of alpha

  /** Xtime without exclusive or: adding 0x187 drops bit 8 and flips bits 7, 2, 1 and 0. */
  function Double(a: int): int {
    if a < 128 then 2 * a else 2 * a + 7 - 4 * (a % 4) - (if a < 192 then 128 else 384)
  }

  lemma XtimeDouble(a: byte)
    ensures Xtime(a) == Double(a)
  {
    hide Xor;
    if a >= 128 {
      XorOdd(2 * a, 0x187);
      XorOdd(a, 0xC3);
      XorOdd(a / 2, 0x61);
      XorFlip(a / 4);
    }
  }

  lemma XorOdd(a: nat, b: nat)
    requires b % 2 == 1
    ensures Xor(a, b) == 1 - a % 2 + 2 * Xor(a / 2, b / 2)
  {
    hide Xor;
    XorParity(a, b);
  }

  lemma XorFlip(m: nat)
    requires 32 <= m < 64
    ensures Xor(m, 0x30) == if m < 48 then m - 16 else m - 48
  {
    hide Xor;
    assert Pow2(4) == 16 && Pow2(5) == 32;
    var r := m - 32;
    XorAddBit(r, 5);
    XorAddBit(16, 5);
    XorComm(16, 32);
    XorAssoc(m, 32, 16);
    XorAssoc(r, 32, 32);
    XorSelf(32);
    XorZero(r);
    assert Xor(m, 48) == Xor(r, 16);
    if r < 16 {
      XorAddBit(r, 4);
    } else {
      XorAddBit(r - 16, 4);
      XorAssoc(r - 16, 16, 16);
      XorSelf(16);
      XorZero(r - 16);
    }
  }

  lemma Step1(i: nat, a: int, b: int)
    requires Exp(i) == a != 1 && Double(a) == b
    ensures Exp(i + 1) == b && Exp(i) != 1
  {
    hide Xtime, Double;
    XtimeDouble(a);
  }

  /** Eight rows of the table of powers. */
  lemma Step8(i: nat, a: int, b: int, c: int, d: int, e: int, f: int, g: int, h: int, k: int)
    requires Exp(i) == a && 1 !in {a, b, c, d, e, f, g, h}
    requires Double(a) == b && Double(b) == c && Double(c) == d && Double(d) == e
    requires Double(e) == f && Double(f) == g && Double(g) == h && Double(h) == k
    ensures Exp(i + 8) == k && forall j | i <= j < i + 8 :: Exp(j) != 1
  {
    hide Exp, Double;
    Step1(i, a, b);
    Step1(i + 1, b, c);
    Step1(i + 2, c, d);
    Step1(i + 3, d, e);
    Step1(i + 4, e, f);
    Step1(i + 5, f, g);
    Step1(i + 6, g, h);
    Step1(i + 7, h, k);
  }

  lemma PowersOfAlpha0()
    requires Exp(1) == 2
    ensures Exp(65) == 43
    ensures forall d | 1 <= d < 65 :: Exp(d) != 1
  {
    hide Exp, Xtime;
    Step8(1, 2, 4, 8, 16, 32, 64, 128, 135, 137);
    Step8(9, 137, 149, 173, 221, 61, 122, 244, 111, 222);
    Step8(17, 222, 59, 118, 236, 95, 190, 251, 113, 226);
    Step8(25, 226, 67, 134, 139, 145, 165, 205, 29, 58);
    Step8(33, 58, 116, 232, 87, 174, 219, 49, 98, 196);
    Step8(41, 196, 15, 30, 60, 120, 240, 103, 206, 27);
    Step8(49, 27, 54, 108, 216, 55, 110, 220, 63, 126);
    Step8(57, 126, 252, 127, 254, 123, 246, 107, 214, 43);
  }

  lemma PowersOfAlpha1()
    requires Exp(65) == 43
    ensures Exp(129) == 104
    ensures forall d | 65 <= d < 129 :: Exp(d) != 1
  {
    hide Exp, Xtime;
    Step8(65, 43, 86, 172, 223, 57, 114, 228, 79, 158);
    Step8(73, 158, 187, 241, 101, 202, 19, 38, 76, 152);
    Step8(81, 152, 183, 233, 85, 170, 211, 33, 66, 132);
    Step8(89, 132, 143, 153, 181, 237, 93, 186, 243, 97);
    Step8(97, 97, 194, 3, 6, 12, 24, 48, 96, 192);
    Step8(105, 192, 7, 14, 28, 56, 112, 224, 71, 142);
    Step8(113, 142, 155, 177, 229, 77, 154, 179, 225, 69);
    Step8(121, 69, 138, 147, 161, 197, 13, 26, 52, 104);
  }

  lemma PowersOfAlpha2()
    requires Exp(129) == 104
    ensures Exp(193) == 231
    ensures forall d | 129 <= d < 193 :: Exp(d) != 1
  {
    hide Exp, Xtime;
    Step8(129, 104, 208, 39, 78, 156, 191, 249, 117, 234);
    Step8(137, 234, 83, 166, 203, 17, 34, 68, 136, 151);
    Step8(145, 151, 169, 213, 45, 90, 180, 239, 89, 178);
    Step8(153, 178, 227, 65, 130, 131, 129, 133, 141, 157);
    Step8(161, 157, 189, 253, 125, 250, 115, 230, 75, 150);
    Step8(169, 150, 171, 209, 37, 74, 148, 175, 217, 53);
    Step8(177, 53, 106, 212, 47, 94, 188, 255, 121, 242);
    Step8(185, 242, 99, 198, 11, 22, 44, 88, 176, 231);
  }

  lemma PowersOfAlpha3()
    requires Exp(193) == 231
    ensures Exp(255) == 1
    ensures forall d | 193 <= d < 255 :: Exp(d) != 1
  {
    hide Exp, Xtime;
    Step8(193, 231, 73, 146, 163, 193, 5, 10, 20, 40);
    Step8(201, 40, 80, 160, 199, 9, 18, 36, 72, 144);
    Step8(209, 144, 167, 201, 21, 42, 84, 168, 215, 41);
    Step8(217, 41, 82, 164, 207, 25, 50, 100, 200, 23);
    Step8(225, 23, 46, 92, 184, 247, 105, 210, 35, 70);
    Step8(233, 70, 140, 159, 185, 245, 109, 218, 51, 102);
    Step8(241, 102, 204, 31, 62, 124, 248, 119, 238, 91);
    Step1(249, 91, 182);
    Step1(250, 182, 235);
    Step1(251, 235, 81);
    Step1(252, 81, 162);
    Step1(253, 162, 195);
    Step1(254, 195, 1);
  }

  /** alpha is primitive: its powers return to 1 after 255 steps and not before. */
  lemma AlphaOrder()
    ensures Exp(255) == 1
    ensures forall d | 1 <= d < 255 :: Exp(d) != 1
  {
    assert Exp(1) == 2;
    hide Exp;
    PowersOfAlpha0();
    PowersOfAlpha1();
    PowersOfAlpha2();
    PowersOfAlpha3();
  }

  // ----- the multiplicative group

  /** Powers of alpha up to 255 are nonzero. */
  lemma ExpNonzero(i: nat)
    requires i <= 255
    ensures Exp(i) != 0
  {
    hide Exp, Mul;
    AlphaOrder();
    ExpAdd(i, 255 - i);
    ZeroMul(Exp(255 - i));
  }

  lemma {:induction false} ZeroMul(b: byte)
    ensures Mul(0, b) == 0
    decreases b
  {
    hide Add;
    if b != 0 {
      ZeroMul(b / 2);
      AddZero(0);
    }
  }

  lemma ExpPeriod(i: nat)
    ensures Exp(i + 255) == Exp(i)
  {
    hide Exp, Mul;
    AlphaOrder();
    ExpAdd(i, 255);
    MulOne(Exp(i));
  }

  lemma ExpInjective(i: nat, j: nat)
    requires 1 <= i < j <= 255
    ensures Exp(i) != Exp(j)
  {
    hide Exp, Mul;
    AlphaOrder();
    if Exp(i) == Exp(j) {
      ExpAdd(255 - i, i);
      ExpAdd(255 - i, j);
      ExpPeriod(j - i);
    }
  }

  ghost function AlphaPowers(n: nat): set<int> {
    set i: nat | 1 <= i <= n :: Exp(i)
  }

  lemma {:induction false} AlphaPowersCount(n: nat)
    requires n <= 255
    ensures |AlphaPowers(n)| == n
  {
    hide Exp;
    if n != 0 {
      AlphaPowersCount(n - 1);
      assert AlphaPowers(n) == AlphaPowers(n - 1) + {Exp(n)};
      forall i | 1 <= i < n ensures Exp(i) != Exp(n) {
        ExpInjective(i, n);
      }
    }
  }

  ghost function UpTo(n: nat): (s: set<int>)
    ensures |s| == n && forall x :: x in s <==> 1 <= x <= n
  {
    if n == 0 then {} else UpTo(n - 1) + {n}
  }

  lemma SubsetEqual<T>(s: set<T>, t: set<T>)
    requires s <= t && |s| == |t|
    ensures s == t
  {
    if x :| x in t && x !in s {
      assert s <= t - {x};
      SubsetSmaller(s, t - {x});
    }
  }

  lemma {:induction false} SubsetSmaller<T>(s: set<T>, t: set<T>)
    requires s <= t
    ensures |s| <= |t|
    decreases |s|
  {
    if x :| x in s {
      SubsetSmaller(s - {x}, t - {x});
    }
  }

  /** Every nonzero element is a power of alpha. */
  lemma PowersCover(a: byte)
    requires a != 0
    ensures exists i: nat {:trigger Exp(i)} :: 1 <= i <= 255 && Exp(i) == a
  {
    hide Exp;
    AlphaPowersCount(255);
    forall i | 1 <= i <= 255 ensures Exp(i) in UpTo(255) {
      ExpNonzero(i);
    }
    assert AlphaPowers(255) <= UpTo(255);
    SubsetEqual(AlphaPowers(255), UpTo(255));
    assert a in UpTo(255);
  }

  /** The discrete logarithm in 1 .. 255, so that the logarithm of 1 is 255. */
  ghost function Log(a: byte): (i: nat)
    requires a != 0
    ensures 1 <= i <= 255 && Exp(i) == a
  {
    PowersCover(a);
    var i: nat :| 1 <= i <= 255 && Exp(i) == a;
    i
  }

  lemma LogExp(i: nat)
    requires 1 <= i <= 255
    ensures Exp(i) != 0 && Log(Exp(i)) == i
  {
    hide Exp;
    ExpNonzero(i);
    var k := Log(Exp(i));
    if k < i {
      ExpInjective(k, i);
    } else if i < k {
      ExpInjective(i, k);
    }
  }

  // ----- the field laws

  lemma MulComm(a: byte, b: byte)
    ensures Mul(a, b) == Mul(b, a)
  {
    hide Mul, Exp, Log;
    if a == 0 || b == 0 {
      MulZero(a);
      MulZero(b);
      ZeroMul(a);
      ZeroMul(b);
    } else {
      ExpAdd(Log(a), Log(b));
      ExpAdd(Log(b), Log(a));
    }
  }

  lemma MulAssoc(a: byte, b: byte, c: byte)
    ensures Mul(Mul(a, b), c) == Mul(a, Mul(b, c))
  {
    hide Mul, Exp, Log;
    if a == 0 || b == 0 || c == 0 {
      MulZero(a);
      MulZero(b);
      MulZero(Mul(a, b));
      ZeroMul(c);
      ZeroMul(b);
      ZeroMul(Mul(b, c));
    } else {
      ExpAdd(Log(a), Log(b));
      ExpAdd(Log(b), Log(c));
      ExpAdd(Log(a) + Log(b), Log(c));
      ExpAdd(Log(a), Log(b) + Log(c));
    }
  }

  lemma MulAdd(a: byte, b: byte, c: byte)
    ensures Mul(a, Add(b, c)) == Add(Mul(a, b), Mul(a, c))
  {
    hide Mul, Add;
    AddMul(b, c, a);
    MulComm(a, b);
    MulComm(a, c);
    MulComm(a, Add(b, c));
  }

  /** The multiplicative inverse; the inverse of 0 is 0. */
  ghost function Inv(a: byte): byte {
    if a == 0 then 0 else Exp(255 - Log(a))
  }

  lemma MulInv(a: byte)
    requires a != 0
    ensures Mul(a, Inv(a)) == 1 && Inv(a) != 0
  {
    hide Exp, Mul, Log;
    ExpAdd(Log(a), 255 - Log(a));
    AlphaOrder();
    ExpNonzero(255 - Log(a));
  }

  /** There are no zero divisors. */
  lemma MulNonzero(a: byte, b: byte)
    ensures Mul(a, b) == 0 <==> a == 0 || b == 0
  {
    hide Mul, Inv;
    MulZero(a);
    ZeroMul(b);
    if Mul(a, b) == 0 && a != 0 {
      MulInv(a);
      MulComm(a, b);
      MulAssoc(b, a, Inv(a));
      MulOne(b);
      ZeroMul(Inv(a));
    }
  }

  lemma MulCancel(a: byte, b: byte, c: byte)
    requires a != 0 && Mul(a, b) == Mul(a, c)
    ensures b == c
  {
    hide Mul, Add;
    MulAdd(a, b, c);
    AddSelf(Mul(a, b));
    MulNonzero(a, Add(b, c));
    AddEqualZero(b, c);
  }

  /** An element added up n times: in characteristic 2 the parity of n decides. */
  function FieldSum(elem: byte, n: nat): byte {
    if n % 2 != 0 then elem else 0
  }
}
