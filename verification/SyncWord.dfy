/** The sync word against itself: shifted by up to sixteen symbols, turned or not, it differs in many bits. */
module SyncWord {
  import opened Bits
  import opened Framing

  // ----- the symbols

  /** Symbol i of the sync word. */
  function SyncSymbol(i: nat): symbol {
    if i < 16 then
      if i < 8 then
        if i < 4 then
          if i < 2 then (if i < 1 then 0 else 3) else (if i < 3 then 1 else 0)
        else
          if i < 6 then (if i < 5 then 0 else 1) else (if i < 7 then 3 else 0)
      else
        if i < 12 then
          if i < 10 then (if i < 9 then 3 else 0) else (if i < 11 then 1 else 1)
        else
          if i < 14 then (if i < 13 then 1 else 0) else (if i < 15 then 0 else 0)
    else
      if i < 24 then
        if i < 20 then
          if i < 18 then (if i < 17 then 2 else 0) else (if i < 19 then 0 else 1)
        else
          if i < 22 then (if i < 21 then 2 else 1) else (if i < 23 then 3 else 1)
      else
        if i < 28 then
          if i < 26 then (if i < 25 then 2 else 0) else (if i < 27 then 2 else 1)
        else
          if i < 30 then (if i < 29 then 1 else 2) else (if i < 31 then 0 else 3)
  }

  function SyncSymbols(n: nat): (s: seq<symbol>)
    requires n <= SYNC_SYMS
    ensures |s| == n
  {
    seq(n, i requires 0 <= i < n => SyncSymbol(i))
  }

  /** The symbols of a byte join those of the bytes above. */
  lemma SyncByte(w: nat, b: byte, k: nat)
    requires k <= 28 && Symbols(w, k) == SyncSymbols(k)
    requires Symbols(b, 4) == [SyncSymbol(k), SyncSymbol(k + 1), SyncSymbol(k + 2), SyncSymbol(k + 3)]
    ensures Symbols(256 * w + b, k + 4) == SyncSymbols(k + 4)
  {
    hide SyncSymbol, Symbols;
    FourSymbols(w, b, k);
    assert SyncSymbols(k + 4) == SyncSymbols(k) + Symbols(b, 4);
  }

  lemma FourSymbols(w: nat, b: byte, n: nat)
    ensures Symbols(256 * w + b, n + 4) == Symbols(w, n) + Symbols(b, 4)
  {
    var v := 256 * w + b;
    ByteParts(w, b);
    OneSymbol(v, n + 3);
    OneSymbol(64 * w + b / 4, n + 2);
    OneSymbol(16 * w + b / 4 / 4, n + 1);
    OneSymbol(4 * w + b / 4 / 4 / 4, n);
    ByteSymbols(b);
    hide Symbols;
  }

  lemma ByteParts(w: nat, b: byte)
    ensures var v := 256 * w + b; v / 4 == 64 * w + b / 4 && v % 4 == b % 4
    ensures var v := 64 * w + b / 4; v / 4 == 16 * w + b / 4 / 4 && v % 4 == b / 4 % 4
    ensures var v := 16 * w + b / 4 / 4; v / 4 == 4 * w + b / 4 / 4 / 4 && v % 4 == b / 4 / 4 % 4
    ensures var v := 4 * w + b / 4 / 4 / 4; v / 4 == w && v % 4 == b / 4 / 4 / 4 % 4
  {
  }

  lemma OneSymbol(w: nat, n: nat)
    ensures Symbols(w, n + 1) == Symbols(w / 4, n) + [w % 4]
    ensures Symbols(w, 0) == []
  {
  }

  lemma ByteSymbols(b: byte)
    ensures Symbols(b, 4) == [b / 4 / 4 / 4 % 4, b / 4 / 4 % 4, b / 4 % 4, b % 4]
  {
    OneSymbol(b, 3);
    OneSymbol(b / 4, 2);
    OneSymbol(b / 4 / 4, 1);
    OneSymbol(b / 4 / 4 / 4, 0);
    hide Symbols;
  }

  lemma SyncWordSymbols()
    ensures Symbols(SYNC_WORD, SYNC_SYMS) == SyncSymbols(SYNC_SYMS)
  {
    hide Symbols;
    OneSymbol(0, 0);
    ByteSymbols(0x34);
    ByteSymbols(0x1c);
    ByteSymbols(0xc5);
    ByteSymbols(0x40);
    ByteSymbols(0x81);
    ByteSymbols(0x9d);
    ByteSymbols(0x89);
    ByteSymbols(0x63);
    SyncByte(0, 0x34, 0);
    SyncByte(0x34, 0x1c, 4);
    SyncByte(0x341c, 0xc5, 8);
    SyncByte(0x341cc5, 0x40, 12);
    SyncByte(0x341cc540, 0x81, 16);
    SyncByte(0x341cc54081, 0x9d, 20);
    SyncByte(0x341cc540819d, 0x89, 24);
    SyncByte(0x341cc540819d89, 0x63, 28);
  }

  // ----- its autocorrelation

  /** The number of bits in which two symbols differ. */
  function Apart(a: symbol, b: symbol): nat {
    if a == b then 0 else if a + b == 3 then 2 else 1
  }

  lemma ApartDistance(a: symbol, b: symbol)
    ensures SymbolDistance(a, b) == Apart(a, b)
  {
  }

  /** The bits in which symbol j of the sync word, turned by r quarters, differs from symbol i. */
  function ApartAt(r: bit, j: nat, i: nat): nat {
    Apart(if r == 0 then SyncSymbol(j) else Quarter(SyncSymbol(j)), SyncSymbol(i))
  }

  /** The bits in which symbols i to i + n of the sync word differ from those m later, turned by r quarters. */
  function LagErrors(m: nat, r: bit, i: nat, n: nat): nat {
    if n == 0 then 0 else LagErrors(m, r, i, n - 1) + ApartAt(r, m + i + n - 1, i + n - 1)
  }

  /** The same for sixteen symbols. */
  function LagSum(m: nat, r: bit, i: nat): nat {
    ApartAt(r, m + i, i) + ApartAt(r, m + i + 1, i + 1) + ApartAt(r, m + i + 2, i + 2) + ApartAt(r, m + i + 3, i + 3)
    + ApartAt(r, m + i + 4, i + 4) + ApartAt(r, m + i + 5, i + 5) + ApartAt(r, m + i + 6, i + 6)
    + ApartAt(r, m + i + 7, i + 7) + ApartAt(r, m + i + 8, i + 8) + ApartAt(r, m + i + 9, i + 9)
    + ApartAt(r, m + i + 10, i + 10) + ApartAt(r, m + i + 11, i + 11) + ApartAt(r, m + i + 12, i + 12)
    + ApartAt(r, m + i + 13, i + 13) + ApartAt(r, m + i + 14, i + 14) + ApartAt(r, m + i + 15, i + 15)
  }

  lemma FourMore(m: nat, r: bit, i: nat, n: nat)
    ensures var j, k := m + i + n, i + n;
      LagErrors(m, r, i, n + 4) == LagErrors(m, r, i, n)
        + ApartAt(r, j, k) + ApartAt(r, j + 1, k + 1) + ApartAt(r, j + 2, k + 2) + ApartAt(r, j + 3, k + 3)
  {
    hide ApartAt;
    assert LagErrors(m, r, i, n + 2) == LagErrors(m, r, i, n) + ApartAt(r, m + i + n, i + n)
                                        + ApartAt(r, m + i + n + 1, i + n + 1);
  }

  lemma LagSummed(m: nat, r: bit, i: nat)
    ensures LagErrors(m, r, i, 16) == LagSum(m, r, i)
  {
    hide ApartAt;
    FourMore(m, r, i, 0);
    FourMore(m, r, i, 4);
    FourMore(m, r, i, 8);
    FourMore(m, r, i, 12);
  }

  /** Symbols i to i + 16 and those m later, turned or not, differ in eleven to twenty-one bits. */
  predicate Bounded(m: nat, i: nat) {
    11 <= LagSum(m, 0, i) <= 21 && 11 <= LagSum(m, 1, i) <= 21
  }

  lemma Lags1To4()
    ensures Bounded(1, 0) && Bounded(2, 0) && Bounded(3, 0) && Bounded(4, 0)
  {
  }

  lemma Lags5To8()
    ensures Bounded(5, 0) && Bounded(6, 0) && Bounded(7, 0) && Bounded(8, 0)
  {
  }

  lemma Lags9To12()
    ensures Bounded(9, 0) && Bounded(10, 0) && Bounded(11, 0) && Bounded(12, 0)
  {
  }

  lemma Lags13To16()
    ensures Bounded(13, 3) && Bounded(14, 0) && Bounded(15, 0) && Bounded(16, 0)
  {
  }

  /** From here sixteen symbols differ in eleven to twenty-one bits. */
  function LagStart(m: nat): nat {
    if m == 13 then 3 else 0
  }

  lemma LagTable(m: nat, r: bit)
    requires 1 <= m <= 16
    ensures m + LagStart(m) + 16 <= SYNC_SYMS && 11 <= LagErrors(m, r, LagStart(m), 16) <= 21
  {
    hide LagErrors, LagSum;
    LagSummed(m, r, LagStart(m));
    if m <= 4 {
      Lags1To4();
    } else if m <= 8 {
      Lags5To8();
    } else if m <= 12 {
      Lags9To12();
    } else {
      Lags13To16();
    }
  }

  /** The bits in which symbols i to i + n of the sync word, turned by r quarters, differ from zeros. */
  function ZeroErrors(r: bit, i: nat, n: nat): nat
    requires i + n <= SYNC_SYMS
  {
    if n == 0 then 0
    else ZeroErrors(r, i, n - 1) + Apart(0, if r == 0 then SyncSymbol(i + n - 1) else Quarter(SyncSymbol(i + n - 1)))
  }

  lemma ZeroTable()
    ensures ZeroErrors(0, 0, 8) == 6 && ZeroErrors(0, 8, 8) == 5 && ZeroErrors(1, 0, 8) == 6 && ZeroErrors(1, 8, 8) == 5
  {
  }
}
