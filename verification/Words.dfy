/** Machine words as natural numbers.  A word of width n is a `nat` below Pow2(n).  The operators of
    C are defined on the binary digits, one digit at a time, so that their laws are linear; the last
    part of the module relates them to multiplication, division and remainder. */
module Words {
  import opened Units

  function Pow2(n: nat): (p: nat)
    ensures p > 0 && (n == 0 ==> p == 1) && (n == 1 ==> p == 2)
  {
    if n == 0 then 1 else 2 * Pow2(n - 1)
  }

  // ---------- the operators ----------

  /** x << s, before the word is cut to its width. */
  function Up(x: nat, s: nat): nat {
    if s == 0 then x else 2 * Up(x, s - 1)
  }

  /** x >> s */
  function Shr(x: nat, s: nat): nat {
    if s == 0 then x else Shr(x / 2, s - 1)
  }

  /** The low n bits of x: what is left of x in a word of n bits. */
  function Low(x: nat, n: nat): (r: nat)
    ensures r < Pow2(n)
  {
    if n == 0 then 0 else x % 2 + 2 * Low(x / 2, n - 1)
  }

  /** x << s in a word of n bits. */
  function Shl(x: nat, s: nat, n: nat): (r: nat)
    ensures r < Pow2(n)
  {
    Low(Up(x, s), n)
  }

  predicate Bit(x: nat, k: nat) {
    Shr(x, k) % 2 == 1
  }

  function And(x: nat, y: nat): nat {
    if x == 0 || y == 0 then 0
    else (if x % 2 == 1 && y % 2 == 1 then 1 else 0) + 2 * And(x / 2, y / 2)
  }

  function Or(x: nat, y: nat): nat
    decreases x + y
  {
    if x == 0 && y == 0 then 0
    else (if x % 2 == 1 || y % 2 == 1 then 1 else 0) + 2 * Or(x / 2, y / 2)
  }

  function Xor(x: nat, y: nat): nat
    decreases x + y
  {
    if x == 0 && y == 0 then 0
    else (if x % 2 != y % 2 then 1 else 0) + 2 * Xor(x / 2, y / 2)
  }

  /** ~x in a word of n bits. */
  function Not(x: nat, n: nat): (r: nat)
    requires x < Pow2(n)
    ensures r < Pow2(n)
  {
    Pow2(n) - 1 - x
  }

  /** A difference of two words of n bits, wrapped. */
  function Sub(x: nat, y: nat, n: nat): (r: nat)
    requires x < Pow2(n) && y <= Pow2(n)
    ensures r < Pow2(n)
  {
    if x >= y then x - y else x + Pow2(n) - y
  }

  /** A difference of two 32-bit unsigned counters, wrapped. */
  function UnsignedDiff(x: nat, y: nat): nat
    requires x < W32 && y < W32
  {
    if x >= y then x - y else x + W32 - y
  }

  /** A signed n-bit word shifted right by n - 1: all ones or zero. */
  function SignMask(x: nat, n: nat): (r: nat)
    requires n > 0 && x < Pow2(n)
    ensures r < Pow2(n)
  {
    if x >= Pow2(n - 1) then Pow2(n) - 1 else 0
  }

  function BitLen(x: nat): nat {
    if x == 0 then 0 else 1 + BitLen(x / 2)
  }

  /** __builtin_clz on a word of n bits. */
  function Clz(x: nat, n: nat): nat
    requires x < Pow2(n)
  {
    BitLenFits(x, n);
    n - BitLen(x)
  }

  /** __builtin_ctz on a nonzero word. */
  function Ctz(x: nat): nat
    requires x > 0
  {
    if x % 2 == 1 then 0 else 1 + Ctz(x / 2)
  }

  // ---------- powers of two ----------

  lemma {:induction false} Pow2Add(a: nat, b: nat)
    ensures Pow2(a + b) == Up(Pow2(a), b)
  {
    if b != 0 { Pow2Add(a, b - 1); }
  }

  lemma {:induction false} Pow2Less(a: nat, b: nat)
    requires a < b
    ensures 2 * Pow2(a) <= Pow2(b)
  {
    if b > a + 1 { Pow2Less(a, b - 1); }
  }

  lemma Pow2AtMost(a: nat, b: nat)
    requires a <= b
    ensures Pow2(a) <= Pow2(b)
  {
    if a < b { Pow2Less(a, b); }
  }

  lemma Pow2Values()
    ensures Pow2(12) == 0x1000 && Pow2(31) == 0x8000_0000 && Pow2(32) == W32
    ensures Pow2(40) == 0x100_0000_0000 && Pow2(52) == 0x10_0000_0000_0000
    ensures Pow2(63) == 0x8000_0000_0000_0000 && Pow2(64) == W64
  {
    assert Pow2(4) == 16;
    assert Pow2(8) == 16 * Pow2(4);
    assert Pow2(12) == 16 * Pow2(8);
    assert Pow2(16) == 16 * Pow2(12);
    assert Pow2(20) == 16 * Pow2(16);
    assert Pow2(24) == 16 * Pow2(20);
    assert Pow2(28) == 16 * Pow2(24);
    assert Pow2(32) == 16 * Pow2(28);
    assert Pow2(36) == 16 * Pow2(32);
    assert Pow2(40) == 16 * Pow2(36);
    assert Pow2(44) == 16 * Pow2(40);
    assert Pow2(48) == 16 * Pow2(44);
    assert Pow2(52) == 16 * Pow2(48);
    assert Pow2(56) == 16 * Pow2(52);
    assert Pow2(60) == 16 * Pow2(56);
    assert Pow2(64) == 16 * Pow2(60);
  }

  // ---------- splitting a word ----------

  lemma {:induction false} Split(x: nat, s: nat)
    ensures x == Up(Shr(x, s), s) + Low(x, s)
  {
    if s != 0 { Split(x / 2, s - 1); }
  }

  lemma {:induction false} SplitUnique(x: nat, s: nat, h: nat, l: nat)
    requires x == Up(h, s) + l && l < Pow2(s)
    ensures Shr(x, s) == h && Low(x, s) == l
  {
    if s != 0 {
      assert x / 2 == Up(h, s - 1) + l / 2 && x % 2 == l % 2;
      SplitUnique(x / 2, s - 1, h, l / 2);
    }
  }

  lemma {:induction false} UpAdd(x: nat, y: nat, s: nat)
    ensures Up(x + y, s) == Up(x, s) + Up(y, s)
  {
    if s != 0 { UpAdd(x, y, s - 1); }
  }

  lemma {:induction false} UpUp(x: nat, a: nat, b: nat)
    ensures Up(Up(x, a), b) == Up(x, a + b)
  {
    if b != 0 { UpUp(x, a, b - 1); }
  }

  lemma {:induction false} UpOrder(x: nat, y: nat, s: nat)
    ensures x <= y <==> Up(x, s) <= Up(y, s)
  {
    if s != 0 { UpOrder(x, y, s - 1); }
  }

  lemma UpBound(x: nat, n: nat, s: nat)
    ensures x < Pow2(n) <==> Up(x, s) < Pow2(n + s)
  {
    Pow2Add(n, s);
    UpOrder(Pow2(n), x, s);
  }

  lemma {:induction false} ShrShr(x: nat, a: nat, b: nat)
    ensures Shr(x, a + b) == Shr(Shr(x, a), b)
  {
    if a != 0 { ShrShr(x / 2, a - 1, b); }
  }

  lemma {:induction false} ShrZero(s: nat)
    ensures Shr(0, s) == 0 && Low(0, s) == 0 && Up(0, s) == 0
  {
    if s != 0 { ShrZero(s - 1); }
  }

  lemma LowSmall(x: nat, n: nat)
    requires x < Pow2(n)
    ensures Low(x, n) == x && Shr(x, n) == 0
  {
    ShrZero(n);
    SplitUnique(x, n, 0, x);
  }

  lemma ShrBound(x: nat, a: nat, s: nat)
    ensures Shr(x, s) < Pow2(a) <==> x < Pow2(a + s)
  {
    Split(x, s);
    UpBound(Shr(x, s), a, s);
    UpAdd(Shr(x, s), 1, s);
    UpOrder(Shr(x, s) + 1, Pow2(a), s);
    Pow2Add(a, s);
    Pow2Add(0, s);
  }

  /** Shifting left keeps the bits that were low enough. */
  lemma ShlIsLow(a: nat, s: nat, k: nat, n: nat)
    requires n == k + s
    ensures Shl(a, s, n) == Up(Low(a, k), s)
    ensures Up(a, s) == Up(Shr(a, k), n) + Shl(a, s, n)
  {
    var h, l := Shr(a, k), Low(a, k);
    Split(a, k);
    UpAdd(Up(h, k), l, s);
    UpUp(h, k, s);
    UpBound(l, k, s);
    SplitUnique(Up(a, s), n, h, Up(l, s));
  }

  // ---------- bit by bit ----------

  lemma {:induction false} AndBit(x: nat, y: nat, k: nat)
    ensures Bit(And(x, y), k) == (Bit(x, k) && Bit(y, k))
  {
    if x == 0 || y == 0 {
      ShrZero(k);
    } else if k != 0 {
      AndBit(x / 2, y / 2, k - 1);
      assert And(x, y) / 2 == And(x / 2, y / 2);
    }
  }

  lemma {:induction false} OrBit(x: nat, y: nat, k: nat)
    ensures Bit(Or(x, y), k) == (Bit(x, k) || Bit(y, k))
    decreases k
  {
    if x == 0 && y == 0 {
      ShrZero(k);
    } else {
      var b := if x % 2 == 1 || y % 2 == 1 then 1 else 0;
      assert Or(x, y) == b + 2 * Or(x / 2, y / 2);
      if k != 0 { OrBit(x / 2, y / 2, k - 1); }
    }
  }

  lemma {:induction false} NotBit(x: nat, n: nat, k: nat)
    requires x < Pow2(n) && k < n
    ensures Bit(Not(x, n), k) == !Bit(x, k)
  {
    var y := Not(x, n);
    assert y % 2 == 1 - x % 2 && y / 2 == Pow2(n - 1) - 1 - x / 2;
    if k != 0 { NotBit(x / 2, n - 1, k - 1); }
  }

  lemma {:induction false} UpBit(x: nat, s: nat, k: nat)
    ensures Bit(Up(x, s), k) == (k >= s && Bit(x, k - s))
  {
    if s != 0 && k != 0 { UpBit(x, s - 1, k - 1); }
  }

  lemma {:induction false} OneBit(k: nat)
    ensures Bit(1, k) == (k == 0)
  {
    if k != 0 { ShrZero(k - 1); }
  }

  /** A word is determined by its bits. */
  lemma {:induction false} BitsDetermine(x: nat, y: nat, n: nat)
    requires x < Pow2(n) && y < Pow2(n)
    requires forall k :: 0 <= k < n ==> Bit(x, k) == Bit(y, k)
    ensures x == y
  {
    if n != 0 {
      assert Bit(x, 0) == Bit(y, 0);
      forall k | 0 <= k < n - 1 ensures Bit(x / 2, k) == Bit(y / 2, k) {
        assert Bit(x, k + 1) == Bit(y, k + 1);
      }
      BitsDetermine(x / 2, y / 2, n - 1);
    }
  }

  lemma HighBitsClear(x: nat, n: nat, k: nat)
    requires x < Pow2(n) && n <= k
    ensures !Bit(x, k)
  {
    Pow2AtMost(n, k);
    LowSmall(x, k);
  }

  lemma OnesBit(n: nat, k: nat)
    ensures Bit(Pow2(n) - 1, k) <==> k < n
  {
    if k < n {
      NotBit(0, n, k);
      ShrZero(k);
    } else {
      HighBitsClear(Pow2(n) - 1, n, k);
    }
  }

  lemma {:induction false} AndBound(x: nat, y: nat)
    ensures And(x, y) <= x && And(x, y) <= y
  {
    if x != 0 && y != 0 { AndBound(x / 2, y / 2); }
  }

  lemma {:induction false} OrBound(x: nat, y: nat, n: nat)
    requires x < Pow2(n) && y < Pow2(n)
    ensures Or(x, y) < Pow2(n)
  {
    if n != 0 { OrBound(x / 2, y / 2, n - 1); }
  }

  // ---------- masks ----------

  lemma {:induction false} OrZero(x: nat)
    ensures Or(x, 0) == x && Or(0, x) == x
  {
    if x != 0 { OrZero(x / 2); }
  }

  /** `|` of a shifted word and a word that fits below the shift is a sum. */
  lemma {:induction false} OrConcat(x: nat, y: nat, s: nat)
    requires y < Pow2(s)
    ensures Or(Up(x, s), y) == Up(x, s) + y
  {
    if s == 0 {
      OrZero(x);
    } else {
      OrConcat(x, y / 2, s - 1);
      if Up(x, s) == 0 && y == 0 {} else {
        assert Up(x, s) / 2 == Up(x, s - 1);
      }
    }
  }

  /** Masking with n low ones keeps the low n bits. */
  lemma {:induction false} AndLowMask(x: nat, n: nat)
    ensures And(x, Pow2(n) - 1) == Low(x, n)
  {
    if n != 0 {
      AndLowMask(x / 2, n - 1);
      var m := Pow2(n) - 1;
      assert m % 2 == 1 && m / 2 == Pow2(n - 1) - 1;
      if x == 0 { ShrZero(n); }
    }
  }

  /** A mask with s low zeros only sees the bits from s upwards. */
  lemma {:induction false} AndHighMask(x: nat, m: nat, s: nat)
    ensures And(x, Up(m, s)) == Up(And(Shr(x, s), m), s)
  {
    if s != 0 {
      AndHighMask(x / 2, m, s - 1);
      assert And(x, 2 * Up(m, s - 1)) == 2 * And(x / 2, Up(m, s - 1));
    }
  }

  lemma AndAllOnes(x: nat, n: nat)
    requires x < Pow2(n)
    ensures And(x, Pow2(n) - 1) == x && And(x, 0) == 0
  {
    AndLowMask(x, n);
    LowSmall(x, n);
  }

  lemma {:induction false} XorZero(x: nat)
    ensures Xor(x, 0) == x
  {
    if x != 0 { XorZero(x / 2); }
  }

  lemma {:induction false} XorAllOnes(x: nat, n: nat)
    requires x < Pow2(n)
    ensures Xor(x, Pow2(n) - 1) == Not(x, n)
  {
    if n != 0 {
      XorAllOnes(x / 2, n - 1);
      var m := Pow2(n) - 1;
      assert m % 2 == 1 && m / 2 == Pow2(n - 1) - 1;
    }
  }

  // ---------- lengths ----------

  lemma {:induction false} BitLenBounds(x: nat)
    requires x > 0
    ensures BitLen(x) >= 1 && Pow2(BitLen(x) - 1) <= x < Pow2(BitLen(x))
  {
    if x > 1 { BitLenBounds(x / 2); }
  }

  lemma {:induction false} BitLenFits(x: nat, n: nat)
    requires x < Pow2(n)
    ensures BitLen(x) <= n
  {
    if x > 0 { BitLenFits(x / 2, n - 1); }
  }

  lemma {:induction false} BitLenUnique(x: nat, n: nat)
    requires n > 0 && Pow2(n - 1) <= x < Pow2(n)
    ensures BitLen(x) == n
  {
    if n > 1 { BitLenUnique(x / 2, n - 1); }
  }

  lemma {:induction false} BitLenUp(x: nat, s: nat)
    requires x > 0
    ensures BitLen(Up(x, s)) == BitLen(x) + s && Up(x, s) > 0
  {
    if s != 0 { BitLenUp(x, s - 1); }
  }

  lemma {:induction false} BitLenShr(x: nat, s: nat)
    requires s <= BitLen(x)
    ensures BitLen(Shr(x, s)) == BitLen(x) - s
  {
    if s != 0 { BitLenShr(x / 2, s - 1); }
  }

  lemma {:induction false} BitLenOrder(x: nat, y: nat)
    requires BitLen(x) < BitLen(y)
    ensures x < y
  {
    if x != 0 { BitLenOrder(x / 2, y / 2); }
  }

  // ---------- multiplication, division and remainder ----------

  lemma MulMono(a: int, b: int, c: int)
    requires a <= b && c >= 0
    ensures a * c <= b * c
  {}

  lemma MulDist(a: int, b: int, c: int)
    ensures (a - b) * c == a * c - b * c
    ensures (a + b) * c == a * c + b * c
  {}

  lemma SmallMultiple(k: int, d: int)
    requires -d < k * d < d
    ensures k == 0
  {
    if k >= 1 {
      MulMono(1, k, d);
    } else if k <= -1 {
      MulMono(k, -1, d);
    }
  }

  lemma DivModUnique(x: int, d: int, q: int, r: int)
    requires d > 0 && x == q * d + r && 0 <= r < d
    ensures x / d == q && x % d == r
  {
    var q', r' := x / d, x % d;
    MulDist(q, q', d);
    SmallMultiple(q - q', d);
  }

  lemma {:induction false} UpIsMul(x: nat, s: nat)
    ensures Up(x, s) == x * Pow2(s)
  {
    if s != 0 { UpIsMul(x, s - 1); }
  }

  lemma ShrIsDiv(x: nat, s: nat)
    ensures Shr(x, s) == x / Pow2(s) && Low(x, s) == x % Pow2(s)
  {
    Split(x, s);
    UpIsMul(Shr(x, s), s);
    DivModUnique(x, Pow2(s), Shr(x, s), Low(x, s));
  }

  // ---------- signed numbers ----------

  /** x as a signed number of n bits. */
  function Signed(x: int, n: nat): int {
    var r := x % Pow2(n);
    if 2 * r < Pow2(n) then r else r - Pow2(n)
  }

  function Abs(x: int): nat {
    if x < 0 then -x else x
  }
}
