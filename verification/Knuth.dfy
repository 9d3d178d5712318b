/** udiv128by64to64default: a two-word dividend by a one-word divisor, one 32-bit quotient digit at a
    time, as in Algorithm D of section 4.3.1 of The Art of Computer Programming, Volume 2. */
module Knuth {
  import opened Units
  import opened Words

  /** The number base. */
  const B: nat := W32

  function Wrap(x: int): (r: nat)
    ensures r < W64 && (0 <= x < W64 ==> r == x)
  {
    x % W64
  }

  // ---------- one quotient digit ----------

  /** The digit the loop is after, for a dividend of the digit pair `high` and the digit `next`. */
  ghost predicate IsDigit(q: nat, high: nat, next: nat, v: nat) {
    q * v <= high * B + next < (q + 1) * v
  }

  lemma Expand(q: nat, vn1: nat, vn0: nat)
    ensures q * (vn1 * B + vn0) == (q * vn1) * B + q * vn0
  {}

  lemma DigitExists(high: nat, next: nat, v: nat) returns (q: nat)
    requires high < v && next < B
    ensures IsDigit(q, high, next, v) && q < B
  {
    var u := high * B + next;
    q := u / v;
    assert u == q * v + u % v;
    MulDist(q, 1, v);
    if q >= B { MulMono(B, q, v); }
  }

  /** high / vn1 is never below the digit, and at most two above it. */
  lemma EstimateBounds(high: nat, next: nat, vn1: nat, vn0: nat, q: nat)
    requires B / 2 <= vn1 < B && vn0 < B && next < B
    requires IsDigit(q, high, next, vn1 * B + vn0) && q < B
    ensures q <= high / vn1 <= q + 2
  {
    var v, est := vn1 * B + vn0, high / vn1;
    assert high == est * vn1 + high % vn1;
    Expand(q, vn1, vn0);
    MulMono(0, q, vn0);
    assert q * vn1 <= high;
    if q > est {
      MulMono(est + 1, q, vn1);
      MulDist(est, 1, vn1);
    }
    if est > q + 2 {
      Expand(q + 1, vn1, vn0);
      MulMono(q + 3, est, vn1);
      MulDist(q + 1, 2, vn1);
      // (q + 3) * vn1 * B <= high * B < (q + 1) * v
      assert 2 * vn1 * B < (q + 1) * vn0;
      MulMono(q + 1, B, vn0);
    }
  }

  /** The comparison in the loop condition, free of wrap-around, is q * v > high * B + next. */
  lemma ComparisonIsExact(high: nat, next: nat, vn1: nat, vn0: nat, q: nat, rhat: nat)
    requires vn1 < B && vn0 < B && next < B && q < B && rhat < B
    requires high == q * vn1 + rhat
    ensures q * vn0 < W64 && B * rhat + next < W64
    ensures Wrap(q * vn0) > Wrap(B * rhat + next) <==> q * (vn1 * B + vn0) > high * B + next
  {
    Expand(q, vn1, vn0);
    MulMono(q, B, vn0);
    MulMono(0, q, vn0);
  }

  lemma DigitOrder(q: nat, high: nat, next: nat, v: nat, c: nat)
    requires IsDigit(q, high, next, v)
    ensures c * v > high * B + next <==> c > q
  {
    if c > q { MulMono(q + 1, c, v); } else { MulMono(c, q, v); }
  }

  /** When the remainder estimate leaves its digit, the quotient estimate is right. */
  lemma LargeRemainderStops(high: nat, next: nat, vn1: nat, vn0: nat, q: nat, rhat: nat)
    requires vn1 < B && vn0 < B && q <= B <= rhat && high == q * vn1 + rhat
    ensures q * (vn1 * B + vn0) <= high * B + next
  {
    Expand(q, vn1, vn0);
    MulMono(q, B, vn0);
  }

  /** The estimate and its correction loop.  `tries` counts the corrections: there are at most two. */
  method QuotientDigit(high: nat, next: nat, vn1: nat, vn0: nat) returns (q: nat, ghost tries: nat)
    requires B / 2 <= vn1 < B && vn0 < B && next < B && high < vn1 * B + vn0
    ensures q < B && IsDigit(q, high, next, vn1 * B + vn0)
    ensures tries <= 2 && q + tries == high / vn1
  {
    ghost var digit := DigitExists(high, next, vn1 * B + vn0);
    EstimateBounds(high, next, vn1, vn0, digit);
    q := high / vn1;
    var rhat: nat := high - q * vn1;
    tries := 0;
    while q >= B || Wrap(q * vn0) > Wrap(B * rhat + next)
      invariant digit <= q && q + tries == high / vn1
      invariant high == q * vn1 + rhat && rhat < B
      decreases q
    {
      DigitOrder(digit, high, next, vn1 * B + vn0, q);
      if q < B { ComparisonIsExact(high, next, vn1, vn0, q, rhat); }
      MulDist(q, 1, vn1);
      q := q - 1;
      rhat := rhat + vn1;
      tries := tries + 1;
      if rhat >= B {
        LargeRemainderStops(high, next, vn1, vn0, q, rhat);
        DigitOrder(digit, high, next, vn1 * B + vn0, q);
        return;
      }
    }
    ComparisonIsExact(high, next, vn1, vn0, q, rhat);
    DigitOrder(digit, high, next, vn1 * B + vn0, q);
  }

  // ---------- the two digits ----------

  lemma WordSizes()
    ensures Pow2(WORD) == W64 && Pow2(HALF) == B && Pow2(WORD - 1) == W64 / 2
  {
    Pow2Values();
  }

  /** The digits of a word. */
  lemma Digits(x: nat)
    requires x < W64
    ensures Shr(x, HALF) == x / B < B && And(x, B - 1) == x % B
  {
    WordSizes();
    ShrIsDiv(x, HALF);
    AndLowMask(x, HALF);
  }

  /** Normalising: dividend and divisor are shifted by the same amount. */
  lemma Normalised(u1: nat, u0: nat, v: nat, s: nat, n: nat)
    requires u1 < v < Pow2(n) && u0 < Pow2(n) && s == Clz(v, n)
    ensures s <= n && Up(v, s) < Pow2(n) <= 2 * Up(v, s) && Shl(v, s, n) == Up(v, s)
    ensures var un64, un10 := Or(Shl(u1, s, n), Shr(u0, n - s)), Shl(u0, s, n);
            un64 < Up(v, s) && Up(un64, n) + un10 == Up(Up(u1, n) + u0, s)
  {
    BitLenFits(v, n);
    BitLenUp(v, s);
    BitLenBounds(Up(v, s));
    LowSmall(Up(v, s), n);
    UpperWord(u1, u0, v, s, n);
    var h := Shr(u0, n - s);
    ShlIsLow(u0, s, n - s, n);
    UpAdd(Up(u1, s), h, n);
    UpUp(u1, s, n);
    UpUp(u1, n, s);
    UpAdd(Up(u1, n), u0, s);
  }

  lemma UpperWord(u1: nat, u0: nat, v: nat, s: nat, n: nat)
    requires u1 < v && u0 < Pow2(n) && s <= n && Up(v, s) < Pow2(n)
    ensures Or(Shl(u1, s, n), Shr(u0, n - s)) == Up(u1, s) + Shr(u0, n - s) < Up(v, s)
  {
    UpOrder(u1, v, s);
    LowSmall(Up(u1, s), n);
    ShrBound(u0, s, n - s);
    OrConcat(u1, Shr(u0, n - s), s);
    UpAdd(u1, 1, s);
    UpOrder(u1 + 1, v, s);
    Pow2Add(0, s);
  }

  lemma Commute(a: int, b: int, c: int)
    ensures (a * b) * c == (a * c) * b
  {}

  /** The partial remainder after a digit, computed with wrap-around. */
  lemma PartialRemainder(high: nat, next: nat, q: nat, v: nat)
    requires high < W64 && next < B && v < W64 && IsDigit(q, high, next, v)
    ensures var rest := high * B + next - q * v;
            && 0 <= rest < v
            && Wrap(Wrap(Wrap(high * B) + next) - Wrap(q * v)) == rest
  {
    MulDist(q, 1, v);
    WrapOnce(high * B, next, q * v);
  }

  /** Wrapping every intermediate result is wrapping the last one. */
  lemma WrapOnce(x: int, y: int, z: int)
    ensures Wrap(Wrap(Wrap(x) + y) - Wrap(z)) == Wrap(x + y - z)
  {}

  /** The quotient of the shifted dividend is the quotient of the dividend. */
  lemma Unshift(u: nat, v: nat, q: nat, r: nat, s: nat)
    requires Up(u, s) == q * Up(v, s) + r && r < Up(v, s)
    ensures u == q * v + Shr(r, s) && Shr(r, s) < v
  {
    var p := Pow2(s);
    UpIsMul(v, s);
    UpIsMul(u, s);
    MulAssoc(q, v, p);
    MulDist(u, q * v, p);
    var d := u - q * v;
    assert r == d * p;
    if d < 0 { MulMono(d, -1, p); }
    UpIsMul(d, s);
    SplitUnique(r, s, d, 0);
    UpOrder(v, d, s);
  }

  lemma MulAssoc(a: int, b: int, c: int)
    ensures (a * b) * c == a * (b * c)
  {}

  lemma JoinDigits(un64: nat, un1: nat, un0: nat, q1: nat, un21: nat, q0: nat, r: nat, v: nat)
    requires un21 == un64 * B + un1 - q1 * v && r == un21 * B + un0 - q0 * v
    ensures un64 * W64 + (un1 * B + un0) == (q1 * B + q0) * v + r
  {
    MulDist(q1 * B, q0, v);
    Commute(q1, B, v);
  }

  /** udiv128by64to64default */
  method UDiv128By64To64(u1: nat, u0: nat, v0: nat) returns (q: nat, r: nat)
    requires u1 < v0 < W64 && u0 < W64
    ensures u1 * W64 + u0 == q * v0 + r && r < v0 && q < W64
  {
    WordSizes();
    var s := Clz(v0, WORD);
    Normalised(u1, u0, v0, s, WORD);
    var v, un64, un10;
    if s > 0 {
      assert s < WORD;
      v := Shl(v0, s, WORD);
      un64 := Or(Shl(u1, s, WORD), Shr(u0, WORD - s));
      un10 := Shl(u0, s, WORD);
    } else {
      v, un64, un10 := v0, u1, u0;
    }
    assert Up(un64, WORD) + un10 == Up(Up(u1, WORD) + u0, s) && un64 < v == Up(v0, s);
    UpIsMul(un64, WORD);
    UpIsMul(u1, WORD);
    var q0, r0 := TwoDigits(un64, un10, v);
    Unshift(u1 * W64 + u0, v0, q0, r0, s);
    q, r := q0, Shr(r0, s);
  }

  /** The part of the routine after normalisation. */
  method TwoDigits(un64: nat, un10: nat, v: nat) returns (q: nat, r: nat)
    requires W64 / 2 <= v < W64 && un64 < v && un10 < W64
    ensures un64 * W64 + un10 == q * v + r && r < v && q < W64
  {
    Digits(v);
    Digits(un10);
    var vn1, vn0 := Shr(v, HALF), And(v, B - 1);
    var un1, un0 := Shr(un10, HALF), And(un10, B - 1);
    var q1, _ := QuotientDigit(un64, un1, vn1, vn0);
    PartialRemainder(un64, un1, q1, v);
    var un21 := Wrap(Wrap(Wrap(un64 * B) + un1) - Wrap(q1 * v));
    var q0, _ := QuotientDigit(un21, un0, vn1, vn0);
    PartialRemainder(un21, un0, q0, v);
    r := Wrap(Wrap(Wrap(un21 * B) + un0) - Wrap(q0 * v));
    JoinDigits(un64, un1, un0, q1, un21, q0, r, v);
    q := Wrap(Wrap(q1 * B) + q0);
  }
}
