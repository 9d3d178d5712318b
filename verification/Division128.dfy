/** __udivmodti4: 128-bit division, by one or two calls of the two-word routine when the divisor fits
    in a word, by an aligned shift-subtract loop otherwise. */
module Division128 {
  import opened Units
  import opened Words
  import opened ShiftSubtract
  import opened Division64
  import opened Knuth

  // ---------- the aligned loop ----------

  /** The state before the pass for bit k of the quotient: quot holds the bits above k. */
  ghost predicate Aligned(n: nat, a: nat, b: nat, k: int, divisor: nat, dividend: nat, quot: nat) {
    && n > 0 && -1 <= k && b > 0
    && a == Up(Times(quot, b), k + 1) + dividend && dividend < Up(b, k + 1) && dividend < Pow2(n)
    && (k >= 0 ==> divisor == Up(b, k) && divisor < Pow2(n)
                   && (divisor > Pow2(n - 1) ==> dividend >= Pow2(n - 1)))
  }

  lemma AlignedStep(n: nat, a: nat, b: nat, k: int, divisor: nat, dividend: nat, quot: nat)
    requires Aligned(n, a, b, k, divisor, dividend, quot) && k >= 0
    ensures dividend < 2 * divisor && (divisor > Pow2(n - 1) ==> divisor - dividend <= Pow2(n - 1))
    ensures if dividend >= divisor then Aligned(n, a, b, k - 1, Shr(divisor, 1), dividend - divisor, 2 * quot + 1)
            else Aligned(n, a, b, k - 1, Shr(divisor, 1), dividend, 2 * quot)
  {
    var x := Times(quot, b);
    assert Up(b, k + 1) == 2 * Up(b, k);
    assert Up(x, k + 1) == Up(x + x, k) by { UpAdd(x, x, k); }
    UpAdd(x + x, b, k);
    TimesStep(quot, 0, b);
    TimesStep(quot, 1, b);
    if k > 0 { assert Up(b, k) == 2 * Up(b, k - 1); }
  }

  /** One pass in the words of the loop body; the quotient grows by one bit and fits its word. */
  lemma AlignedPass(n: nat, a: nat, b: nat, k: int, divisor: nat, dividend: nat, quot: nat, w: nat, passes: nat)
    requires Aligned(n, a, b, k, divisor, dividend, quot) && k >= 0
    requires quot < Pow2(passes) && passes < w
    ensures var s := SignMask(Sub(Sub(divisor, dividend, n), 1, n), n);
            var quot' := Or(Shl(quot, 1, w), And(s, 1));
            && quot' < Pow2(passes + 1)
            && And(divisor, s) < Pow2(n)
            && Aligned(n, a, b, k - 1, Shr(divisor, 1), Sub(dividend, And(divisor, s), n), quot')
  {
    AlignedStep(n, a, b, k, divisor, dividend, quot);
    MaskedSubtract(divisor, dividend, n);
    QuotientBit(quot, 0, passes, w);
    QuotientBit(quot, 1, passes, w);
  }

  lemma QuotientBit(q: nat, bit: nat, k: nat, w: nat)
    requires bit <= 1 && q < Pow2(k) && k < w
    ensures Or(Shl(q, 1, w), bit) == 2 * q + bit < Pow2(k + 1)
  {
    Pow2AtMost(k + 1, w);
    ShiftIn(q, bit, w);
  }

  /** How far the divisor is shifted, and that the loop can start there. */
  lemma Alignment(a: nat, b: nat, w: nat)
    requires 0 < w && a < Pow2(w + w) && b <= a && Shr(b, w) > 0
    ensures Shr(a, w) < Pow2(w) && Shr(b, w) < Pow2(w)
    ensures var shift := Clz(Shr(b, w), w) - Clz(Shr(a, w), w);
            && 0 <= shift < w
            && Shl(b, shift, w + w) == Up(b, shift)
            && Aligned(w + w, a, b, shift, Up(b, shift), a, 0)
  {
    var ah, bh := Shr(a, w), Shr(b, w);
    JoinHalves(a, w);
    UpperHalfOrder(a, b, w);
    JoinHalves(b, w);
    LengthOfHalves(a, w);
    LengthOfHalves(b, w);
    BitLenBounds(bh);
    BitLenFits(ah, w);
    BitLenFits(bh, w);
    AlignedStart(a, b, BitLen(ah) - BitLen(bh), w + w);
  }

  lemma UpperHalfOrder(a: nat, b: nat, w: nat)
    requires b <= a
    ensures Shr(b, w) <= Shr(a, w) && BitLen(Shr(b, w)) <= BitLen(Shr(a, w))
  {
    ShrMono(b, a, w);
    BitLenMono(Shr(b, w), Shr(a, w));
  }

  lemma {:induction false} ShrMono(x: nat, y: nat, s: nat)
    requires x <= y
    ensures Shr(x, s) <= Shr(y, s)
  {
    if s != 0 { ShrMono(x / 2, y / 2, s - 1); }
  }

  lemma {:induction false} BitLenMono(x: nat, y: nat)
    requires x <= y
    ensures BitLen(x) <= BitLen(y)
  {
    if x != 0 { BitLenMono(x / 2, y / 2); }
  }

  lemma LengthOfHalves(x: nat, w: nat)
    requires Shr(x, w) > 0
    ensures BitLen(x) == w + BitLen(Shr(x, w))
  {
    Split(x, w);
    BitLenJoin(Shr(x, w), Low(x, w), w);
  }

  lemma AlignedStart(a: nat, b: nat, shift: nat, n: nat)
    requires 0 < n && a < Pow2(n) && 0 < a && 0 < b && BitLen(a) == BitLen(b) + shift
    ensures Shl(b, shift, n) == Up(b, shift) && Aligned(n, a, b, shift, Up(b, shift), a, 0)
  {
    var d := Up(b, shift);
    BitLenUp(b, shift);
    BitLenBounds(d);
    SameLength(a, d, n);
    ShrZero(shift + 1);
    assert Up(b, shift + 1) == 2 * d;
  }

  lemma SameLength(a: nat, d: nat, n: nat)
    requires 0 < n && 0 < a < Pow2(n) && 0 < d && BitLen(a) == BitLen(d)
    ensures a < 2 * d && d < Pow2(n) && Low(d, n) == d && (d > Pow2(n - 1) ==> a >= Pow2(n - 1))
  {
    BitLenBounds(a);
    BitLenBounds(d);
    BitLenFits(a, n);
    Pow2AtMost(BitLen(a), n);
    LowSmall(d, n);
    if d > Pow2(n - 1) { BitLenUnique(d, n); }
  }

  method AlignedLoop(a: nat, b: nat, w: nat) returns (q: nat, rem: nat)
    requires 0 < w && a < Pow2(w + w) && b <= a && Shr(b, w) > 0
    ensures Divides(a, b, q, rem) && q < Pow2(w)
  {
    Alignment(a, b, w);
    var n := w + w;
    var shift: int := Clz(Shr(b, w), w) - Clz(Shr(a, w), w);
    ghost var passes: nat := 0;
    var divisor, dividend: nat := Shl(b, shift, n), a;
    q := 0;
    while shift >= 0
      invariant passes + shift < w
      invariant Aligned(n, a, b, shift, divisor, dividend, q) && q < Pow2(passes)
    {
      AlignedPass(n, a, b, shift, divisor, dividend, q, w, passes);
      var s := SignMask(Sub(Sub(divisor, dividend, n), 1, n), n);
      q := Or(Shl(q, 1, w), And(s, 1));
      dividend := Sub(dividend, And(divisor, s), n);
      divisor := Shr(divisor, 1);
      shift := shift - 1;
      passes := passes + 1;
    }
    assert q < Pow2(w) by { Pow2AtMost(passes, w); }
    rem := dividend;
  }

  // ---------- the routine ----------

  lemma WordHalves(x: nat)
    requires x < W64 * W64
    ensures Shr(x, WORD) == x / W64 < W64 && Low(x, WORD) == x % W64 && x < Pow2(WORD + WORD)
  {
    WordSizes();
    ShrIsDiv(x, WORD);
    ShrBound(x, WORD, WORD);
  }

  /** Dividing the high word first, then what is left of it with the low word. */
  lemma TwoSteps(h: nat, l: nat, b: nat, qh: nat, ql: nat, r: nat)
    requires b > 0 && qh == h / b && (h % b) * W64 + l == ql * b + r
    ensures h * W64 + l == (qh * W64 + ql) * b + r
  {
    MulDist(qh * W64, ql, b);
    Commute(qh, W64, b);
  }

  /** __udivmodti4 */
  method UDivModTi4(a: nat, b: nat) returns (q: nat, rem: nat)
    requires a < W64 * W64 && 0 < b < W64 * W64
    ensures q == a / b && rem == a % b
  {
    DividesIsDivMod(a, b, 0, a);
    if b > a {
      return 0, a;
    }
    WordHalves(a);
    WordHalves(b);
    if Shr(b, WORD) == 0 {
      q, rem := ShortDivisor(Shr(a, WORD), Low(a, WORD), Low(b, WORD));
      DivModUnique(a, b, q, rem);
    } else {
      q, rem := AlignedLoop(a, b, WORD);
      DividesIsDivMod(a, b, q, rem);
    }
  }

  /** The divisor fits in 64 bits. */
  method ShortDivisor(h: nat, l: nat, b: nat) returns (q: nat, rem: nat)
    requires h < W64 && l < W64 && 0 < b < W64
    ensures h * W64 + l == q * b + rem && rem < b
  {
    if h < b {
      q, rem := UDiv128By64To64(h, l, b);
    } else {
      var qh := h / b;
      var high := h % b;
      var ql;
      ql, rem := UDiv128By64To64(high, l, b);
      TwoSteps(h, l, b, qh, ql, rem);
      q := qh * W64 + ql;
    }
  }
}
