/** __udivmoddi4, which divides double words through their halves, and __divmoddi4 on top of it.
    The width w of a half (n_uword_bits, 32 in the runtime) is a parameter.  Shift amounts are asserted to be
    positive and below it, as C demands. */
module Division64 {
  import opened Words
  import opened ShiftSubtract

  // ---------- the halves of a double word ----------

  /** The union `udwords`: a double word from its halves.  The halves of x are Shr(x, w) and Low(x, w). */
  function Join(high: nat, low: nat, w: nat): nat {
    Up(high, w) + low
  }

  lemma JoinHalves(x: nat, w: nat)
    ensures Join(Shr(x, w), Low(x, w), w) == x
    ensures x < Pow2(w + w) ==> Shr(x, w) < Pow2(w)
  {
    Split(x, w);
    ShrBound(x, w, w);
  }

  lemma HalvesOfJoin(h: nat, l: nat, w: nat)
    requires l < Pow2(w)
    ensures Shr(Join(h, l, w), w) == h && Low(Join(h, l, w), w) == l
    ensures h < Pow2(w) ==> Join(h, l, w) < Pow2(w + w)
  {
    SplitUnique(Join(h, l, w), w, h, l);
    if h < Pow2(w) { Packed(h, l, w, w); }
  }

  lemma DoubledHalves(h: nat, l: nat, w: nat)
    requires w > 0 && l < Pow2(w)
    ensures Join(2 * Low(h, w - 1) + Shr(l, w - 1), 2 * Low(l, w - 1), w) == 2 * Low(Join(h, l, w), w + w - 1)
  {
    var h', t := Low(h, w - 1), Shr(l, w - 1);
    UpAdd(2 * h', t, w);
    UpAdd(h', h', w);
    Split(l, w - 1);
    assert Up(t, w) == 2 * Up(t, w - 1);
    LowOfJoin(h, l, w, w - 1);
  }

  /** x << 1 | c, half by half. */
  lemma HalvesShiftLeft(h: nat, l: nat, c: nat, w: nat)
    requires w > 0 && l < Pow2(w) && c <= 1
    ensures Join(Or(Shl(h, 1, w), Shr(l, w - 1)), Or(Shl(l, 1, w), c), w) == Or(Shl(Join(h, l, w), 1, w + w), c)
    ensures Or(Shl(l, 1, w), c) < Pow2(w) && Or(Shl(h, 1, w), Shr(l, w - 1)) < Pow2(w)
  {
    assert Shr(l, w - 1) <= 1 by { ShrBound(l, 1, w - 1); }
    OrOfShifted(h, Shr(l, w - 1), w);
    OrOfShifted(l, c, w);
    OrOfShifted(Join(h, l, w), c, w + w);
    DoubledHalves(h, l, w);
  }

  lemma OrOfShifted(x: nat, bit: nat, n: nat)
    requires n > 0 && bit <= 1
    ensures Or(Shl(x, 1, n), bit) == 2 * Low(x, n - 1) + bit < Pow2(n)
  {
    ShiftOut(x, n);
    var l := Low(x, n - 1);
    assert Up(l, 1) == 2 * l;
    OrConcat(l, bit, 1);
  }

  /** Low bits of a double word that reach into its upper half. */
  lemma LowOfJoin(h: nat, l: nat, w: nat, k: nat)
    requires l < Pow2(w)
    ensures Low(Join(h, l, w), w + k) == Join(Low(h, k), l, w)
    ensures Shr(Join(h, l, w), w + k) == Shr(h, k)
  {
    Split(h, k);
    UpAdd(Up(Shr(h, k), k), Low(h, k), w);
    UpUp(Shr(h, k), k, w);
    Packed(Low(h, k), l, k, w);
    SplitUnique(Join(h, l, w), w + k, Shr(h, k), Join(Low(h, k), l, w));
  }

  /** Low bits of a double word that stay within its lower half. */
  lemma LowOfLow(h: nat, l: nat, w: nat, k: nat)
    requires l < Pow2(w) && k <= w
    ensures Low(Join(h, l, w), k) == Low(l, k)
    ensures Shr(Join(h, l, w), k) == Up(h, w - k) + Shr(l, k)
  {
    Split(l, k);
    UpUp(h, w - k, k);
    UpAdd(Up(h, w - k), Shr(l, k), k);
    SplitUnique(Join(h, l, w), k, Up(h, w - k) + Shr(l, k), Low(l, k));
  }

  /** (h << u) | (l >> k) in a half of k + u bits: the low k bits of h above the high u bits of l. */
  lemma Straddle(h: nat, l: nat, k: nat, u: nat, w: nat)
    requires w == k + u && l < Pow2(w)
    ensures Or(Shl(h, u, w), Shr(l, k)) == Up(Low(h, k), u) + Shr(l, k) < Pow2(w)
  {
    ShlIsLow(h, u, k, w);
    ShrBound(l, u, k);
    OrConcat(Low(h, k), Shr(l, k), u);
    Packed(Low(h, k), Shr(l, k), k, u);
  }

  /** x >> k, half by half. */
  lemma HalvesShiftRight(h: nat, l: nat, k: nat, u: nat, w: nat)
    requires w == k + u && l < Pow2(w)
    ensures Join(Shr(h, k), Or(Shl(h, u, w), Shr(l, k)), w) == Shr(Join(h, l, w), k)
  {
    LowOfLow(h, l, w, k);
    Straddle(h, l, k, u, w);
    Split(h, k);
    UpAdd(Up(Shr(h, k), k), Low(h, k), u);
    UpUp(Shr(h, k), k, u);
  }

  /** The register Low(x, k) << (w + u), half by half, for k below w. */
  lemma HalvesRegisterLow(h: nat, l: nat, k: nat, u: nat, w: nat)
    requires w == k + u && l < Pow2(w)
    ensures Join(Shl(l, u, w), 0, w) == Up(Low(Join(h, l, w), k), w + u)
  {
    LowOfLow(h, l, w, k);
    ShlIsLow(l, u, k, w);
    UpUp(Low(l, k), u, w);
  }

  /** The register Low(x, w + k) << u, half by half. */
  lemma HalvesRegisterHigh(h: nat, l: nat, k: nat, u: nat, w: nat)
    requires w == k + u && l < Pow2(w)
    ensures Join(Or(Shl(h, u, w), Shr(l, k)), Shl(l, u, w), w) == Up(Low(Join(h, l, w), w + k), u)
  {
    var x := Low(h, k);
    Straddle(h, l, k, u, w);
    ShlIsLow(l, u, k, w);
    UpAdd(Up(x, u), Shr(l, k), w);
    LowOfJoin(h, l, w, k);
    UpAdd(Up(x, w), l, u);
    UpUp(x, w, u);
    UpUp(x, u, w);
  }

  // ---------- divisors with one zero half, and powers of two ----------

  /** q and r are the quotient and remainder of a by b. */
  ghost predicate Divides(a: nat, b: nat, q: nat, r: nat) {
    a == Times(q, b) + r && r < b
  }

  lemma DividesIsDivMod(a: nat, b: nat, q: nat, r: nat)
    requires b > 0
    ensures Divides(a, b, q, r) <==> q == a / b && r == a % b
  {
    TimesIsMul(q, b);
    if Divides(a, b, q, r) { DivModUnique(a, b, q, r); }
  }

  lemma {:induction false} TimesUp(q: nat, d: nat, w: nat)
    ensures Times(q, Up(d, w)) == Up(Times(q, d), w)
  {
    if q == 0 {
      ShrZero(w);
    } else {
      TimesUp(q - 1, d, w);
      UpAdd(d, Times(q - 1, d), w);
    }
  }

  /** A divisor whose low half is zero only sees the high half of the dividend. */
  lemma HighDivisor(h: nat, l: nat, dh: nat, q: nat, r: nat, w: nat)
    requires l < Pow2(w) && Divides(h, dh, q, r)
    ensures Divides(Join(h, l, w), Join(dh, 0, w), q, Join(r, l, w))
  {
    TimesUp(q, dh, w);
    UpAdd(Times(q, dh), r, w);
    UpOrder(r + 1, dh, w);
    UpAdd(r, 1, w);
    Pow2Add(0, w);
  }

  lemma {:induction false} AndSelf(x: nat)
    ensures And(x, x) == x
  {
    if x != 0 { AndSelf(x / 2); }
  }

  /** The test d & (d - 1) == 0 finds exactly the powers of two. */
  lemma {:induction false} PowerOfTwoTest(d: nat)
    requires d > 0
    ensures And(d, d - 1) == 0 <==> d == Pow2(Ctz(d))
  {
    if d % 2 == 1 {
      AndSelf(d / 2);
      assert d == 1 || And(d, d - 1) == 2 * And(d / 2, (d - 1) / 2);
    } else {
      PowerOfTwoTest(d / 2);
      assert (d - 1) % 2 == 1 && (d - 1) / 2 == d / 2 - 1;
      assert And(d, d - 1) == 2 * And(d / 2, d / 2 - 1);
    }
  }

  /** Dividing by a power of two is a shift and a mask. */
  lemma PowerOfTwoDivision(x: nat, d: nat)
    requires d > 0 && And(d, d - 1) == 0
    ensures Divides(x, d, Shr(x, Ctz(d)), And(x, d - 1)) && d == Pow2(Ctz(d))
  {
    var k := Ctz(d);
    PowerOfTwoTest(d);
    AndLowMask(x, k);
    Split(x, k);
    UpIsMul(Shr(x, k), k);
    TimesIsMul(Shr(x, k), d);
  }

  // ---------- the cases of __udivmoddi4 ----------

  /** Everything the loop needs, or the result when a special case has it already. */
  datatype Prepared = Finished(quotient: nat, remainder: nat) | Started(sr: nat, q: nat, r: nat)

  ghost predicate Correct(p: Prepared, a: nat, b: nat, w: nat) {
    match p
    case Finished(q, r) => Divides(a, b, q, r)
    case Started(sr, q, r) => Dividing(w + w, a, b, sr, r, q, 0, 0)
  }

  lemma BitLenJoin(h: nat, l: nat, w: nat)
    requires h > 0 && l < Pow2(w)
    ensures BitLen(Join(h, l, w)) == w + BitLen(h)
  {
    var x := Join(h, l, w);
    BitLenUp(h, w);
    if BitLen(x) < BitLen(Up(h, w)) { BitLenOrder(x, Up(h, w)); }
    BitLenShr(x, w);
    SplitUnique(x, w, h, l);
  }

  lemma BelowDivisor(a: nat, b: nat, w: nat)
    requires a < b
    ensures Correct(Finished(0, a), a, b, w)
  {}

  /** The loop can start with the register and remainder cut at sr. */
  lemma CanStart(a: nat, b: nat, w: nat, sr: nat, q: nat, r: nat)
    requires 0 < b < Pow2(w + w) && a < Pow2(w + w) && 0 < sr <= w + w
    requires BitLen(a) + 1 == BitLen(b) + sr
    requires q == Up(Low(a, sr), w + w - sr) && r == Shr(a, sr)
    ensures Correct(Started(sr, q, r), a, b, w)
  {
    StartDivision(w + w, a, b, sr);
  }

  /** Comparing the lengths of the upper halves. */
  lemma UpperHalvesShift(nh: nat, nl: nat, dh: nat, dl: nat, w: nat)
    requires 0 < nh < Pow2(w) && nl < Pow2(w) && 0 < dh < Pow2(w) && dl < Pow2(w) && 0 < w < 0x1000
    ensures var sr := UnsignedDiff(Clz(dh, w), Clz(nh, w));
            && (sr > w - 1 ==> Join(nh, nl, w) < Join(dh, dl, w))
            && (sr <= w - 1 ==> BitLen(Join(nh, nl, w)) + 1 == BitLen(Join(dh, dl, w)) + (sr + 1))
            && (sr == w - 1 ==> dh == 1)
  {
    BitLenJoin(nh, nl, w);
    BitLenJoin(dh, dl, w);
    SizeOfShift(nh, dh, w);
    BitLenFits(nh, w);
    BitLenFits(dh, w);
    if BitLen(nh) < BitLen(dh) { BitLenOrder(Join(nh, nl, w), Join(dh, dl, w)); }
  }

  /** Shifts below w: the halves the code computes are the register and the remainder. */
  lemma CutBelow(nh: nat, nl: nat, b: nat, sr: nat, u: nat, w: nat)
    requires w == sr + u && sr > 0 && nh < Pow2(w) && nl < Pow2(w) && 0 < b < Pow2(w + w)
    requires BitLen(Join(nh, nl, w)) + 1 == BitLen(b) + sr
    ensures Correct(Started(sr, Join(Shl(nl, u, w), 0, w), Join(Shr(nh, sr), Or(Shl(nh, u, w), Shr(nl, sr)), w)),
                    Join(nh, nl, w), b, w)
  {
    HalvesOfJoin(nh, nl, w);
    HalvesRegisterLow(nh, nl, sr, u, w);
    HalvesShiftRight(nh, nl, sr, u, w);
    CanStart(Join(nh, nl, w), b, w, sr, Join(Shl(nl, u, w), 0, w),
             Join(Shr(nh, sr), Or(Shl(nh, u, w), Shr(nl, sr)), w));
  }

  lemma CutAtHalf(nh: nat, nl: nat, b: nat, w: nat)
    requires 0 < w && nh < Pow2(w) && nl < Pow2(w) && 0 < b < Pow2(w + w)
    requires BitLen(Join(nh, nl, w)) + 1 == BitLen(b) + w
    ensures Correct(Started(w, Join(nl, 0, w), Join(0, nh, w)), Join(nh, nl, w), b, w)
  {
    HalvesOfJoin(nh, nl, w);
    ShrZero(w);
    CanStart(Join(nh, nl, w), b, w, w, Join(nl, 0, w), Join(0, nh, w));
  }

  lemma CutAbove(nh: nat, nl: nat, b: nat, k: nat, u: nat, w: nat)
    requires w == k + u && nh < Pow2(w) && nl < Pow2(w) && 0 < b < Pow2(w + w) && w > 0
    requires BitLen(Join(nh, nl, w)) + 1 == BitLen(b) + (w + k)
    ensures Correct(Started(w + k, Join(Or(Shl(nh, u, w), Shr(nl, k)), Shl(nl, u, w), w), Join(0, Shr(nh, k), w)),
                    Join(nh, nl, w), b, w)
  {
    HalvesOfJoin(nh, nl, w);
    HalvesRegisterHigh(nh, nl, k, u, w);
    LowOfJoin(nh, nl, w, k);
    ShrZero(w);
    CanStart(Join(nh, nl, w), b, w, w + k, Join(Or(Shl(nh, u, w), Shr(nl, k)), Shl(nl, u, w), w),
             Join(0, Shr(nh, k), w));
  }

  lemma CutUpperHalf(nh: nat, nl: nat, b: nat, sr: nat, w: nat)
    requires w < sr < w + w && nh < Pow2(w) && nl < Pow2(w) && 0 < b < Pow2(w + w)
    requires BitLen(Join(nh, nl, w)) + 1 == BitLen(b) + sr
    ensures Correct(Started(sr, Join(Or(Shl(nh, w + w - sr, w), Shr(nl, sr - w)), Shl(nl, w + w - sr, w), w),
                            Join(0, Shr(nh, sr - w), w)), Join(nh, nl, w), b, w)
  {
    CutAbove(nh, nl, b, sr - w, w + w - sr, w);
  }

  /** K 0 / K 0: only the high halves matter. */
  method PrepareHighByHigh(nh: nat, dh: nat, w: nat) returns (p: Prepared)
    requires 0 < dh
    ensures Correct(p, Join(nh, 0, w), Join(dh, 0, w), w)
  {
    var q, r := nh / dh, nh % dh;
    DividesIsDivMod(nh, dh, q, r);
    HighDivisor(nh, 0, dh, q, r, w);
    p := Finished(q, Join(r, 0, w));
  }

  /** K K / K 0, not a power of two. */
  method PrepareHighGeneral(nh: nat, nl: nat, dh: nat, w: nat) returns (p: Prepared)
    requires 2 <= w <= 32 && 0 < nh < Pow2(w) && nl < Pow2(w) && 0 < dh < Pow2(w) && And(dh, dh - 1) != 0
    ensures Correct(p, Join(nh, nl, w), Join(dh, 0, w), w)
  {
    HalvesOfJoin(dh, 0, w);
    var sr: nat := UnsignedDiff(Clz(dh, w), Clz(nh, w));
    UpperHalvesShift(nh, nl, dh, 0, w);
    BitLenJoin(dh, 0, w);
    if sr > w - 2 {
      assert sr != w - 1;
      BelowDivisor(Join(nh, nl, w), Join(dh, 0, w), w);
      return Finished(0, Join(nh, nl, w));
    }
    sr := sr + 1;
    assert 0 < sr < w;
    CutBelow(nh, nl, Join(dh, 0, w), sr, w - sr, w);
    p := Started(sr, Join(Shl(nl, w - sr, w), 0, w), Join(Shr(nh, sr), Or(Shl(nh, w - sr, w), Shr(nl, sr)), w));
  }

  /** K K / K 0: the divisor's low half is zero. */
  method PrepareHighDivisor(nh: nat, nl: nat, dh: nat, w: nat) returns (p: Prepared)
    requires 2 <= w <= 32 && 0 < nh < Pow2(w) && nl < Pow2(w) && 0 < dh < Pow2(w)
    ensures Correct(p, Join(nh, nl, w), Join(dh, 0, w), w)
  {
    if nl == 0 {
      p := PrepareHighByHigh(nh, dh, w);
      return;
    }
    if And(dh, dh - 1) == 0 {
      PowerOfTwoDivision(nh, dh);
      HighDivisor(nh, nl, dh, Shr(nh, Ctz(dh)), And(nh, dh - 1), w);
      return Finished(Shr(nh, Ctz(dh)), Join(And(nh, dh - 1), nl, w));
    }
    p := PrepareHighGeneral(nh, nl, dh, w);
  }

  /** K X / 0 K, not a power of two: the cut may lie in either half. */
  method PrepareLowDivisor(nh: nat, nl: nat, dl: nat, w: nat) returns (p: Prepared)
    requires 2 <= w <= 32 && 0 < nh < Pow2(w) && nl < Pow2(w) && 0 < dl < Pow2(w) && And(dl, dl - 1) != 0
    ensures Correct(p, Join(nh, nl, w), dl, w)
  {
    var sr: nat := 1 + w + Clz(dl, w) - Clz(nh, w);
    LowDivisorShift(nh, nl, dl, w);
    if sr == w {
      CutAtHalf(nh, nl, dl, w);
      p := Started(sr, Join(nl, 0, w), Join(0, nh, w));
    } else if sr < w {
      CutBelow(nh, nl, dl, sr, w - sr, w);
      p := Started(sr, Join(Shl(nl, w - sr, w), 0, w), Join(Shr(nh, sr), Or(Shl(nh, w - sr, w), Shr(nl, sr)), w));
    } else {
      assert w < sr < w + w;
      CutUpperHalf(nh, nl, dl, sr, w);
      p := Started(sr, Join(Or(Shl(nh, w + w - sr, w), Shr(nl, sr - w)), Shl(nl, w + w - sr, w), w),
                   Join(0, Shr(nh, sr - w), w));
    }
  }

  /** K X / 0 K: the divisor fits in the low half. */
  method PrepareShortDivisor(nh: nat, nl: nat, dl: nat, w: nat) returns (p: Prepared)
    requires 2 <= w <= 32 && 0 < nh < Pow2(w) && nl < Pow2(w) && 0 < dl < Pow2(w)
    ensures Correct(p, Join(nh, nl, w), dl, w)
  {
    if And(dl, dl - 1) == 0 {
      LowDivisorPower(nh, nl, dl, w);
      if dl == 1 {
        return Finished(Join(nh, nl, w), And(nl, dl - 1));
      }
      var sr := Ctz(dl);
      EvenPower(dl);
      assert 0 < sr < w;
      return Finished(Join(Shr(nh, sr), Or(Shl(nh, w - sr, w), Shr(nl, sr)), w), And(nl, dl - 1));
    }
    p := PrepareLowDivisor(nh, nl, dl, w);
  }

  lemma EvenPower(d: nat)
    requires d > 1 && And(d, d - 1) == 0
    ensures Ctz(d) > 0
  {
    PowerOfTwoTest(d);
    assert Pow2(0) == 1;
  }

  lemma LowDivisorPower(nh: nat, nl: nat, dl: nat, w: nat)
    requires nl < Pow2(w) && 0 < dl < Pow2(w) && And(dl, dl - 1) == 0
    ensures var k, a := Ctz(dl), Join(nh, nl, w);
            && k < w
            && Correct(Finished(Join(Shr(nh, k), Or(Shl(nh, w - k, w), Shr(nl, k)), w), And(nl, dl - 1)), a, dl, w)
            && (dl == 1 ==> Correct(Finished(a, And(nl, dl - 1)), a, dl, w))
  {
    var k, a := Ctz(dl), Join(nh, nl, w);
    PowerOfTwoTest(dl);
    if k >= w { Pow2AtMost(w, k); }
    PowerOfTwoDivision(a, dl);
    AndLowMask(nl, k);
    AndLowMask(a, k);
    LowOfLow(nh, nl, w, k);
    HalvesShiftRight(nh, nl, k, w - k, w);
  }

  lemma LowDivisorShift(nh: nat, nl: nat, dl: nat, w: nat)
    requires 2 <= w <= 32 && 0 < nh < Pow2(w) && nl < Pow2(w) && 0 < dl < Pow2(w) && And(dl, dl - 1) != 0
    ensures var sr := 1 + w + Clz(dl, w) - Clz(nh, w);
            && 2 <= sr < w + w
            && BitLen(Join(nh, nl, w)) + 1 == BitLen(dl) + sr
            && dl < Pow2(w + w)
  {
    BitLenJoin(nh, nl, w);
    BitLenFits(nh, w);
    BitLenFits(dl, w);
    BitLenBounds(nh);
    BitLenBounds(dl);
    Pow2AtMost(w, w + w);
    assert dl >= 2;
  }

  /** K X / K K: both halves of the divisor are nonzero. */
  method PrepareFullDivisor(nh: nat, nl: nat, dh: nat, dl: nat, w: nat) returns (p: Prepared)
    requires 2 <= w <= 32 && 0 < nh < Pow2(w) && nl < Pow2(w) && 0 < dh < Pow2(w) && 0 < dl < Pow2(w)
    ensures Correct(p, Join(nh, nl, w), Join(dh, dl, w), w)
  {
    var sr: nat := UnsignedDiff(Clz(dh, w), Clz(nh, w));
    UpperHalvesShift(nh, nl, dh, dl, w);
    HalvesOfJoin(dh, dl, w);
    if sr > w - 1 {
      BelowDivisor(Join(nh, nl, w), Join(dh, dl, w), w);
      return Finished(0, Join(nh, nl, w));
    }
    sr := sr + 1;
    if sr == w {
      CutAtHalf(nh, nl, Join(dh, dl, w), w);
      p := Started(sr, Join(nl, 0, w), Join(0, nh, w));
    } else {
      assert 0 < sr < w;
      CutBelow(nh, nl, Join(dh, dl, w), sr, w - sr, w);
      p := Started(sr, Join(Shl(nl, w - sr, w), 0, w), Join(Shr(nh, sr), Or(Shl(nh, w - sr, w), Shr(nl, sr)), w));
    }
  }

  /** The special cases, in the order of the source. */
  method Prepare(nh: nat, nl: nat, dh: nat, dl: nat, w: nat) returns (p: Prepared)
    requires 2 <= w <= 32 && nh < Pow2(w) && nl < Pow2(w) && dh < Pow2(w) && dl < Pow2(w)
    requires dh > 0 || dl > 0
    ensures Correct(p, Join(nh, nl, w), Join(dh, dl, w), w)
  {
    SmallDividend(nl, dh, dl, w);
    if nh == 0 {
      if dh == 0 {
        DividesIsDivMod(nl, dl, nl / dl, nl % dl);
        return Finished(nl / dl, nl % dl);
      }
      return Finished(0, nl);
    }
    if dl == 0 {
      p := PrepareHighDivisor(nh, nl, dh, w);
    } else if dh == 0 {
      p := PrepareShortDivisor(nh, nl, dl, w);
    } else {
      p := PrepareFullDivisor(nh, nl, dh, dl, w);
    }
  }

  /** 0 X / 0 X and 0 X / K X. */
  lemma SmallDividend(nl: nat, dh: nat, dl: nat, w: nat)
    requires nl < Pow2(w) && dl < Pow2(w) && (dh > 0 || dl > 0)
    ensures Join(0, nl, w) == nl && Join(0, dl, w) == dl && Join(dh, dl, w) > 0
    ensures dh > 0 ==> Correct(Finished(0, nl), nl, Join(dh, dl, w), w)
  {
    ShrZero(w);
    if dh > 0 {
      UpOrder(1, dh, w);
      Pow2Add(0, w);
      BelowDivisor(nl, Join(dh, dl, w), w);
    }
  }

  // ---------- the loop and the routines ----------

  /** One pass in halves is one pass in double words. */
  lemma HalvesPass(n: nat, a: nat, d: nat, sr: nat, r: nat, q: nat, carry: nat, low: nat, w: nat)
    requires n == w + w && Dividing(n, a, d, sr, r, q, carry, low) && sr > 0
    ensures Join(Or(Shl(Shr(r, w), 1, w), Shr(Low(r, w), w - 1)),
                 Or(Shl(Low(r, w), 1, w), Shr(Shr(q, w), w - 1)), w) == Or(Shl(r, 1, n), Shr(q, n - 1))
    ensures Join(Or(Shl(Shr(q, w), 1, w), Shr(Low(q, w), w - 1)), Or(Shl(Low(q, w), 1, w), carry), w)
            == Or(Shl(q, 1, n), carry)
  {
    JoinHalves(r, w);
    JoinHalves(q, w);
    ShrShr(q, w, w - 1);
    TopBit(n, a, sr, q, low);
    HalvesShiftLeft(Shr(q, w), Low(q, w), carry, w);
    HalvesShiftLeft(Shr(r, w), Low(r, w), Shr(q, n - 1), w);
  }

  method DivideLoop(ghost a: nat, b: nat, sr0: nat, q0: nat, r0: nat, w: nat) returns (q: nat, rem: nat)
    requires w > 0 && Dividing(w + w, a, b, sr0, r0, q0, 0, 0)
    ensures q == a / b && rem == a % b
  {
    var n := w + w;
    var sr: nat := sr0;
    var carry := 0;
    var r: nat;
    q, r := q0, r0;
    ghost var low: nat := 0;
    while sr > 0
      invariant Dividing(n, a, b, sr, r, q, carry, low)
    {
      HalvesPass(n, a, b, sr, r, q, carry, low, w);
      PassKeepsDivision(n, a, b, sr, r, q, carry, low);
      r := Join(Or(Shl(Shr(r, w), 1, w), Shr(Low(r, w), w - 1)), Or(Shl(Low(r, w), 1, w), Shr(Shr(q, w), w - 1)), w);
      q := Join(Or(Shl(Shr(q, w), 1, w), Shr(Low(q, w), w - 1)), Or(Shl(Low(q, w), 1, w), carry), w);
      low := 2 * low + carry;
      var s := SignMask(Sub(Sub(b, r, n), 1, n), n);
      carry := And(s, 1);
      r := Sub(r, And(b, s), n);
      sr := sr - 1;
    }
    FinishDivision(n, a, b, r, q, carry, low);
    q := Or(Shl(q, 1, n), carry);
    rem := r;
  }

  /** __udivmoddi4 (w = 32): quotient and remainder of every double word by every nonzero one. */
  method UDivModDi4(a: nat, b: nat, w: nat) returns (q: nat, rem: nat)
    requires 2 <= w <= 32 && a < Pow2(w + w) && 0 < b < Pow2(w + w)
    ensures q == a / b && rem == a % b
  {
    JoinHalves(a, w);
    JoinHalves(b, w);
    ShrZero(w);
    var p := Prepare(Shr(a, w), Low(a, w), Shr(b, w), Low(b, w), w);
    match p {
      case Finished(quotient, remainder) =>
        q, rem := quotient, remainder;
        DividesIsDivMod(a, b, q, rem);
      case Started(sr, q0, r0) =>
        q, rem := DivideLoop(a, b, sr, q0, r0, w);
    }
  }

  // ---------- the signed routine ----------

  /** The signed value of a word. */
  lemma SignedWord(x: nat, n: nat)
    requires n > 0 && x < Pow2(n)
    ensures Signed(x, n) == if x >= Pow2(n - 1) then x - Pow2(n) else x
  {
    DivModUnique(x, Pow2(n), 0, x);
  }

  /** (x ^ s) - s negates when s is all ones. */
  lemma ConditionalNegate(x: nat, s: nat, n: nat)
    requires n > 0 && x < Pow2(n) && (s == 0 || s == Pow2(n) - 1)
    ensures Xor(x, s) < Pow2(n)
    ensures Sub(Xor(x, s), s, n) == if s == 0 || x == 0 then x else Pow2(n) - x
  {
    if s == 0 { XorZero(x); } else { XorAllOnes(x, n); }
  }

  /** s_b ^ s_a is all ones exactly when the signs differ. */
  lemma SignOfQuotient(sa: nat, sb: nat, n: nat)
    requires (sa == 0 || sa == Pow2(n) - 1) && (sb == 0 || sb == Pow2(n) - 1)
    ensures Xor(sb, sa) == if sa == sb then 0 else Pow2(n) - 1
  {
    if sa == 0 { XorZero(sb); } else { XorAllOnes(sb, n); }
  }

  /** q and r divide x by y towards zero. */
  ghost predicate DividesTowardsZero(x: int, y: int, q: int, r: int) {
    x == q * y + r && Abs(r) < Abs(y) && (x < 0 ==> r <= 0) && (x >= 0 ==> r >= 0)
  }

  /** The smallest signed value of n bits. */
  function MinSigned(n: nat): int
    requires n > 0
  {
    var p: int := Pow2(n - 1);
    -p
  }

  lemma NegateMul(q: int, b: int)
    ensures (-q) * b == -(q * b) && q * (-b) == -(q * b) && (-q) * (-b) == q * b
  {}

  /** The division of the magnitudes, with its signs put back, divides towards zero. */
  lemma SignedDivision(x: int, y: int, t: int, m: int)
    requires y != 0 && 0 <= t && 0 <= m && Abs(x) == t * Abs(y) + m && m < Abs(y)
    ensures DividesTowardsZero(x, y, if (x < 0) == (y < 0) then t else -t, if x < 0 then -m else m)
  {
    NegateMul(t, y);
  }

  /** Truncated division is unique, so a quotient off by more than nothing is wrong. */
  lemma TowardsZeroUnique(x: int, y: int, q: int, r: int, q': int, r': int)
    requires y != 0 && DividesTowardsZero(x, y, q, r) && DividesTowardsZero(x, y, q', r')
    ensures q == q' && r == r'
  {
    MulDist(q, q', y);
    NegateMul(q - q', y);
    if y > 0 { SmallMultiple(q - q', y); } else { SmallMultiple(q - q', -y); }
  }

  /** Only MIN / -1 has a quotient that does not fit. */
  lemma QuotientFits(x: int, y: int, t: int, m: int, n: nat)
    requires n > 1 && 0 <= t && 0 <= m && y != 0 && MinSigned(n) <= x < Pow2(n - 1)
    requires Abs(x) == t * Abs(y) + m && m < Abs(y)
    ensures t <= Pow2(n - 1)
    ensures t == Pow2(n - 1) <==> x == MinSigned(n) && Abs(y) == 1
  {
    MulMono(1, Abs(y), t);
    if Abs(y) >= 2 { MulMono(2, Abs(y), t); }
  }

  /** __divmoddi4: the quotient is truncated towards zero, except for MIN / -1, where it wraps. */
  method DivModDi4(a: nat, b: nat, w: nat) returns (q: nat, rem: nat)
    requires 2 <= w <= 32 && a < Pow2(w + w) && 0 < b < Pow2(w + w)
    ensures q < Pow2(w + w) && rem < Pow2(w + w)
    ensures DividesTowardsZero(Signed(a, w + w), Signed(b, w + w), Signed(q, w + w), Signed(rem, w + w))
            <==> !(Signed(a, w + w) == MinSigned(w + w) && Signed(b, w + w) == -1)
  {
    var n := w + w;
    SignedWord(a, n);
    SignedWord(b, n);
    var sa, sb := SignMask(a, n), SignMask(b, n);
    ConditionalNegate(a, sa, n);
    ConditionalNegate(b, sb, n);
    var ua, ub := Sub(Xor(a, sa), sa, n), Sub(Xor(b, sb), sb, n);
    SignOfQuotient(sa, sb, n);
    sb := Xor(sb, sa);
    var uq, r := UDivModDi4(ua, ub, w);
    DividesIsDivMod(ua, ub, uq, r);
    WordsOfSignedDivision(a, b, uq, r, n);
    q := Sub(Xor(uq, sb), sb, n);
    rem := Sub(Xor(r, sa), sa, n);
  }

  /** Putting the signs back on words of n bits. */
  lemma WordsOfSignedDivision(a: nat, b: nat, t: nat, m: nat, n: nat)
    requires n > 1 && a < Pow2(n) && 0 < b < Pow2(n)
    requires Divides(Abs(Signed(a, n)), Abs(Signed(b, n)), t, m)
    ensures t < Pow2(n) && m < Pow2(n)
    ensures var sa, sb := SignMask(a, n), if SignMask(a, n) == SignMask(b, n) then 0 else Pow2(n) - 1;
            && Xor(t, sb) < Pow2(n) && Xor(m, sa) < Pow2(n)
            && var q, rem := Sub(Xor(t, sb), sb, n), Sub(Xor(m, sa), sa, n);
            DividesTowardsZero(Signed(a, n), Signed(b, n), Signed(q, n), Signed(rem, n))
            <==> !(Signed(a, n) == MinSigned(n) && Signed(b, n) == -1)
  {
    SignedWord(a, n);
    SignedWord(b, n);
    var x, y := Signed(a, n), Signed(b, n);
    var sa, sb := SignMask(a, n), if SignMask(a, n) == SignMask(b, n) then 0 else Pow2(n) - 1;
    TimesIsMul(t, Abs(y));
    QuotientFits(x, y, t, m, n);
    ConditionalNegate(t, sb, n);
    ConditionalNegate(m, sa, n);
    var q, rem := Sub(Xor(t, sb), sb, n), Sub(Xor(m, sa), sa, n);
    var tt: int, mm: int := t, m;
    var trueq, truer := if (x < 0) == (y < 0) then tt else -tt, if x < 0 then -mm else mm;
    SignedDivision(x, y, t, m);
    SignedWord(q, n);
    SignedWord(rem, n);
    assert Signed(rem, n) == truer;
    if x == MinSigned(n) && y == -1 {
      assert Signed(q, n) != trueq;
      if DividesTowardsZero(x, y, Signed(q, n), Signed(rem, n)) {
        TowardsZeroUnique(x, y, Signed(q, n), Signed(rem, n), trueq, truer);
      }
    } else {
      assert Signed(q, n) == trueq;
    }
  }
}
