/** The bitwise division of the compiler runtime, at any width: the shift-subtract loop, and the quotient and the
    remainder it is used for. */
module ShiftSubtract {
  import opened Words

  // ---------- one step of the loop, at any width ----------

  /** The state in the middle of a shift-subtract division of a by d in words of n bits, with sr
      dividend bits still to come: r is the remainder of the upper bits, the register q holds the
      lower sr bits of a at its top and the quotient found so far, without its last bit, below them;
      carry is that last bit. */
  ghost predicate Dividing(n: nat, a: nat, d: nat, sr: nat, r: nat, q: nat, carry: nat, low: nat) {
    && 0 < n && sr <= n && a < Pow2(n)
    && r < d < Pow2(n) && carry <= 1 && low < Pow2(n - sr)
    && q == Up(Low(a, sr), n - sr) + low
    && Shr(a, sr) == Times(2 * low + carry, d) + r
    && (d > Pow2(n - 1) ==> sr <= 1 && a >= Pow2(n - 1))
  }

  /** q * d as a repeated sum. */
  ghost function Times(q: nat, d: nat): nat {
    if q == 0 then 0 else d + Times(q - 1, d)
  }

  lemma {:induction false} TimesIsMul(q: nat, d: nat)
    ensures Times(q, d) == q * d
  {
    if q != 0 {
      TimesIsMul(q - 1, d);
      MulDist(q, 1, d);
    }
  }

  lemma {:induction false} TimesTwice(q: nat, d: nat)
    ensures Times(2 * q, d) == 2 * Times(q, d)
  {
    if q != 0 {
      TimesTwice(q - 1, d);
      assert Times(2 * q, d) == d + (d + Times(2 * q - 2, d));
    }
  }

  /** The sign bit of d - r - 1 says whether r >= d. */
  lemma MaskIsComparison(d: nat, r: nat, n: nat)
    requires n > 0 && d < Pow2(n) && r < Pow2(n) && r < 2 * d
    requires d > Pow2(n - 1) ==> d - r <= Pow2(n - 1)
    ensures SignMask(Sub(Sub(d, r, n), 1, n), n) == if r >= d then Pow2(n) - 1 else 0
  {}

  /** Adding the mask's effect: subtract d exactly when r >= d, and note it in the carry. */
  lemma MaskedSubtract(d: nat, r: nat, n: nat)
    requires n > 0 && d < Pow2(n) && r < Pow2(n) && r < 2 * d
    requires d > Pow2(n - 1) ==> d - r <= Pow2(n - 1)
    ensures var s := SignMask(Sub(Sub(d, r, n), 1, n), n);
            && And(s, 1) == (if r >= d then 1 else 0)
            && And(d, s) < Pow2(n)
            && Sub(r, And(d, s), n) == if r >= d then r - d else r
  {
    MaskIsComparison(d, r, n);
    AndAllOnes(d, n);
    assert (Pow2(n) - 1) % 2 == 1;
  }

  /** The next dividend bit. */
  function NextBit(a: nat, sr: nat): (b: nat)
    requires sr > 0
    ensures b <= 1
  {
    Shr(a, sr - 1) % 2
  }

  lemma {:induction false} NextBitSplits(a: nat, sr: nat)
    requires sr > 0
    ensures Shr(a, sr - 1) == 2 * Shr(a, sr) + NextBit(a, sr)
    ensures Low(a, sr) == Up(NextBit(a, sr), sr - 1) + Low(a, sr - 1)
  {
    if sr > 1 { NextBitSplits(a / 2, sr - 1); }
  }

  /** The bit that leaves the register when it is shifted once to the left. */
  lemma TopBit(n: nat, a: nat, sr: nat, q: nat, low: nat)
    requires 0 < sr <= n && low < Pow2(n - sr) && q == Up(Low(a, sr), n - sr) + low
    ensures Shr(q, n - 1) == NextBit(a, sr)
    ensures Low(q, n - 1) == Up(Low(a, sr - 1), n - sr) + low
  {
    var b, l := NextBit(a, sr), Low(a, sr - 1);
    NextBitSplits(a, sr);
    UpAdd(Up(b, sr - 1), l, n - sr);
    UpUp(b, sr - 1, n - sr);
    Packed(l, low, sr - 1, n - sr);
    SplitUnique(q, n - 1, b, Up(l, n - sr) + low);
  }

  lemma Packed(h: nat, l: nat, a: nat, b: nat)
    requires h < Pow2(a) && l < Pow2(b)
    ensures Up(h, b) + l < Pow2(a + b)
  {
    UpAdd(h, 1, b);
    UpOrder(h + 1, Pow2(a), b);
    Pow2Add(a, b);
    Pow2Add(0, b);
  }

  /** Shifting a word of n bits left by one drops its top bit. */
  lemma ShiftOut(q: nat, n: nat)
    requires n > 0
    ensures Shl(q, 1, n) == 2 * Low(q, n - 1)
  {
    assert Up(q, 1) == 2 * q;
  }

  /** The partial remainder with the next bit appended stays within the word. */
  lemma NextRemainder(n: nat, a: nat, d: nat, sr: nat, r: nat, q: nat, carry: nat, low: nat)
    requires Dividing(n, a, d, sr, r, q, carry, low) && sr > 0
    ensures var r1 := 2 * r + NextBit(a, sr);
            && r1 < Pow2(n)
            && Shr(a, sr - 1) == 2 * Times(2 * low + carry, d) + r1
            && (d > Pow2(n - 1) ==> d - r1 <= Pow2(n - 1))
  {
    NextBitSplits(a, sr);
    ShrShrinks(a, sr - 1);
  }

  lemma {:induction false} ShrShrinks(x: nat, s: nat)
    ensures Shr(x, s) <= x
  {
    if s != 0 { ShrShrinks(x / 2, s - 1); }
  }

  lemma ShiftIn(r: nat, bit: nat, n: nat)
    requires bit <= 1 && 2 * r + bit < Pow2(n)
    ensures Or(Shl(r, 1, n), bit) == 2 * r + bit
  {
    assert Up(r, 1) == 2 * r;
    LowSmall(2 * r, n);
    OrConcat(r, bit, 1);
  }

  /** The register after a pass: one dividend bit fewer, one quotient bit more. */
  lemma RegisterStep(n: nat, a: nat, sr: nat, q: nat, carry: nat, low: nat)
    requires 0 < sr <= n && low < Pow2(n - sr) && q == Up(Low(a, sr), n - sr) + low && carry <= 1
    ensures Or(Shl(q, 1, n), carry) == Up(Low(a, sr - 1), n - (sr - 1)) + (2 * low + carry)
  {
    TopBit(n, a, sr, q, low);
    ShiftOut(q, n);
    var l := Low(q, n - 1);
    assert Up(l, 1) == 2 * l;
    OrConcat(l, carry, 1);
  }

  lemma TimesStep(quot: nat, c: nat, d: nat)
    requires c <= 1
    ensures Times(2 * quot + c, d) == 2 * Times(quot, d) + (if c == 1 then d else 0)
  {
    TimesTwice(quot, d);
    if c == 1 { assert Times(2 * quot + 1, d) == d + Times(2 * quot, d); }
  }

  /** Bringing in the next bit and subtracting d once if it fits keeps the state of the division. */
  lemma StepKeepsDivision(n: nat, a: nat, d: nat, sr: nat, r: nat, q: nat, carry: nat, low: nat)
    requires Dividing(n, a, d, sr, r, q, carry, low) && sr > 0
    ensures var r1, q1 := 2 * r + NextBit(a, sr), Or(Shl(q, 1, n), carry);
            if r1 >= d then Dividing(n, a, d, sr - 1, r1 - d, q1, 1, 2 * low + carry)
            else Dividing(n, a, d, sr - 1, r1, q1, 0, 2 * low + carry)
  {
    NextRemainder(n, a, d, sr, r, q, carry, low);
    RegisterStep(n, a, sr, q, carry, low);
    TimesStep(2 * low + carry, 0, d);
    TimesStep(2 * low + carry, 1, d);
  }

  /** The same, in the words of the loop body. */
  lemma PassKeepsDivision(n: nat, a: nat, d: nat, sr: nat, r: nat, q: nat, carry: nat, low: nat)
    requires Dividing(n, a, d, sr, r, q, carry, low) && sr > 0
    ensures Or(Shl(r, 1, n), Shr(q, n - 1)) < Pow2(n)
    ensures var r1 := Or(Shl(r, 1, n), Shr(q, n - 1));
            var s := SignMask(Sub(Sub(d, r1, n), 1, n), n);
            && And(d, s) < Pow2(n)
            && Dividing(n, a, d, sr - 1, Sub(r1, And(d, s), n), Or(Shl(q, 1, n), carry), And(s, 1), 2 * low + carry)
  {
    var r1 := 2 * r + NextBit(a, sr);
    assert Or(Shl(r, 1, n), Shr(q, n - 1)) == r1 < Pow2(n) by {
      TopBit(n, a, sr, q, low);
      NextRemainder(n, a, d, sr, r, q, carry, low);
      ShiftIn(r, NextBit(a, sr), n);
    }
    NextRemainder(n, a, d, sr, r, q, carry, low);
    MaskedSubtract(d, r1, n);
    StepKeepsDivision(n, a, d, sr, r, q, carry, low);
  }

  /** The upper part of the dividend, cut one bit shorter than the divisor, is below the divisor. */
  lemma UpperPartBelow(a: nat, d: nat, sr: nat)
    requires d > 0 && sr > 0 && BitLen(a) + 1 == BitLen(d) + sr
    ensures Shr(a, sr) < d
  {
    BitLenBounds(d);
    if BitLen(a) >= sr {
      BitLenShr(a, sr);
      BitLenOrder(Shr(a, sr), d);
    } else {
      BitLenAtMost(a, sr);
      LowSmall(a, sr);
    }
  }

  lemma BitLenAtMost(a: nat, n: nat)
    requires BitLen(a) <= n
    ensures a < Pow2(n)
  {
    if a > 0 {
      BitLenBounds(a);
      Pow2AtMost(BitLen(a), n);
    }
  }

  /** Before the first pass: the dividend is cut at sr, chosen so that the upper part is below d. */
  lemma StartDivision(n: nat, a: nat, d: nat, sr: nat)
    requires 0 < d < Pow2(n) && a < Pow2(n) && 0 < sr <= n
    requires BitLen(a) + 1 == BitLen(d) + sr
    ensures Dividing(n, a, d, sr, Shr(a, sr), Up(Low(a, sr), n - sr), 0, 0)
  {
    UpperPartBelow(a, d, sr);
    if d > Pow2(n - 1) {
      BitLenUnique(d, n);
      BitLenFits(a, n);
      BitLenBounds(a);
    }
  }

  lemma FinishDivision(n: nat, a: nat, d: nat, r: nat, q: nat, carry: nat, low: nat)
    requires Dividing(n, a, d, 0, r, q, carry, low)
    ensures Or(Shl(q, 1, n), carry) == a / d && r == a % d
  {
    ShrZero(n);
    var quot := 2 * low + carry;
    TimesIsMul(quot, d);
    assert quot <= quot * d by { MulMono(1, d, quot); }
    ShiftIn(q, carry, n);
    DivModUnique(a, d, quot, r);
  }

  // ---------- the parametric loop ----------

  /** The loop that __udivXi3 and __umodXi3 share: sr passes over the register n and remainder r. */
  method ShiftSubtractLoop(ghost a: nat, d: nat, sr0: nat, r0: nat, n0: nat, bits: nat)
    returns (r: nat, n: nat, carry: nat)
    requires sr0 <= bits
    requires Dividing(bits, a, d, sr0, r0, n0, 0, 0)
    ensures Or(Shl(n, 1, bits), carry) == a / d && r == a % d
  {
    var sr: nat := sr0;
    r, n, carry := r0, n0, 0;
    ghost var low: nat := 0;
    while sr > 0
      invariant Dividing(bits, a, d, sr, r, n, carry, low)
    {
      PassKeepsDivision(bits, a, d, sr, r, n, carry, low);
      r := Or(Shl(r, 1, bits), Shr(n, bits - 1));
      n := Or(Shl(n, 1, bits), carry);
      var s := SignMask(Sub(Sub(d, r, bits), 1, bits), bits);
      low := 2 * low + carry;
      carry := And(s, 1);
      r := Sub(r, And(d, s), bits);
      sr := sr - 1;
    }
    FinishDivision(bits, a, d, r, n, carry, low);
  }

  /** __udivXi3 at any width up to 64 bits. */
  method UDivXi3(a: nat, d: nat, bits: nat) returns (res: nat)
    requires 0 < bits <= 64
    requires a < Pow2(bits) && 0 < d < Pow2(bits)
    ensures res == a / d
  {
    var sr: nat := UnsignedDiff(Clz(d, bits), Clz(a, bits));
    ShiftDecides(a, d, bits);
    if sr > bits - 1 {
      return 0;
    }
    if sr == bits - 1 {
      return a;
    }
    sr := sr + 1;
    assert 0 < sr < bits;
    var r, n, carry := ShiftSubtractLoop(a, d, sr, Shr(a, sr), Shl(a, bits - sr, bits), bits);
    res := Or(Shl(n, 1, bits), carry);
  }

  /** __umodXi3 at any width up to 64 bits. */
  method UModXi3(a: nat, d: nat, bits: nat) returns (res: nat)
    requires 0 < bits <= 64
    requires a < Pow2(bits) && 0 < d < Pow2(bits)
    ensures res == a % d
  {
    var sr: nat := UnsignedDiff(Clz(d, bits), Clz(a, bits));
    ShiftDecides(a, d, bits);
    if sr > bits - 1 {
      return a;
    }
    if sr == bits - 1 {
      return 0;
    }
    sr := sr + 1;
    assert 0 < sr < bits;
    var r, n, carry := ShiftSubtractLoop(a, d, sr, Shr(a, sr), Shl(a, bits - sr, bits), bits);
    res := r;
  }

  /** What the difference of leading-zero counts says: wrapped means a < d, the largest value means
      d == 1, and any other value starts the loop. */
  lemma SizeOfShift(a: nat, d: nat, bits: nat)
    requires 0 < bits < 0x1000 && a < Pow2(bits) && 0 < d < Pow2(bits)
    ensures var sr := UnsignedDiff(Clz(d, bits), Clz(a, bits));
            && (sr > bits - 1 ==> a < d)
            && (sr == bits - 1 ==> d == 1)
            && (sr <= bits - 1 ==> BitLen(a) + 1 == BitLen(d) + (sr + 1))
  {
    BitLenFits(a, bits);
    BitLenFits(d, bits);
    BitLenBounds(d);
    if BitLen(a) < BitLen(d) { BitLenOrder(a, d); }
  }

  lemma TrivialDivisions(a: nat, d: nat)
    requires d > 0
    ensures a < d ==> a / d == 0 && a % d == a
    ensures d == 1 ==> a / d == a && a % d == 0
  {
    if a < d { DivModUnique(a, d, 0, a); }
  }

  /** Where __udivXi3 and __umodXi3 go for each value of the difference. */
  lemma ShiftDecides(a: nat, d: nat, bits: nat)
    requires 0 < bits < 0x1000 && a < Pow2(bits) && 0 < d < Pow2(bits)
    ensures var sr := UnsignedDiff(Clz(d, bits), Clz(a, bits));
            && (sr > bits - 1 ==> a / d == 0 && a % d == a)
            && (sr == bits - 1 ==> a / d == a && a % d == 0)
            && (sr < bits - 1 ==>
                  Dividing(bits, a, d, sr + 1, Shr(a, sr + 1), Shl(a, bits - (sr + 1), bits), 0, 0))
  {
    var sr := UnsignedDiff(Clz(d, bits), Clz(a, bits));
    SizeOfShift(a, d, bits);
    TrivialDivisions(a, d);
    if sr < bits - 1 {
      StartDivision(bits, a, d, sr + 1);
      ShlIsLow(a, bits - (sr + 1), sr + 1, bits);
    }
  }
}
