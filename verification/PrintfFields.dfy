/** The field of an integer: when the code, which has a buffer of 32 characters for it, puts out the one that
    section 7.21.6.1 of ISO/IEC 9899:2011 describes. */
module PrintfFields {
  import opened Units
  import opened Words
  import opened PrintfText
  import opened PrintfTheorems

  /** The field that the standard describes for an integer with these digits (the highest first): with a precision
      the digits are filled up with zeros; with '-' spaces follow; with '0', and no '-', zeros fill the field after
      the sign; otherwise spaces precede the sign. */
  function StandardField(digits: seq<char>, sign: seq<char>, prec: nat, width: nat, left: bool, zero: bool): seq<char> {
    var number := Copies('0', prec - |digits|) + digits;
    if left then sign + number + Copies(' ', width - |sign| - |number|)
    else if zero then sign + Copies('0', width - |sign| - |number|) + number
    else Copies(' ', width - |sign| - |number|) + sign + number
  }

  /** No 64-bit value has more digits, except in base 2. */
  const MOST_DIGITS: nat := 22

  lemma {:induction false} FewDigits(value: nat, base: nat, upper: bool, n: nat, k: nat)
    requires Base(base) && value < Power(base, k) && k > 0
    ensures |Digits(value, base, upper, n)| <= k
  {
    if n > 0 && Quotient(value, base) != 0 {
      SplitDigit(value, base);
      if k == 1 { assert Power(base, 0) == 1; }
      FewDigits(Quotient(value, base), base, upper, n - 1, k - 1);
    }
  }

  lemma WordFits(value: nat, base: nat, flags: Flags)
    requires Base(base) && base != 2 && value < W64
    ensures |Converted(value, base, flags)| <= MOST_DIGITS && value < Power(base, NTOA_BUFFER)
  {
    PowerIsLarge(base, MOST_DIGITS);
    PowerIsLarge(base, NTOA_BUFFER);
    Pow2AtMost(WORD, 3 * MOST_DIGITS);
    Pow2AtMost(WORD, 3 * NTOA_BUFFER);
    assert Pow2(WORD) == W64 by { Pow2Values(); }
    FewDigits(value, base, flags.upper, NTOA_BUFFER, MOST_DIGITS);
  }

  // ---------- the buffer, turned around ----------

  /** Zeros and a sign, put behind the digits and turned around. */
  lemma TurnedAround(buf: seq<char>, digits: seq<char>, zeros: int, sign: seq<char>)
    requires |sign| <= 1 && buf == digits + Copies('0', zeros) + sign
    ensures Reversed(buf) == sign + Copies('0', zeros) + Reversed(digits)
  {}

  lemma TurnedSign(buf: seq<char>, digits: seq<char>, sign: seq<char>)
    requires |sign| <= 1 && buf == digits + sign
    ensures Reversed(buf) == sign + Reversed(digits)
  {}

  lemma NoCopies(s: seq<char>, c: char, n: int)
    requires n <= 0
    ensures s + Copies(c, n) == s && Copies(c, n) + s == s
  {}

  lemma PaddedTo(digits: seq<char>, n: nat)
    requires n <= NTOA_BUFFER
    ensures ZeroPadded(digits, n) == digits + Copies('0', n - |digits|)
  {}

  /** The sign is put behind the digits when there is room, or nothing to put. */
  lemma SignAppended(digits: seq<char>, padded: seq<char>, negative: bool, prec: nat, width: nat, flags: Flags)
    requires padded == WithZeros(digits, negative, prec, width, flags)
    requires |padded| < NTOA_BUFFER || Sign(negative, flags) == []
    ensures Formatted(digits, negative, prec, width, flags) == padded + Sign(negative, flags)
  {
    assert padded + [] == padded;
  }

  // ---------- left-justified fields ----------

  lemma FieldLeft(buf: seq<char>, width: nat, flags: Flags)
    requires flags.left
    ensures Field(buf, width, flags) == Reversed(buf) + Copies(' ', width - |buf|)
  {
    assert [] + Reversed(buf) == Reversed(buf);
  }

  /** A left-justified field: the source leaves the zeros of the precision out. */
  lemma LeftField(digits: seq<char>, negative: bool, prec: nat, width: nat, flags: Flags)
    requires |digits| < NTOA_BUFFER && flags.left
    ensures FormattedField(digits, negative, prec, width, flags)
            == Sign(negative, flags) + Reversed(digits) + Copies(' ', width - |Sign(negative, flags)| - |digits|)
  {
    var buf, sign := Formatted(digits, negative, prec, width, flags), Sign(negative, flags);
    SignAppended(digits, digits, negative, prec, width, flags);
    TurnedSign(buf, digits, sign);
    FieldLeft(buf, width, flags);
  }

  /** Where the left-justified fields differ: a space, against a zero or a digit. */
  lemma NoSpaceThere(digits: seq<char>, prec: nat)
    requires prec > |digits| && ' ' !in digits
    ensures |Copies('0', prec - |digits|) + Reversed(digits)| == prec
    ensures (Copies('0', prec - |digits|) + Reversed(digits))[|digits|] != ' '
  {
    var n := prec - |digits|;
    if |digits| >= n { assert Reversed(digits)[|digits| - n] == digits[n - 1]; }
  }

  lemma AtOffset(a: seq<char>, b: seq<char>, c: seq<char>, k: nat)
    requires k < |b| + |c|
    ensures (a + b + c)[|a| + k] == if k < |b| then b[k] else c[k - |b|]
  {}

  /** Without the zeros the field is another one. */
  lemma ZerosMissing(digits: seq<char>, negative: bool, prec: nat, width: nat, flags: Flags)
    requires |digits| < NTOA_BUFFER && flags.left && prec > |digits| && ' ' !in digits
    ensures FormattedField(digits, negative, prec, width, flags)
            != StandardField(Reversed(digits), Sign(negative, flags), prec, width, flags.left, flags.zeropad)
  {
    LeftField(digits, negative, prec, width, flags);
    NoSpaceThere(digits, prec);
    var sign, n := Sign(negative, flags), |digits|;
    var number := Copies('0', prec - n) + Reversed(digits);
    if width > |sign| + n { AtOffset(sign, Reversed(digits), Copies(' ', width - |sign| - n), n); }
    AtOffset(sign, number, Copies(' ', width - |sign| - prec), n);
  }

  // ---------- right-justified fields with spaces ----------

  /** The buffer has room for so many digits, and for the sign. */
  predicate RoomFor(prec: nat, sign: seq<char>) {
    prec < NTOA_BUFFER || (prec == NTOA_BUFFER && sign == [])
  }

  lemma RightBuffer(digits: seq<char>, negative: bool, prec: nat, width: nat, flags: Flags)
    requires |digits| < NTOA_BUFFER && !flags.left && !flags.zeropad && RoomFor(prec, Sign(negative, flags))
    ensures Formatted(digits, negative, prec, width, flags) == digits + Copies('0', prec - |digits|)
            + Sign(negative, flags)
  {
    PaddedTo(digits, prec);
    SignAppended(digits, ZeroPadded(digits, prec), negative, prec, width, flags);
  }

  lemma RightField(digits: seq<char>, negative: bool, prec: nat, width: nat, flags: Flags)
    requires |digits| < NTOA_BUFFER && !flags.left && !flags.zeropad && RoomFor(prec, Sign(negative, flags))
    ensures FormattedField(digits, negative, prec, width, flags)
            == StandardField(Reversed(digits), Sign(negative, flags), prec, width, flags.left, flags.zeropad)
  {
    var sign, zeros := Sign(negative, flags), Copies('0', prec - |digits|);
    var buf := Formatted(digits, negative, prec, width, flags);
    assert Reversed(buf) == sign + zeros + Reversed(digits) by {
      RightBuffer(digits, negative, prec, width, flags);
      TurnedAround(buf, digits, prec - |digits|, sign);
    }
    RightParts(buf, sign, zeros, Reversed(digits), width, flags);
    StandardParts(sign, Reversed(digits), zeros, prec, width);
  }

  lemma RightParts(buf: seq<char>, sign: seq<char>, zeros: seq<char>, digits: seq<char>, width: nat, flags: Flags)
    requires !flags.left && !flags.zeropad && Reversed(buf) == sign + zeros + digits
    ensures Field(buf, width, flags) == Copies(' ', width - |sign| - |zeros + digits|) + sign + (zeros + digits)
  {
    var n := width - |sign| - |zeros + digits|;
    assert n == width - |buf|;
    FieldWithSpaces(buf, n, width, flags);
    Assemble(Field(buf, width, flags), Copies(' ', n), Reversed(buf), sign, zeros, digits);
  }

  lemma Assemble(field: seq<char>, spaces: seq<char>, turned: seq<char>, sign: seq<char>, zeros: seq<char>,
                 digits: seq<char>)
    requires field == spaces + turned && turned == sign + zeros + digits
    ensures field == spaces + sign + (zeros + digits)
  {}

  lemma FieldWithSpaces(buf: seq<char>, n: int, width: nat, flags: Flags)
    requires !flags.left && !flags.zeropad && n == width - |buf|
    ensures Field(buf, width, flags) == Copies(' ', n) + Reversed(buf)
  {}

  lemma StandardParts(sign: seq<char>, digits: seq<char>, zeros: seq<char>, prec: nat, width: nat)
    requires zeros == Copies('0', prec - |digits|)
    ensures StandardField(digits, sign, prec, width, false, false)
            == Copies(' ', width - |sign| - |zeros + digits|) + sign + (zeros + digits)
  {}

  /** The buffer is full of digits, and has no room for the sign. */
  lemma FullBuffer(digits: seq<char>, negative: bool, prec: nat, width: nat, flags: Flags)
    requires |digits| <= MOST_DIGITS && !flags.left && !flags.zeropad && prec >= NTOA_BUFFER
    ensures FormattedField(digits, negative, prec, width, flags)
            == Copies(' ', width - NTOA_BUFFER) + (Copies('0', NTOA_BUFFER - |digits|) + Reversed(digits))
  {
    var zeros := NTOA_BUFFER - |digits|;
    var buf := digits + Copies('0', zeros);
    assert Formatted(digits, negative, prec, width, flags) == buf;
    assert buf == buf + [];
    TurnedAround(buf, digits, zeros, []);
    assert [] + Copies('0', zeros) == Copies('0', zeros);
    FieldWithSpaces(buf, width - NTOA_BUFFER, width, flags);
  }

  /** Spaces and so many characters are no field with a longer number. */
  lemma LongerNumber(lead: seq<char>, kept: seq<char>, before: seq<char>, number: seq<char>)
    requires |kept| < |number| && ' ' !in number && forall k :: 0 <= k < |lead| ==> lead[k] == ' '
    ensures lead + kept != before + number
  {
    if lead != [] { assert (lead + kept)[|lead| - 1] == lead[|lead| - 1]; }
    var n := |before| + |number| - |kept| - 1;
    assert (before + number)[n] == number[n - |before|] && number[n - |before|] in number;
  }

  lemma NoSpaces(digits: seq<char>, n: int)
    requires ' ' !in digits
    ensures ' ' !in Copies('0', n) + Reversed(digits)
  {
    forall c | c in Reversed(digits) ensures c in digits {
      var k :| 0 <= k < |digits| && Reversed(digits)[k] == c;
      assert digits[|digits| - 1 - k] == c;
    }
  }

  /** A number longer than the buffer is not printed, whatever the code has for its precision. */
  lemma DigitsLost(digits: seq<char>, negative: bool, prec: nat, width: nat, flags: Flags, most: nat)
    requires |digits| <= MOST_DIGITS && ' ' !in digits && !flags.left && !flags.zeropad && most > NTOA_BUFFER
    ensures FormattedField(digits, negative, prec, width, flags)
            != StandardField(Reversed(digits), Sign(negative, flags), most, width, flags.left, flags.zeropad)
  {
    var buf := Formatted(digits, negative, prec, width, flags);
    var sign, zeros, turned := Sign(negative, flags), Copies('0', most - |digits|), Reversed(digits);
    FieldWithSpaces(buf, width - |buf|, width, flags);
    StandardParts(sign, turned, zeros, most, width);
    NoSpaces(digits, most - |digits|);
    LongerNumber(Copies(' ', width - |buf|), Reversed(buf), Copies(' ', width - |sign| - |zeros + turned|) + sign,
                 zeros + turned);
  }

  /** With exactly as many the sign is missing, which only shows when it is no space, or not preceded by one. */
  lemma SignLost(digits: seq<char>, negative: bool, width: nat, flags: Flags)
    requires |digits| <= MOST_DIGITS && !flags.left && !flags.zeropad && Sign(negative, flags) != []
    ensures FormattedField(digits, negative, NTOA_BUFFER, width, flags)
            == StandardField(Reversed(digits), Sign(negative, flags), NTOA_BUFFER, width, flags.left, flags.zeropad)
            <==> Sign(negative, flags) == " " && width > NTOA_BUFFER
  {
    FullBuffer(digits, negative, NTOA_BUFFER, width, flags);
    var sign, zeros := Sign(negative, flags), Copies('0', NTOA_BUFFER - |digits|);
    StandardParts(sign, Reversed(digits), zeros, NTOA_BUFFER, width);
    var n := width - NTOA_BUFFER;
    SignOrSpace(zeros + Reversed(digits), sign, n);
  }

  lemma SignOrSpace(number: seq<char>, sign: seq<char>, n: int)
    requires |sign| == 1
    ensures Copies(' ', n) + number == Copies(' ', n - 1) + sign + number <==> sign == " " && n > 0
  {
    if n > 0 {
      OneMoreCopy(' ', n - 1);
      var lead := Copies(' ', n - 1);
      assert (lead + [' '] + number)[n - 1] == ' ' && (lead + sign + number)[n - 1] == sign[0];
    }
  }

  // ---------- fields filled up with zeros ----------

  lemma ZeroBuffer(digits: seq<char>, negative: bool, width: nat, flags: Flags)
    requires |digits| < NTOA_BUFFER && !flags.left && flags.zeropad && width <= NTOA_BUFFER
    ensures Formatted(digits, negative, 0, width, flags)
            == digits + Copies('0', SignedWidth(negative, width, flags) - |digits|) + Sign(negative, flags)
  {
    var w := SignedWidth(negative, width, flags);
    var padded := ZeroPadded(digits, w);
    assert padded == WithZeros(digits, negative, 0, width, flags) by {
      PaddedTo(digits, 0);
      NoCopies(digits, '0', 0 - |digits|);
    }
    PaddedTo(digits, w);
    SignAppended(digits, padded, negative, 0, width, flags);
  }

  lemma ZeroField(digits: seq<char>, negative: bool, width: nat, flags: Flags)
    requires |digits| < NTOA_BUFFER && !flags.left && flags.zeropad && width <= NTOA_BUFFER
    ensures FormattedField(digits, negative, 0, width, flags)
            == StandardField(Reversed(digits), Sign(negative, flags), 0, width, flags.left, flags.zeropad)
  {
    var sign, w := Sign(negative, flags), SignedWidth(negative, width, flags);
    var buf, zeros := Formatted(digits, negative, 0, width, flags), Copies('0', w - |digits|);
    assert Reversed(buf) == sign + zeros + Reversed(digits) by {
      ZeroBuffer(digits, negative, width, flags);
      TurnedAround(buf, digits, w - |digits|, sign);
    }
    FieldAlone(buf, w, flags);
    SameZeros(digits, negative, width, flags);
    StandardZeros(sign, Reversed(digits), zeros, width);
  }

  lemma StandardZeros(sign: seq<char>, digits: seq<char>, zeros: seq<char>, width: nat)
    requires zeros == Copies('0', width - |sign| - |digits|)
    ensures StandardField(digits, sign, 0, width, false, true) == sign + zeros + digits
  {
    NoCopies(digits, '0', 0 - |digits|);
  }

  lemma FieldAlone(buf: seq<char>, width: nat, flags: Flags)
    requires !flags.left && flags.zeropad
    ensures Field(buf, width, flags) == Reversed(buf)
  {
    assert [] + Reversed(buf) + [] == Reversed(buf);
  }

  /** The zeros that fill the field, counted with and without the sign. */
  lemma SameZeros(digits: seq<char>, negative: bool, width: nat, flags: Flags)
    requires !flags.left && flags.zeropad
    ensures Copies('0', SignedWidth(negative, width, flags) - |digits|)
            == Copies('0', width - |Sign(negative, flags)| - |digits|)
  {
    if width == 0 {
      assert Copies('0', 0 - |digits|) == [] && Copies('0', 0 - |Sign(negative, flags)| - |digits|) == [];
    }
  }

  /** A wider field is cut to what the buffer holds. */
  lemma ZerosLost(digits: seq<char>, negative: bool, width: nat, flags: Flags)
    requires |digits| <= MOST_DIGITS && !flags.left && flags.zeropad && width > NTOA_BUFFER
    ensures FormattedField(digits, negative, 0, width, flags)
            != StandardField(Reversed(digits), Sign(negative, flags), 0, width, flags.left, flags.zeropad)
  {
    var buf, sign := Formatted(digits, negative, 0, width, flags), Sign(negative, flags);
    FieldAlone(buf, SignedWidth(negative, width, flags), flags);
    assert |buf| <= NTOA_BUFFER;
    StandardZeros(sign, Reversed(digits), Copies('0', width - |sign| - |digits|), width);
  }

  // ---------- the exact condition ----------

  /** The digits of a converted value, and their zeros, are no spaces. */
  lemma {:induction false} DigitsNoSpaces(value: nat, base: nat, upper: bool, n: nat)
    requires Base(base)
    ensures ' ' !in Digits(value, base, upper, n)
  {
    if n > 0 {
      DigitOfChar(LastDigit(value, base), upper);
      DigitsNoSpaces(Quotient(value, base), base, upper, n - 1);
    }
  }

  /** A left-justified number needs no zeros, and otherwise number and sign fit the buffer. */
  predicate FieldKept(n: nat, sign: seq<char>, prec: nat, width: nat, left: bool, zero: bool) {
    if left then prec <= n
    else if zero then width <= NTOA_BUFFER
    else RoomFor(prec, sign) || (prec == NTOA_BUFFER && sign == " " && width > NTOA_BUFFER)
  }

  /** The source prints the field of the standard exactly then. */
  lemma FieldIsStandard(digits: seq<char>, negative: bool, prec: nat, width: nat, flags: Flags)
    requires |digits| <= MOST_DIGITS && ' ' !in digits && (flags.zeropad && !flags.left ==> prec == 0)
    ensures FormattedField(digits, negative, prec, width, flags)
            == StandardField(Reversed(digits), Sign(negative, flags), prec, width, flags.left, flags.zeropad)
            <==> FieldKept(|digits|, Sign(negative, flags), prec, width, flags.left, flags.zeropad)
  {
    if flags.left {
      if prec > |digits| {
        ZerosMissing(digits, negative, prec, width, flags);
      } else {
        LeftField(digits, negative, prec, width, flags);
        NoCopies(Reversed(digits), '0', prec - |digits|);
      }
    } else if flags.zeropad {
      if width <= NTOA_BUFFER {
        ZeroField(digits, negative, width, flags);
      } else {
        ZerosLost(digits, negative, width, flags);
      }
    } else if RoomFor(prec, Sign(negative, flags)) {
      RightField(digits, negative, prec, width, flags);
    } else if prec > NTOA_BUFFER {
      DigitsLost(digits, negative, prec, width, flags, prec);
    } else {
      SignLost(digits, negative, width, flags);
    }
  }
}
