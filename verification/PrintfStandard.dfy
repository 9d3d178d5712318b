/** What section 7.21.6.1 of ISO/IEC 9899:2011 has an integer directive print, and exactly when the code prints it. */
module PrintfStandard {
  import opened Units
  import opened Words
  import opened PrintfText
  import opened PrintfNumerals
  import opened PrintfSyntax
  import opened PrintfFields

  /** The integer conversions of the standard. */
  predicate IsStandard(c: char) {
    c in "diuoxX"
  }

  function StandardBase(c: char): nat {
    if c == 'o' then 8 else if c == 'x' || c == 'X' then 16 else 10
  }

  /** The width of the type that a length modifier names. */
  function Bits(length: Length): nat {
    match length
    case Char => 8
    case Short => 16
    case NoLength => 32
    case _ => 64
  }

  /** A value converted to a type of n bits. */
  function StandardValue(i: int, n: nat, signed: bool): int {
    if signed then Signed(i, n) else i % Pow2(n)
  }

  // ---------- the parts of a directive ----------

  /** A directive with its arguments: flags, a width, a precision or -1 when it is omitted, and the value. */
  datatype Conv = Conv(plus: bool, space: bool, left: bool, zero: bool, width: nat, precision: int, value: int,
                       conv: char)

  /** The arguments of '*' come before the value; a negative width is '-' and a width, a negative precision is as if
      it were omitted; '0' is ignored with '-' and with a precision; '+' and ' ' are for signed conversions. */
  function Meaning(spec: Spec, args: seq<Arg>, a: nat): Conv {
    var w := WidthValue(spec.width, args, a);
    var b := a + WidthArgs(spec.width);
    var n := if spec.precision.NoPrecision? then -1 else PrecisionValue(spec.precision, args, b);
    var i := NumberAt(args, b + PrecisionArgs(spec.precision));
    var bits := Bits(spec.length);
    var left := '-' in spec.flags || w < 0;
    Conv('+' in spec.flags, ' ' in spec.flags, left, '0' in spec.flags && !left && n < 0,
         Abs(w), if n < 0 then -1 else n,
         StandardValue(i, bits, IsSigned(spec.conv)), spec.conv)
  }

  function StandardSign(c: Conv): string {
    if !IsSigned(c.conv) then "" else if c.value < 0 then "-" else if c.plus then "+" else if c.space then " " else ""
  }

  function ValueNumeral(c: Conv): string {
    Numeral(Abs(c.value), StandardBase(c.conv), c.conv == 'X')
  }

  /** A zero with precision 0 has no digits. */
  function StandardDigits(c: Conv): string {
    if c.precision == 0 && c.value == 0 then "" else ValueNumeral(c)
  }

  /** What the standard has the directive print. */
  function StandardText(c: Conv): string {
    var prec := if c.precision < 0 then 0 else c.precision;
    StandardField(StandardDigits(c), StandardSign(c), prec, c.width, c.left, c.zero)
  }

  // ---------- when the code prints it ----------

  /** Digits that are not zeros in front. */
  function Significant(c: Conv): nat {
    if c.value == 0 then 0 else |ValueNumeral(c)|
  }

  /** The code reads a negative precision as precision 0: it then prints no digits for 0, and no zeros for '0'. */
  predicate NegativeStar(spec: Spec, args: seq<Arg>, a: nat) {
    spec.precision.PrecisionStar? && NumberAt(args, a + WidthArgs(spec.width)) < 0
  }

  /** The code prints this conversion as the standard has it, given whether a '*' was negative. */
  predicate Kept(c: Conv, negativeStar: bool) {
    if negativeStar then c.value != 0 && !(c.zero && c.width > |StandardSign(c)| + Significant(c))
    else FieldKept(Significant(c), StandardSign(c), if c.precision < 0 then 0 else c.precision, c.width, c.left, c.zero)
  }

  /** The code reads numbers modulo 2^32. */
  predicate NumbersFit(spec: Spec) {
    && (spec.width.Width? ==> Count(spec.width.digits) < W32)
    && (spec.precision.Precision? ==> Count(spec.precision.digits) < W32)
  }

  predicate Faithful(spec: Spec, args: seq<Arg>, a: nat) {
    NumbersFit(spec) && Kept(Meaning(spec, args, a), NegativeStar(spec, args, a))
  }

  // ---------- value, sign and digits ----------

  lemma ModuloSmall(x: int, m: nat)
    requires 0 < m && x < m && x + m >= 0
    ensures x % m == if x < 0 then x + m else x
  {
    if x < 0 { assert (x + m) % m == x % m; }
  }

  lemma SignedSmall(x: int, n: nat)
    requires n > 0 && Abs(x) < Pow2(n - 1)
    ensures Signed(x, n) == x
  {
    ModuloSmall(x, Pow2(n));
  }

  /** The values of a type of n bits; the lowest signed one is not among those that the formatter takes. */
  ghost predicate Fits(i: int, n: nat, signed: bool) {
    if signed then n > 0 && Abs(i) < Pow2(n - 1) else 0 <= i < Pow2(n)
  }

  lemma FittingValue(i: int, n: nat, signed: bool)
    requires Fits(i, n, signed)
    ensures StandardValue(i, n, signed) == i && Abs(i) < Pow2(n)
  {
    if signed {
      SignedSmall(i, n);
    } else {
      ModuloSmall(i, Pow2(n));
    }
  }

  lemma ValueBound(i: int, n: nat, signed: bool)
    requires 0 < n <= WORD
    ensures Abs(StandardValue(i, n, signed)) < W64
  {
    Pow2AtMost(n, WORD);
    assert Pow2(WORD) == W64 by { Pow2Values(); }
    assert Pow2(n) == 2 * Pow2(n - 1);
  }

  /** What the formatter demands of the argument of an integer conversion. */
  lemma ArgFits(spec: Spec, d: Directive, args: seq<Arg>)
    requires IsStandard(spec.conv) && ArgOK(spec.conv, d, args)
    requires (d.flags.long || d.flags.longLong) == (Bits(spec.length) == 64)
    ensures Bits(spec.length) >= 32 ==> Fits(NumberAt(args, d.a), Bits(spec.length), IsSigned(spec.conv))
  {
    Pow2Values();
  }

  /** The value that the code takes from its argument is that of the type. */
  lemma ValueIsStandard(c: char, flags: Flags, length: Length, i: int)
    requires IsStandard(c) && flags.narrow == (length.Char? || length.Short?) && flags.byte == length.Char?
    requires (flags.long || flags.longLong) == (Bits(length) == 64)
    requires Bits(length) >= 32 ==> Fits(i, Bits(length), IsSigned(c))
    ensures Value(c, flags, i) == StandardValue(i, Bits(length), IsSigned(c))
  {
    if Bits(length) >= 32 { FittingValue(i, Bits(length), IsSigned(c)); }
  }

  /** The digits that the code converts. */
  lemma DigitsAreStandard(value: nat, base: nat, flags: Flags)
    requires Base(base) && base != 2 && value < W64
    ensures var ds := Converted(value, base, flags);
            && |ds| <= MOST_DIGITS && ' ' !in ds
            && Reversed(ds) == if flags.precision && value == 0 then "" else Numeral(value, base, flags.upper)
  {
    WordFits(value, base, flags);
    DigitsNoSpaces(value, base, flags.upper, NTOA_BUFFER);
    DigitsAreNumeral(value, base, flags.upper, NTOA_BUFFER);
    assert Reversed("") == "";
  }

  // ---------- fields ----------

  /** A zero that is filled up with zeros. */
  lemma ZeroFilled(sign: string, prec: nat, width: nat, left: bool, zero: bool)
    requires prec > 0
    ensures StandardField("0", sign, prec, width, left, zero) == StandardField("", sign, prec, width, left, zero)
  {
    assert Copies('0', prec - 1) + "0" == Copies('0', prec) + "";
  }

  /** Without a precision there is nothing to fill up the number with. */
  lemma Unfilled(digits: string, sign: string, width: nat, left: bool, zero: bool)
    ensures StandardField(digits, sign, 0, width, left, zero)
            == if left then sign + digits + Copies(' ', width - |sign| - |digits|)
               else if zero then sign + Copies('0', width - |sign| - |digits|) + digits
               else Copies(' ', width - |sign| - |digits|) + sign + digits
  {
    NoCopies(digits, '0', 0 - |digits|);
  }

  lemma LastOf(a: string, b: string, c: string)
    requires a + b != []
    ensures (a + b + c)[|a + b| - 1] == if b != [] then b[|b| - 1] else a[|a| - 1]
  {}

  /** Spaces and zeros in front of a number are the same exactly when there are none. */
  lemma ZerosOrSpaces(digits: string, sign: string, width: nat)
    requires |sign| <= 1 && sign != "0"
    ensures StandardField(digits, sign, 0, width, false, true) == StandardField(digits, sign, 0, width, false, false)
            <==> width <= |sign| + |digits|
  {
    Unfilled(digits, sign, width, false, true);
    Unfilled(digits, sign, width, false, false);
    var n := width - |sign| - |digits|;
    if n > 0 {
      LastOf(sign, Copies('0', n), digits);
      LastOf(Copies(' ', n), sign, digits);
    } else {
      NoCopies(sign, '0', n);
      NoCopies(sign, ' ', n);
    }
  }

  /** A field with the digit 0 is none without it. */
  lemma ZeroShows(sign: string, width: nat, left: bool, zero: bool)
    requires sign != "0" && |sign| <= 1 && (zero ==> !left)
    ensures StandardField("", sign, 0, width, left, false) != StandardField("0", sign, 0, width, left, zero)
  {
    Unfilled("", sign, width, left, false);
    Unfilled("0", sign, width, left, zero);
    assert '0' !in StandardField("", sign, 0, width, left, false);
    if left {
      assert (sign + "0" + Copies(' ', width - |sign| - 1))[|sign|] == '0';
    } else {
      var f := StandardField("0", sign, 0, width, left, zero);
      assert f[|f| - 1] == '0';
    }
  }

  // ---------- what the code works with ----------

  lemma LengthFlags(spec: Spec, args: seq<Arg>, p: nat, a: nat, flags: Flags)
    requires flags == IntegerFlags(spec.conv, Scanned(spec, args, p, a).flags)
    ensures flags.narrow == (spec.length.Char? || spec.length.Short?) && flags.byte == spec.length.Char?
    ensures (flags.long || flags.longLong) == (Bits(spec.length) == 64)
    ensures (flags.long || flags.longLong)
            == (Scanned(spec, args, p, a).flags.long || Scanned(spec, args, p, a).flags.longLong)
  {}

  lemma SignFlags(spec: Spec, args: seq<Arg>, p: nat, a: nat, flags: Flags, v: int)
    requires flags == IntegerFlags(spec.conv, Scanned(spec, args, p, a).flags) && (!IsSigned(spec.conv) ==> v >= 0)
    requires v == Meaning(spec, args, a).value
    ensures Sign(v < 0, flags) == StandardSign(Meaning(spec, args, a))
  {}

  /** The value that the code works with is that of the standard. */
  lemma ValueRead(spec: Spec, args: seq<Arg>, p: nat, a: nat, d: Directive, flags: Flags, i: int)
    requires IsStandard(spec.conv) && d == Scanned(spec, args, p, a) && ArgOK(spec.conv, d, args)
    requires flags == IntegerFlags(spec.conv, d.flags) && i == NumberAt(args, d.a)
    ensures Value(spec.conv, flags, i) == Meaning(spec, args, a).value && Abs(Value(spec.conv, flags, i)) < W64
    ensures !IsSigned(spec.conv) ==> Value(spec.conv, flags, i) >= 0
  {
    LengthFlags(spec, args, p, a, flags);
    ArgFits(spec, d, args);
    ValueIsStandard(spec.conv, flags, spec.length, i);
    ValueBound(i, Bits(spec.length), IsSigned(spec.conv));
  }

  /** The flags that the code works with, next to what the standard has: for a negative '*' the precision is given in
      one and omitted in the other. */
  ghost predicate Corresponds(c: Conv, flags: Flags, negativeStar: bool) {
    && flags.left == c.left && flags.upper == (c.conv == 'X')
    && (flags.precision <==> c.precision >= 0 || negativeStar) && (negativeStar ==> c.precision == -1)
    && (flags.zeropad && !flags.left <==> c.zero && !flags.precision)
    && c.precision >= -1 && (c.zero ==> !c.left && c.precision == -1)
  }

  function Least(c: Conv): nat {
    if c.precision < 0 then 0 else c.precision
  }

  lemma FlagsAreRead(spec: Spec, args: seq<Arg>, p: nat, a: nat, d: Directive, flags: Flags)
    requires d == Scanned(spec, args, p, a) && flags == IntegerFlags(spec.conv, d.flags)
    ensures Corresponds(Meaning(spec, args, a), flags, NegativeStar(spec, args, a))
  {}

  /** The width and the precision that the code works with. */
  lemma NumbersAreRead(spec: Spec, args: seq<Arg>, p: nat, a: nat, d: Directive)
    requires d == Scanned(spec, args, p, a)
    ensures var c := Meaning(spec, args, a);
            && d.width == (if spec.width.Width? then c.width % W32 else c.width)
            && d.precision == (if spec.precision.Precision? then Least(c) % W32 else Least(c))
            && (spec.width.Width? ==> c.width == Count(spec.width.digits))
            && (spec.precision.Precision? ==> c.precision == Count(spec.precision.digits))
  {}

  lemma ModuloItself(x: nat)
    requires x < W32
    ensures x % W32 == x
  {}

  lemma NumbersAreKept(spec: Spec, args: seq<Arg>, p: nat, a: nat, d: Directive)
    requires d == Scanned(spec, args, p, a) && NumbersFit(spec)
    ensures d.width == Meaning(spec, args, a).width && d.precision == Least(Meaning(spec, args, a))
  {
    NumbersAreRead(spec, args, p, a, d);
    if spec.width.Width? { ModuloItself(Count(spec.width.digits)); }
    if spec.precision.Precision? { ModuloItself(Count(spec.precision.digits)); }
  }

  lemma LeftIgnoresZero(digits: string, sign: string, prec: nat, width: nat, zero: bool, zero': bool)
    ensures StandardField(digits, sign, prec, width, true, zero)
            == StandardField(digits, sign, prec, width, true, zero')
  {}

  /** Unless a '*' was negative, the digits of the code make the text of the standard. */
  lemma SameField(c: Conv, sign: string, ds: string, prec: nat, zero: bool)
    requires prec == (if c.precision < 0 then 0 else c.precision) && sign == StandardSign(c)
    requires ds == (if c.precision >= 0 && c.value == 0 then "" else ValueNumeral(c)) && (!c.left ==> zero == c.zero)
    ensures StandardField(ds, sign, prec, c.width, c.left, zero) == StandardText(c)
  {
    if c.precision > 0 && c.value == 0 {
      NumeralOfZero(StandardBase(c.conv), c.conv == 'X');
      ZeroFilled(sign, prec, c.width, c.left, zero);
    }
    if c.left { LeftIgnoresZero(StandardDigits(c), sign, prec, c.width, zero, c.zero); }
  }

  lemma KeptField(c: Conv, n: nat, sign: string, prec: nat, zero: bool)
    requires prec == (if c.precision < 0 then 0 else c.precision) && (!c.left ==> zero == c.zero)
    requires n == if c.precision >= 0 && c.value == 0 then 0 else |ValueNumeral(c)|
    ensures FieldKept(n, sign, prec, c.width, c.left, zero)
            <==> FieldKept(Significant(c), sign, prec, c.width, c.left, c.zero)
  {}

  /** A negative '*': no zeros, and no digits for 0. */
  lemma NegativeField(c: Conv, sign: string, ds: string)
    requires c.precision == -1 && sign == StandardSign(c) && (c.zero ==> !c.left)
    requires ds == if c.value == 0 then "" else ValueNumeral(c)
    ensures StandardField(ds, sign, 0, c.width, c.left, false) == StandardText(c)
            <==> c.value != 0 && !(c.zero && c.width > |sign| + Significant(c))
  {
    if c.value == 0 {
      NumeralOfZero(StandardBase(c.conv), c.conv == 'X');
      ZeroShows(sign, c.width, c.left, c.zero);
    } else if c.zero {
      ZerosOrSpaces(ds, sign, c.width);
    }
  }

  /** The integer's text is that of the standard exactly when it is Kept. */
  lemma IntegerIsStandard(c: Conv, flags: Flags, prec: nat, width: nat, negativeStar: bool)
    requires Corresponds(c, flags, negativeStar) && Abs(c.value) < W64 && Sign(c.value < 0, flags) == StandardSign(c)
    requires prec == Least(c) && width == c.width
    ensures IntegerText(Abs(c.value), c.value < 0, StandardBase(c.conv), prec, width, flags) == StandardText(c)
            <==> Kept(c, negativeStar)
  {
    DigitsAreStandard(Abs(c.value), StandardBase(c.conv), flags);
    var ds, sign := Converted(Abs(c.value), StandardBase(c.conv), flags), StandardSign(c);
    FieldIsStandard(ds, c.value < 0, prec, width, flags);
    if negativeStar {
      NegativeField(c, sign, Reversed(ds));
    } else {
      SameField(c, sign, Reversed(ds), prec, flags.zeropad);
      KeptField(c, |ds|, sign, prec, flags.zeropad);
    }
  }

  // ---------- numbers that do not fit ----------

  lemma StandardWidth(digits: string, sign: string, prec: nat, width: nat, left: bool, zero: bool)
    ensures |StandardField(digits, sign, prec, width, left, zero)| >= width
  {}

  lemma CodeWidth(buf: string, negative: bool, prec: nat, width: nat, flags: Flags)
    requires |buf| <= NTOA_BUFFER
    ensures |FormattedField(buf, negative, prec, width, flags)| <= if width < NTOA_BUFFER then NTOA_BUFFER else width
  {
    assert |Formatted(buf, negative, prec, width, flags)| <= NTOA_BUFFER;
  }

  /** A width of 2^32 or more gives a shorter text. */
  lemma WidthLost(c: Conv, flags: Flags, prec: nat, width: nat)
    requires c.width >= W32 > width
    ensures IntegerText(Abs(c.value), c.value < 0, StandardBase(c.conv), prec, width, flags) != StandardText(c)
  {
    StandardWidth(StandardDigits(c), StandardSign(c), Least(c), c.width, c.left, c.zero);
    CodeWidth(Converted(Abs(c.value), StandardBase(c.conv), flags), c.value < 0, prec, width, flags);
  }

  /** For a left-justified number the code does not use the precision. */
  lemma LeftIgnoresPrecision(digits: string, negative: bool, prec: nat, prec': nat, width: nat, flags: Flags)
    requires flags.left
    ensures FormattedField(digits, negative, prec, width, flags)
            == FormattedField(digits, negative, prec', width, flags)
  {}

  /** A precision of 2^32 or more gives a text with fewer digits. */
  lemma PrecisionLost(c: Conv, flags: Flags, prec: nat)
    requires Corresponds(c, flags, false) && Abs(c.value) < W64 && Sign(c.value < 0, flags) == StandardSign(c)
    requires c.precision >= W32
    ensures IntegerText(Abs(c.value), c.value < 0, StandardBase(c.conv), prec, c.width, flags) != StandardText(c)
  {
    DigitsAreStandard(Abs(c.value), StandardBase(c.conv), flags);
    var ds := Converted(Abs(c.value), StandardBase(c.conv), flags);
    SameField(c, StandardSign(c), Reversed(ds), c.precision, flags.zeropad);
    if flags.left {
      ZerosMissing(ds, c.value < 0, c.precision, c.width, flags);
      LeftIgnoresPrecision(ds, c.value < 0, prec, c.precision, c.width, flags);
    } else {
      DigitsLost(ds, c.value < 0, prec, c.width, flags, c.precision);
    }
  }

  /** A number of 2^32 or more always gives another text. */
  lemma NumberLost(spec: Spec, args: seq<Arg>, p: nat, a: nat, d: Directive, flags: Flags, c: Conv)
    requires d == Scanned(spec, args, p, a) && c == Meaning(spec, args, a) && !NumbersFit(spec)
    requires Corresponds(c, flags, NegativeStar(spec, args, a)) && Abs(c.value) < W64
    requires Sign(c.value < 0, flags) == StandardSign(c)
    ensures IntegerText(Abs(c.value), c.value < 0, StandardBase(c.conv), d.precision, d.width, flags) != StandardText(c)
  {
    NumbersAreRead(spec, args, p, a, d);
    if c.width >= W32 && spec.width.Width? {
      WidthLost(c, flags, d.precision, d.width);
    } else {
      PrecisionLost(c, flags, d.precision);
    }
  }

  // ---------- the theorem ----------

  /** The conversion prints what the standard has it print exactly when it is Faithful. */
  lemma ConversionIsStandard(spec: Spec, args: seq<Arg>, p: nat, a: nat, d: Directive)
    requires IsStandard(spec.conv) && d == Scanned(spec, args, p, a) && ArgOK(spec.conv, d, args)
    ensures Conversion(spec.conv, d, args) == StandardText(Meaning(spec, args, a)) <==> Faithful(spec, args, a)
  {
    var c, flags, i := Meaning(spec, args, a), IntegerFlags(spec.conv, d.flags), NumberAt(args, d.a);
    FlagsAreRead(spec, args, p, a, d, flags);
    ValueRead(spec, args, p, a, d, flags, i);
    SignFlags(spec, args, p, a, flags, c.value);
    IntegerConversion(spec.conv, d, args, flags, c.value);
    if NumbersFit(spec) {
      NumbersAreKept(spec, args, p, a, d);
      IntegerIsStandard(c, flags, d.precision, d.width, NegativeStar(spec, args, a));
    } else {
      NumberLost(spec, args, p, a, d, flags, c);
    }
  }

  lemma IntegerConversion(conv: char, d: Directive, args: seq<Arg>, flags: Flags, v: int)
    requires IsStandard(conv) && flags == IntegerFlags(conv, d.flags) && v == Value(conv, flags, NumberAt(args, d.a))
    ensures Conversion(conv, d, args) == IntegerText(Abs(v), v < 0, StandardBase(conv), d.precision, d.width, flags)
  {}

  lemma DirectivePiece(f: string, args: seq<Arg>, p: nat, a: nat, d: Directive)
    requires p < |f| && f[p] == '%' && d == Scan(f, args, p + 1, a) && d.p < |f| && IsStandard(f[d.p])
    ensures PieceAt(f, args, p, a) == Piece(Conversion(f[d.p], d, args), d.p + 1, d.a + 1)
  {}

  /** Wherever a directive is in a format, the formatter puts out for it what the standard says exactly when it is
      Faithful, and goes on behind it. */
  lemma DirectiveIsStandard(f: string, args: seq<Arg>, p: nat, a: nat, spec: Spec)
    requires p < |f| && f[p] == '%' && Holds(f, p + 1, Printed(spec)) && ValidSpec(spec) && IsStandard(spec.conv)
    requires ArgOK(spec.conv, Scanned(spec, args, p + 1, a), args)
    ensures var piece := PieceAt(f, args, p, a);
            && (piece.text == StandardText(Meaning(spec, args, a)) <==> Faithful(spec, args, a))
            && piece.p == p + 1 + |Printed(spec)|
            && piece.a == a + WidthArgs(spec.width) + PrecisionArgs(spec.precision) + 1
  {
    var d := Scanned(spec, args, p + 1, a);
    ScanReads(f, args, p + 1, a, spec);
    DirectivePiece(f, args, p, a, d);
    ConversionIsStandard(spec, args, p + 1, a, d);
  }

  /** The formatter prints a directive as the standard has it exactly when the specification that it is the text of is
      Faithful. */
  ghost predicate AsStandard(f: string, args: seq<Arg>, p: nat, a: nat, spec: Spec)
    requires p < |f|
  {
    PieceAt(f, args, p, a).text == StandardText(Meaning(spec, args, a)) <==> Faithful(spec, args, a)
  }

  /** Every integer directive that the formatter accepts is the text of a specification, for which that holds. */
  lemma EveryDirective(f: string, args: seq<Arg>, p: nat, a: nat)
    requires p < |f| && f[p] == '%' && PieceOK(f, args, p, a) && IsStandard(f[Scan(f, args, p + 1, a).p])
    ensures exists spec :: WrittenAt(f, p + 1, spec) && AsStandard(f, args, p, a, spec)
  {
    var d := Scan(f, args, p + 1, a);
    DirectiveIsWritten(f, args, p + 1, a);
    var spec :| WrittenAt(f, p + 1, spec) && spec.conv == f[d.p];
    ScanReads(f, args, p + 1, a, spec);
    DirectiveIsStandard(f, args, p, a, spec);
    assert AsStandard(f, args, p, a, spec);
  }

  // ---------- inputs ----------

  /** A format that is one directive. */
  lemma OneDirective(f: string, args: seq<Arg>, spec: Spec)
    requires f == "%" + Printed(spec) && ValidSpec(spec) && IsStandard(spec.conv)
    requires ArgOK(spec.conv, Scanned(spec, args, 1, 0), args)
    ensures Render(f, args, 0, 0) == Conversion(spec.conv, Scanned(spec, args, 1, 0), args)
  {
    assert f[1..1 + |Printed(spec)|] == Printed(spec);
    ScanReads(f, args, 1, 0, spec);
    DirectivePiece(f, args, 0, 0, Scanned(spec, args, 1, 0));
    LastPiece(f, args, PieceAt(f, args, 0, 0));
  }

  lemma LastPiece(f: string, args: seq<Arg>, piece: Piece)
    requires f != [] && piece == PieceAt(f, args, 0, 0) && piece.p == |f|
    ensures Render(f, args, 0, 0) == piece.text
  {
    assert Render(f, args, |f|, piece.a) == "";
  }

  /** An int is its own value. */
  lemma IntValue(i: int)
    requires Abs(i) < W32 / 2
    ensures StandardValue(i, 32, true) == i
  {
    Pow2Values();
    FittingValue(i, 32, true);
  }

  /** A directive %d with '.*', and the arguments -1 and i. */
  ghost predicate StarOfMinusOne(spec: Spec, args: seq<Arg>, i: nat, width: nat) {
    && spec.precision.PrecisionStar? && spec.length.NoLength? && spec.conv == 'd' && spec.flags in ["", "0"]
    && ValidWidth(spec.width) && !spec.width.WidthStar? && WidthValue(spec.width, args, 0) == width < W32
    && args == [Number(-1), Number(i)] && i < W32 / 2
  }

  /** The code prints it with precision 0, and without zeros in front. */
  lemma StarPrints(f: string, spec: Spec, args: seq<Arg>, i: nat, width: nat)
    requires StarOfMinusOne(spec, args, i, width) && f == "%" + Printed(spec)
    ensures Render(f, args, 0, 0) == IntegerText(i, false, 10, 0, width, NO_FLAGS.(precision := true))
  {
    var d := Scanned(spec, args, 1, 0);
    assert d.precision == 0 && d.width == width;
    OneDirective(f, args, spec);
    IntegerConversion('d', d, args, NO_FLAGS.(precision := true), i);
  }

  lemma StarMeans(spec: Spec, args: seq<Arg>, i: nat, width: nat)
    requires StarOfMinusOne(spec, args, i, width)
    ensures StandardText(Meaning(spec, args, 0))
            == StandardField(Numeral(i, 10, false), "", 0, width, false, '0' in spec.flags)
  {
    IntValue(i);
  }

  lemma StarText(spec: Spec)
    requires spec.precision.PrecisionStar? && spec.length.NoLength? && spec.conv == 'd'
    ensures "%" + Printed(spec) == "%" + spec.flags + WidthText(spec.width) + ".*d"
  {}

  /** printf("%.*d", -1, 0) prints nothing; the standard has it print 0. */
  lemma ZeroIsMissing(spec: Spec, args: seq<Arg>)
    requires spec == Spec("", NoWidth, PrecisionStar, NoLength, 'd') && args == [Number(-1), Number(0)]
    ensures Render("%.*d", args, 0, 0) == "" && StandardText(Meaning(spec, args, 0)) == "0"
  {
    StarText(spec);
    StarPrints("%.*d", spec, args, 0, 0);
    StarMeans(spec, args, 0, 0);
    NumeralOfZero(10, false);
    Unfilled("0", "", 0, false, false);
  }

  lemma FortyTwo()
    ensures Numeral(42, 10, false) == "42"
  {
    assert Numeral(4, 10, false) == "4";
  }

  /** The text of 42 in a field of width 5, with spaces and with zeros. */
  lemma FieldOf42()
    ensures StandardField("42", "", 0, 5, false, false) == "   42"
            && StandardField("42", "", 0, 5, false, true) == "00042"
  {
    Unfilled("42", "", 5, false, false);
    Unfilled("42", "", 5, false, true);
    assert Copies(' ', 3) == "   " && Copies('0', 3) == "000";
  }

  lemma SpacesFor42(flags: Flags)
    requires flags == NO_FLAGS.(precision := true)
    ensures IntegerText(42, false, 10, 0, 5, flags) == "   42"
  {
    FortyTwo();
    FieldOf42();
    DigitsAreStandard(42, 10, flags);
    FieldIsStandard(Converted(42, 10, flags), false, 0, 5, flags);
  }

  /** printf("%05.*d", -1, 42) fills the field up with spaces; the standard has it fill it up with zeros. */
  lemma ZerosAreSpaces(spec: Spec, args: seq<Arg>)
    requires spec == Spec("0", Width("5"), PrecisionStar, NoLength, 'd') && args == [Number(-1), Number(42)]
    ensures Render("%05.*d", args, 0, 0) == "   42" && StandardText(Meaning(spec, args, 0)) == "00042"
  {
    StarText(spec);
    assert Reversed("5") == "5" && Count("5") == 5;
    StarPrints("%05.*d", spec, args, 42, 5);
    StarMeans(spec, args, 42, 5);
    SpacesFor42(NO_FLAGS.(precision := true));
    FortyTwo();
    FieldOf42();
  }

  lemma CountStep(s: string, c: char, t: string, n: nat)
    requires IsDigit(c) && t == s + [c] && Count(s) == n
    ensures Count(t) == 10 * n + (c as nat - '0' as nat)
  {
    assert t[..|t| - 1] == s;
    DenotedLast(t, 10);
  }

  lemma CountOfFive()
    ensures Count("42949") == 42949
  {
    assert Reversed("") == "" && Count("") == 0;
    CountStep("", '4', "4", 0);
    CountStep("4", '2', "42", 4);
    CountStep("42", '9', "429", 42);
    CountStep("429", '4', "4294", 429);
    CountStep("4294", '9', "42949", 4294);
  }

  lemma CountOfSeven()
    ensures Count("4294967") == 4294967
  {
    CountOfFive();
    CountStep("42949", '6', "429496", 42949);
    CountStep("429496", '7', "4294967", 429496);
  }

  lemma CountOfTen()
    ensures Count("4294967301") == 4294967301
  {
    CountOfSeven();
    CountStep("4294967", '3', "42949673", 4294967);
    CountStep("42949673", '0', "429496730", 42949673);
    CountStep("429496730", '1', "4294967301", 429496730);
  }

  /** A directive %d with a width, and nothing else. */
  lemma WidthOnly(f: string, spec: Spec, args: seq<Arg>, digits: string, i: nat)
    requires spec == Spec("", Width(digits), NoPrecision, NoLength, 'd') && ValidWidth(spec.width)
    requires f == "%" + digits + "d" && args == [Number(i)] && i < W32 / 2
    ensures Render(f, args, 0, 0) == IntegerText(i, false, 10, 0, Count(digits) % W32, NO_FLAGS)
    ensures |StandardText(Meaning(spec, args, 0))| >= Count(digits)
  {
    var d, c := Scanned(spec, args, 1, 0), Meaning(spec, args, 0);
    assert f == "%" + Printed(spec);
    assert d.width == Count(digits) % W32 && d.precision == 0;
    OneDirective(f, args, spec);
    IntegerConversion('d', d, args, NO_FLAGS, i);
    StandardWidth(StandardDigits(c), StandardSign(c), Least(c), c.width, c.left, c.zero);
  }

  lemma TenDigits(digits: string)
    requires digits == "4294967301"
    ensures ValidWidth(Width(digits)) && Count(digits) == 4294967301 && Count(digits) % W32 == 5
  {
    CountOfTen();
  }

  lemma SevenInFive()
    ensures IntegerText(7, false, 10, 0, 5, NO_FLAGS) == "    7"
  {
    assert Numeral(7, 10, false) == "7";
    DigitsAreStandard(7, 10, NO_FLAGS);
    FieldIsStandard(Converted(7, 10, NO_FLAGS), false, 0, 5, NO_FLAGS);
    Unfilled("7", "", 5, false, false);
    assert Copies(' ', 4) == "    ";
  }

  /** printf("%4294967301d", 7), whose width is 2^32 + 5, prints 5 characters; the standard has it print as many as
      the width says. */
  lemma WidthWraps(f: string, digits: string, spec: Spec, args: seq<Arg>)
    requires digits == "4294967301" && f == "%" + digits + "d" && args == [Number(7)]
    requires spec == Spec("", Width(digits), NoPrecision, NoLength, 'd')
    ensures Render(f, args, 0, 0) == "    7" && |StandardText(Meaning(spec, args, 0))| >= 4294967301
  {
    TenDigits(digits);
    WidthOnly(f, spec, args, digits, 7);
    SevenInFive();
  }
}
