/** What every piece of a format prints, in terms of the directive as it is written and of its argument. */
module PrintfPieces {
  import opened Words
  import opened PrintfText
  import opened PrintfTheorems
  import opened PrintfNumerals
  import opened PrintfSyntax
  import opened PrintfFields
  import opened PrintfStandard

  // ---------- the parts of a directive ----------

  /** The side on which spaces go: behind, for '-' and for a negative '*'. */
  predicate LeftOf(spec: Spec, args: seq<Arg>, a: nat) {
    '-' in spec.flags || (spec.width.WidthStar? && NumberAt(args, a) < 0)
  }

  /** The width: a written one is read modulo 2^32. */
  function WidthOf(spec: Spec, args: seq<Arg>, a: nat): nat {
    match spec.width
    case NoWidth => 0
    case Width(digits) => Count(digits) % 0x1_0000_0000
    case WidthStar => var w := NumberAt(args, a); if w < 0 then -w else w
  }

  /** The precision, likewise; a negative '*' counts as 0. */
  function PrecisionOf(spec: Spec, args: seq<Arg>, a: nat): nat {
    match spec.precision
    case NoPrecision => 0
    case Precision(digits) => Count(digits) % 0x1_0000_0000
    case PrecisionStar => var n := NumberAt(args, a + WidthArgs(spec.width)); if n < 0 then 0 else n
  }

  /** The argument of the conversion comes behind those of '*'. */
  function ArgOf(spec: Spec, a: nat): nat {
    a + (if spec.width.WidthStar? then 1 else 0) + (if spec.precision.PrecisionStar? then 1 else 0)
  }

  /** The parser finds them. */
  lemma PartsScanned(spec: Spec, args: seq<Arg>, p: nat, a: nat)
    ensures var d := Scanned(spec, args, p, a);
            && d.flags.left == LeftOf(spec, args, a) && d.width == WidthOf(spec, args, a)
            && d.precision == PrecisionOf(spec, args, a) && d.a == ArgOf(spec, a)
            && d.p + 1 == p + |Printed(spec)| && d.flags.precision == !spec.precision.NoPrecision?
            && d.flags.zeropad == ('0' in spec.flags) && d.flags.plus == ('+' in spec.flags)
            && d.flags.space == (' ' in spec.flags) && !d.flags.upper
  {}

  // ---------- characters and strings ----------

  lemma CopiesAre(c: char, n: int)
    ensures |Copies(c, n)| == if n < 0 then 0 else n
    ensures forall k :: 0 <= k < |Copies(c, n)| ==> Copies(c, n)[k] == c
  {}

  /** s in a field: spaces behind it, or in front of it. */
  function Spaced(s: string, width: nat, left: bool): string {
    if left then s + Copies(' ', width - |s|) else Copies(' ', width - |s|) + s
  }

  /** The first n characters. */
  function Start(s: string, n: nat): string {
    if n < |s| then s[..n] else s
  }

  // ---------- integers ----------

  /** The last n characters. */
  function End(s: string, n: nat): string {
    if n < |s| then s[|s| - n..] else s
  }

  /** The argument in the type that the length modifier names. */
  function Typed(i: int, length: Length, signed: bool): int {
    var m := match length case Char => 0x100 case Short => 0x1_0000 case NoLength => 0x1_0000_0000
                          case _ => 0x1_0000_0000_0000_0000;
    if signed && i % m >= m / 2 then i % m - m else i % m
  }

  function Larger(a: int, b: int): int {
    if a < b then b else a
  }

  /** No more than the 32 characters of the buffer. */
  function InBuffer(n: nat): nat {
    if n < 32 then n else 32
  }

  /** The digits of a number with the zeros in front of it: none with '-'; otherwise as many as the precision says, and,
      when zeros fill the field, as many as the width leaves beside a sign. */
  function DigitCount(number: string, sign: string, prec: nat, width: nat, left: bool, zero: bool): (n: nat)
    ensures n >= |number|
  {
    var room := if sign != "" && width > 0 then width - 1 else width;
    if left then |number| else Larger(|number|, Larger(InBuffer(prec), if zero then InBuffer(room) else 0))
  }

  /** A number with zeros up to n digits, and its sign, which is left out when there are 32 digits already. */
  function Whole(number: string, sign: string, n: nat): string {
    (if n < 32 then sign else "") + Copies('0', n - |number|) + number
  }

  /** A number in a field, with spaces unless zeros fill it. */
  function Laid(number: string, sign: string, prec: nat, width: nat, left: bool, zero: bool): string {
    var whole := Whole(number, sign, DigitCount(number, sign, prec, width, left, zero));
    if zero && !left then whole else Spaced(whole, width, left)
  }

  /** The digits: at most 32 of the numeral, and none of 0 when there is a precision. */
  function NumberOf(value: nat, base: nat, upper: bool, precision: bool): string
    requires base in {2, 8, 10, 16}
  {
    if precision && value == 0 then "" else End(Numeral(value, base, upper), 32)
  }

  lemma EndAppended(s: string, c: char, n: nat)
    requires n > 0
    ensures End(s + [c], n) == End(s, n - 1) + [c]
  {}

  lemma EndOfOne(c: char, n: nat)
    requires n > 0
    ensures End([c], n) == [c] && Reversed([c]) == [c]
  {}

  lemma OneMoreDigit(value: nat, base: nat, upper: bool, n: nat)
    requires Base(base) && n > 0 && Quotient(value, base) > 0
    ensures var q, last := Quotient(value, base), [DigitChar(LastDigit(value, base), upper)];
            && Reversed(Digits(value, base, upper, n)) == Reversed(Digits(q, base, upper, n - 1)) + last
            && Numeral(value, base, upper) == Numeral(q, base, upper) + last
  {
    var q, ds, last := Quotient(value, base), Digits(value, base, upper, n), DigitChar(LastDigit(value, base), upper);
    assert ds == [last] + Digits(q, base, upper, n - 1);
    assert ds[1..] == Digits(q, base, upper, n - 1);
    OneMoreReversed(ds);
  }

  lemma {:induction false} DigitsAreEnd(value: nat, base: nat, upper: bool, n: nat)
    requires Base(base)
    ensures Reversed(Digits(value, base, upper, n)) == End(Numeral(value, base, upper), n)
  {
    var q, last := Quotient(value, base), DigitChar(LastDigit(value, base), upper);
    if n > 0 && q > 0 {
      OneMoreDigit(value, base, upper, n);
      DigitsAreEnd(q, base, upper, n - 1);
      EndAppended(Numeral(q, base, upper), last, n);
    } else if n > 0 {
      EndOfOne(last, n);
    }
  }

  lemma ConvertedIs(value: nat, base: nat, flags: Flags)
    requires Base(base)
    ensures Reversed(Converted(value, base, flags)) == NumberOf(value, base, flags.upper, flags.precision)
    ensures |Converted(value, base, flags)| <= 32
  {
    DigitsAreEnd(value, base, flags.upper, 32);
    assert Reversed("") == "";
  }

  /** The zeros behind the digits in the buffer. */
  lemma ZerosAre(buf: string, sign: string, negative: bool, prec: nat, width: nat, flags: Flags)
    requires |buf| <= 32 && sign == Sign(negative, flags)
    ensures var n := DigitCount(Reversed(buf), sign, prec, width, flags.left, flags.zeropad);
            n <= 32 && WithZeros(buf, negative, prec, width, flags) == buf + Copies('0', n - |buf|)
  {
    assert buf + Copies('0', 0) == buf;
  }

  lemma BufferIs(buf: string, sign: string, negative: bool, prec: nat, width: nat, flags: Flags, n: nat)
    requires |buf| <= 32 && sign == Sign(negative, flags)
    requires n == DigitCount(Reversed(buf), sign, prec, width, flags.left, flags.zeropad)
    ensures Reversed(Formatted(buf, negative, prec, width, flags)) == Whole(Reversed(buf), sign, n)
  {
    var shown := if n < 32 then sign else "";
    ZerosAre(buf, sign, negative, prec, width, flags);
    var padded := WithZeros(buf, negative, prec, width, flags);
    assert padded + "" == padded;
    TurnedAround(Formatted(buf, negative, prec, width, flags), buf, n - |buf|, shown);
  }

  lemma FieldIs(buf: string, width: nat, flags: Flags)
    ensures Field(buf, width, flags)
            == if flags.zeropad && !flags.left then Reversed(buf) else Spaced(Reversed(buf), width, flags.left)
  {
    var turned := Reversed(buf);
    assert [] + turned == turned && turned + [] == turned;
  }

  lemma FormattedIsLaid(buf: string, sign: string, negative: bool, prec: nat, width: nat, flags: Flags)
    requires |buf| <= 32 && sign == Sign(negative, flags)
    ensures FormattedField(buf, negative, prec, width, flags)
            == Laid(Reversed(buf), sign, prec, width, flags.left, flags.zeropad)
  {
    var n := DigitCount(Reversed(buf), sign, prec, width, flags.left, flags.zeropad);
    BufferIs(buf, sign, negative, prec, width, flags, n);
    FieldIs(Formatted(buf, negative, prec, width, flags), SignedWidth(negative, width, flags), flags);
    if flags.left || !flags.zeropad { SameWidth(negative, width, flags); }
  }

  /** Room for the sign is only made where zeros fill the field. */
  lemma SameWidth(negative: bool, width: nat, flags: Flags)
    requires flags.left || !flags.zeropad
    ensures SignedWidth(negative, width, flags) == width
  {}

  /** What _ntoa_long puts out, for every precision, width and flags. */
  lemma IntegerIsLaid(value: nat, sign: string, negative: bool, base: nat, prec: nat, width: nat, flags: Flags)
    requires Base(base) && sign == Sign(negative, flags)
    ensures IntegerText(value, negative, base, prec, width, flags)
            == Laid(NumberOf(value, base, flags.upper, flags.precision), sign, prec, width, flags.left, flags.zeropad)
  {
    ConvertedIs(value, base, flags);
    FormattedIsLaid(Converted(value, base, flags), sign, negative, prec, width, flags);
  }

  // ---------- directives ----------

  predicate IsNumeric(conv: char) {
    conv == 'd' || conv == 'i' || conv == 'u' || conv == 'o' || conv == 'x' || conv == 'X' || conv == 'b'
  }

  predicate WithSign(conv: char) {
    conv == 'd' || conv == 'i'
  }

  function RadixOf(conv: char): (base: nat)
    ensures base in {2, 8, 10, 16}
  {
    if conv == 'o' then 8 else if conv == 'x' || conv == 'X' then 16 else if conv == 'b' then 2 else 10
  }

  /** Only signed conversions have a sign, which '+' or ' ' asks for when the value is not negative. */
  function SignOf(spec: Spec, value: int): string {
    if !WithSign(spec.conv) then "" else if value < 0 then "-" else if '+' in spec.flags then "+"
    else if ' ' in spec.flags then " " else ""
  }

  /** A number; with a precision, zeros do not fill the field. */
  function NumberText(spec: Spec, args: seq<Arg>, a: nat, value: int): string {
    var size := if value < 0 then -value else value;
    Laid(NumberOf(size, RadixOf(spec.conv), spec.conv == 'X', !spec.precision.NoPrecision?), SignOf(spec, value),
         PrecisionOf(spec, args, a), WidthOf(spec, args, a), LeftOf(spec, args, a),
         '0' in spec.flags && spec.precision.NoPrecision?)
  }

  /** A pointer: 16 digits in upper case, whatever the width; the other flags, and a precision, are not ignored. */
  function PointerText(spec: Spec, args: seq<Arg>, a: nat, address: nat): string {
    var sign := if '+' in spec.flags then "+" else if ' ' in spec.flags then " " else "";
    Laid(NumberOf(address, 16, true, !spec.precision.NoPrecision?), sign, PrecisionOf(spec, args, a), 16,
         LeftOf(spec, args, a), true)
  }

  /** The argument of %s as it is printed: cut to the precision, and in a field. */
  function StringText(spec: Spec, args: seq<Arg>, a: nat, s: string): string {
    Spaced(if spec.precision.NoPrecision? then s else Start(s, PrecisionOf(spec, args, a)),
           WidthOf(spec, args, a), LeftOf(spec, args, a))
  }

  /** The character of %c, whose code is the argument modulo 256. */
  function CharText(spec: Spec, args: seq<Arg>, a: nat, i: int): string {
    Spaced([(i % 256) as char], WidthOf(spec, args, a), LeftOf(spec, args, a))
  }

  /** What a directive prints. */
  function DirectiveText(spec: Spec, args: seq<Arg>, a: nat): string {
    var i, s := NumberAt(args, ArgOf(spec, a)), TextAt(args, ArgOf(spec, a));
    match spec.conv
    case 's' => StringText(spec, args, a, s)
    case 'c' => CharText(spec, args, a, i)
    case 'p' => PointerText(spec, args, a, if i < 0 then -i else i)
    case 'd' | 'i' => NumberText(spec, args, a, Typed(i, spec.length, true))
    case 'u' | 'o' | 'x' | 'X' | 'b' => NumberText(spec, args, a, Typed(i, spec.length, false))
    case _ => [spec.conv]
  }

  lemma ArgumentGiven(args: seq<Arg>, b: nat)
    requires b < |args|
    ensures args[b].Number? ==> NumberAt(args, b) == args[b].i
    ensures args[b].Text? ==> TextAt(args, b) == args[b].s
  {}

  // ---------- the code prints them ----------

  lemma SmallPowers()
    ensures Pow2(8) == 0x100 && Pow2(16) == 0x1_0000
  {
    assert Pow2(4) == 16;
    assert Pow2(8) == 0x100;
    assert Pow2(12) == 0x1000;
  }

  /** A value that the type has stays as it is. */
  lemma TypedFits(i: int, length: Length, signed: bool)
    requires length.NoLength? ==> if signed then -0x8000_0000 < i < 0x8000_0000 else 0 <= i < 0x1_0000_0000
    requires !(length.Char? || length.Short? || length.NoLength?) ==>
               if signed then -0x8000_0000_0000_0000 < i < 0x8000_0000_0000_0000 else 0 <= i < 0x1_0000_0000_0000_0000
    ensures !(length.Char? || length.Short?) ==> Typed(i, length, signed) == i
  {
    if length.NoLength? {
      ModuloSmall(i, 0x1_0000_0000);
    } else if !(length.Char? || length.Short?) {
      ModuloSmall(i, 0x1_0000_0000_0000_0000);
    }
  }

  /** The value that is converted. */
  lemma ValueIsTyped(spec: Spec, args: seq<Arg>, p: nat, a: nat, d: Directive, flags: Flags, i: int)
    requires d == Scanned(spec, args, p, a) && ArgOK(spec.conv, d, args) && IsNumeric(spec.conv)
    requires flags == IntegerFlags(spec.conv, d.flags) && i == NumberAt(args, d.a)
    ensures Value(spec.conv, flags, i) == Typed(i, spec.length, WithSign(spec.conv))
    ensures !WithSign(spec.conv) ==> Value(spec.conv, flags, i) >= 0
  {
    LengthFlags(spec, args, p, a, flags);
    SmallPowers();
    TypedFits(i, spec.length, WithSign(spec.conv));
  }

  lemma NumberPrints(spec: Spec, args: seq<Arg>, p: nat, a: nat, d: Directive)
    requires d == Scanned(spec, args, p, a) && ArgOK(spec.conv, d, args) && IsNumeric(spec.conv)
    ensures Conversion(spec.conv, d, args) == DirectiveText(spec, args, a)
  {
    var flags, i := IntegerFlags(spec.conv, d.flags), NumberAt(args, d.a);
    var v := Value(spec.conv, flags, i);
    assert d.a == ArgOf(spec, a);
    ValueIsTyped(spec, args, p, a, d, flags, i);
    ValueIsLaid(spec, args, p, a, d, flags, v);
    ConversionOfNumber(spec.conv, d, args, flags, v);
    TextOfNumber(spec, args, a, v);
  }

  lemma ConversionOfNumber(c: char, d: Directive, args: seq<Arg>, flags: Flags, v: int)
    requires IsNumeric(c) && flags == IntegerFlags(c, d.flags) && v == Value(c, flags, NumberAt(args, d.a))
    ensures Conversion(c, d, args) == IntegerText(Abs(v), v < 0, BaseOf(c), d.precision, d.width, flags)
  {}

  lemma TextOfNumber(spec: Spec, args: seq<Arg>, a: nat, v: int)
    requires IsNumeric(spec.conv) && v == Typed(NumberAt(args, ArgOf(spec, a)), spec.length, WithSign(spec.conv))
    ensures DirectiveText(spec, args, a) == NumberText(spec, args, a, v)
  {}

  lemma FlagsForNumber(spec: Spec, args: seq<Arg>, p: nat, a: nat, d: Directive, flags: Flags, v: int)
    requires d == Scanned(spec, args, p, a) && IsNumeric(spec.conv) && flags == IntegerFlags(spec.conv, d.flags)
    requires !WithSign(spec.conv) ==> v >= 0
    ensures flags.upper == (spec.conv == 'X') && flags.precision == !spec.precision.NoPrecision?
    ensures flags.left == LeftOf(spec, args, a) && Sign(v < 0, flags) == SignOf(spec, v)
    ensures flags.zeropad == ('0' in spec.flags && spec.precision.NoPrecision?)
    ensures BaseOf(spec.conv) == RadixOf(spec.conv)
  {}

  lemma ValueIsLaid(spec: Spec, args: seq<Arg>, p: nat, a: nat, d: Directive, flags: Flags, v: int)
    requires d == Scanned(spec, args, p, a) && IsNumeric(spec.conv) && flags == IntegerFlags(spec.conv, d.flags)
    requires !WithSign(spec.conv) ==> v >= 0
    ensures IntegerText(Abs(v), v < 0, BaseOf(spec.conv), d.precision, d.width, flags) == NumberText(spec, args, a, v)
  {
    PartsScanned(spec, args, p, a);
    FlagsForNumber(spec, args, p, a, d, flags, v);
    IntegerIsLaid(Abs(v), Sign(v < 0, flags), v < 0, BaseOf(spec.conv), d.precision, d.width, flags);
  }

  lemma FlagsForPointer(spec: Spec, args: seq<Arg>, p: nat, a: nat, d: Directive, flags: Flags)
    requires d == Scanned(spec, args, p, a) && flags == d.flags.(zeropad := true, upper := true)
    ensures flags.left == LeftOf(spec, args, a) && flags.precision == !spec.precision.NoPrecision?
    ensures Sign(false, flags) == if '+' in spec.flags then "+" else if ' ' in spec.flags then " " else ""
  {}

  lemma PointerIsLaid(spec: Spec, args: seq<Arg>, p: nat, a: nat, d: Directive, flags: Flags, value: nat)
    requires d == Scanned(spec, args, p, a) && flags == d.flags.(zeropad := true, upper := true)
    ensures IntegerText(value, false, 16, d.precision, 16, flags) == PointerText(spec, args, a, value)
  {
    PartsScanned(spec, args, p, a);
    FlagsForPointer(spec, args, p, a, d, flags);
    IntegerIsLaid(value, Sign(false, flags), false, 16, d.precision, 16, flags);
  }

  lemma PointerPrints(spec: Spec, args: seq<Arg>, p: nat, a: nat, d: Directive)
    requires d == Scanned(spec, args, p, a) && spec.conv == 'p'
    ensures Conversion(spec.conv, d, args) == DirectiveText(spec, args, a)
  {
    var flags := d.flags.(zeropad := true, upper := true);
    assert d.a == ArgOf(spec, a);
    PointerIsLaid(spec, args, p, a, d, flags, Abs(NumberAt(args, d.a)));
  }

  /** The conversion takes an argument. */
  predicate TakesArg(conv: char) {
    IsNumeric(conv) || conv == 'c' || conv == 's' || conv == 'p'
  }

  lemma ConversionIs(spec: Spec, args: seq<Arg>, p: nat, a: nat, d: Directive)
    requires d == Scanned(spec, args, p, a) && ArgOK(spec.conv, d, args)
    ensures Conversion(spec.conv, d, args) == DirectiveText(spec, args, a)
  {
    if IsNumeric(spec.conv) {
      NumberPrints(spec, args, p, a, d);
    } else if spec.conv == 'p' {
      PointerPrints(spec, args, p, a, d);
    } else {
      PartsScanned(spec, args, p, a);
    }
  }

  lemma PieceOf(f: string, args: seq<Arg>, p: nat, a: nat, d: Directive)
    requires p < |f| && f[p] == '%' && d == Scan(f, args, p + 1, a) && PieceOK(f, args, p, a)
    ensures d.p < |f| && ArgOK(f[d.p], d, args)
    ensures PieceAt(f, args, p, a)
            == Piece(Conversion(f[d.p], d, args), d.p + 1, d.a + if TakesArg(f[d.p]) then 1 else 0)
  {}

  /** Wherever a directive is in a format, its text is put out, and the format goes on behind it. */
  lemma DirectivePrints(f: string, args: seq<Arg>, p: nat, a: nat, spec: Spec)
    requires p < |f| && f[p] == '%' && WrittenAt(f, p + 1, spec) && PieceOK(f, args, p, a)
    ensures PieceAt(f, args, p, a)
            == Piece(DirectiveText(spec, args, a), p + 1 + |Printed(spec)|,
                     ArgOf(spec, a) + if TakesArg(spec.conv) then 1 else 0)
  {
    var d := Scanned(spec, args, p + 1, a);
    ScanReads(f, args, p + 1, a, spec);
    PieceOf(f, args, p, a, d);
    ConversionIs(spec, args, p + 1, a, d);
    PartsScanned(spec, args, p + 1, a);
  }

  // ---------- formats ----------

  /** The rest of a well-formed format starts with a character that stands for itself, or with a directive. */
  lemma FormatReads(f: string, args: seq<Arg>, p: nat, a: nat)
    requires p < |f| && WellFormedUpTo(f, args, p, a) == |f|
    ensures f[p] != '%' ==> Render(f, args, p, a) == [f[p]] + Render(f, args, p + 1, a)
    ensures f[p] == '%' ==>
              exists text, q, b :: DirectiveAt(f, args, p, a, text, q, b) && WellFormedUpTo(f, args, q, b) == |f|
                                   && Render(f, args, p, a) == text + Render(f, args, q, b)
  {
    FirstPiece(f, args, p, a);
    if f[p] == '%' {
      var piece := PieceAt(f, args, p, a);
      DirectiveFound(f, args, p, a);
      assert DirectiveAt(f, args, p, a, piece.text, piece.p, piece.a);
    }
  }

  /** A directive at position p prints `text`; the format goes on at position q, and with argument b.  One that is not
      written as the standard has it ends at a character that is no specifier, and prints that. */
  ghost predicate DirectiveAt(f: string, args: seq<Arg>, p: nat, a: nat, text: string, q: nat, b: nat)
  {
    && p < q <= |f|
    && if IsSpecifier(f[q - 1]) then exists spec :: SpecAt(f, args, p, a, spec, text, q, b) else text == [f[q - 1]]
  }

  ghost predicate SpecAt(f: string, args: seq<Arg>, p: nat, a: nat, spec: Spec, text: string, q: nat, b: nat) {
    && WrittenAt(f, p + 1, spec) && text == DirectiveText(spec, args, a) && q == p + 1 + |Printed(spec)|
    && b == ArgOf(spec, a) + if TakesArg(spec.conv) then 1 else 0
  }

  lemma DirectiveFound(f: string, args: seq<Arg>, p: nat, a: nat)
    requires p < |f| && f[p] == '%' && PieceOK(f, args, p, a)
    ensures var piece := PieceAt(f, args, p, a); DirectiveAt(f, args, p, a, piece.text, piece.p, piece.a)
  {
    var d := Scan(f, args, p + 1, a);
    PieceOf(f, args, p, a, d);
    if IsSpecifier(f[d.p]) {
      SpecFound(f, args, p, a);
    } else {
      NoSpecifierPrints(f[d.p], d, args);
    }
  }

  lemma ConversionsAreSpecifiers(c: char)
    requires IsInteger(c) || c == 'c' || c == 's' || c == 'p'
    ensures IsSpecifier(c)
  {}

  lemma NoSpecifierPrints(c: char, d: Directive, args: seq<Arg>)
    requires !IsSpecifier(c)
    ensures Conversion(c, d, args) == [c]
  {
    if IsInteger(c) || c == 'c' || c == 's' || c == 'p' { ConversionsAreSpecifiers(c); }
  }

  lemma SpecFound(f: string, args: seq<Arg>, p: nat, a: nat)
    requires p < |f| && f[p] == '%' && PieceOK(f, args, p, a) && IsSpecifier(f[Scan(f, args, p + 1, a).p])
    ensures var piece := PieceAt(f, args, p, a);
            exists spec :: SpecAt(f, args, p, a, spec, piece.text, piece.p, piece.a)
  {
    DirectiveIsWritten(f, args, p + 1, a);
    var spec :| WrittenAt(f, p + 1, spec) && spec.conv == f[Scan(f, args, p + 1, a).p];
    DirectivePrints(f, args, p, a, spec);
    var piece := PieceAt(f, args, p, a);
    assert SpecAt(f, args, p, a, spec, piece.text, piece.p, piece.a);
  }

  /** Nothing comes behind the end. */
  lemma FormatEnds(f: string, args: seq<Arg>, a: nat)
    ensures Render(f, args, |f|, a) == ""
  {}

  // ---------- some directives ----------

  /** No number of 64 bits has more than 16 hexadecimal digits. */
  lemma SixteenDigits(value: nat)
    requires value < 0x1_0000_0000_0000_0000
    ensures |Numeral(value, 16, true)| <= 16
  {
    assert Power(16, 2) == 0x100 && Power(16, 4) == 0x1_0000;
    assert Power(16, 6) == 0x100_0000 && Power(16, 8) == 0x1_0000_0000;
    assert Power(16, 10) == 0x100_0000_0000 && Power(16, 12) == 0x1_0000_0000_0000;
    assert Power(16, 14) == 0x100_0000_0000_0000 && Power(16, 16) == 0x1_0000_0000_0000_0000;
    DigitsAreNumeral(value, 16, true, 16);
  }

  /** %p prints the 16 digits of the address. */
  lemma PlainPointer(spec: Spec, args: seq<Arg>, a: nat, i: nat)
    requires spec.conv == 'p' && spec.flags == "" && spec.precision.NoPrecision? && !spec.width.WidthStar?
    requires a < |args| && args[a] == Number(i) && i < 0x1_0000_0000_0000_0000
    ensures var n := Numeral(i, 16, true);
            |n| <= 16 && DirectiveText(spec, args, a) == Copies('0', 16 - |n|) + n
  {
    SixteenDigits(i);
    var n := Numeral(i, 16, true);
    assert "" + Copies('0', 16 - |n|) == Copies('0', 16 - |n|);
  }

  lemma NoField(n: string)
    ensures Laid(n, "", 0, 0, false, false) == n
  {
    assert "" + Copies('0', 0) + n == n && Copies(' ', 0 - |n|) + n == n;
  }

  lemma BinaryDigits(i: nat)
    requires i < 0x1_0000_0000_0000_0000
    ensures End(Numeral(i, 2, false), 32) == Numeral(i, 2, false) <==> i < 0x1_0000_0000
  {
    var ds := Digits(i, 2, false, 32);
    DigitsAreEnd(i, 2, false, 32);
    assert Reversed(Reversed(ds)) == ds;
    NumeralIsNumeral(i, 2, false);
    DigitsDenote(i, 2, false, 32);
    PowerIsLarge(2, 32);
    Pow2Values();
    if i < 0x1_0000_0000 { DigitsAreNumeral(i, 2, false, 32); }
  }

  /** %lb prints the last 32 binary digits of a value: all of them exactly below 2^32. */
  lemma PlainBinary(spec: Spec, args: seq<Arg>, a: nat, i: nat)
    requires spec == Spec("", NoWidth, NoPrecision, Long, 'b') && i < 0x1_0000_0000_0000_0000
    requires a < |args| && args[a] == Number(i)
    ensures DirectiveText(spec, args, a) == End(Numeral(i, 2, false), 32)
    ensures DirectiveText(spec, args, a) == Numeral(i, 2, false) <==> i < 0x1_0000_0000
  {
    BinaryText(spec, args, a, i);
    TextOfNumber(spec, args, a, i);
    BinaryDigits(i);
  }

  lemma BinaryText(spec: Spec, args: seq<Arg>, a: nat, i: nat)
    requires spec == Spec("", NoWidth, NoPrecision, Long, 'b')
    ensures NumberText(spec, args, a, i) == End(Numeral(i, 2, false), 32)
  {
    NoField(NumberOf(i, 2, false, false));
  }

  /** "%5s" puts spaces in front of a short string, "%-5s" puts them behind it, and "%.1s" cuts it. */
  lemma PlainString(args: seq<Arg>, a: nat)
    requires a < |args| && args[a] == Text("ab")
    ensures DirectiveText(Spec("", Width("5"), NoPrecision, NoLength, 's'), args, a) == "   ab"
    ensures DirectiveText(Spec("-", Width("5"), NoPrecision, NoLength, 's'), args, a) == "ab   "
    ensures DirectiveText(Spec("", NoWidth, Precision("1"), NoLength, 's'), args, a) == "a"
  {
    assert Reversed("5") == "5" && Count("5") == 5 && Reversed("1") == "1" && Count("1") == 1;
    assert Copies(' ', 3) == "   " && Copies(' ', -1) == "";
  }
}
