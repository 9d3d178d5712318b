/** Directives as section 7.21.6.1 of ISO/IEC 9899:2011 writes them, and what the parser makes of their text. */
module PrintfSyntax {
  import opened Units
  import opened Words
  import opened PrintfText
  import opened PrintfTheorems

  /** A width: none, a number as it is written, or an argument. */
  datatype Width = NoWidth | Width(digits: string) | WidthStar

  /** A precision: none, a period and a number as it is written (which may be missing), or an argument. */
  datatype Precision = NoPrecision | Precision(digits: string) | PrecisionStar

  datatype Length = NoLength | Char | Short | Long | LongLong | Max | Size | Difference

  /** A directive behind its '%': flags, width, precision, length modifier and specifier. */
  datatype Spec = Spec(flags: string, width: Width, precision: Precision, length: Length, conv: char)

  predicate IsFlag(c: char) {
    c == '0' || c == '-' || c == '+' || c == ' '
  }

  /** Characters that can only be a specifier. */
  predicate IsSpecifier(c: char) {
    !IsFlag(c) && !IsDigit(c) && c !in "*.lhtjz"
  }

  predicate AllFlags(s: string) {
    forall k :: 0 <= k < |s| ==> IsFlag(s[k])
  }

  predicate AllDigits(s: string) {
    forall k :: 0 <= k < |s| ==> IsDigit(s[k])
  }

  /** A width is not empty, and does not start with 0, which would be a flag. */
  predicate ValidWidth(width: Width) {
    width.Width? ==> width.digits != "" && AllDigits(width.digits) && width.digits[0] != '0'
  }

  predicate ValidPrecision(precision: Precision) {
    precision.Precision? ==> AllDigits(precision.digits)
  }

  predicate ValidSpec(spec: Spec) {
    && AllFlags(spec.flags) && ValidWidth(spec.width) && ValidPrecision(spec.precision) && IsSpecifier(spec.conv)
  }

  // ---------- the text of a directive ----------

  function WidthText(width: Width): string {
    match width
    case NoWidth => ""
    case Width(digits) => digits
    case WidthStar => "*"
  }

  function PrecisionText(precision: Precision): string {
    match precision
    case NoPrecision => ""
    case Precision(digits) => "." + digits
    case PrecisionStar => ".*"
  }

  function LengthText(length: Length): string {
    match length
    case NoLength => ""
    case Char => "hh"
    case Short => "h"
    case Long => "l"
    case LongLong => "ll"
    case Max => "j"
    case Size => "z"
    case Difference => "t"
  }

  function Printed(spec: Spec): string {
    spec.flags + WidthText(spec.width) + PrecisionText(spec.precision) + LengthText(spec.length) + [spec.conv]
  }

  // ---------- what is read ----------

  /** The text s is at position p of f. */
  ghost predicate Holds(f: string, p: nat, s: string) {
    p + |s| <= |f| && f[p..p + |s|] == s
  }

  lemma HoldsParts(f: string, p: nat, s: string, t: string)
    requires Holds(f, p, s + t)
    ensures Holds(f, p, s) && Holds(f, p + |s|, t)
  {
    assert (s + t)[..|s|] == s && (s + t)[|s|..] == t;
    assert f[p..p + |s|] == f[p..p + |s + t|][..|s|];
    assert f[p + |s|..p + |s + t|] == f[p..p + |s + t|][|s|..];
  }

  lemma HoldsAt(f: string, p: nat, s: string, k: nat)
    requires Holds(f, p, s) && k < |s|
    ensures f[p + k] == s[k] == Peek(f, p + k)
  {
    assert f[p..p + |s|][k] == f[p + k];
  }

  /** The flags once those in `flags` have been read. */
  function WithFlags(flags: Flags, read: string): Flags {
    flags.(zeropad := flags.zeropad || '0' in read, left := flags.left || '-' in read,
           plus := flags.plus || '+' in read, space := flags.space || ' ' in read)
  }

  function ReadFlags(d: Directive, flags: string): Directive {
    d.(flags := WithFlags(d.flags, flags), p := d.p + |flags|)
  }

  ghost predicate FlagsAt(f: string, p: nat, flags: string) {
    Holds(f, p, flags) && AllFlags(flags) && !IsFlag(Peek(f, p + |flags|))
  }

  lemma OneFlag(f: string, d: Directive, c: char)
    requires d.p < |f| && f[d.p] == c && IsFlag(c)
    ensures ScanFlags(f, d) == ScanFlags(f, ReadFlags(d, [c]))
  {}

  lemma FlagsCompose(d: Directive, c: char, rest: string)
    ensures ReadFlags(ReadFlags(d, [c]), rest) == ReadFlags(d, [c] + rest)
  {}

  lemma FlagsTail(f: string, p: nat, flags: string)
    requires FlagsAt(f, p, flags) && flags != []
    ensures p < |f| && f[p] == flags[0] && IsFlag(flags[0]) && FlagsAt(f, p + 1, flags[1..])
            && flags == [flags[0]] + flags[1..]
  {
    HoldsAt(f, p, flags, 0);
    assert flags == [flags[0]] + flags[1..];
    HoldsParts(f, p, [flags[0]], flags[1..]);
  }

  lemma {:induction false} FlagsRead(f: string, d: Directive, flags: string)
    requires FlagsAt(f, d.p, flags)
    ensures d.p <= |f| && ScanFlags(f, d) == ReadFlags(d, flags)
    decreases |flags|
  {
    if flags == [] {
      assert WithFlags(d.flags, "") == d.flags;
    } else {
      FlagsTail(f, d.p, flags);
      OneFlag(f, d, flags[0]);
      FlagsRead(f, ReadFlags(d, [flags[0]]), flags[1..]);
      FlagsCompose(d, flags[0], flags[1..]);
    }
  }

  lemma {:induction false} DigitsRead(f: string, p: nat, digits: string)
    requires Holds(f, p, digits) && AllDigits(digits) && !IsDigit(Peek(f, p + |digits|))
    ensures DigitsEnd(f, p) == p + |digits|
    decreases |digits|
  {
    if digits != [] {
      HoldsAt(f, p, digits, 0);
      assert digits == [digits[0]] + digits[1..];
      HoldsParts(f, p, [digits[0]], digits[1..]);
      DigitsRead(f, p + 1, digits[1..]);
    }
  }

  /** The number that decimal digits stand for. */
  function Count(digits: string): nat {
    Denoted(Reversed(digits), 10)
  }

  /** _atoi reads it modulo 2^32. */
  lemma ParsedIsCount(digits: string)
    requires AllDigits(digits)
    ensures Parsed(digits) == Count(digits) % W32
  {
    ReversedDigits(digits);
    assert Reversed(Reversed(digits)) == digits;
    ParsedIsDenoted(Reversed(digits));
  }

  lemma NumberRead(f: string, p: nat, digits: string)
    requires AllDigits(digits) && Holds(f, p, digits) && !IsDigit(Peek(f, p + |digits|))
    ensures p <= |f| && DigitsEnd(f, p) == p + |digits| && Parsed(f[p..DigitsEnd(f, p)]) == Count(digits) % W32
    ensures IsDigit(Peek(f, p)) <==> digits != ""
  {
    DigitsRead(f, p, digits);
    ParsedIsCount(digits);
    if digits != "" { HoldsAt(f, p, digits, 0); }
  }

  function WidthArgs(width: Width): nat {
    if width.WidthStar? then 1 else 0
  }

  function PrecisionArgs(precision: Precision): nat {
    if precision.PrecisionStar? then 1 else 0
  }

  /** The width of a directive whose '*', if it has one, takes argument a; negative for a negative argument. */
  function WidthValue(width: Width, args: seq<Arg>, a: nat): int {
    match width
    case NoWidth => 0
    case Width(digits) => Count(digits)
    case WidthStar => NumberAt(args, a)
  }

  /** The precision; negative for a negative argument. */
  function PrecisionValue(precision: Precision, args: seq<Arg>, a: nat): int {
    match precision
    case NoPrecision => 0
    case Precision(digits) => Count(digits)
    case PrecisionStar => NumberAt(args, a)
  }

  /** What the code has for a width or a precision: a number that is written out modulo 2^32. */
  function InCode(written: bool, n: int): int {
    if written then n % W32 else n
  }

  /** A character that neither a run of digits nor a run of flags goes on with, and no '*'. */
  predicate EndsNumber(c: char) {
    !IsDigit(c) && !IsFlag(c) && c != '*'
  }

  function ReadWidth(d: Directive, args: seq<Arg>, width: Width): Directive {
    var w := InCode(width.Width?, WidthValue(width, args, d.a));
    d.(flags := if w < 0 then d.flags.(left := true) else d.flags, width := Abs(w),
       p := d.p + |WidthText(width)|, a := d.a + WidthArgs(width))
  }

  ghost predicate WidthAt(f: string, p: nat, width: Width) {
    ValidWidth(width) && Holds(f, p, WidthText(width)) && EndsNumber(Peek(f, p + |WidthText(width)|))
  }

  lemma WidthRead(f: string, args: seq<Arg>, d: Directive, width: Width)
    requires WidthAt(f, d.p, width) && d.width == 0
    ensures ScanWidth(f, args, d) == ReadWidth(d, args, width)
  {
    match width {
      case NoWidth =>
      case Width(digits) =>
        NumberRead(f, d.p, digits);
      case WidthStar =>
        HoldsAt(f, d.p, "*", 0);
    }
  }

  function ReadPrecision(d: Directive, args: seq<Arg>, precision: Precision): Directive {
    var n := InCode(precision.Precision?, PrecisionValue(precision, args, d.a));
    d.(flags := if precision.NoPrecision? then d.flags else d.flags.(precision := true),
       precision := if n < 0 then 0 else n,
       p := d.p + |PrecisionText(precision)|, a := d.a + PrecisionArgs(precision))
  }

  ghost predicate PrecisionAt(f: string, p: nat, precision: Precision) {
    var next := Peek(f, p + |PrecisionText(precision)|);
    && ValidPrecision(precision) && Holds(f, p, PrecisionText(precision))
    && EndsNumber(next) && next != '.'
  }

  /** A period and a number, or a period alone. */
  lemma PrecisionNumberRead(f: string, args: seq<Arg>, d: Directive, digits: string)
    requires d.precision == 0 && AllDigits(digits) && Holds(f, d.p, "." + digits)
    requires EndsNumber(Peek(f, d.p + 1 + |digits|))
    ensures ScanPrecision(f, args, d)
            == d.(flags := d.flags.(precision := true), precision := Count(digits) % W32, p := d.p + 1 + |digits|)
  {
    HoldsParts(f, d.p, ".", digits);
    HoldsAt(f, d.p, ".", 0);
    NumberRead(f, d.p + 1, digits);
    if digits == "" { assert Reversed("") == ""; }
  }

  lemma PrecisionStarRead(f: string, args: seq<Arg>, d: Directive, n: int)
    requires Holds(f, d.p, ".*") && n == NumberAt(args, d.a)
    ensures ScanPrecision(f, args, d)
            == d.(flags := d.flags.(precision := true), precision := if n < 0 then 0 else n, p := d.p + 2, a := d.a + 1)
  {
    HoldsAt(f, d.p, ".*", 0);
    HoldsAt(f, d.p, ".*", 1);
  }

  lemma PrecisionRead(f: string, args: seq<Arg>, d: Directive, precision: Precision)
    requires PrecisionAt(f, d.p, precision) && d.precision == 0
    ensures d.p <= |f| && ScanPrecision(f, args, d) == ReadPrecision(d, args, precision)
  {
    match precision {
      case NoPrecision =>
      case Precision(digits) => PrecisionNumberRead(f, args, d, digits);
      case PrecisionStar => PrecisionStarRead(f, args, d, NumberAt(args, d.a));
    }
  }

  /** The flag bits of the length modifier. */
  function WithLength(flags: Flags, length: Length): Flags {
    flags.(narrow := flags.narrow || length.Char? || length.Short?, byte := flags.byte || length.Char?,
           long := flags.long || !(length.NoLength? || length.Char? || length.Short?),
           longLong := flags.longLong || length.LongLong?)
  }

  function ReadLength(d: Directive, length: Length): Directive {
    d.(flags := WithLength(d.flags, length), p := d.p + |LengthText(length)|)
  }

  ghost predicate LengthAt(f: string, p: nat, length: Length, conv: char) {
    Holds(f, p, LengthText(length)) && Holds(f, p + |LengthText(length)|, [conv]) && IsSpecifier(conv)
  }

  lemma LengthRead(f: string, d: Directive, length: Length, conv: char)
    requires LengthAt(f, d.p, length, conv)
    ensures ScanLength(f, d) == ReadLength(d, length)
  {
    var s := LengthText(length);
    HoldsAt(f, d.p + |s|, [conv], 0);
    if |s| > 0 { HoldsAt(f, d.p, s, 0); }
    if |s| > 1 { HoldsAt(f, d.p, s, 1); }
  }

  /** The directive that a specification stands for, behind the '%' at p - 1 and from argument a on. */
  function Scanned(spec: Spec, args: seq<Arg>, p: nat, a: nat): Directive {
    var w := InCode(spec.width.Width?, WidthValue(spec.width, args, a));
    var n := InCode(spec.precision.Precision?, PrecisionValue(spec.precision, args, a + WidthArgs(spec.width)));
    var flags := NO_FLAGS.(zeropad := '0' in spec.flags, left := '-' in spec.flags || w < 0,
                           plus := '+' in spec.flags, space := ' ' in spec.flags,
                           precision := !spec.precision.NoPrecision?);
    Directive(WithLength(flags, spec.length), Abs(w), if n < 0 then 0 else n,
              p + |Printed(spec)| - 1, a + WidthArgs(spec.width) + PrecisionArgs(spec.precision))
  }

  lemma PrintedParts(f: string, p: nat, spec: Spec)
    requires Holds(f, p, Printed(spec))
    ensures var p1 := p + |spec.flags|;
            var p2 := p1 + |WidthText(spec.width)|;
            var p3 := p2 + |PrecisionText(spec.precision)|;
            && Holds(f, p, spec.flags) && Holds(f, p1, WidthText(spec.width))
            && Holds(f, p2, PrecisionText(spec.precision))
            && Holds(f, p3, LengthText(spec.length)) && Holds(f, p3 + |LengthText(spec.length)|, [spec.conv])
  {
    var a, b, c, e := spec.flags, WidthText(spec.width), PrecisionText(spec.precision), LengthText(spec.length);
    HoldsParts(f, p, a + b + c + e, [spec.conv]);
    HoldsParts(f, p, a + b + c, e);
    HoldsParts(f, p, a + b, c);
    HoldsParts(f, p, a, b);
  }

  lemma LengthStarts(f: string, p: nat, length: Length, conv: char)
    requires LengthAt(f, p, length, conv)
    ensures EndsNumber(Peek(f, p)) && Peek(f, p) != '.'
    ensures var q := p + |LengthText(length)|; q < |f| && f[q] == conv
  {
    HoldsAt(f, p + |LengthText(length)|, [conv], 0);
    if !length.NoLength? { HoldsAt(f, p, LengthText(length), 0); }
  }

  lemma PrecisionStarts(f: string, p: nat, precision: Precision)
    requires PrecisionAt(f, p, precision)
    ensures EndsNumber(Peek(f, p))
  {
    if !precision.NoPrecision? { HoldsAt(f, p, PrecisionText(precision), 0); }
  }

  lemma WidthStarts(f: string, p: nat, width: Width)
    requires WidthAt(f, p, width)
    ensures !IsFlag(Peek(f, p))
  {
    if !width.NoWidth? { HoldsAt(f, p, WidthText(width), 0); }
  }

  /** The four parts of a directive, and its specifier, are where the parser will look for them. */
  lemma PartsAt(f: string, p: nat, spec: Spec, p1: nat, p2: nat, p3: nat)
    requires Holds(f, p, Printed(spec)) && ValidSpec(spec)
    requires p1 == p + |spec.flags| && p2 == p1 + |WidthText(spec.width)| && p3 == p2 + |PrecisionText(spec.precision)|
    ensures FlagsAt(f, p, spec.flags) && WidthAt(f, p1, spec.width) && PrecisionAt(f, p2, spec.precision)
    ensures LengthAt(f, p3, spec.length, spec.conv)
    ensures var q := p + |Printed(spec)| - 1; q < |f| && f[q] == spec.conv
  {
    PrintedParts(f, p, spec);
    LengthStarts(f, p3, spec.length, spec.conv);
    PrecisionStarts(f, p2, spec.precision);
    WidthStarts(f, p1, spec.width);
  }

  /** One part after the other. */
  lemma PartsRead(f: string, args: seq<Arg>, spec: Spec, d0: Directive, d1: Directive, d2: Directive, d3: Directive)
    requires d0.width == 0 && d0.precision == 0 && FlagsAt(f, d0.p, spec.flags) && d1 == ReadFlags(d0, spec.flags)
    requires WidthAt(f, d1.p, spec.width) && d2 == ReadWidth(d1, args, spec.width)
    requires PrecisionAt(f, d2.p, spec.precision) && d3 == ReadPrecision(d2, args, spec.precision)
    requires LengthAt(f, d3.p, spec.length, spec.conv)
    ensures d0.p <= |f| && ScanLength(f, ScanPrecision(f, args, ScanWidth(f, args, ScanFlags(f, d0))))
            == ReadLength(d3, spec.length)
  {
    FlagsRead(f, d0, spec.flags);
    WidthRead(f, args, d1, spec.width);
    PrecisionRead(f, args, d2, spec.precision);
    LengthRead(f, d3, spec.length, spec.conv);
  }

  lemma ScannedParts(args: seq<Arg>, p: nat, a: nat, spec: Spec, d0: Directive, d1: Directive, d2: Directive,
                     d3: Directive)
    requires d0 == Directive(NO_FLAGS, 0, 0, p, a) && d1 == ReadFlags(d0, spec.flags)
    requires d2 == ReadWidth(d1, args, spec.width) && d3 == ReadPrecision(d2, args, spec.precision)
    ensures d1.p == p + |spec.flags| && d2.p == d1.p + |WidthText(spec.width)|
            && d3.p == d2.p + |PrecisionText(spec.precision)|
    ensures ReadLength(d3, spec.length) == Scanned(spec, args, p, a)
    ensures Scanned(spec, args, p, a).p == d3.p + |LengthText(spec.length)| == p + |Printed(spec)| - 1
  {}

  /** The parser undoes the printing of a directive: wherever its text is in a format, the parser finds the flags,
      the width and the precision (a written number modulo 2^32; a negative argument means '-' for a width, and 0 for
      a precision), the length, and the specifier. */
  lemma ScanReads(f: string, args: seq<Arg>, p: nat, a: nat, spec: Spec)
    requires Holds(f, p, Printed(spec)) && ValidSpec(spec)
    ensures p <= |f| && Scan(f, args, p, a) == Scanned(spec, args, p, a)
    ensures var q := p + |Printed(spec)| - 1; q < |f| && f[q] == spec.conv
  {
    var d0 := Directive(NO_FLAGS, 0, 0, p, a);
    var d1 := ReadFlags(d0, spec.flags);
    var d2 := ReadWidth(d1, args, spec.width);
    var d3 := ReadPrecision(d2, args, spec.precision);
    ScannedParts(args, p, a, spec, d0, d1, d2, d3);
    PartsAt(f, p, spec, d1.p, d2.p, d3.p);
    PartsRead(f, args, spec, d0, d1, d2, d3);
  }

  // ---------- every directive is written ----------

  lemma HoldsJoin(f: string, p: nat, s: string, t: string)
    requires Holds(f, p, s) && Holds(f, p + |s|, t)
    ensures Holds(f, p, s + t)
  {
    assert f[p..p + |s + t|] == f[p..p + |s|] + f[p + |s|..p + |s| + |t|];
  }

  lemma {:induction false} FlagsRun(f: string, d: Directive)
    requires d.p <= |f|
    ensures var q := ScanFlags(f, d).p; AllFlags(f[d.p..q]) && !IsFlag(Peek(f, q))
    decreases |f| - d.p
  {
    if IsFlag(Peek(f, d.p)) {
      var one := ReadFlags(d, [f[d.p]]);
      OneFlag(f, d, f[d.p]);
      FlagsRun(f, one);
      assert f[d.p..ScanFlags(f, d).p] == [f[d.p]] + f[one.p..ScanFlags(f, one).p];
    }
  }

  function WidthFound(f: string, p: nat): Width
    requires p <= |f|
  {
    if IsDigit(Peek(f, p)) then Width(f[p..DigitsEnd(f, p)]) else if Peek(f, p) == '*' then WidthStar else NoWidth
  }

  lemma WidthIsFound(f: string, args: seq<Arg>, d: Directive)
    requires d.p <= |f| && !IsFlag(Peek(f, d.p))
    ensures var width := WidthFound(f, d.p);
            && ValidWidth(width) && Holds(f, d.p, WidthText(width))
            && ScanWidth(f, args, d).p == d.p + |WidthText(width)|
  {
    if IsDigit(Peek(f, d.p)) { assert DigitsEnd(f, d.p) > d.p; }
  }

  function PrecisionFound(f: string, p: nat): Precision
    requires p <= |f|
  {
    if Peek(f, p) != '.' then NoPrecision
    else if Peek(f, p + 1) == '*' then PrecisionStar else Precision(f[p + 1..DigitsEnd(f, p + 1)])
  }

  lemma PeriodHolds(f: string, p: nat, e: nat)
    requires p < e <= |f| && f[p] == '.'
    ensures Holds(f, p, "." + f[p + 1..e]) && |"." + f[p + 1..e]| == e - p
  {
    assert f[p..e] == "." + f[p + 1..e];
  }

  lemma StarHolds(f: string, p: nat)
    requires Peek(f, p) == '.' && Peek(f, p + 1) == '*'
    ensures Holds(f, p, ".*") && p + 2 <= |f|
  {
    assert f[p..p + 2] == ".*";
  }

  lemma PrecisionIsFound(f: string, args: seq<Arg>, d: Directive)
    requires d.p <= |f|
    ensures var precision := PrecisionFound(f, d.p);
            && ValidPrecision(precision) && Holds(f, d.p, PrecisionText(precision))
            && ScanPrecision(f, args, d).p == d.p + |PrecisionText(precision)|
  {
    if Peek(f, d.p) == '.' {
      if Peek(f, d.p + 1) == '*' {
        StarHolds(f, d.p);
      } else {
        PeriodHolds(f, d.p, DigitsEnd(f, d.p + 1));
      }
    }
  }

  function LengthFound(f: string, p: nat): Length {
    match Peek(f, p)
    case 'l' => if Peek(f, p + 1) == 'l' then LongLong else Long
    case 'h' => if Peek(f, p + 1) == 'h' then Char else Short
    case 'j' => Max
    case 'z' => Size
    case 't' => Difference
    case _ => NoLength
  }

  lemma LengthIsFound(f: string, d: Directive)
    requires d.p <= |f|
    ensures var length := LengthFound(f, d.p);
            Holds(f, d.p, LengthText(length)) && ScanLength(f, d).p == d.p + |LengthText(length)|
  {
    var s := LengthText(LengthFound(f, d.p));
    assert |s| == 1 ==> f[d.p..d.p + 1] == s;
    assert |s| == 2 ==> f[d.p..d.p + 2] == s;
  }

  /** What a directive that has been read consists of. */
  ghost predicate WrittenAt(f: string, p: nat, spec: Spec) {
    ValidSpec(spec) && Holds(f, p, Printed(spec))
  }

  lemma PartsHold(f: string, p: nat, spec: Spec, p1: nat, p2: nat, p3: nat, p4: nat)
    requires p1 == p + |spec.flags| && p2 == p1 + |WidthText(spec.width)| && p3 == p2 + |PrecisionText(spec.precision)|
    requires p4 == p3 + |LengthText(spec.length)| && Holds(f, p, spec.flags) && Holds(f, p1, WidthText(spec.width))
    requires Holds(f, p2, PrecisionText(spec.precision)) && Holds(f, p3, LengthText(spec.length))
    requires Holds(f, p4, [spec.conv])
    ensures Holds(f, p, Printed(spec))
  {
    var a, b, c, e := spec.flags, WidthText(spec.width), PrecisionText(spec.precision), LengthText(spec.length);
    HoldsJoin(f, p, a, b);
    HoldsJoin(f, p, a + b, c);
    HoldsJoin(f, p, a + b + c, e);
    HoldsJoin(f, p, a + b + c + e, [spec.conv]);
  }

  lemma CharHolds(f: string, p: nat, c: char)
    requires p < |f| && f[p] == c
    ensures Holds(f, p, [c])
  {
    assert f[p..p + 1] == [c];
  }

  lemma PartsFound(f: string, args: seq<Arg>, spec: Spec, d0: Directive, d1: Directive, d2: Directive, d3: Directive,
                   d4: Directive)
    requires d0.p <= |f| && d1 == ScanFlags(f, d0) && d2 == ScanWidth(f, args, d1) && d3 == ScanPrecision(f, args, d2)
    requires d4 == ScanLength(f, d3) && d4.p < |f| && IsSpecifier(f[d4.p]) && spec.conv == f[d4.p]
    requires spec.flags == f[d0.p..d1.p] && spec.width == WidthFound(f, d1.p)
    requires spec.precision == PrecisionFound(f, d2.p) && spec.length == LengthFound(f, d3.p)
    ensures WrittenAt(f, d0.p, spec)
  {
    assert AllFlags(spec.flags) && !IsFlag(Peek(f, d1.p)) && d1.p == d0.p + |spec.flags| by { FlagsRun(f, d0); }
    assert Holds(f, d0.p, spec.flags);
    CharHolds(f, d4.p, spec.conv);
    assert ValidWidth(spec.width) && Holds(f, d1.p, WidthText(spec.width))
           && d2.p == d1.p + |WidthText(spec.width)| by {
      WidthIsFound(f, args, d1);
    }
    assert ValidPrecision(spec.precision) && Holds(f, d2.p, PrecisionText(spec.precision))
           && d3.p == d2.p + |PrecisionText(spec.precision)| by {
      PrecisionIsFound(f, args, d2);
    }
    assert Holds(f, d3.p, LengthText(spec.length)) && d4.p == d3.p + |LengthText(spec.length)| by {
      LengthIsFound(f, d3);
    }
    PartsHold(f, d0.p, spec, d1.p, d2.p, d3.p, d4.p);
  }

  /** Every directive that the parser reads to the end is the text of a specification. */
  lemma DirectiveIsWritten(f: string, args: seq<Arg>, p: nat, a: nat)
    requires p <= |f| && Scan(f, args, p, a).p < |f| && IsSpecifier(f[Scan(f, args, p, a).p])
    ensures exists spec :: WrittenAt(f, p, spec) && spec.conv == f[Scan(f, args, p, a).p]
  {
    var d0 := Directive(NO_FLAGS, 0, 0, p, a);
    var d1 := ScanFlags(f, d0);
    var d2 := ScanWidth(f, args, d1);
    var d3 := ScanPrecision(f, args, d2);
    var d4 := ScanLength(f, d3);
    var spec := Spec(f[p..d1.p], WidthFound(f, d1.p), PrecisionFound(f, d2.p), LengthFound(f, d3.p), f[d4.p]);
    PartsFound(f, args, spec, d0, d1, d2, d3, d4);
  }
}
