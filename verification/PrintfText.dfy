/** What the formatter prints, as a function of the format and the arguments. */
module PrintfText {
  import opened Units
  import opened Words

  /** PRINTF_NTOA_BUFFER_SIZE */
  const NTOA_BUFFER: nat := 32

  /** The flag bits of a directive; the '#' flag is not part of this model. */
  datatype Flags = Flags(zeropad: bool, left: bool, plus: bool, space: bool, upper: bool,
                         narrow: bool, byte: bool, long: bool, longLong: bool, precision: bool)

  const NO_FLAGS: Flags := Flags(false, false, false, false, false, false, false, false, false, false)

  /** An argument of the variable argument list. */
  datatype Arg = Number(i: int) | Text(s: string)

  // ---------- repeated and reversed characters ----------

  /** n copies of c; none when n is not positive. */
  function Copies(c: char, n: int): (r: seq<char>)
    ensures |r| == if n <= 0 then 0 else n
  {
    seq(if n <= 0 then 0 else n, i => c)
  }

  function Reversed(s: seq<char>): (r: seq<char>)
    ensures |r| == |s|
  {
    seq(|s|, i requires 0 <= i < |s| => s[|s| - 1 - i])
  }

  lemma OneMoreCopy(c: char, n: int)
    requires n >= 0
    ensures Copies(c, n) + [c] == Copies(c, n + 1)
  {}

  lemma OneMoreReversed(s: seq<char>)
    requires s != []
    ensures Reversed(s) == Reversed(s[1..]) + [s[0]]
  {}

  // ---------- integers ----------

  function DigitChar(d: nat, upper: bool): char
    requires d < 16
  {
    if d < 10 then ('0' as nat + d) as char else ((if upper then 'A' else 'a') as nat + d - 10) as char
  }

  predicate Base(base: nat) {
    base == 2 || base == 8 || base == 10 || base == 16
  }

  function Quotient(value: nat, base: nat): (q: nat)
    requires Base(base)
    ensures q <= value && (q > 0 ==> q < value)
  {
    if base == 2 then value / 2 else if base == 8 then value / 8 else if base == 10 then value / 10 else value / 16
  }

  function LastDigit(value: nat, base: nat): (d: nat)
    requires Base(base)
    ensures d < base
  {
    if base == 2 then value % 2 else if base == 8 then value % 8 else if base == 10 then value % 10 else value % 16
  }

  /** The digits of value, the lowest first, and no more than n of them. */
  function Digits(value: nat, base: nat, upper: bool, n: nat): (r: seq<char>)
    requires Base(base)
    ensures |r| <= n
  {
    if n == 0 then []
    else
      [DigitChar(LastDigit(value, base), upper)]
      + if Quotient(value, base) == 0 then [] else Digits(Quotient(value, base), base, upper, n - 1)
  }

  /** The digits that are still to be converted. */
  function Remaining(value: nat, base: nat, upper: bool, n: nat): seq<char>
    requires Base(base)
  {
    if value == 0 then [] else Digits(value, base, upper, n)
  }

  lemma NextDigit(done: seq<char>, value: nat, base: nat, upper: bool, n: nat)
    requires Base(base) && n > 0
    ensures done + Digits(value, base, upper, n)
            == done + [DigitChar(LastDigit(value, base), upper)] + Remaining(Quotient(value, base), base, upper, n - 1)
  {}

  /** Zeros are appended until there are n characters, or the buffer is full. */
  function ZeroPadded(buf: seq<char>, n: nat): (r: seq<char>) {
    buf + Copies('0', (if n < NTOA_BUFFER then n else NTOA_BUFFER) - |buf|)
  }

  /** The sign, if there is one. */
  function Sign(negative: bool, flags: Flags): seq<char> {
    if negative then "-" else if flags.plus then "+" else if flags.space then " " else ""
  }

  /** The width once _ntoa_format has made room for the sign. */
  function SignedWidth(negative: bool, width: nat, flags: Flags): nat {
    if !flags.left && width > 0 && flags.zeropad && (negative || flags.plus || flags.space) then width - 1 else width
  }

  /** The buffer after zero padding. */
  function WithZeros(buf: seq<char>, negative: bool, prec: nat, width: nat, flags: Flags): seq<char> {
    if flags.left then buf
    else
      var padded := ZeroPadded(buf, prec);
      if flags.zeropad then ZeroPadded(padded, SignedWidth(negative, width, flags)) else padded
  }

  /** The buffer when _ntoa_format hands it on: digits, zeros and sign, the last character first. */
  function Formatted(buf: seq<char>, negative: bool, prec: nat, width: nat, flags: Flags): seq<char> {
    var padded := WithZeros(buf, negative, prec, width, flags);
    if |padded| < NTOA_BUFFER then padded + Sign(negative, flags) else padded
  }

  /** What _out_rev puts out: the buffer, last character first, in a field of the given width. */
  function Field(buf: seq<char>, width: nat, flags: Flags): seq<char> {
    (if !flags.left && !flags.zeropad then Copies(' ', width - |buf|) else []) + Reversed(buf)
    + (if flags.left then Copies(' ', width - |buf|) else [])
  }

  /** What _ntoa_format puts out. */
  function FormattedField(buf: seq<char>, negative: bool, prec: nat, width: nat, flags: Flags): seq<char> {
    Field(Formatted(buf, negative, prec, width, flags), SignedWidth(negative, width, flags), flags)
  }

  /** The digits that _ntoa_long converts: none for a zero with an explicit precision. */
  function Converted(value: nat, base: nat, flags: Flags): seq<char>
    requires Base(base)
  {
    if flags.precision && value == 0 then [] else Digits(value, base, flags.upper, NTOA_BUFFER)
  }

  /** What _ntoa_long puts out. */
  function IntegerText(value: nat, negative: bool, base: nat, prec: nat, width: nat, flags: Flags): seq<char>
    requires Base(base)
  {
    FormattedField(Converted(value, base, flags), negative, prec, width, flags)
  }

  // ---------- parsing a directive ----------

  /** *format: the character at p, or the terminating NUL. */
  function Peek(f: string, p: nat): char {
    if p < |f| then f[p] else '\0'
  }

  predicate IsDigit(c: char) {
    '0' <= c <= '9'
  }

  function DigitsEnd(f: string, p: nat): (e: nat)
    requires p <= |f|
    ensures p <= e <= |f| && !IsDigit(Peek(f, e)) && forall k :: p <= k < e ==> IsDigit(f[k])
    decreases |f| - p
  {
    if IsDigit(Peek(f, p)) then DigitsEnd(f, p + 1) else p
  }

  /** The value that _atoi returns for a run of digits, in 32-bit arithmetic. */
  function Parsed(digits: string): (v: nat)
    requires forall k :: 0 <= k < |digits| ==> IsDigit(digits[k])
  {
    if digits == [] then 0
    else (Parsed(digits[..|digits| - 1]) * 10 + (digits[|digits| - 1] as nat - '0' as nat)) % W32
  }

  /** A directive that has been read up to position p and argument a. */
  datatype Directive = Directive(flags: Flags, width: nat, precision: nat, p: nat, a: nat)

  function NumberAt(args: seq<Arg>, a: nat): int {
    if a < |args| && args[a].Number? then args[a].i else 0
  }

  function TextAt(args: seq<Arg>, a: nat): string {
    if a < |args| && args[a].Text? then args[a].s else ""
  }

  function ScanFlags(f: string, d: Directive): (r: Directive)
    requires d.p <= |f|
    ensures d.p <= r.p <= |f|
    decreases |f| - d.p
  {
    match Peek(f, d.p)
    case '0' => ScanFlags(f, d.(flags := d.flags.(zeropad := true), p := d.p + 1))
    case '-' => ScanFlags(f, d.(flags := d.flags.(left := true), p := d.p + 1))
    case '+' => ScanFlags(f, d.(flags := d.flags.(plus := true), p := d.p + 1))
    case ' ' => ScanFlags(f, d.(flags := d.flags.(space := true), p := d.p + 1))
    case _ => d
  }

  function ScanWidth(f: string, args: seq<Arg>, d: Directive): (r: Directive)
    requires d.p <= |f|
    ensures d.p <= r.p <= |f|
  {
    if IsDigit(Peek(f, d.p)) then d.(width := Parsed(f[d.p..DigitsEnd(f, d.p)]), p := DigitsEnd(f, d.p))
    else if Peek(f, d.p) == '*' then
      var w := NumberAt(args, d.a);
      if w < 0 then d.(flags := d.flags.(left := true), width := -w, p := d.p + 1, a := d.a + 1)
      else d.(width := w, p := d.p + 1, a := d.a + 1)
    else d
  }

  function ScanPrecision(f: string, args: seq<Arg>, d: Directive): (r: Directive)
    requires d.p <= |f|
    ensures d.p <= r.p <= |f|
  {
    if Peek(f, d.p) != '.' then d
    else
      var q := d.p + 1;
      var fl := d.flags.(precision := true);
      if IsDigit(Peek(f, q)) then d.(flags := fl, precision := Parsed(f[q..DigitsEnd(f, q)]), p := DigitsEnd(f, q))
      else if Peek(f, q) == '*' then
        var prec := NumberAt(args, d.a);
        d.(flags := fl, precision := if prec > 0 then prec else 0, p := q + 1, a := d.a + 1)
      else d.(flags := fl, p := q)
  }

  function ScanLength(f: string, d: Directive): (r: Directive)
    requires d.p <= |f|
    ensures d.p <= r.p <= |f|
  {
    var next := Peek(f, d.p + 1);
    match Peek(f, d.p)
    case 'l' =>
      if next == 'l' then d.(flags := d.flags.(long := true, longLong := true), p := d.p + 2)
      else d.(flags := d.flags.(long := true), p := d.p + 1)
    case 'h' =>
      if next == 'h' then d.(flags := d.flags.(narrow := true, byte := true), p := d.p + 2)
      else d.(flags := d.flags.(narrow := true), p := d.p + 1)
    case 't' => d.(flags := d.flags.(long := true), p := d.p + 1)
    case 'j' => d.(flags := d.flags.(long := true), p := d.p + 1)
    case 'z' => d.(flags := d.flags.(long := true), p := d.p + 1)
    case _ => d
  }

  /** The directive that starts behind the '%' at p - 1; its specifier is the character at the new position. */
  function Scan(f: string, args: seq<Arg>, p: nat, a: nat): (d: Directive)
    requires p <= |f|
    ensures p <= d.p <= |f|
  {
    ScanLength(f, ScanPrecision(f, args, ScanWidth(f, args, ScanFlags(f, Directive(NO_FLAGS, 0, 0, p, a)))))
  }

  // ---------- conversions ----------

  predicate IsSigned(c: char) {
    c == 'd' || c == 'i'
  }

  predicate IsInteger(c: char) {
    IsSigned(c) || c == 'u' || c == 'x' || c == 'X' || c == 'o' || c == 'b'
  }

  function BaseOf(c: char): (base: nat)
    ensures Base(base)
  {
    if c == 'x' || c == 'X' then 16 else if c == 'o' then 8 else if c == 'b' then 2 else 10
  }

  function IntegerFlags(c: char, flags: Flags): Flags {
    var f1 := if c == 'X' then flags.(upper := true) else flags;
    var f2 := if IsSigned(c) then f1 else f1.(plus := false, space := false);
    if f2.precision then f2.(zeropad := false) else f2
  }

  /** The value that an integer conversion takes from its argument. */
  function Value(c: char, flags: Flags, i: int): int {
    if flags.long || flags.longLong then i
    else if flags.byte then if IsSigned(c) then Signed(i, 8) else i % Pow2(8)
    else if flags.narrow then if IsSigned(c) then Signed(i, 16) else i % Pow2(16)
    else i
  }

  /** (char): the low 8 bits. */
  function CharOf(i: int): char {
    (i % 256) as char
  }

  /** The part of the argument that %s prints. */
  function Shown(d: Directive, s: string): string {
    if d.flags.precision && d.precision < |s| then s[..d.precision] else s
  }

  /** `shown` in a field of the directive's width. */
  function InField(d: Directive, shown: string): string {
    if d.flags.left then shown + Copies(' ', d.width - |shown|) else Copies(' ', d.width - |shown|) + shown
  }

  /** What the directive d with specifier c puts out. */
  function Conversion(c: char, d: Directive, args: seq<Arg>): string {
    if IsInteger(c) then
      var flags := IntegerFlags(c, d.flags);
      var v := Value(c, flags, NumberAt(args, d.a));
      IntegerText(Abs(v), v < 0, BaseOf(c), d.precision, d.width, flags)
    else if c == 'c' then InField(d, [CharOf(NumberAt(args, d.a))])
    else if c == 's' then InField(d, Shown(d, TextAt(args, d.a)))
    else if c == 'p' then
      IntegerText(Abs(NumberAt(args, d.a)), false, 16, d.precision, 16, d.flags.(zeropad := true, upper := true))
    else [c]
  }

  function ArgsUsed(c: char): nat {
    if IsInteger(c) || c == 'c' || c == 's' || c == 'p' then 1 else 0
  }

  /** What is put out for the character or the directive at a position, and where the format goes on. */
  datatype Piece = Piece(text: string, p: nat, a: nat)

  function PieceAt(f: string, args: seq<Arg>, p: nat, a: nat): (r: Piece)
    requires p < |f|
    ensures p < r.p <= |f|
  {
    if f[p] != '%' then Piece([f[p]], p + 1, a)
    else
      var d := Scan(f, args, p + 1, a);
      if d.p >= |f| then Piece("", |f|, d.a) else Piece(Conversion(f[d.p], d, args), d.p + 1, d.a + ArgsUsed(f[d.p]))
  }

  /** What the format puts out from position p and argument a on. */
  function Render(f: string, args: seq<Arg>, p: nat, a: nat): string
    decreases |f| - p
  {
    if p >= |f| then ""
    else
      var piece := PieceAt(f, args, p, a);
      piece.text + Render(f, args, piece.p, piece.a)
  }

  // ---------- what the formatter demands ----------

  ghost predicate IntArg(args: seq<Arg>, a: nat) {
    a < |args| && args[a].Number? && -0x8000_0000 < args[a].i < 0x8000_0000
  }

  /** The arguments that '*' takes. */
  ghost predicate StarsOK(f: string, args: seq<Arg>, p: nat, a: nat)
    requires p <= |f|
  {
    var d0 := ScanFlags(f, Directive(NO_FLAGS, 0, 0, p, a));
    var d1 := ScanWidth(f, args, d0);
    && (Peek(f, d0.p) == '*' ==> IntArg(args, d0.a))
    && (Peek(f, d1.p) == '.' && Peek(f, d1.p + 1) == '*' ==> IntArg(args, d1.a))
  }

  /** The argument of the conversion itself.  The lowest value of a signed type cannot be negated. */
  ghost predicate ArgOK(c: char, d: Directive, args: seq<Arg>) {
    var wide := d.flags.long || d.flags.longLong;
    if IsInteger(c) || c == 'p' then
      && d.a < |args| && args[d.a].Number?
      && var i := args[d.a].i;
      if IsSigned(c) then (if wide then -(W64 / 2) < i < W64 / 2 else -(W32 / 2) < i < W32 / 2)
      else (if wide || c == 'p' then 0 <= i < W64 else 0 <= i < W32)
    else if c == 'c' then d.a < |args| && args[d.a].Number?
    else if c == 's' then d.a < |args| && args[d.a].Text? && '\0' !in args[d.a].s && |args[d.a].s| < W32
    else c !in "fFeEgG#" && c != '\0'
  }

  /** The character at p is no NUL; a directive there is complete, of a kind that is modelled, and has its arguments. */
  ghost predicate PieceOK(f: string, args: seq<Arg>, p: nat, a: nat)
    requires p < |f|
  {
    if f[p] != '%' then f[p] != '\0'
    else
      var d := Scan(f, args, p + 1, a);
      StarsOK(f, args, p + 1, a) && d.p < |f| && ArgOK(f[d.p], d, args)
  }

  /** The position up to which the format is well-formed: its length when all of it is. */
  ghost function WellFormedUpTo(f: string, args: seq<Arg>, p: nat, a: nat): nat
    decreases |f| - p
  {
    if p < |f| && PieceOK(f, args, p, a) then
      var piece := PieceAt(f, args, p, a);
      WellFormedUpTo(f, args, piece.p, piece.a)
    else p
  }

  ghost predicate WellFormed(f: string, args: seq<Arg>) {
    WellFormedUpTo(f, args, 0, 0) == |f|
  }

  /** One piece of a well-formed format. */
  lemma FirstPiece(f: string, args: seq<Arg>, p: nat, a: nat)
    requires p < |f| && WellFormedUpTo(f, args, p, a) == |f|
    ensures PieceOK(f, args, p, a)
    ensures var piece := PieceAt(f, args, p, a);
            && p < piece.p <= |f| && WellFormedUpTo(f, args, piece.p, piece.a) == |f|
            && Render(f, args, p, a) == piece.text + Render(f, args, piece.p, piece.a)
  {}
}
