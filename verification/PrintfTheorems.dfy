/** What the formatter's integers mean: their digits denote their values, and the parser undoes the printer. */
module PrintfTheorems {
  import opened Units
  import opened Words
  import opened PrintfText
  import opened Printf

  // ---------- digits denote values ----------

  /** base * x */
  function Scaled(x: nat, base: nat): nat
    requires Base(base)
  {
    if base == 2 then 2 * x else if base == 8 then 8 * x else if base == 10 then 10 * x else 16 * x
  }

  function Power(base: nat, n: nat): (p: nat)
    requires Base(base)
    ensures p > 0
  {
    if n == 0 then 1 else Scaled(Power(base, n - 1), base)
  }

  /** The value of a digit, of either case. */
  function DigitOf(c: char): nat {
    if '0' <= c <= '9' then c as nat - '0' as nat
    else if 'a' <= c <= 'f' then c as nat - 'a' as nat + 10
    else if 'A' <= c <= 'F' then c as nat - 'A' as nat + 10
    else 0
  }

  /** The number that digits denote in positional notation, the lowest digit first. */
  function Denoted(digits: seq<char>, base: nat): nat
    requires Base(base)
  {
    if digits == [] then 0 else DigitOf(digits[0]) + Scaled(Denoted(digits[1..], base), base)
  }

  lemma DigitOfChar(d: nat, upper: bool)
    requires d < 16
    ensures DigitOf(DigitChar(d, upper)) == d && DigitChar(d, upper) != ' '
  {}

  lemma SplitDigit(value: nat, base: nat)
    requires Base(base)
    ensures value == LastDigit(value, base) + Scaled(Quotient(value, base), base)
  {}

  /** The digits that are converted denote the value exactly when there is room for all of them. */
  lemma {:induction false} DigitsDenote(value: nat, base: nat, upper: bool, n: nat)
    requires Base(base)
    ensures Denoted(Digits(value, base, upper, n), base) < Power(base, n)
    ensures Denoted(Digits(value, base, upper, n), base) == value <==> value < Power(base, n)
  {
    if n > 0 {
      var q, d := Quotient(value, base), LastDigit(value, base);
      var ds := Digits(value, base, upper, n);
      DigitsDenote(q, base, upper, n - 1);
      SplitDigit(value, base);
      DigitOfChar(d, upper);
      if q == 0 {
        assert ds == [DigitChar(d, upper)];
        assert Denoted(ds[1..], base) == 0;
      } else {
        assert ds[1..] == Digits(q, base, upper, n - 1);
      }
    }
  }

  lemma {:induction false} PowerIsLarge(base: nat, n: nat)
    requires Base(base)
    ensures base == 2 ==> Power(base, n) == Pow2(n)
    ensures base != 2 ==> Power(base, n) >= Pow2(3 * n)
  {
    if n > 0 {
      PowerIsLarge(base, n - 1);
      EightTimes(3 * (n - 1));
      assert 3 * (n - 1) + 3 == 3 * n;
    }
  }

  lemma EightTimes(k: nat)
    ensures Pow2(k + 3) == 8 * Pow2(k)
  {
    assert Pow2(k + 3) == 2 * Pow2(k + 2);
    assert Pow2(k + 2) == 2 * Pow2(k + 1);
  }

  /** What _ntoa_long converts of a 64-bit value denotes it, except in base 2 from 2^32 on, where the buffer is
      too small. */
  lemma ConvertedDenotes(value: nat, base: nat, flags: Flags)
    requires Base(base) && value < W64
    ensures Denoted(Converted(value, base, flags), base) == value <==> (base != 2 || value < W32)
  {
    Pow2Values();
    PowerIsLarge(base, NTOA_BUFFER);
    DigitsDenote(value, base, flags.upper, NTOA_BUFFER);
    Pow2AtMost(WORD, 3 * NTOA_BUFFER);
    assert Pow2(WORD) == W64 && Pow2(HALF) == W32;
  }

  // ---------- the parser undoes the printer ----------

  lemma {:induction false} DecimalDigits(value: nat, upper: bool, n: nat)
    ensures forall k :: 0 <= k < |Digits(value, 10, upper, n)| ==> IsDigit(Digits(value, 10, upper, n)[k])
  {
    if n > 0 { DecimalDigits(Quotient(value, 10), upper, n - 1); }
  }

  lemma ReversedDigits(s: seq<char>)
    requires forall k :: 0 <= k < |s| ==> IsDigit(s[k])
    ensures forall k :: 0 <= k < |s| ==> IsDigit(Reversed(s)[k])
  {
    forall k | 0 <= k < |s| ensures IsDigit(Reversed(s)[k]) { assert Reversed(s)[k] == s[|s| - 1 - k]; }
  }

  lemma StepModulo(x: nat, d: nat)
    ensures (x % W32 * 10 + d) % W32 == (d + 10 * x) % W32
  {}

  /** _atoi computes the denoted number modulo 2^32. */
  lemma {:induction false} ParsedIsDenoted(s: seq<char>)
    requires forall k :: 0 <= k < |s| ==> IsDigit(s[k])
    ensures forall k :: 0 <= k < |s| ==> IsDigit(Reversed(s)[k])
    ensures Parsed(Reversed(s)) == Denoted(s, 10) % W32
  {
    ReversedDigits(s);
    if s != [] {
      ParsedIsDenoted(s[1..]);
      OneMoreReversed(s);
      var r := Reversed(s);
      assert r[..|r| - 1] == Reversed(s[1..]);
      StepModulo(Denoted(s[1..], 10), DigitOf(s[0]));
    }
  }

  /** %u without flags, width or precision prints the digits, and nothing else. */
  lemma PlainText(value: nat)
    ensures IntegerText(value, false, 10, 0, 0, NO_FLAGS) == Reversed(Digits(value, 10, false, NTOA_BUFFER))
  {
    var ds := Digits(value, 10, false, NTOA_BUFFER);
    assert Copies('0', 0 - |ds|) == [] && Copies(' ', 0 - |ds|) == [];
    assert WithZeros(ds, false, 0, 0, NO_FLAGS) == ds;
    assert Formatted(ds, false, 0, 0, NO_FLAGS) == ds;
  }

  /** _atoi applied to a printed number gives the number back, modulo 2^32 when it is longer. */
  lemma ParserUndoesPrinter(value: nat)
    requires value < W64
    ensures var t := IntegerText(value, false, 10, 0, 0, NO_FLAGS);
            && (forall k :: 0 <= k < |t| ==> IsDigit(t[k]))
            && Parsed(t) == value % W32 && (value < W32 ==> Parsed(t) == value)
  {
    var ds := Digits(value, 10, false, NTOA_BUFFER);
    PlainText(value);
    DecimalDigits(value, false, NTOA_BUFFER);
    ParsedIsDenoted(ds);
    ConvertedDenotes(value, 10, NO_FLAGS);
  }

  lemma PlainFormat(value: nat)
    requires value < W32
    ensures WellFormed("%u", [Number(value)])
    ensures Render("%u", [Number(value)], 0, 0) == IntegerText(value, false, 10, 0, 0, NO_FLAGS)
  {
    var f, args := "%u", [Number(value)];
    var d := Scan(f, args, 1, 0);
    assert d == Directive(NO_FLAGS, 0, 0, 1, 0);
    var text := IntegerText(value, false, 10, 0, 0, NO_FLAGS);
    assert Conversion('u', d, args) == text;
    assert PieceAt(f, args, 0, 0) == Piece(text, 2, 1);
    assert Render(f, args, 2, 1) == "";
    assert StarsOK(f, args, 1, 0);
    assert WellFormedUpTo(f, args, 2, 1) == 2;
  }

  lemma DigitsStop(s: string, n: nat)
    requires n <= |s| && (forall k :: 0 <= k < n ==> IsDigit(s[k])) && !IsDigit(Peek(s, n))
    ensures DigitsEnd(s, 0) == n
  {}

  lemma ParsesBack(before: seq<char>, after: seq<char>, text: seq<char>)
    requires Terminated(before, after, text, |after|) && |text| < |after|
    requires forall k :: 0 <= k < |text| ==> IsDigit(text[k])
    ensures DigitsEnd(after, 0) == |text| && after[0..|text|] == text
  {
    DigitsStop(after, |text|);
  }

  /** Formatting into a large enough buffer and parsing what it holds, for a format that yields digits only. */
  method FormatThenParse(buffer: array<char>, f: string, args: seq<Arg>, ghost text: string) returns (parsed: nat)
    requires WellFormed(f, args) && Render(f, args, 0, 0) == text && |text| < buffer.Length < W64
    requires forall k :: 0 <= k < |text| ==> IsDigit(text[k])
    modifies buffer
    ensures parsed == Parsed(text)
  {
    ghost var before := buffer[..];
    var written := Vsnprintf(buffer, buffer.Length, f, args);
    ParsesBack(before, buffer[..], text);
    var e;
    parsed, e := Atoi(buffer[..], 0);
  }

  /** The text of %u, for a 32-bit value. */
  lemma PlainRun(value: nat) returns (text: string)
    requires value < W32
    ensures WellFormed("%u", [Number(value)]) && Render("%u", [Number(value)], 0, 0) == text
    ensures |text| <= NTOA_BUFFER && (forall k :: 0 <= k < |text| ==> IsDigit(text[k])) && Parsed(text) == value
  {
    text := IntegerText(value, false, 10, 0, 0, NO_FLAGS);
    PlainFormat(value);
    PlainText(value);
    ParserUndoesPrinter(value);
  }

  /** Printing with %u and parsing the buffer gives every 32-bit value back. */
  method PrintThenParse(buffer: array<char>, value: nat) returns (parsed: nat)
    requires value < W32 && NTOA_BUFFER < buffer.Length < W64
    modifies buffer
    ensures parsed == value
  {
    ghost var text := PlainRun(value);
    parsed := FormatThenParse(buffer, "%u", [Number(value)], text);
  }

  // ---------- buffers of different sizes ----------

  /** Two buffers of different sizes hold the same characters, as far as both have room, and the larger limit loses
      none: when it is above the length of the text, all of the text is there. */
  lemma SizeOnlyCuts(before: seq<char>, after: seq<char>, maxlen: nat, before': seq<char>, after': seq<char>,
                     maxlen': nat, text: seq<char>, k: nat)
    requires 0 < maxlen <= |after| && 0 < maxlen' <= |after'|
    requires Terminated(before, after, text, maxlen) && Terminated(before', after', text, maxlen')
    ensures k < |text| && k + 1 < maxlen && k + 1 < maxlen' ==> after[k] == after'[k]
    ensures |text| < maxlen ==> after[..|text|] == text && after[|text|] == '\0'
  {
    if |text| < maxlen { assert forall j :: 0 <= j < |text| ==> after[j] == text[j]; }
  }
}
