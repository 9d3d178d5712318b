/** Numerals: what the digits that the formatter converts have to be. */
module PrintfNumerals {
  import opened PrintfText
  import opened PrintfTheorems

  /** The numeral of a value, the highest digit first. */
  function Numeral(value: nat, base: nat, upper: bool): (r: seq<char>)
    requires Base(base)
    ensures r != []
  {
    var last := [DigitChar(LastDigit(value, base), upper)];
    if Quotient(value, base) == 0 then last else Numeral(Quotient(value, base), base, upper) + last
  }

  /** c is a digit of the base, in the given letter case. */
  predicate IsDigitOf(c: char, base: nat, upper: bool) {
    var first := if upper then 'A' else 'a';
    if c <= '9' then '0' <= c && c as nat - '0' as nat < base
    else base > 10 && first <= c && c as nat - first as nat < base - 10
  }

  /** What a numeral is: digits of the base, in the right letter case, that denote the value, with no leading zero. */
  ghost predicate IsNumeral(s: seq<char>, value: nat, base: nat, upper: bool)
    requires Base(base)
  {
    && s != [] && (forall k :: 0 <= k < |s| ==> IsDigitOf(s[k], base, upper))
    && Denoted(Reversed(s), base) == value && (s[0] == '0' ==> |s| == 1)
  }

  lemma DigitIsDigitOf(d: nat, base: nat, upper: bool)
    requires Base(base) && d < base
    ensures IsDigitOf(DigitChar(d, upper), base, upper) && DigitOf(DigitChar(d, upper)) == d
    ensures DigitChar(d, upper) == '0' <==> d == 0
  {}

  lemma DigitOfIsDigit(c: char, base: nat, upper: bool)
    requires Base(base) && IsDigitOf(c, base, upper)
    ensures DigitOf(c) < base && DigitChar(DigitOf(c), upper) == c
  {}

  /** The last digit counts once, the others base times. */
  lemma DenotedLast(s: seq<char>, base: nat)
    requires Base(base) && s != []
    ensures var t := s[..|s| - 1];
            Denoted(Reversed(s), base) == DigitOf(s[|s| - 1]) + Scaled(Denoted(Reversed(t), base), base)
  {
    assert Reversed(s)[1..] == Reversed(s[..|s| - 1]);
  }

  lemma SplitUnique(q: nat, d: nat, base: nat)
    requires Base(base) && d < base
    ensures Quotient(d + Scaled(q, base), base) == q && LastDigit(d + Scaled(q, base), base) == d
  {}

  lemma {:induction false} NumeralIsNumeral(value: nat, base: nat, upper: bool)
    requires Base(base)
    ensures IsNumeral(Numeral(value, base, upper), value, base, upper)
  {
    var q, d := Quotient(value, base), LastDigit(value, base);
    var s := Numeral(value, base, upper);
    DigitIsDigitOf(d, base, upper);
    DenotedLast(s, base);
    SplitDigit(value, base);
    if q > 0 {
      NumeralIsNumeral(q, base, upper);
      assert s[..|s| - 1] == Numeral(q, base, upper);
      assert s[0] == Numeral(q, base, upper)[0];
    }
  }

  lemma NumeralOfZero(base: nat, upper: bool)
    requires Base(base)
    ensures Numeral(0, base, upper) == "0"
  {}

  /** A numeral without its last digit. */
  lemma NumeralPrefix(s: seq<char>, value: nat, base: nat, upper: bool)
    requires Base(base) && IsNumeral(s, value, base, upper) && |s| > 1
    ensures var t := s[..|s| - 1]; IsNumeral(t, Denoted(Reversed(t), base), base, upper) && t[0] != '0'
  {}

  lemma SplitLast(s: seq<char>)
    requires s != []
    ensures s == s[..|s| - 1] + [s[|s| - 1]]
  {}

  lemma NumeralLast(q: nat, d: nat, base: nat, upper: bool)
    requires Base(base) && d < base
    ensures Numeral(d + Scaled(q, base), base, upper)
            == if q == 0 then [DigitChar(d, upper)] else Numeral(q, base, upper) + [DigitChar(d, upper)]
  {
    SplitUnique(q, d, base);
  }

  /** There is no other numeral of the value. */
  lemma {:induction false} NumeralUnique(s: seq<char>, value: nat, base: nat, upper: bool)
    requires Base(base) && IsNumeral(s, value, base, upper)
    ensures s == Numeral(value, base, upper)
    decreases |s|
  {
    var n := |s| - 1;
    var t, q := s[..n], Denoted(Reversed(s[..n]), base);
    SplitLast(s);
    DigitOfIsDigit(s[n], base, upper);
    DenotedLast(s, base);
    NumeralLast(q, DigitOf(s[n]), base, upper);
    if n > 0 {
      NumeralPrefix(s, value, base, upper);
      NumeralUnique(t, q, base, upper);
      NumeralOfZero(base, upper);
    }
  }

  /** The digits that are converted are the numeral, the lowest digit first, when there is room for it. */
  lemma {:induction false} DigitsAreNumeral(value: nat, base: nat, upper: bool, n: nat)
    requires Base(base) && value < Power(base, n) && n > 0
    ensures Reversed(Digits(value, base, upper, n)) == Numeral(value, base, upper)
  {
    var q, ds := Quotient(value, base), Digits(value, base, upper, n);
    OneMoreReversed(ds);
    if q > 0 {
      SplitDigit(value, base);
      assert n > 1 && q < Power(base, n - 1);
      DigitsAreNumeral(q, base, upper, n - 1);
      assert ds[1..] == Digits(q, base, upper, n - 1);
    } else {
      assert ds[1..] == [] && Reversed([]) == [];
    }
  }
}
