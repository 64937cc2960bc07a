/**
 * `format_percentage` (main.py:59-60). The argument is taken as the count of
 * hundredths that `f"{percentage:.2f}"` renders, so the float rounding itself
 * is not part of this model.
 */
module Percent {
  import opened PyText

  /** `f"{x:.2f}"` for a non-negative `x` that renders as `hundredths / 100`. */
  function Fixed2(hundredths: nat): (s: string)
    ensures |s| >= 4 && s[|s| - 3] == '.'
  {
    Decimal(hundredths / 100) + "." + [DigitChar(hundredths / 10 % 10), DigitChar(hundredths % 10)]
  }

  /** `format_percentage`: drop trailing zeros, then a trailing '.', then add '%'; zero is "0%". */
  function FormatPercentage(hundredths: nat): string {
    if hundredths != 0 then RStrip(RStrip(Fixed2(hundredths), '0'), '.') + "%" else "0%"
  }

  /** The fractional part that survives: nothing, one digit, or two digits after a '.'. */
  function Fraction(f: nat): (s: string)
    requires f < 100
    ensures s == [] || (s[0] == '.' && 2 <= |s| <= 3 && s[|s| - 1] != '0')
  {
    if f == 0 then ""
    else if f % 10 == 0 then "." + [DigitChar(f / 10)]
    else "." + [DigitChar(f / 10), DigitChar(f % 10)]
  }

  /**
   * The result is the integer part as `str()` writes it, the fractional
   * digits without trailing zeros (and without the '.' when none remain),
   * then '%'.
   */
  lemma FormatClosedForm(hundredths: nat)
    ensures FormatPercentage(hundredths) == Decimal(hundredths / 100) + Fraction(hundredths % 100) + "%"
  {
    Stripped(hundredths);
  }

  /** The zero test is only a shortcut: stripping "0.00" also gives "0%". */
  lemma ZeroShortcut()
    ensures RStrip(RStrip(Fixed2(0), '0'), '.') + "%" == FormatPercentage(0)
  {
    Stripped(0);
    assert Decimal(0) == "0" && Fraction(0) == "";
  }

  /** The stripping steps of `format_percentage`, for every argument including zero. */
  lemma Stripped(hundredths: nat)
    ensures RStrip(RStrip(Fixed2(hundredths), '0'), '.') == Decimal(hundredths / 100) + Fraction(hundredths % 100)
  {
    var d := Decimal(hundredths / 100);
    var f := hundredths % 100;
    assert hundredths / 10 % 10 == f / 10;
    assert Fixed2(hundredths) == d + ['.', DigitChar(f / 10), DigitChar(f % 10)];
    StrippedDigits(d, f);
  }

  /** Stripping `d` followed by '.' and the two digits of `f`. */
  lemma StrippedDigits(d: string, f: nat)
    requires |d| >= 1 && AllDigits(d) && f < 100
    ensures RStrip(RStrip(d + ['.', DigitChar(f / 10), DigitChar(f % 10)], '0'), '.') == d + Fraction(f)
  {
    var a := DigitChar(f / 10);
    var b := DigitChar(f % 10);
    if f % 10 != 0 {
      assert b != '0';
      StrippedTwoDigits(d, a, b);
      assert d + Fraction(f) == d + ['.', a, b];
    } else if f / 10 != 0 {
      assert b == '0';
      StrippedOneDigit(d, a);
      assert d + Fraction(f) == d + ['.', a];
    } else {
      assert a == '0' && b == '0';
      StrippedNoDigit(d);
    }
  }

  /** A last fractional digit other than zero: nothing is stripped. */
  lemma StrippedTwoDigits(d: string, a: char, b: char)
    requires IsDigit(b) && b != '0'
    ensures RStrip(RStrip(d + ['.', a, b], '0'), '.') == d + ['.', a, b]
  {
  }

  /** A zero last digit after another digit: only the zero goes. */
  lemma StrippedOneDigit(d: string, a: char)
    requires IsDigit(a) && a != '0'
    ensures RStrip(RStrip(d + ['.', a, '0'], '0'), '.') == d + ['.', a]
  {
    assert d + ['.', a, '0'] == (d + ['.', a]) + ['0'];
    DropLast(d + ['.', a], '0');
  }

  /** Two zero digits: both go, and so does the '.'. */
  lemma StrippedNoDigit(d: string)
    requires |d| >= 1 && AllDigits(d)
    ensures RStrip(RStrip(d + ['.', '0', '0'], '0'), '.') == d
  {
    assert IsDigit(d[|d| - 1]);
    assert d + ['.', '0', '0'] == (d + ['.', '0']) + ['0'];
    DropLast(d + ['.', '0'], '0');
    assert d + ['.', '0'] == (d + ['.']) + ['0'];
    DropLast(d + ['.'], '0');
    DropLast(d, '.');
  }

  /** `RStrip` of a string ending in `c` is `RStrip` of the string without it. */
  lemma DropLast(s: string, c: char)
    ensures RStrip(s + [c], c) == RStrip(s, c)
  {
    assert (s + [c])[..|s|] == s;
  }

  /** Different percentages never print the same. */
  lemma FormatInjective(h1: nat, h2: nat)
    requires FormatPercentage(h1) == FormatPercentage(h2)
    ensures h1 == h2
  {
    FormatClosedForm(h1);
    FormatClosedForm(h2);
    var d1, f1 := Decimal(h1 / 100), Fraction(h1 % 100);
    var d2, f2 := Decimal(h2 / 100), Fraction(h2 % 100);
    assert (d1 + f1 + "%")[..|d1 + f1|] == d1 + f1;
    assert (d2 + f2 + "%")[..|d2 + f2|] == d2 + f2;
    SplitAtPoint(d1, f1, d2, f2);
    SplitAtPoint(d2, f2, d1, f1);
    assert d1 == (d1 + f1)[..|d1|];
    assert d2 == (d2 + f2)[..|d2|];
    DecimalRoundTrip(h1 / 100);
    DecimalRoundTrip(h2 / 100);
    assert f1 == (d1 + f1)[|d1|..];
    assert f2 == (d2 + f2)[|d2|..];
    FractionInjective(h1 % 100, h2 % 100);
  }

  /** Two digit runs followed by fractions: equal strings have equally long digit runs. */
  lemma SplitAtPoint(d1: string, f1: string, d2: string, f2: string)
    requires AllDigits(d1) && AllDigits(d2)
    requires f1 == [] || f1[0] == '.'
    requires f2 == [] || f2[0] == '.'
    requires d1 + f1 == d2 + f2
    ensures |d1| >= |d2|
  {
    if f1 != [] {
      assert (d2 + f2)[|d1|] == '.';
    }
  }

  lemma FractionInjective(f1: nat, f2: nat)
    requires f1 < 100 && f2 < 100 && Fraction(f1) == Fraction(f2)
    ensures f1 == f2
  {
    var s := Fraction(f1);
    if f1 != 0 {
      assert DigitValue(s[1]) == f1 / 10;
      if |s| == 3 {
        assert DigitValue(s[2]) == f1 % 10;
      }
    }
  }
}
