/**
 * The text a date picker shows in its input box: the selected date written
 * as year, '-', two-digit month, '-', two-digit day (the year unpadded, with
 * a leading '-' when negative), or a fixed placeholder when nothing is
 * selected. `ParseDate` reads such a text back and is the partner against
 * which the format is proved unambiguous.
 */
module DateText {
  import opened Options
  import opened Dates

  /** The placeholder shown when no date is selected ("select a date"). */
  const Placeholder: string := "选择日期"

  predicate IsDigit(c: char) {
    '0' <= c <= '9'
  }

  predicate AllDigits(s: string) {
    forall i :: 0 <= i < |s| ==> IsDigit(s[i])
  }

  function DigitValue(c: char): int
    requires IsDigit(c)
  {
    c as int - '0' as int
  }

  function DigitChar(v: int): (c: char)
    requires 0 <= v < 10
    ensures IsDigit(c) && DigitValue(c) == v
  {
    ('0' as int + v) as char
  }

  /** The value of a string of decimal digits, most significant first. */
  function NatValue(s: string): nat
    requires AllDigits(s)
  {
    if s == [] then 0 else NatValue(s[..|s| - 1]) * 10 + DigitValue(s[|s| - 1])
  }

  /** Decimal notation of `n` as Rust's `{}` writes it: digits only, no leading zero. */
  function NatText(n: nat): (s: string)
    ensures 1 <= |s| && AllDigits(s)
    ensures s[0] == '0' ==> |s| == 1
    ensures NatValue(s) == n
  {
    if n < 10 then [DigitChar(n)]
    else
      var prefix := NatText(n / 10);
      var s := prefix + [DigitChar(n % 10)];
      assert s[..|s| - 1] == prefix;
      s
  }

  /** Integer syntax: digits, optionally after a single '-'. */
  predicate IsIntText(s: string) {
    (1 <= |s| && AllDigits(s)) || (2 <= |s| && s[0] == '-' && AllDigits(s[1..]))
  }

  /** Integer syntax without padding: no leading zero except in "0" itself, and no "-0". */
  predicate IsCanonicalIntText(s: string) {
    IsIntText(s) && (s[0] == '0' ==> |s| == 1) && (s[0] == '-' ==> s[1] != '0')
  }

  function IntValue(s: string): int
    requires IsIntText(s)
  {
    if s[0] == '-' then 0 - NatValue(s[1..]) else NatValue(s)
  }

  /** A signed integer as Rust's `{}` writes it: unpadded, with a '-' before the digits of a negative value. */
  function IntText(y: int): (s: string)
    ensures IsCanonicalIntText(s) && IntValue(s) == y
    ensures s[0] == '-' <==> y < 0
  {
    if y < 0 then
      var s := "-" + NatText(-y);
      assert s[1..] == NatText(-y);
      s
    else NatText(y)
  }

  /** Digits without a leading zero are `NatText` of their value. */
  lemma {:induction false} NatTextOfValue(t: string)
    requires 1 <= |t| && AllDigits(t) && (t[0] == '0' ==> |t| == 1)
    ensures NatText(NatValue(t)) == t
    decreases |t|
  {
    var prefix := t[..|t| - 1];
    if |t| == 1 {
      assert prefix == [];
    } else {
      NatTextOfValue(prefix);
      LeadingDigitValue(prefix);
      assert NatText(NatValue(t)) == prefix + [t[|t| - 1]];
      assert prefix + [t[|t| - 1]] == t;
    }
  }

  /** Digits that start with a non-zero digit have a positive value. */
  lemma {:induction false} LeadingDigitValue(t: string)
    requires 1 <= |t| && AllDigits(t) && t[0] != '0'
    ensures NatValue(t) >= 1
    decreases |t|
  {
    if |t| > 1 {
      LeadingDigitValue(t[..|t| - 1]);
    } else {
      assert t[..0] == [];
    }
  }

  /** Canonical integer syntax is `IntText` of its value: the unpadded form is the only one. */
  lemma IntTextOfValue(s: string)
    requires IsCanonicalIntText(s)
    ensures IntText(IntValue(s)) == s
  {
    if s[0] == '-' {
      var t := s[1..];
      LeadingDigitValue(t);
      NatTextOfValue(t);
      assert s == "-" + t;
    } else {
      NatTextOfValue(s);
    }
  }

  /** Rust's `{:02}` for a value below 100: exactly two digits, zero-padded. */
  function Pad2(n: int): (s: string)
    requires 0 <= n < 100
    ensures |s| == 2 && AllDigits(s) && NatValue(s) == n
  {
    var s := [DigitChar(n / 10), DigitChar(n % 10)];
    assert s[..1] == [DigitChar(n / 10)] && s[..1][..0] == [];
    assert NatValue(s[..1]) == n / 10;
    s
  }

  /**
   * The input-box text of a date: the year unpadded, a '-', the month as two
   * zero-padded digits, a '-', and the day as two zero-padded digits.
   */
  function FormatYmd(d: Date): (s: string)
    requires ValidDate(d)
    ensures 7 <= |s| && s[|s| - 3] == '-' && s[|s| - 6] == '-'
    ensures s[..|s| - 6] == IntText(d.year)
    ensures s[|s| - 5..|s| - 3] == Pad2(d.month) && s[|s| - 2..] == Pad2(d.day)
  {
    var s := IntText(d.year) + "-" + Pad2(d.month) + "-" + Pad2(d.day);
    assert s[..|s| - 6] == IntText(d.year);
    assert s[|s| - 5..|s| - 3] == Pad2(d.month);
    s
  }

  /**
   * Reads back a text of the shape `FormatYmd` produces: an unpadded year and
   * two-digit month and day. Anything else has no date.
   */
  function ParseDate(s: string): Option<Date> {
    if 7 <= |s| && s[|s| - 3] == '-' && s[|s| - 6] == '-'
       && IsCanonicalIntText(s[..|s| - 6]) && AllDigits(s[|s| - 5..|s| - 3]) && AllDigits(s[|s| - 2..])
    then Some(Date(IntValue(s[..|s| - 6]), NatValue(s[|s| - 5..|s| - 3]), NatValue(s[|s| - 2..])))
    else None
  }

  /** The shown text determines the date: reading it back gives the date that was written. */
  lemma FormatRoundTrip(d: Date)
    requires ValidDate(d)
    ensures ParseDate(FormatYmd(d)) == Some(d)
  {
  }

  /** Two digits are `Pad2` of their value. */
  lemma Pad2OfValue(t: string)
    requires |t| == 2 && AllDigits(t)
    ensures NatValue(t) < 100 && Pad2(NatValue(t)) == t
  {
    var tens, ones := DigitValue(t[0]), DigitValue(t[1]);
    assert t[..1][..0] == [] && t[..|t| - 1] == t[..1] && t[|t| - 1] == t[1];
    assert NatValue(t[..1]) == tens;
    assert NatValue(t) == 10 * tens + ones;
    assert DigitChar(tens) == t[0] && DigitChar(ones) == t[1];
  }

  /** The only text that reads back as a valid date is that date's own text. */
  lemma ParseDateExact(s: string, d: Date)
    requires ValidDate(d) && ParseDate(s) == Some(d)
    ensures s == FormatYmd(d)
  {
    var year, month, day := s[..|s| - 6], s[|s| - 5..|s| - 3], s[|s| - 2..];
    IntTextOfValue(year);
    Pad2OfValue(month);
    Pad2OfValue(day);
    assert s == year + "-" + month + "-" + day;
  }

  /** A zero-padded year is not the text of any date, and neither is "-0" as a year. */
  lemma PaddedYearRejected()
    ensures ParseDate("02024-03-05") == None
    ensures ParseDate("-0-03-05") == None
  {
  }

  /** Two dates are shown alike only when they are the same date. */
  lemma FormatInjective(a: Date, b: Date)
    requires ValidDate(a) && ValidDate(b)
    ensures FormatYmd(a) == FormatYmd(b) <==> a == b
  {
    FormatRoundTrip(a);
    FormatRoundTrip(b);
  }

  /** The placeholder is not the text of any date. */
  lemma PlaceholderIsNoDate()
    ensures ParseDate(Placeholder) == None
  {
  }

  /** A concrete text: month and day are zero-padded to two digits. */
  lemma FormatPaddedExample()
    ensures FormatYmd(Date(2024, 3, 5)) == "2024-03-05"
  {
  }

  /** A concrete text: a negative year keeps its sign and is not padded. */
  lemma FormatNegativeYearExample()
    ensures FormatYmd(Date(-44, 3, 15)) == "-44-03-15"
  {
  }
}
