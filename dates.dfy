/** Calendar dates as the resolver parses and compares them.

    A date is parsed with `datetime.strptime(text, '%Y-%m-%d')`: four year
    digits, two month digits and two day digits separated by `-`, and it must
    name a real day of the proleptic Gregorian calendar with a year of at
    least 1 (Python's `datetime.MINYEAR`). Anything else raises `ValueError`.
 */
module Dates {
  import opened Text

  datatype Date = Date(year: int, month: int, day: int)

  /** `datetime.min`: 0001-01-01, the key of a file without a usable date. */
  const MinDate: Date := Date(1, 1, 1)

  predicate IsLeapYear(y: int) {
    y % 4 == 0 && (y % 100 != 0 || y % 400 == 0)
  }

  function DaysInMonth(y: int, m: int): (n: int)
    requires 1 <= m <= 12
    ensures 28 <= n <= 31
    ensures n == 29 <==> m == 2 && IsLeapYear(y)
  {
    if m == 2 then (if IsLeapYear(y) then 29 else 28)
    else if m == 4 || m == 6 || m == 9 || m == 11 then 30
    else 31
  }

  /** A day `datetime` can represent with a four-digit year. */
  predicate IsValid(d: Date) {
    1 <= d.year <= 9999 && 1 <= d.month <= 12 && 1 <= d.day <= DaysInMonth(d.year, d.month)
  }

  /** Chronological order: `a` is an earlier day than `b`. */
  predicate Before(a: Date, b: Date) {
    a.year < b.year
    || (a.year == b.year && (a.month < b.month || (a.month == b.month && a.day < b.day)))
  }

  /** No valid date lies before `datetime.min`. */
  lemma MinDateIsLeast(d: Date)
    requires IsValid(d)
    ensures IsValid(MinDate) && !Before(d, MinDate)
    ensures d != MinDate ==> Before(MinDate, d)
  {
  }

  /** Text that the regular expression `\d{4}-\d{2}-\d{2}` matches in full. */
  predicate IsDateShaped(s: string) {
    |s| == 10
    && AllDigits(s[..4]) && s[4] == '-'
    && AllDigits(s[5..7]) && s[7] == '-'
    && AllDigits(s[8..10])
  }

  /** `datetime.strptime(s, '%Y-%m-%d')` on text of the matched shape:
      the date when the digits name a real day, `None` where it raises `ValueError`. */
  function ParseDate(s: string): (r: Option<Date>)
    requires IsDateShaped(s)
    ensures r.Some? ==> IsValid(r.value)
    ensures r.Some? <==> IsValid(Date(DigitsValue(s[..4]), DigitsValue(s[5..7]), DigitsValue(s[8..10])))
  {
    var d := Date(DigitsValue(s[..4]), DigitsValue(s[5..7]), DigitsValue(s[8..10]));
    if IsValid(d) then Some(d) else None
  }

  /** The `YYYY-MM-DD` text of a date (`date.isoformat()`). */
  function Format(d: Date): (s: string)
    requires IsValid(d)
    ensures |s| == 10 && IsDateShaped(s)
    ensures forall i :: 0 <= i < |s| ==> s[i] != '/'
  {
    var s := Padded(d.year, 4) + "-" + Padded(d.month, 2) + "-" + Padded(d.day, 2);
    assert s[..4] == Padded(d.year, 4) && s[5..7] == Padded(d.month, 2) && s[8..10] == Padded(d.day, 2);
    assert forall i :: 0 <= i < |s| ==> IsDigit(s[i]) || s[i] == '-';
    s
  }

  /** Every valid date is parsed back from its own text. */
  lemma ParseFormat(d: Date)
    requires IsValid(d)
    ensures ParseDate(Format(d)) == Some(d)
  {
    var s := Format(d);
    assert s[..4] == Padded(d.year, 4) && s[5..7] == Padded(d.month, 2) && s[8..10] == Padded(d.day, 2);
    DigitsValueOfPadded(d.year, 4);
    DigitsValueOfPadded(d.month, 2);
    DigitsValueOfPadded(d.day, 2);
  }

  /** The text a date is parsed from is that date's own text: strptime accepts
      exactly the formatted valid dates, so parsing loses nothing. */
  lemma FormatParse(s: string)
    requires IsDateShaped(s) && ParseDate(s).Some?
    ensures Format(ParseDate(s).value) == s
  {
    PaddedOfDigitsValue(s[..4]);
    PaddedOfDigitsValue(s[5..7]);
    PaddedOfDigitsValue(s[8..10]);
    var t := Format(ParseDate(s).value);
    assert t[..4] == s[..4] && t[5..7] == s[5..7] && t[8..10] == s[8..10];
    assert forall i :: 0 <= i < 10 ==> t[i] == s[i] by {
      forall i | 0 <= i < 10 ensures t[i] == s[i] {
        if i < 4 { assert t[i] == t[..4][i]; assert s[i] == s[..4][i]; }
        else if 5 <= i < 7 { assert t[i] == t[5..7][i - 5]; assert s[i] == s[5..7][i - 5]; }
        else if 8 <= i { assert t[i] == t[8..10][i - 8]; assert s[i] == s[8..10][i - 8]; }
      }
    }
  }

  /** Date text sorts as the dates it names: `str` order on `YYYY-MM-DD` is chronological order. */
  lemma FormatOrder(d1: Date, d2: Date)
    requires IsValid(d1) && IsValid(d2)
    ensures Less(Format(d1), Format(d2)) <==> Before(d1, d2)
    ensures Format(d1) == Format(d2) <==> d1 == d2
  {
    var y1, y2 := Padded(d1.year, 4), Padded(d2.year, 4);
    var m1, m2 := Padded(d1.month, 2), Padded(d2.month, 2);
    var a1, a2 := Padded(d1.day, 2), Padded(d2.day, 2);
    assert Format(d1) == y1 + ("-" + (m1 + ("-" + a1)));
    assert Format(d2) == y2 + ("-" + (m2 + ("-" + a2)));
    PaddedLess(d1.year, d2.year, 4);
    PaddedLess(d1.month, d2.month, 2);
    PaddedLess(d1.day, d2.day, 2);
    LessIrreflexive("-");
    LessAppend(y1, "-" + (m1 + ("-" + a1)), y2, "-" + (m2 + ("-" + a2)));
    LessAppend("-", m1 + ("-" + a1), "-", m2 + ("-" + a2));
    LessAppend(m1, "-" + a1, m2, "-" + a2);
    LessAppend("-", a1, "-", a2);
    ParseFormat(d1);
    ParseFormat(d2);
  }

  /** The date of the report name `public_bids_received_2025-09-19.xlsx`
      (the commented-out name at try_posting_bids_5.py:8) parses to that day. */
  lemma ParseSourceExample()
    ensures ParseDate("2025-09-19") == Some(Date(2025, 9, 19))
  {
    YearDigits("2025-09-19"[..4]);
    PairDigits("2025-09-19"[5..7]);
    PairDigits("2025-09-19"[8..10]);
  }

  /** A leap day parses in a leap year. */
  lemma ParseLeapDay()
    ensures ParseDate("2024-02-29") == Some(Date(2024, 2, 29))
  {
    YearDigits("2024-02-29"[..4]);
    PairDigits("2024-02-29"[5..7]);
    PairDigits("2024-02-29"[8..10]);
  }

  /** Month 13 and day 40 match the digit pattern but are no date. */
  lemma ParseRejectsMonth13()
    ensures ParseDate("2025-13-40").None?
  {
    PairDigits("2025-13-40"[5..7]);
  }

  /** February 29th outside a leap year is no date. */
  lemma ParseRejectsNonLeapDay()
    ensures ParseDate("2023-02-29").None?
  {
    var s := "2023-02-29";
    YearDigits(s[..4]);
    PairDigits(s[5..7]);
    PairDigits(s[8..10]);
    assert DigitsValue(s[..4]) == 2023 && DigitsValue(s[5..7]) == 2 && DigitsValue(s[8..10]) == 29;
    assert !IsLeapYear(2023);
  }

  /** A century year not divisible by 400 is no leap year. */
  lemma ParseRejectsCenturyLeapDay()
    ensures ParseDate("1900-02-29").None?
  {
    var s := "1900-02-29";
    YearDigits(s[..4]);
    PairDigits(s[5..7]);
    PairDigits(s[8..10]);
    assert DigitsValue(s[..4]) == 1900 && DigitsValue(s[5..7]) == 2 && DigitsValue(s[8..10]) == 29;
    assert !IsLeapYear(1900);
  }

  /** Year 0000 is below `datetime.MINYEAR`. */
  lemma ParseRejectsYearZero()
    ensures ParseDate("0000-01-01").None?
  {
    YearDigits("0000-01-01"[..4]);
  }

  /** The value of four digits, spelt out place by place. */
  lemma YearDigits(s: string)
    requires |s| == 4 && AllDigits(s)
    ensures DigitsValue(s) == 1000 * DigitValue(s[0]) + 100 * DigitValue(s[1]) + 10 * DigitValue(s[2]) + DigitValue(s[3])
  {
    assert s[..3][..2] == s[..2] && s[..2][..1] == s[..1] && s[..1][..0] == [];
    assert DigitsValue(s[..1]) == DigitValue(s[0]);
    assert DigitsValue(s[..2]) == DigitsValue(s[..1]) * 10 + DigitValue(s[1]);
    assert DigitsValue(s[..3]) == DigitsValue(s[..2]) * 10 + DigitValue(s[2]);
    assert DigitsValue(s) == DigitsValue(s[..3]) * 10 + DigitValue(s[3]);
  }

  /** The value of two digits, spelt out place by place. */
  lemma PairDigits(s: string)
    requires |s| == 2 && AllDigits(s)
    ensures DigitsValue(s) == 10 * DigitValue(s[0]) + DigitValue(s[1])
  {
    assert s[..1][..0] == [];
    assert DigitsValue(s[..1]) == DigitValue(s[0]);
  }
}
