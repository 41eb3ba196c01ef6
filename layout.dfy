/**
 * The date layout "20060102" (YYYYMMDD): what time.Parse accepts with it and
 * what time.Format writes with it.
 */
module DateLayout {

  import opened Arith
  import opened Wrappers
  import opened Decimal
  import opened Calendar

  /**
   * time.Parse("20060102", s): four digits of year, two of month, two of day,
   * nothing more, and the three must name a real date. The year field takes
   * exactly four digits, so years run from 0000 to 9999.
   */
  function ParseDate(s: string): (r: Option<Civil>)
    ensures r.Some? ==> ValidCivil(r.value) && 0 <= r.value.year <= 9999
  {
    if |s| == 8 && AllDigits(s) then
      var c := Civil(DigitsValue(s[..4]),
                     10 * DigitValue(s[4]) + DigitValue(s[5]),
                     10 * DigitValue(s[6]) + DigitValue(s[7]));
      if ValidCivil(c) then Some(c) else None
    else None
  }

  /**
   * t.Format("20060102"): the year padded to at least four digits (a year past
   * 9999 keeps all its digits), then month and day as two digits each. For a
   * valid date of year 0 or later that is all digits, and exactly eight of them
   * when the year is at most 9999.
   */
  function FormatDate(c: Civil): (s: string)
    ensures ValidCivil(c) && c.year >= 0 ==>
      AllDigits(s) && |s| >= 8 && (|s| == 8 <==> c.year <= 9999)
  {
    var s := PaddedInt(c.year, 4) + PaddedInt(c.month, 2) + PaddedInt(c.day, 2);
    if ValidCivil(c) && c.year >= 0 then
      YearWidth(c.year);
      TwoDigits(c.month);
      TwoDigits(c.day);
      s
    else s
  }

  /**
   * The formatted date of a day number: for a day of year 0 or later the
   * writing is all digits, eight of them exactly when the year is at most 9999.
   */
  function FormatDay(day: int): (s: string)
    ensures day >= 0 ==>
      AllDigits(s) && |s| >= 8 && (|s| == 8 <==> CivilFromDays(day).year <= 9999)
  {
    FormatDate(CivilFromDays(day))
  }

  /** The year field is four digits long exactly when the year is at most 9999, and longer otherwise. */
  lemma YearWidth(y: nat)
    ensures AllDigits(PaddedInt(y, 4))
    ensures |PaddedInt(y, 4)| >= 4
    ensures |PaddedInt(y, 4)| == 4 <==> y <= 9999
  {
    PaddedIntValue(y, 4);
    NumDigitsBound(y);
    if y <= 9999 {
      NumDigitsAtMost(y, 4);
    }
  }

  lemma TwoDigits(u: nat)
    requires u < 100
    ensures PaddedInt(u, 2) == [DigitChar(u / 10), DigitChar(u % 10)]
  {
    NumDigitsAtMost(u, 2);
    assert PaddedInt(u, 2) == FixedDigits(u, 2);
  }

  /** Two digits read as a number (Go's getnum) are written back as the same two digits. */
  lemma TwoDigitsBack(hi: char, lo: char)
    requires IsDigit(hi) && IsDigit(lo)
    ensures PaddedInt(10 * DigitValue(hi) + DigitValue(lo), 2) == [hi, lo]
  {
    var u := 10 * DigitValue(hi) + DigitValue(lo);
    DivModUnique(u, 10, DigitValue(hi), DigitValue(lo));
    TwoDigits(u);
  }

  /** A valid date of years 0000..9999 is written as eight digits that parse back to it. */
  lemma ParseFormat(c: Civil)
    requires ValidCivil(c) && 0 <= c.year <= 9999
    ensures |FormatDate(c)| == 8
    ensures ParseDate(FormatDate(c)) == Some(c)
  {
    var s := FormatDate(c);
    NumDigitsAtMost(c.year, 4);
    PaddedIntValue(c.year, 4);
    TwoDigits(c.month);
    TwoDigits(c.day);
    assert s[..4] == PaddedInt(c.year, 4);
    assert s[4] == DigitChar(c.month / 10) && s[5] == DigitChar(c.month % 10);
    assert s[6] == DigitChar(c.day / 10) && s[7] == DigitChar(c.day % 10);
  }

  /** A string that parses is written back exactly, leading zeros included. */
  lemma FormatParse(s: string)
    requires ParseDate(s).Some?
    ensures FormatDate(ParseDate(s).value) == s
  {
    var c := ParseDate(s).value;
    NumDigitsAtMost(c.year, 4);
    DigitsValueFixed(s[..4]);
    assert PaddedInt(c.year, 4) == s[..4];
    TwoDigitsBack(s[4], s[5]);
    TwoDigitsBack(s[6], s[7]);
    assert PaddedInt(c.month, 2) == s[4..6];
    assert PaddedInt(c.day, 2) == s[6..];
    assert s == s[..4] + s[4..6] + s[6..];
  }

  /** A date of year 10000 or later is written with more than eight characters and does not parse. */
  lemma FormatLongYear(c: Civil)
    requires ValidCivil(c) && c.year >= 10000
    ensures |FormatDate(c)| > 8
    ensures ParseDate(FormatDate(c)) == None
  {
  }

  /** The day number of a valid date is written as that date. */
  lemma FormatDayOfCivil(c: Civil)
    requires ValidCivil(c)
    ensures FormatDay(DaysFromCivil(c)) == FormatDate(c)
  {
    CivilRoundTrip(c);
  }
}
