/**
 * Worked calls of NextDate on concrete dates and rules, each derived from the
 * general lemmas: daily and yearly stepping, a leap day, the 400-day bound,
 * the refusals, and the first date past year 9999.
 */
module NextDateScenarios {

  import opened Wrappers
  import opened Decimal
  import opened Calendar
  import opened GoTime
  import opened DateLayout
  import opened Strconv
  import opened NextDate
  import opened NextDateProperties

  /** Four digits read as a year, most significant first. */
  lemma FourDigits(s: string)
    requires |s| == 4 && AllDigits(s)
    ensures DigitsValue(s) == 1000 * DigitValue(s[0]) + 100 * DigitValue(s[1]) + 10 * DigitValue(s[2]) + DigitValue(s[3])
  {
    assert DigitsValue(s) == 10 * DigitsValue(s[..3]) + DigitValue(s[3]);
    assert s[..3][..2] == s[..2] && s[..3][2] == s[2];
    assert DigitsValue(s[..3]) == 10 * DigitsValue(s[..2]) + DigitValue(s[2]);
    assert s[..2][..1] == s[..1] && s[..2][1] == s[1];
    assert DigitsValue(s[..2]) == 10 * DigitsValue(s[..1]) + DigitValue(s[1]);
    assert s[..1][..0] == [] && s[..1][0] == s[0];
  }

  /** An eight-digit string names the date its digits spell, when that date is valid. */
  lemma ParsesAs(s: string, c: Civil)
    requires |s| == 8 && AllDigits(s) && ValidCivil(c)
    requires c.year == 1000 * DigitValue(s[0]) + 100 * DigitValue(s[1]) + 10 * DigitValue(s[2]) + DigitValue(s[3])
    requires c.month == 10 * DigitValue(s[4]) + DigitValue(s[5])
    requires c.day == 10 * DigitValue(s[6]) + DigitValue(s[7])
    ensures ParseDate(s) == Some(c)
    ensures FormatDate(c) == s
  {
    FourDigits(s[..4]);
    FormatParse(s);
  }

  lemma Parse20240110()
    ensures ParseDate("20240110") == Some(Civil(2024, 1, 10))
  {
    ParsesAs("20240110", Civil(2024, 1, 10));
  }

  lemma Format20240120()
    ensures FormatDate(Civil(2024, 1, 20)) == "20240120"
  {
    ParsesAs("20240120", Civil(2024, 1, 20));
  }

  lemma Parse20240101()
    ensures ParseDate("20240101") == Some(Civil(2024, 1, 1))
  {
    ParsesAs("20240101", Civil(2024, 1, 1));
  }

  lemma Format20250204()
    ensures FormatDate(Civil(2025, 2, 4)) == "20250204"
  {
    ParsesAs("20250204", Civil(2025, 2, 4));
  }

  lemma Parse20230310()
    ensures ParseDate("20230310") == Some(Civil(2023, 3, 10))
  {
    ParsesAs("20230310", Civil(2023, 3, 10));
  }

  lemma Format20250310()
    ensures FormatDate(Civil(2025, 3, 10)) == "20250310"
  {
    ParsesAs("20250310", Civil(2025, 3, 10));
  }

  lemma Parse20240229()
    ensures ParseDate("20240229") == Some(Civil(2024, 2, 29))
  {
    ParsesAs("20240229", Civil(2024, 2, 29));
  }

  lemma Format20250301()
    ensures FormatDate(Civil(2025, 3, 1)) == "20250301"
  {
    ParsesAs("20250301", Civil(2025, 3, 1));
  }

  lemma Parse99991231()
    ensures ParseDate("99991231") == Some(Civil(9999, 12, 31))
  {
    ParsesAs("99991231", Civil(9999, 12, 31));
  }

  /** A daily scenario, with the expected output given as the formatted date e that candidate k falls on. */
  lemma DailyCase(now: Instant, date: string, repeat: string, c: Civil, n: int, k: int, e: Civil, out: string)
    requires ParseDate(date) == Some(c) && ParseRule(repeat) == Success(Daily(n))
    requires k >= 1 && DaysFromCivil(c) + k * n > now.day
    requires forall j :: 1 <= j < k ==> DailyCandidate(DaysFromCivil(c), n, j) <= now.day
    requires ValidCivil(e) && DaysFromCivil(c) + k * n == DaysFromCivil(e) && FormatDate(e) == out
    ensures NextDateSpec(now, date, repeat) == Success(out)
  {
    FormatDayOfCivil(e);
    assert FormatDay(DaysFromCivil(c) + k * n) == out;
    DailyResult(now, date, repeat, c, n, k);
  }

  /** A yearly scenario, with the expected output given as the formatted anniversary k. */
  lemma YearlyCase(now: Instant, date: string, repeat: string, c: Civil, k: nat, out: string)
    requires ParseDate(date) == Some(c) && ParseRule(repeat) == Success(Yearly)
    requires k >= 1 && DaysFromCivil(Anniversary(c, k)) > now.day
    requires forall j: nat :: 1 <= j < k ==> DaysFromCivil(Anniversary(c, j)) <= now.day
    requires FormatDate(Anniversary(c, k)) == out
    ensures NextDateSpec(now, date, repeat) == Success(out)
  {
    YearlyResult(now, date, repeat, c, k);
  }

  lemma RuleFiveDays()
    ensures ParseRule("d 5") == Success(Daily(5))
  {
    assert Itoa(5) == "5";
    DailyRuleText(5);
  }

  lemma ItoaFourHundred()
    ensures Itoa(400) == "400"
  {
    assert NumDigits(400) == 3;
    assert FixedDigits(4, 1) == "4";
    assert FixedDigits(40, 2) == "40";
    assert FixedDigits(400, 3) == "400";
    assert PaddedInt(400, 1) == FixedDigits(400, 3);
  }

  lemma RuleFourHundredDays()
    ensures ParseRule("d 400") == Success(Daily(400))
  {
    ItoaFourHundred();
    DailyRuleText(400);
    assert "d " + Itoa(400) == "d 400";
  }

  lemma DigitsFourHundredOne()
    ensures DigitsValue("401") == 401
  {
    assert "401"[..2] == "40";
    assert "40"[..1] == "4";
  }

  lemma RuleOneDay()
    ensures ParseRule("d 1") == Success(Daily(1))
  {
    assert Itoa(1) == "1";
    DailyRuleText(1);
  }

  /** Anchor 2024-01-10 with "d 5", today 2024-01-15: 01-15 is not after today, so 01-20. */
  lemma DailyEveryFiveDays(now: Instant)
    requires now.day == DaysFromCivil(Civil(2024, 1, 15))
    ensures NextDateSpec(now, "20240110", "d 5") == Success("20240120")
  {
    Parse20240110();
    Format20240120();
    RuleFiveDays();
    DailyCase(now, "20240110", "d 5", Civil(2024, 1, 10), 5, 2, Civil(2024, 1, 20), "20240120");
  }

  /** Anchor 2024-01-01 with "d 400", today the anchor: 2024 has 366 days, so 2025-02-04. */
  lemma DailyLongestInterval(now: Instant)
    requires now.day == DaysFromCivil(Civil(2024, 1, 1))
    ensures NextDateSpec(now, "20240101", "d 400") == Success("20250204")
  {
    Parse20240101();
    Format20250204();
    RuleFourHundredDays();
    DailyCase(now, "20240101", "d 400", Civil(2024, 1, 1), 400, 1, Civil(2025, 2, 4), "20250204");
  }

  /** Anchor 2023-03-10 with "y", today 2024-03-10: the 2024 date is not after today, so 2025-03-10. */
  lemma YearlySkipsToday(now: Instant)
    requires now.day == DaysFromCivil(Civil(2024, 3, 10))
    ensures NextDateSpec(now, "20230310", "y") == Success("20250310")
  {
    Parse20230310();
    Format20250310();
    YearlyRuleText("");
    YearlyCase(now, "20230310", "y", Civil(2023, 3, 10), 2, "20250310");
  }

  /** Anchor 2024-02-29 with "y", today 2024-03-01: 2025 has no Feb 29, so 2025-03-01. */
  lemma YearlyLeapDay(now: Instant)
    requires now.day == DaysFromCivil(Civil(2024, 3, 1))
    ensures NextDateSpec(now, "20240229", "y") == Success("20250301")
  {
    Parse20240229();
    Format20250301();
    YearlyRuleText("");
    YearlyCase(now, "20240229", "y", Civil(2024, 2, 29), 1, "20250301");
  }

  /** "d 401" is over the 400-day limit. */
  lemma RefuseLongInterval(now: Instant)
    ensures NextDateSpec(now, "20240110", "d 401") == Failure(BadDailyValue)
  {
    Parse20240110();
    RuleFourHundredOneDays();
  }

  /** An interval of zero is refused. */
  lemma RuleZeroDays()
    ensures ParseRule("d 0") == Failure(BadDailyValue)
  {
    AtoiDigits("0");
    DailyRuleBadValue("0");
    assert "d " + "0" == "d 0";
  }

  /** An interval that is not a number is refused. */
  lemma RuleNotANumber()
    ensures ParseRule("d x") == Failure(BadDailyValue)
  {
    AtoiRejects("x", 0);
    DailyRuleBadValue("x");
    assert "d " + "x" == "d x";
  }

  /** Two spaces after "d" make three pieces, so the rule is badly formed. */
  lemma RuleDoubleSpace()
    ensures ParseRule("d  5") == Failure(BadDailyFormat)
  {
    DailyRuleBadFormat(" 5");
    assert "d " + " 5" == "d  5";
  }

  lemma RuleFourHundredOneDays()
    ensures ParseRule("d 401") == Failure(BadDailyValue)
  {
    DigitsFourHundredOne();
    AtoiDigits("401");
    DailyRuleBadValue("401");
    assert "d " + "401" == "d 401";
  }

  /** A weekly rule is not supported. */
  lemma RefuseWeekly(now: Instant)
    ensures NextDateSpec(now, "20240110", "w 1") == Failure(Unsupported)
  {
    Parse20240110();
    RuleWeekly();
  }

  lemma RuleWeekly()
    ensures ParseRule("w 1") == Failure(Unsupported)
  {
    OtherRuleUnsupported("w", "1");
  }

  /** A monthly rule is not supported. */
  lemma RefuseMonthly(now: Instant)
    ensures NextDateSpec(now, "20240110", "m 1") == Failure(Unsupported)
  {
    Parse20240110();
    RuleMonthly();
  }

  lemma RuleMonthly()
    ensures ParseRule("m 1") == Failure(Unsupported)
  {
    OtherRuleUnsupported("m", "1");
  }

  /** The empty rule is refused once the anchor has been read. */
  lemma RefuseEmptyRule(now: Instant)
    ensures NextDateSpec(now, "20240110", "") == Failure(EmptyRule)
  {
    Parse20240110();
  }

  /** Feb 30 is no date, so the anchor is refused before the rule is read. */
  lemma RefuseFebruary30(now: Instant)
    ensures NextDateSpec(now, "20240230", "d 1") == Failure(InvalidDate)
  {
    FourDigits("20240230"[..4]);
  }

  lemma FixedTenThousand()
    ensures FixedDigits(10000, 5) == "10000"
  {
    assert FixedDigits(1, 1) == "1";
    assert FixedDigits(10, 2) == "10";
    assert FixedDigits(100, 3) == "100";
    assert FixedDigits(1000, 4) == "1000";
  }

  /** Year 10000 is written with five digits. */
  lemma FormatYear10000()
    ensures FormatDate(Civil(10000, 1, 1)) == "100000101"
  {
    assert NumDigits(10000) == 5;
    FixedTenThousand();
    assert PaddedInt(10000, 4) == "10000";
    TwoDigits(1);
  }

  /**
   * Anchor 9999-12-31 with "d 1", today the anchor: the next day is in year
   * 10000, written with five year digits, and that string no longer parses.
   */
  lemma PastYear9999(now: Instant)
    requires now.day == DaysFromCivil(Civil(9999, 12, 31))
    ensures NextDateSpec(now, "99991231", "d 1") == Success("100000101")
    ensures ParseDate("100000101") == None
  {
    Parse99991231();
    RuleOneDay();
    FormatYear10000();
    DailyCase(now, "99991231", "d 1", Civil(9999, 12, 31), 1, 1, Civil(10000, 1, 1), "100000101");
  }
}
