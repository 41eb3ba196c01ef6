/**
 * What NextDate promises its callers, stated over NextDateSpec (which the
 * NextDate method is proved to compute): the order of the error checks, the
 * readings of the repeat rule, the least-step characterisation of the result,
 * the yearly rule's calendar behaviour, and that the result is a later date.
 */
module NextDateProperties {

  import opened Wrappers
  import opened Decimal
  import opened Calendar
  import opened GoTime
  import opened DateLayout
  import opened Strings
  import opened Strconv
  import opened NextDate

  /**
   * The error checks come in NextDate's order: a bad anchor is reported whatever
   * the rule, and with a good anchor the call fails exactly when the rule does,
   * with the rule's error.
   */
  lemma NextDateErrors(now: Instant, date: string, repeat: string)
    ensures NextDateSpec(now, date, repeat) == Failure(InvalidDate) <==> ParseDate(date).None?
    ensures ParseDate(date).Some? ==>
      (NextDateSpec(now, date, repeat).Failure? <==> ParseRule(repeat).Failure?)
    ensures ParseDate(date).Some? && ParseRule(repeat).Failure? ==>
      NextDateSpec(now, date, repeat) == Failure(ParseRule(repeat).error)
  {
  }

  /** With a good anchor and a good rule, the result is the formatted occurrence after now's date. */
  lemma NextDateSpecSuccess(now: Instant, date: string, repeat: string, c: Civil, rule: Rule)
    requires ParseDate(date) == Some(c) && ParseRule(repeat) == Success(rule)
    ensures NextDateSpec(now, date, repeat) == Success(FormatDay(Occurrence(c, rule, now.day)))
  {
  }

  /** Each verdict of ParseRule, and the shape of the rule that gives it. */
  lemma ParseRuleVerdicts(repeat: string)
    ensures ParseRule(repeat) == Failure(EmptyRule) <==> repeat == ""
    ensures ParseRule(repeat) == Success(Yearly) <==> repeat != "" && Split(repeat, ' ')[0] == "y"
    ensures ParseRule(repeat) == Failure(Unsupported) <==>
      repeat != "" && Split(repeat, ' ')[0] != "d" && Split(repeat, ' ')[0] != "y"
    ensures ParseRule(repeat) == Failure(BadDailyFormat) <==>
      repeat != "" && Split(repeat, ' ')[0] == "d" && |Split(repeat, ' ')| != 2
    ensures ParseRule(repeat).Success? && ParseRule(repeat).value.Daily? <==>
      repeat != "" && |Split(repeat, ' ')| == 2 && Split(repeat, ' ')[0] == "d" &&
      Atoi(Split(repeat, ' ')[1]).Some? && 1 <= Atoi(Split(repeat, ' ')[1]).value <= MaxInterval
  {
  }

  /** "d " followed by a piece without spaces is read by splitting it into "d" and that piece. */
  lemma SplitDailyText(s: string)
    requires ' ' !in s
    ensures Split("d " + s, ' ') == ["d", s]
  {
    SplitAtFirstSep("d", s, ' ');
    SplitNoSep(s, ' ');
    assert "d " + s == "d" + [' '] + s;
  }

  /** "d <n>" with n written by Itoa is the daily rule of interval n for every n in 1..400. */
  lemma DailyRuleText(n: int)
    requires 1 <= n <= MaxInterval
    ensures ParseRule("d " + Itoa(n)) == Success(Daily(n))
  {
    PaddedIntValue(n, 1);
    assert ' ' !in Itoa(n);
    SplitDailyText(Itoa(n));
    AtoiItoa(n);
  }

  /**
   * A "d" rule whose interval is not an integer, or is an integer outside 1..400
   * (zero, negative, 401 and up), is refused as a bad daily value.
   */
  lemma DailyRuleBadValue(s: string)
    requires ' ' !in s
    requires Atoi(s).None? || Atoi(s).value < 1 || Atoi(s).value > MaxInterval
    ensures ParseRule("d " + s) == Failure(BadDailyValue)
  {
    SplitDailyText(s);
  }

  /** A bare "d", or a "d" rule with more than one piece after it, is refused as badly formed. */
  lemma DailyRuleBadFormat(s: string)
    requires ' ' in s
    ensures ParseRule("d") == Failure(BadDailyFormat)
    ensures ParseRule("d " + s) == Failure(BadDailyFormat)
  {
    SplitNoSep("d", ' ');
    SplitAtFirstSep("d", s, ' ');
    assert "d " + s == "d" + [' '] + s;
    SplitCount(s, ' ');
  }

  /** "y" alone, or "y" followed by a space and anything at all, is the yearly rule. */
  lemma YearlyRuleText(rest: string)
    ensures ParseRule("y") == Success(Yearly)
    ensures ParseRule("y " + rest) == Success(Yearly)
  {
    SplitNoSep("y", ' ');
    SplitAtFirstSep("y", rest, ' ');
    assert "y " + rest == "y" + [' '] + rest;
  }

  /**
   * A first piece other than "d" and "y" ("w", "m", anything else, or the empty
   * piece before a leading space) is refused as unsupported.
   */
  lemma OtherRuleUnsupported(token: string, rest: string)
    requires ' ' !in token && token != "d" && token != "y"
    ensures ParseRule(token + " " + rest) == Failure(Unsupported)
    ensures token != "" ==> ParseRule(token) == Failure(Unsupported)
  {
    SplitAtFirstSep(token, rest, ' ');
    assert token + " " + rest == token + [' '] + rest;
    SplitNoSep(token, ' ');
  }

  /**
   * A "d n" result is candidate k = anchor + k*n days for the least k >= 1 that
   * lands after now's date: any k with that property is the one returned.
   */
  lemma DailyResult(now: Instant, date: string, repeat: string, c: Civil, n: int, k: int)
    requires ParseDate(date) == Some(c) && ParseRule(repeat) == Success(Daily(n))
    requires k >= 1 && DaysFromCivil(c) + k * n > now.day
    requires forall j :: 1 <= j < k ==> DailyCandidate(DaysFromCivil(c), n, j) <= now.day
    ensures NextDateSpec(now, date, repeat) == Success(FormatDay(DaysFromCivil(c) + k * n))
  {
    NextDateSpecSuccess(now, date, repeat, c, Daily(n));
    DailyOccurrence(DaysFromCivil(c), now.day, n, k);
    assert Occurrence(c, Daily(n), now.day) == DaysFromCivil(c) + k * n;
  }

  lemma DailyOccurrence(a: int, today: int, n: int, k: int)
    requires n >= 1 && k >= 1 && a + k * n > today
    requires forall j :: 1 <= j < k ==> DailyCandidate(a, n, j) <= today
    ensures DailyCandidate(a, n, DailySteps(a, today, n)) == a + k * n
  {
    assert forall j :: 1 <= j < k ==> DailyMissed(a, n, j, today);
    DailyStepsUnique(a, today, n, k);
  }

  /**
   * The date of yearly candidate k in closed form: the anchor's month and day k
   * years on, except that a Feb 29 anchor falls on Mar 1 in every later year.
   */
  function Anniversary(anchor: Civil, k: nat): Civil {
    if anchor.month == 2 && anchor.day == 29 && k >= 1 then Civil(anchor.year + k, 3, 1)
    else Civil(anchor.year + k, anchor.month, anchor.day)
  }

  /** Stepping one year at a time k times lands on the anniversary k years on. */
  lemma {:induction false} YearlyCandidateAnniversary(anchor: Civil, k: nat)
    requires ValidCivil(anchor)
    ensures YearlyCandidate(anchor, k) == Anniversary(anchor, k)
  {
    if k > 0 {
      YearlyCandidateAnniversary(anchor, k - 1);
      if anchor.month == 2 && anchor.day == 29 {
        // A leap year is never followed by another.
        assert IsLeapYear(anchor.year);
        assert k == 1 ==> !IsLeapYear(anchor.year + 1);
      }
    }
  }

  /**
   * A "y" result is the anniversary k years on for the least k >= 1 that lands
   * after now's date: any k with that property is the one returned.
   */
  lemma YearlyResult(now: Instant, date: string, repeat: string, c: Civil, k: nat)
    requires ParseDate(date) == Some(c) && ParseRule(repeat) == Success(Yearly)
    requires k >= 1 && DaysFromCivil(Anniversary(c, k)) > now.day
    requires forall j: nat :: 1 <= j < k ==> DaysFromCivil(Anniversary(c, j)) <= now.day
    ensures NextDateSpec(now, date, repeat) == Success(FormatDate(Anniversary(c, k)))
  {
    forall j: nat | 1 <= j < k
      ensures YearlyMissed(c, j, now.day)
    {
      YearlyCandidateAnniversary(c, j);
    }
    YearlyCandidateAnniversary(c, k);
    YearlyStepsUnique(c, now.day, k);
    CivilRoundTrip(YearlyCandidate(c, k));
  }

  /** A valid date of a year 0000..9999 has a non-negative day number. */
  lemma DaysFromCivilNonNegative(c: Civil)
    requires ValidCivil(c) && c.year >= 0
    ensures DaysFromCivil(c) >= 0
  {
    CivilRoundTrip(c);
  }

  /**
   * A successful result is a date after now: when it is eight characters long
   * it parses back to a day after now's date; otherwise its year is past 9999
   * and it is longer than eight characters and does not parse.
   */
  lemma ResultIsLater(now: Instant, date: string, repeat: string)
    requires NextDateSpec(now, date, repeat).Success?
    ensures var out := NextDateSpec(now, date, repeat).value;
      (ParseDate(out).Some? <==> |out| == 8) &&
      (ParseDate(out).Some? ==> DaysFromCivil(ParseDate(out).value) > now.day) &&
      (ParseDate(out).None? ==> |out| > 8)
  {
    var c := ParseDate(date).value;
    var rule := ParseRule(repeat).value;
    var d := Occurrence(c, rule, now.day);
    var e := CivilFromDays(d);
    DaysFromCivilNonNegative(c);
    if e.year <= 9999 {
      ParseFormat(e);
    } else {
      FormatLongYear(e);
    }
  }

  /** The anchor date itself is never the answer: the result always differs from `date`. */
  lemma AnchorNeverReturned(now: Instant, date: string, repeat: string)
    requires NextDateSpec(now, date, repeat).Success?
    ensures NextDateSpec(now, date, repeat).value != date
  {
    var c := ParseDate(date).value;
    var rule := ParseRule(repeat).value;
    var d := Occurrence(c, rule, now.day);
    var e := CivilFromDays(d);
    DaysFromCivilNonNegative(c);
    if e.year <= 9999 {
      ParseFormat(e);
    } else {
      FormatLongYear(e);
    }
  }

  /**
   * An anchor on now's date with "d n" gives the date n days on; in particular
   * "d 1" gives tomorrow, and re-running on a returned date steps exactly n days.
   */
  lemma DailyFromToday(now: Instant, date: string, repeat: string, c: Civil, n: int)
    requires ParseDate(date) == Some(c) && DaysFromCivil(c) == now.day
    requires ParseRule(repeat) == Success(Daily(n))
    ensures NextDateSpec(now, date, repeat) == Success(FormatDay(now.day + n))
  {
    NextDateSpecSuccess(now, date, repeat, c, Daily(n));
    assert DailySteps(DaysFromCivil(c), now.day, n) == 1;
  }

  /** Only now's date matters: the time of day of `now`, and normalising it, change nothing. */
  lemma NowTimeOfDayIrrelevant(now: Instant, later: Instant, date: string, repeat: string)
    requires later.day == now.day
    ensures NextDateSpec(later, date, repeat) == NextDateSpec(now, date, repeat)
    ensures NextDateSpec(NormalizeDate(now), date, repeat) == NextDateSpec(now, date, repeat)
  {
  }
}
