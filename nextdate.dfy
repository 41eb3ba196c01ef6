/**
 * The recurrence engine: NextDate(now, date, repeat) parses the anchor date
 * and the repeat rule, then steps the anchor forward by the rule until it is
 * strictly after `now`, and returns that date in YYYYMMDD form.
 */
module NextDate {

  import opened Wrappers
  import opened Decimal
  import opened Calendar
  import opened GoTime
  import opened DateLayout
  import opened Strings
  import opened Strconv

  /** The ways NextDate refuses its input. */
  datatype Error =
    | InvalidDate     // the anchor is not a YYYYMMDD date
    | EmptyRule       // the repeat rule is empty
    | BadDailyFormat  // a "d" rule that does not split into exactly two pieces
    | BadDailyValue   // a "d" rule whose interval is not an integer in 1..400
    | Unsupported     // a first token other than "d" and "y"

  /** A repeat rule the engine accepts. */
  datatype Rule = Daily(interval: int) | Yearly

  const MaxInterval: int := 400

  /**
   * The checks NextDate makes on the repeat rule, in its order: empty rule,
   * then split on single spaces and dispatch on the first piece.
   */
  function ParseRule(repeat: string): (r: Result<Rule, Error>)
    ensures r.Success? && r.value.Daily? ==> 1 <= r.value.interval <= MaxInterval
  {
    if repeat == "" then Failure(EmptyRule)
    else
      var parts := Split(repeat, ' ');
      if parts[0] == "d" then
        if |parts| != 2 then Failure(BadDailyFormat)
        else
          match Atoi(parts[1])
          case None => Failure(BadDailyValue)
          case Some(n) => if n <= 0 || n > MaxInterval then Failure(BadDailyValue) else Success(Daily(n))
      else if parts[0] == "y" then Success(Yearly)
      else Failure(Unsupported)
  }

  /** Candidate k of a daily rule: k steps of n days from the anchor. */
  function DailyCandidate(anchor: int, n: int, k: int): int {
    anchor + k * n
  }

  /**
   * Candidate k of the yearly rule: the anchor date moved on one year k times,
   * each step being what AddDate(1, 0, 0) does to a date (see GoTime.AddDate).
   */
  function YearlyCandidate(anchor: Civil, k: nat): (c: Civil)
    requires ValidCivil(anchor)
    ensures ValidCivil(c) && c.year == anchor.year + k
  {
    if k == 0 then anchor
    else
      var prev := YearlyCandidate(anchor, k - 1);
      NextYearDateDays(prev);
      NextYearDate(prev)
  }

  /** Candidate j of the daily rule is not after day `today`. */
  predicate DailyMissed(anchor: int, n: int, j: int, today: int) {
    DailyCandidate(anchor, n, j) <= today
  }

  /** Candidate j of the yearly rule is not after day `today`. */
  predicate YearlyMissed(anchor: Civil, j: nat, today: int)
    requires ValidCivil(anchor)
  {
    DaysFromCivil(YearlyCandidate(anchor, j)) <= today
  }

  lemma YearlyCandidateAdvances(anchor: Civil, k: nat)
    requires ValidCivil(anchor)
    ensures DaysFromCivil(YearlyCandidate(anchor, k + 1)) >= DaysFromCivil(YearlyCandidate(anchor, k)) + 365
  {
    NextYearDateAdvances(YearlyCandidate(anchor, k));
  }

  /**
   * The least k >= 1 whose daily candidate lies after day `today`, found by
   * division rather than by stepping.
   */
  function DailySteps(anchor: int, today: int, n: int): (k: int)
    requires n >= 1
    ensures k >= 1 && DailyCandidate(anchor, n, k) > today
    ensures forall j :: 1 <= j < k ==> DailyMissed(anchor, n, j, today)
  {
    if anchor >= today then
      MulPositive(1, n);
      1
    else
      var q := (today - anchor) / n;
      assert forall j :: 1 <= j < q + 1 ==> DailyMissed(anchor, n, j, today) by {
        forall j | 1 <= j < q + 1 ensures DailyMissed(anchor, n, j, today) {
          MulMonotone(j, q, n);
        }
      }
      q + 1
  }

  lemma MulPositive(k: int, n: int)
    requires k >= 1 && n >= 1
    ensures k * n >= n
  {
  }

  lemma MulMonotone(a: int, b: int, n: int)
    requires a <= b && n >= 0
    ensures a * n <= b * n
  {
  }

  /**
   * The least r >= k whose yearly candidate lies after day `today`, given that
   * candidates 1..k-1 do not.
   */
  function YearlySteps(anchor: Civil, today: int, k: nat): (r: nat)
    requires ValidCivil(anchor) && k >= 1
    requires forall j :: 1 <= j < k ==> YearlyMissed(anchor, j, today)
    ensures r >= k && DaysFromCivil(YearlyCandidate(anchor, r)) > today
    ensures forall j :: 1 <= j < r ==> YearlyMissed(anchor, j, today)
    decreases today - DaysFromCivil(YearlyCandidate(anchor, k))
  {
    if DaysFromCivil(YearlyCandidate(anchor, k)) > today then k
    else
      YearlyCandidateAdvances(anchor, k);
      YearlySteps(anchor, today, k + 1)
  }

  lemma DailyCandidateNext(anchor: int, n: int, k: int)
    ensures DailyCandidate(anchor, n, k + 1) == DailyCandidate(anchor, n, k) + n
  {
  }

  lemma YearlyMissedExtend(anchor: Civil, k: nat, today: int)
    requires ValidCivil(anchor) && DaysFromCivil(YearlyCandidate(anchor, k)) <= today
    requires forall j :: 1 <= j < k ==> YearlyMissed(anchor, j, today)
    ensures forall j :: 1 <= j < k + 1 ==> YearlyMissed(anchor, j, today)
  {
  }

  /** DailySteps is the only k >= 1 whose candidate is after `today` while all earlier ones are not. */
  lemma DailyStepsUnique(anchor: int, today: int, n: int, k: int)
    requires n >= 1 && k >= 1 && DailyCandidate(anchor, n, k) > today
    requires forall j :: 1 <= j < k ==> DailyMissed(anchor, n, j, today)
    ensures k == DailySteps(anchor, today, n)
  {
    var s := DailySteps(anchor, today, n);
    assert k < s ==> DailyMissed(anchor, n, k, today);
    assert s < k ==> DailyMissed(anchor, n, s, today);
  }

  /** YearlySteps is the only k >= 1 whose candidate is after `today` while all earlier ones are not. */
  lemma YearlyStepsUnique(anchor: Civil, today: int, k: nat)
    requires ValidCivil(anchor) && k >= 1 && DaysFromCivil(YearlyCandidate(anchor, k)) > today
    requires forall j :: 1 <= j < k ==> YearlyMissed(anchor, j, today)
    ensures k == YearlySteps(anchor, today, 1)
  {
    var s := YearlySteps(anchor, today, 1);
    assert k < s ==> YearlyMissed(anchor, k, today);
    assert s < k ==> YearlyMissed(anchor, s, today);
  }

  /** Every yearly candidate after the anchor itself is a later day. */
  lemma {:induction false} YearlyCandidateAfterAnchor(anchor: Civil, k: nat)
    requires ValidCivil(anchor) && k >= 1
    ensures DaysFromCivil(YearlyCandidate(anchor, k)) > DaysFromCivil(anchor)
  {
    YearlyCandidateAdvances(anchor, k - 1);
    if k > 1 {
      YearlyCandidateAfterAnchor(anchor, k - 1);
    }
  }

  /**
   * The day NextDate returns for an anchor day and a rule: the first candidate
   * after day `today`. At least one step is always taken, so it is also after
   * the anchor.
   */
  function Occurrence(anchor: Civil, rule: Rule, today: int): (d: int)
    requires ValidCivil(anchor)
    requires rule.Daily? ==> rule.interval >= 1
    ensures d > today
    ensures d > DaysFromCivil(anchor)
  {
    match rule
    case Daily(n) =>
      var a := DaysFromCivil(anchor);
      var k := DailySteps(a, today, n);
      MulPositive(k, n);
      DailyCandidate(a, n, k)
    case Yearly =>
      var k := YearlySteps(anchor, today, 1);
      YearlyCandidateAfterAnchor(anchor, k);
      DaysFromCivil(YearlyCandidate(anchor, k))
  }

  /**
   * What NextDate computes, stated without its loops. It fails exactly when the
   * anchor or the rule is refused, and a result is a string of at least eight
   * digits.
   */
  function NextDateSpec(now: Instant, date: string, repeat: string): (r: Result<string, Error>)
    ensures r.Failure? <==> ParseDate(date).None? || ParseRule(repeat).Failure?
    ensures r.Success? ==> AllDigits(r.value) && |r.value| >= 8
  {
    match ParseDate(date)
    case None => Failure(InvalidDate)
    case Some(c) =>
      match ParseRule(repeat)
      case Failure(e) => Failure(e)
      case Success(rule) =>
        CivilRoundTrip(c);
        Success(FormatDay(Occurrence(c, rule, now.day)))
  }

  /**
   * The daily loop: starting from startDate.AddDate(0, 0, n), add n days until
   * the candidate is after `now`. The result is candidate k for the least k >= 1
   * whose candidate is after `now`.
   */
  method AdvanceDaily(startDate: Instant, n: int, now: Instant) returns (nextDate: Instant, ghost k: int)
    requires startDate.nanos == 0 && n >= 1
    ensures k >= 1 && nextDate == Midnight(DailyCandidate(startDate.day, n, k))
    ensures After(nextDate, now)
    ensures forall j :: 1 <= j < k ==> DailyMissed(startDate.day, n, j, now.day)
  {
    k := 1;
    nextDate := AddDays(startDate, n);
    while !After(nextDate, now)
      invariant k >= 1 && nextDate == Midnight(DailyCandidate(startDate.day, n, k))
      invariant forall j :: 1 <= j < k ==> DailyMissed(startDate.day, n, j, now.day)
      decreases now.day - nextDate.day
    {
      assert DailyMissed(startDate.day, n, k, now.day);
      DailyCandidateNext(startDate.day, n, k);
      nextDate := AddDays(nextDate, n);
      k := k + 1;
    }
  }

  /**
   * The yearly loop: starting from startDate.AddDate(1, 0, 0), add a year until
   * the candidate is after `now`. The result is candidate k for the least k >= 1
   * whose candidate is after `now`.
   */
  method AdvanceYearly(startDate: Instant, ghost anchor: Civil, now: Instant) returns (nextDate: Instant, ghost k: nat)
    requires ValidCivil(anchor) && startDate == Midnight(DaysFromCivil(anchor))
    ensures k >= 1 && nextDate == Midnight(DaysFromCivil(YearlyCandidate(anchor, k)))
    ensures After(nextDate, now)
    ensures forall j :: 1 <= j < k ==> YearlyMissed(anchor, j, now.day)
  {
    k := 1;
    nextDate := AddYear(startDate, anchor);
    while !After(nextDate, now)
      invariant k >= 1 && nextDate == Midnight(DaysFromCivil(YearlyCandidate(anchor, k)))
      invariant forall j :: 1 <= j < k ==> YearlyMissed(anchor, j, now.day)
      decreases now.day - nextDate.day
    {
      YearlyMissedExtend(anchor, k, now.day);
      YearlyCandidateAdvances(anchor, k);
      nextDate := AddYear(nextDate, YearlyCandidate(anchor, k));
      k := k + 1;
    }
  }

  /**
   * NextDate as the source runs it: parse the anchor, reject an empty rule,
   * split the rule on ' ' and dispatch on the first piece.
   */
  method NextDate(now: Instant, date: string, repeat: string) returns (r: Result<string, Error>)
    ensures r == NextDateSpec(now, date, repeat)
  {
    var parsed := ParseDate(date);
    if parsed.None? {
      return Failure(InvalidDate);
    }
    var startDate := Midnight(DaysFromCivil(parsed.value));
    if repeat == "" {
      return Failure(EmptyRule);
    }
    var ruleParts := Split(repeat, ' ');
    if ruleParts[0] == "d" {
      if |ruleParts| != 2 {
        return Failure(BadDailyFormat);
      }
      var days := Atoi(ruleParts[1]);
      if days.None? || days.value <= 0 || days.value > MaxInterval {
        return Failure(BadDailyValue);
      }
      var nextDate, k := AdvanceDaily(startDate, days.value, now);
      DailyStepsUnique(startDate.day, now.day, days.value, k);
      return Success(FormatDay(nextDate.day));
    } else if ruleParts[0] == "y" {
      var nextDate, k := AdvanceYearly(startDate, parsed.value, now);
      YearlyStepsUnique(parsed.value, now.day, k);
      return Success(FormatDay(nextDate.day));
    } else {
      return Failure(Unsupported);
    }
  }
}
