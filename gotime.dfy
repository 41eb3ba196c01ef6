/**
 * The part of Go's time.Time that the recurrence engine relies on: instants in
 * UTC, the normalising constructor behind AddDate, the After comparison and
 * truncation to midnight.
 */
module GoTime {

  import opened Arith
  import opened Calendar

  const NanosPerDay: int := 86_400_000_000_000

  type NanoOfDay = n: int | 0 <= n < NanosPerDay

  /** A time in UTC: the day number and the nanoseconds elapsed since that day's midnight. */
  datatype Instant = Instant(day: int, nanos: NanoOfDay)

  function Midnight(day: int): Instant {
    Instant(day, 0)
  }

  /**
   * The day number that time.Date(year, month, day, ...) denotes. As in Go, a
   * month outside 1..12 carries into the year (rounding down) and a day outside
   * the month counts on from the first of the month.
   */
  function DateDay(year: int, month: int, day: int): int {
    DaysFromCivil(Civil(year + (month - 1) / 12, (month - 1) % 12 + 1, 1)) + day - 1
  }

  /**
   * t.AddDate(years, months, days): add to the calendar fields, then normalise.
   * The time of day is kept; adding only days moves exactly that many days, and
   * adding one year lands on NextYearDate of t's date.
   */
  function AddDate(t: Instant, years: int, months: int, days: int): (r: Instant)
    ensures r.nanos == t.nanos
    ensures years == 0 && months == 0 ==> r.day == t.day + days
    ensures years == 1 && months == 0 && days == 0 ==>
      ValidCivil(NextYearDate(CivilFromDays(t.day))) &&
      r.day == DaysFromCivil(NextYearDate(CivilFromDays(t.day)))
  {
    var c := CivilFromDays(t.day);
    DateDayAddDays(c, years, months, days);
    DateDayAddYear(c, years, months, days);
    Instant(DateDay(c.year + years, c.month + months, c.day + days), t.nanos)
  }

  /** t.AddDate(0, 0, days), called for its exact effect: the same time of day, `days` days later. */
  method AddDays(t: Instant, days: int) returns (r: Instant)
    ensures r == Instant(t.day + days, t.nanos)
  {
    r := AddDate(t, 0, 0, days);
  }

  /**
   * t.AddDate(1, 0, 0) for a t whose date is c, called for its exact effect:
   * the same time of day on NextYearDate(c).
   */
  method AddYear(t: Instant, ghost c: Civil) returns (r: Instant)
    requires ValidCivil(c) && t.day == DaysFromCivil(c)
    ensures ValidCivil(NextYearDate(c))
    ensures r == Instant(DaysFromCivil(NextYearDate(c)), t.nanos)
  {
    CivilRoundTrip(c);
    r := AddDate(t, 1, 0, 0);
  }

  /** Nanoseconds since 0000-01-01 00:00 UTC: the absolute time that Go compares. */
  function Nanos(t: Instant): int {
    t.day * NanosPerDay + t.nanos
  }

  /** A later day is a later instant, whatever the times of day. */
  lemma NanosDayOrder(t: Instant, u: Instant)
    requires t.day > u.day
    ensures Nanos(t) > Nanos(u)
  {
    var d := t.day - u.day;
    assert Nanos(t) - Nanos(u) == d * NanosPerDay + t.nanos - u.nanos;
    assert d * NanosPerDay == (d - 1) * NanosPerDay + NanosPerDay;
  }

  /**
   * t.After(u), compared field by field (day, then time of day): it holds
   * exactly when t is a strictly later instant than u.
   */
  function After(t: Instant, u: Instant): (b: bool)
    ensures b <==> Nanos(t) > Nanos(u)
  {
    if t.day > u.day then NanosDayOrder(t, u); true
    else if t.day < u.day then NanosDayOrder(u, t); false
    else t.nanos > u.nanos
  }

  /**
   * time.Date(t.Year(), t.Month(), t.Day(), 0, 0, 0, 0, loc): midnight of t's
   * date, which is t's own day, never later than t.
   */
  function NormalizeDate(t: Instant): (r: Instant)
    ensures r.day == t.day && r.nanos == 0
    ensures !After(r, t)
  {
    var c := CivilFromDays(t.day);
    DateDayOfValid(c);
    Instant(DateDay(c.year, c.month, c.day), 0)
  }

  /** The calendar date of t.AddDate(1, 0, 0): the same month and day one year on, Feb 29 rolling to Mar 1. */
  function NextYearDate(c: Civil): Civil {
    if c.month == 2 && c.day == 29 && !IsLeapYear(c.year + 1) then Civil(c.year + 1, 3, 1)
    else Civil(c.year + 1, c.month, c.day)
  }

  /** For a month already in 1..12 nothing is normalised. */
  lemma DateDayInRange(y: int, m: int, d: int)
    requires 1 <= m <= 12
    ensures DateDay(y, m, d) == DaysFromCivil(Civil(y, m, d))
  {
    DivModUnique(m - 1, 12, 0, m - 1);
  }

  /** time.Date of a valid date denotes exactly that date. */
  lemma DateDayOfValid(c: Civil)
    requires ValidCivil(c)
    ensures CivilFromDays(DateDay(c.year, c.month, c.day)) == c
  {
    DateDayInRange(c.year, c.month, c.day);
    CivilRoundTrip(c);
  }

  /** time.Date with only `days` more days than a valid date denotes the day that many days later. */
  lemma DateDayAddDays(c: Civil, years: int, months: int, days: int)
    requires ValidCivil(c)
    ensures years == 0 && months == 0 ==>
      DateDay(c.year + years, c.month + months, c.day + days) == DaysFromCivil(c) + days
  {
    if years == 0 && months == 0 {
      DateDayInRange(c.year, c.month, c.day + days);
    }
  }

  /** time.Date with only one more year than a valid date denotes NextYearDate of it. */
  lemma DateDayAddYear(c: Civil, years: int, months: int, days: int)
    requires ValidCivil(c)
    ensures ValidCivil(NextYearDate(c))
    ensures years == 1 && months == 0 && days == 0 ==>
      DateDay(c.year + years, c.month + months, c.day + days) == DaysFromCivil(NextYearDate(c))
  {
    NextYearDateDays(c);
    if years == 1 && months == 0 && days == 0 {
      DateDayInRange(c.year + 1, c.month, c.day);
    }
  }

  /** Feb 29 of a year that has none is the same day as Mar 1; no other valid month and day move. */
  lemma NextYearDateDays(c: Civil)
    requires ValidCivil(c)
    ensures ValidCivil(NextYearDate(c))
    ensures DaysFromCivil(NextYearDate(c)) == DaysFromCivil(Civil(c.year + 1, c.month, c.day))
  {
  }

  /** One year on is at least 365 days later. */
  lemma NextYearDateAdvances(c: Civil)
    requires ValidCivil(c)
    ensures DaysFromCivil(NextYearDate(c)) >= DaysFromCivil(c) + 365
  {
    NextYearDateDays(c);
    YearStep(c.year);
    assert DaysBeforeMonth(c.year + 1, c.month) >= DaysBeforeMonth(c.year, c.month) - 1;
  }

  /** Normalising `now` changes no comparison of a midnight against it, and never moves it later. */
  lemma NormalizeDateComparisons(t: Instant, day: int)
    ensures After(Midnight(day), NormalizeDate(t)) <==> After(Midnight(day), t)
    ensures !After(NormalizeDate(t), t)
    ensures NormalizeDate(NormalizeDate(t)) == NormalizeDate(t)
  {
  }
}
