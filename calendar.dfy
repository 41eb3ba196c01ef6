/**
 * The proleptic Gregorian calendar that Go's time package uses, with dates
 * counted as day numbers: day 0 is 0000-01-01, and day n + 1 is the day after
 * day n. DaysFromCivil and CivilFromDays convert between a (year, month, day)
 * triple and its day number; they are proved inverse on valid dates.
 */
module Calendar {

  import opened Arith

  datatype Civil = Civil(year: int, month: int, day: int)

  predicate IsLeapYear(y: int) {
    y % 4 == 0 && (y % 100 != 0 || y % 400 == 0)
  }

  function DaysInYear(y: int): int {
    if IsLeapYear(y) then 366 else 365
  }

  function DaysInMonth(y: int, m: int): int
    requires 1 <= m <= 12
  {
    if m == 2 then (if IsLeapYear(y) then 29 else 28)
    else if m == 4 || m == 6 || m == 9 || m == 11 then 30
    else 31
  }

  /** A triple that names a real day: month 1..12 and day 1..length of that month. */
  predicate ValidCivil(c: Civil) {
    1 <= c.month <= 12 && 1 <= c.day <= DaysInMonth(c.year, c.month)
  }

  /** Day number of January 1 of year y: 365 per year plus the leap days of years 0..y-1. */
  function DaysBeforeYear(y: int): int {
    365 * y + (y + 3) / 4 - (y + 99) / 100 + (y + 399) / 400
  }

  /** Days in year y before the first of month m (m = 13 gives the whole year). */
  function DaysBeforeMonth(y: int, m: int): int
    requires 1 <= m <= 13
  {
    (if m == 1 then 0 else if m == 2 then 31 else if m == 3 then 59
     else if m == 4 then 90 else if m == 5 then 120 else if m == 6 then 151
     else if m == 7 then 181 else if m == 8 then 212 else if m == 9 then 243
     else if m == 10 then 273 else if m == 11 then 304 else if m == 12 then 334
     else 365)
    + (if m > 2 && IsLeapYear(y) then 1 else 0)
  }

  /**
   * Day number of a (year, month, day) triple. The day is not required to lie in
   * the month: as in Go's time.Date, day d of a month means d - 1 days after its first.
   */
  function DaysFromCivil(c: Civil): int
    requires 1 <= c.month <= 12
  {
    DaysBeforeYear(c.year) + DaysBeforeMonth(c.year, c.month) + c.day - 1
  }

  lemma YearStep(y: int)
    ensures DaysBeforeYear(y + 1) == DaysBeforeYear(y) + DaysInYear(y)
  {
    MultipleStep(y, 4);
    MultipleStep(y, 100);
    MultipleStep(y, 400);
    DivisorChain(y);
  }

  /** Multiples of 400 are multiples of 100, and multiples of 100 are multiples of 4. */
  lemma DivisorChain(y: int)
    ensures y % 400 == 0 ==> y % 100 == 0
    ensures y % 100 == 0 ==> y % 4 == 0
  {
    if y % 400 == 0 {
      var q := y / 400;
      assert y == (4 * q) * 100 + 0;
      DivModUnique(y, 100, 4 * q, 0);
    }
    if y % 100 == 0 {
      var q := y / 100;
      assert y == (25 * q) * 4 + 0;
      DivModUnique(y, 4, 25 * q, 0);
    }
  }

  /** Moving from y - 1 to y adds one more multiple of c exactly when c divides y. */
  lemma MultipleStep(y: int, c: int)
    requires c > 0
    ensures (y + c) / c == (y + c - 1) / c + (if y % c == 0 then 1 else 0)
  {
    var q, r := y / c, y % c;
    assert y == q * c + r;
    assert y + c == (q + 1) * c + r;
    DivModUnique(y + c, c, q + 1, r);
    if r == 0 {
      assert y + c - 1 == q * c + (c - 1);
      DivModUnique(y + c - 1, c, q, c - 1);
    } else {
      assert y + c - 1 == (q + 1) * c + (r - 1);
      DivModUnique(y + c - 1, c, q + 1, r - 1);
    }
  }

  lemma MonthStep(y: int, m: int)
    requires 1 <= m <= 12
    ensures DaysBeforeMonth(y, m + 1) == DaysBeforeMonth(y, m) + DaysInMonth(y, m)
  {
  }

  /** Searches upward from year y for the year that holds day n. */
  function YearUp(y: int, n: int): (r: int)
    requires DaysBeforeYear(y) <= n
    ensures y <= r && DaysBeforeYear(r) <= n < DaysBeforeYear(r + 1)
    decreases n - DaysBeforeYear(y)
  {
    YearStep(y);
    if n < DaysBeforeYear(y + 1) then y else YearUp(y + 1, n)
  }

  /** Searches downward from year y for the year that holds day n. */
  function YearDown(y: int, n: int): (r: int)
    requires n < DaysBeforeYear(y + 1)
    ensures r <= y && DaysBeforeYear(r) <= n < DaysBeforeYear(r + 1)
    decreases DaysBeforeYear(y + 1) - n
  {
    YearStep(y);
    if DaysBeforeYear(y) <= n then y else YearDown(y - 1, n)
  }

  /** The year that contains day n. */
  function YearOf(n: int): (y: int)
    ensures DaysBeforeYear(y) <= n < DaysBeforeYear(y + 1)
    ensures 0 <= y <==> 0 <= n
  {
    if n >= 0 then YearUp(0, n) else YearDown(-1, n)
  }

  /** Searches from month m for the month of year y that holds day r of the year. */
  function MonthFrom(y: int, m: int, r: int): (res: int)
    requires 1 <= m <= 12 && DaysBeforeMonth(y, m) <= r < DaysInYear(y)
    ensures m <= res <= 12 && DaysBeforeMonth(y, res) <= r < DaysBeforeMonth(y, res + 1)
    decreases 12 - m
  {
    if m == 12 || r < DaysBeforeMonth(y, m + 1) then m else MonthFrom(y, m + 1, r)
  }

  /** The valid date whose day number is n. */
  function CivilFromDays(n: int): (c: Civil)
    ensures ValidCivil(c) && DaysFromCivil(c) == n
    ensures 0 <= c.year <==> 0 <= n
  {
    var y := YearOf(n);
    YearStep(y);
    var r := n - DaysBeforeYear(y);
    var m := MonthFrom(y, 1, r);
    MonthStep(y, m);
    Civil(y, m, r - DaysBeforeMonth(y, m) + 1)
  }

  lemma {:induction false} DaysBeforeYearMono(a: int, b: int)
    requires a < b
    ensures DaysBeforeYear(a + 1) <= DaysBeforeYear(b)
    decreases b - a
  {
    YearStep(a);
    if a + 1 < b {
      DaysBeforeYearMono(a + 1, b);
      YearStep(a + 1);
    }
  }

  /** A valid date lies inside its own year and month. */
  lemma ValidCivilBounds(c: Civil)
    requires ValidCivil(c)
    ensures DaysBeforeYear(c.year) <= DaysFromCivil(c) < DaysBeforeYear(c.year + 1)
    ensures DaysBeforeYear(c.year) + DaysBeforeMonth(c.year, c.month) <= DaysFromCivil(c)
    ensures DaysFromCivil(c) < DaysBeforeYear(c.year) + DaysBeforeMonth(c.year, c.month + 1)
  {
    YearStep(c.year);
    MonthStep(c.year, c.month);
  }

  /** Two valid dates with the same day number are the same date. */
  lemma DaysFromCivilInjective(a: Civil, b: Civil)
    requires ValidCivil(a) && ValidCivil(b) && DaysFromCivil(a) == DaysFromCivil(b)
    ensures a == b
  {
    ValidCivilBounds(a);
    ValidCivilBounds(b);
    if a.year < b.year {
      DaysBeforeYearMono(a.year, b.year);
    } else if b.year < a.year {
      DaysBeforeYearMono(b.year, a.year);
    }
    assert a.year == b.year;
    assert a.month == b.month;
  }

  /** Converting a valid date to its day number and back gives the date. */
  lemma CivilRoundTrip(c: Civil)
    requires ValidCivil(c)
    ensures CivilFromDays(DaysFromCivil(c)) == c
  {
    DaysFromCivilInjective(CivilFromDays(DaysFromCivil(c)), c);
  }

  /** Later dates have larger day numbers: day order is calendar order. */
  lemma {:induction false} DaysFromCivilOrder(a: Civil, b: Civil)
    requires ValidCivil(a) && ValidCivil(b)
    ensures DaysFromCivil(a) < DaysFromCivil(b) <==>
      a.year < b.year || (a.year == b.year && (a.month < b.month || (a.month == b.month && a.day < b.day)))
  {
    ValidCivilBounds(a);
    ValidCivilBounds(b);
    if a.year < b.year {
      DaysBeforeYearMono(a.year, b.year);
    } else if b.year < a.year {
      DaysBeforeYearMono(b.year, a.year);
    }
  }
}
