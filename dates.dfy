/**
 * Dates of the proleptic Gregorian calendar, standing in for chrono's `NaiveDate`.
 *
 * A date is a (year, month, day) triple; `ValidDate` says which triples exist.
 * Every date has a day number (day 0 is 0000-01-01), which is the reference
 * against which successor, predecessor and weekday are stated.
 */
module Dates {
  import opened Options

  /** The supported year range (that of recent chrono releases). */
  const MinYear: int := -262143
  const MaxYear: int := 262142

  datatype Date = Date(year: int, month: int, day: int)

  const MinDate: Date := Date(MinYear, 1, 1)
  const MaxDate: Date := Date(MaxYear, 12, 31)

  /** Gregorian rule: divisible by 4, except centuries not divisible by 400. */
  predicate IsLeapYear(y: int) {
    y % 4 == 0 && (y % 100 != 0 || y % 400 == 0)
  }

  function DaysInMonth(y: int, m: int): (n: int)
    requires 1 <= m <= 12
    ensures 28 <= n <= 31
    ensures n == 29 <==> m == 2 && IsLeapYear(y)
    ensures n == 28 <==> m == 2 && !IsLeapYear(y)
    ensures n == 30 <==> m == 4 || m == 6 || m == 9 || m == 11
  {
    if m == 2 then (if IsLeapYear(y) then 29 else 28)
    else if m == 4 || m == 6 || m == 9 || m == 11 then 30
    else 31
  }

  predicate InRange(y: int) {
    MinYear <= y <= MaxYear
  }

  predicate ValidDate(d: Date) {
    InRange(d.year) && 1 <= d.month <= 12 && 1 <= d.day <= DaysInMonth(d.year, d.month)
  }

  /** The first day of the month that `d` lies in. */
  function FirstOfMonth(d: Date): Date {
    Date(d.year, d.month, 1)
  }

  /** The last day of the month that `d` lies in. */
  function LastOfMonth(d: Date): Date
    requires 1 <= d.month <= 12
  {
    Date(d.year, d.month, DaysInMonth(d.year, d.month))
  }

  /** Number of days from 0000-01-01 to the first of January of year `y`. */
  function DaysBeforeYear(y: int): int {
    365 * y + (y + 3) / 4 - (y + 99) / 100 + (y + 399) / 400
  }

  /** Number of days from the first of January of year `y` to the first of month `m`. */
  function DaysBeforeMonth(y: int, m: int): int
    requires 1 <= m <= 12
  {
    var cumulative := [0, 31, 59, 90, 120, 151, 181, 212, 243, 273, 304, 334];
    cumulative[m - 1] + (if m > 2 && IsLeapYear(y) then 1 else 0)
  }

  function DayNumber(d: Date): int
    requires 1 <= d.month <= 12
  {
    DaysBeforeYear(d.year) + DaysBeforeMonth(d.year, d.month) + d.day - 1
  }

  /** Weekday counted from Sunday (0 = Sunday, ..., 6 = Saturday); 0000-01-01 was a Saturday. */
  function Weekday(d: Date): (w: int)
    requires 1 <= d.month <= 12
    ensures 0 <= w < 7
    ensures (DayNumber(d) - w) % 7 == 1
  {
    (DayNumber(d) + 6) % 7
  }

  /** A year has 365 days, 366 when it is a leap year. */
  lemma YearLength(y: int)
    ensures DaysBeforeYear(y + 1) == DaysBeforeYear(y) + (if IsLeapYear(y) then 366 else 365)
  {
    assert (y + 4) / 4 == (y + 3) / 4 + (if y % 4 == 0 then 1 else 0);
    assert (y + 100) / 100 == (y + 99) / 100 + (if y % 100 == 0 then 1 else 0);
    assert (y + 400) / 400 == (y + 399) / 400 + (if y % 400 == 0 then 1 else 0);
  }

  /** The months of a year add up to the year's length. */
  lemma MonthsFillYear(y: int)
    ensures DaysBeforeYear(y + 1) == DaysBeforeYear(y) + DaysBeforeMonth(y, 12) + DaysInMonth(y, 12)
  {
    YearLength(y);
  }

  lemma MonthStep(y: int, m: int)
    requires 1 <= m < 12
    ensures DaysBeforeMonth(y, m + 1) == DaysBeforeMonth(y, m) + DaysInMonth(y, m)
  {
  }

  lemma {:induction false} DaysBeforeYearMonotone(y1: int, y2: int)
    requires y1 <= y2
    ensures DaysBeforeYear(y1) + 365 * (y2 - y1) <= DaysBeforeYear(y2)
    decreases y2 - y1
  {
    if y1 < y2 {
      DaysBeforeYearMonotone(y1, y2 - 1);
      YearLength(y2 - 1);
    }
  }

  lemma {:induction false} DaysBeforeMonthMonotone(y: int, m1: int, m2: int)
    requires 1 <= m1 < m2 <= 12
    ensures DaysBeforeMonth(y, m1) + DaysInMonth(y, m1) <= DaysBeforeMonth(y, m2)
    decreases m2 - m1
  {
    if m1 + 1 < m2 {
      DaysBeforeMonthMonotone(y, m1, m2 - 1);
      MonthStep(y, m2 - 1);
    } else {
      MonthStep(y, m1);
    }
  }

  /** A valid date's day number lies within its year's and its month's ranges. */
  lemma DayNumberBounds(d: Date)
    requires ValidDate(d)
    ensures DaysBeforeYear(d.year) <= DayNumber(d) < DaysBeforeYear(d.year + 1)
    ensures DaysBeforeMonth(d.year, d.month) <= DayNumber(d) - DaysBeforeYear(d.year)
    ensures DayNumber(d) - DaysBeforeYear(d.year) < DaysBeforeMonth(d.year, d.month) + DaysInMonth(d.year, d.month)
  {
    MonthsFillYear(d.year);
    if d.month < 12 {
      DaysBeforeMonthMonotone(d.year, d.month, 12);
    }
  }

  /** Distinct valid dates have distinct day numbers. */
  lemma DayNumberInjective(a: Date, b: Date)
    requires ValidDate(a) && ValidDate(b)
    requires DayNumber(a) == DayNumber(b)
    ensures a == b
  {
    DayNumberBounds(a);
    DayNumberBounds(b);
    if a.year < b.year {
      DaysBeforeYearMonotone(a.year + 1, b.year);
      assert false;
    } else if b.year < a.year {
      DaysBeforeYearMonotone(b.year + 1, a.year);
      assert false;
    }
    if a.month < b.month {
      DaysBeforeMonthMonotone(a.year, a.month, b.month);
      assert false;
    } else if b.month < a.month {
      DaysBeforeMonthMonotone(a.year, b.month, a.month);
      assert false;
    }
  }

  /** Day numbers order valid dates as the calendar does. */
  lemma DayNumberOrder(a: Date, b: Date)
    requires ValidDate(a) && ValidDate(b)
    requires a.year < b.year || (a.year == b.year && a.month < b.month)
          || (a.year == b.year && a.month == b.month && a.day < b.day)
    ensures DayNumber(a) < DayNumber(b)
  {
    DayNumberBounds(a);
    DayNumberBounds(b);
    if a.year < b.year {
      DaysBeforeYearMonotone(a.year + 1, b.year);
    } else if a.month < b.month {
      DaysBeforeMonthMonotone(a.year, a.month, b.month);
    }
  }

  /** The first day of the following month comes right after the last day of this one. */
  lemma MonthBoundary(d: Date)
    requires 1 <= d.month <= 12
    ensures d.month < 12 ==> DayNumber(Date(d.year, d.month + 1, 1)) == DayNumber(LastOfMonth(d)) + 1
    ensures d.month == 12 ==> DayNumber(Date(d.year + 1, 1, 1)) == DayNumber(LastOfMonth(d)) + 1
  {
    if d.month < 12 {
      MonthStep(d.year, d.month);
    } else {
      MonthsFillYear(d.year);
    }
  }

  /** chrono's `succ_opt`: the next day, absent only after the last supported date. */
  function SuccOpt(d: Date): (r: Option<Date>)
    requires ValidDate(d)
    ensures r.None? <==> d == MaxDate
    ensures r.Some? ==> ValidDate(r.value) && DayNumber(r.value) == DayNumber(d) + 1
  {
    MonthBoundary(d);
    if d.day < DaysInMonth(d.year, d.month) then Some(Date(d.year, d.month, d.day + 1))
    else if d.month < 12 then Some(Date(d.year, d.month + 1, 1))
    else if d.year < MaxYear then Some(Date(d.year + 1, 1, 1))
    else None
  }

  /** chrono's `pred_opt`: the previous day, absent only before the first supported date. */
  function PredOpt(d: Date): (r: Option<Date>)
    requires ValidDate(d)
    ensures r.None? <==> d == MinDate
    ensures r.Some? ==> ValidDate(r.value) && DayNumber(r.value) + 1 == DayNumber(d)
  {
    if d.day > 1 then Some(Date(d.year, d.month, d.day - 1))
    else if d.month > 1 then
      MonthBoundary(Date(d.year, d.month - 1, 1));
      Some(LastOfMonth(Date(d.year, d.month - 1, 1)))
    else if d.year > MinYear then
      MonthBoundary(Date(d.year - 1, 12, 1));
      Some(Date(d.year - 1, 12, 31))
    else None
  }

  /** chrono's `with_day`: the same month with another day, if that date exists. */
  function WithDay(d: Date, day: int): (r: Option<Date>)
    ensures r.Some? <==> ValidDate(Date(d.year, d.month, day))
    ensures r.Some? ==> r.value == Date(d.year, d.month, day)
  {
    var e := Date(d.year, d.month, day);
    if ValidDate(e) then Some(e) else None
  }

  /** chrono's `with_month`: the same year and day in another month, if that date exists. */
  function WithMonth(d: Date, month: int): (r: Option<Date>)
    ensures r.Some? <==> ValidDate(Date(d.year, month, d.day))
    ensures r.Some? ==> r.value == Date(d.year, month, d.day)
  {
    var e := Date(d.year, month, d.day);
    if ValidDate(e) then Some(e) else None
  }

  /** chrono's `with_year`: the same month and day in another year, if that date exists. */
  function WithYear(d: Date, year: int): (r: Option<Date>)
    ensures r.Some? <==> ValidDate(Date(year, d.month, d.day))
    ensures r.Some? ==> r.value == Date(year, d.month, d.day)
  {
    var e := Date(year, d.month, d.day);
    if ValidDate(e) then Some(e) else None
  }

  /** Setting the day of a valid date succeeds exactly for the days of its month. */
  lemma WithDayDefined(d: Date, day: int)
    requires ValidDate(d)
    ensures WithDay(d, day).Some? <==> 1 <= day <= DaysInMonth(d.year, d.month)
  {
  }

  /**
   * On the first of a month, moving to the month number after it fails exactly
   * in December; then January of the next year is the first of the following
   * month, unless the year is the last supported one.
   */
  lemma WithMonthOnFirst(d: Date)
    requires ValidDate(d) && d.day == 1
    ensures WithMonth(d, d.month + 1).None? <==> d.month == 12
    ensures d.month < 12 ==> WithMonth(d, d.month + 1) == Some(Date(d.year, d.month + 1, 1))
    ensures d.month == 12 && d.year < MaxYear ==>
      WithYear(d, d.year + 1).Some? && WithMonth(WithYear(d, d.year + 1).value, 1) == Some(Date(d.year + 1, 1, 1))
  {
  }

  /**
   * Moving a valid date to another supported year fails exactly for
   * February 29 moved into a common year.
   */
  lemma WithYearDefined(d: Date, year: int)
    requires ValidDate(d) && InRange(year)
    ensures WithYear(d, year).None? <==> d.month == 2 && d.day == 29 && !IsLeapYear(year)
  {
  }

  /** Concrete leap-year behaviour of the rule. */
  lemma LeapYearExamples()
    ensures DaysInMonth(2024, 2) == 29 && DaysInMonth(2023, 2) == 28
    ensures DaysInMonth(2000, 2) == 29 && DaysInMonth(1900, 2) == 28
    ensures Weekday(Date(2024, 1, 1)) == 1
  {
  }
}
