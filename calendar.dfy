/**
 * The calendar engine of a date picker: a displayed month, an optional
 * selected date, month and year navigation, and the 42-cell month grid.
 */
module Calendars {
  import opened Options
  import opened Dates

  /** The first day of the month after the one `d` lies in (December rolls over to January). */
  function NextMonthStart(d: Date): (r: Date)
    requires 1 <= d.month <= 12
    ensures r.day == 1 && 1 <= r.month <= 12
    ensures DayNumber(r) == DayNumber(LastOfMonth(d)) + 1
    ensures ValidDate(d) && !(d.year == MaxYear && d.month == 12) ==> ValidDate(r)
  {
    MonthBoundary(d);
    if d.month == 12 then Date(d.year + 1, 1, 1) else Date(d.year, d.month + 1, 1)
  }

  /** The first day of the month before the one `d` lies in (January rolls back to December). */
  function PrevMonthStart(d: Date): (r: Date)
    requires 1 <= d.month <= 12
    ensures r.day == 1 && 1 <= r.month <= 12
    ensures DayNumber(LastOfMonth(r)) + 1 == DayNumber(FirstOfMonth(d))
    ensures ValidDate(d) && !(d.year == MinYear && d.month == 1) ==> ValidDate(r)
  {
    var r := if d.month == 1 then Date(d.year - 1, 12, 1) else Date(d.year, d.month - 1, 1);
    MonthBoundary(r);
    r
  }

  /** Going forward one month and back again lands on the first of the starting month, and vice versa. */
  lemma MonthNavigationRoundTrip(d: Date)
    requires 1 <= d.month <= 12
    ensures PrevMonthStart(NextMonthStart(d)) == FirstOfMonth(d)
    ensures NextMonthStart(PrevMonthStart(d)) == FirstOfMonth(d)
  {
  }

  /** Going forward one year and back again restores the date, whenever the first move exists. */
  lemma YearNavigationRoundTrip(d: Date)
    requires ValidDate(d) && WithYear(d, d.year + 1).Some?
    ensures WithYear(WithYear(d, d.year + 1).value, d.year) == Some(d)
  {
  }

  /** On a first of the month, year navigation is defined throughout the supported range. */
  lemma FirstOfMonthYearShift(d: Date, year: int)
    requires ValidDate(d) && d.day == 1 && InRange(year)
    ensures WithYear(d, year) == Some(Date(year, d.month, 1))
  {
  }

  predicate SameMonth(a: Date, b: Date) {
    a.year == b.year && a.month == b.month
  }

  /** A valid date lies in the month of `cm` exactly when its day number falls within that month's days. */
  lemma SameMonthByDayNumber(d: Date, cm: Date)
    requires ValidDate(d) && ValidDate(cm)
    ensures SameMonth(d, cm) <==>
      DayNumber(FirstOfMonth(cm)) <= DayNumber(d) < DayNumber(FirstOfMonth(cm)) + DaysInMonth(cm.year, cm.month)
  {
    var first, last := FirstOfMonth(cm), LastOfMonth(cm);
    if !SameMonth(d, cm) {
      if d.year < cm.year || (d.year == cm.year && d.month < cm.month) {
        DayNumberOrder(d, first);
      } else {
        DayNumberOrder(last, d);
      }
    }
  }

  /**
   * The grid can be built without any of `get_month_days`'s `unwrap`s failing:
   * the following month exists, and so does the preceding one when leading
   * cells are needed.
   */
  predicate GridDefined(cm: Date) {
    && ValidDate(cm)
    && !(cm.year == MaxYear && cm.month == 12)
    && (Weekday(FirstOfMonth(cm)) > 0 ==> !(cm.year == MinYear && cm.month == 1))
  }

  /**
   * Cell `k` of the Sunday-first 6 x 7 grid for the month of `cm`: the last `w`
   * days of the previous month, then days 1..N of this month, then the first
   * days of the next month, where `w` is the weekday of the first.
   */
  function GridCell(cm: Date, k: int): Date
    requires 1 <= cm.month <= 12 && 0 <= k < 42
  {
    var w := Weekday(FirstOfMonth(cm));
    var n := DaysInMonth(cm.year, cm.month);
    if k < w then
      var prev := PrevMonthStart(cm);
      Date(prev.year, prev.month, DaysInMonth(prev.year, prev.month) - w + 1 + k)
    else if k < w + n then
      Date(cm.year, cm.month, k - w + 1)
    else
      var next := NextMonthStart(cm);
      Date(next.year, next.month, k - w - n + 1)
  }

  function MonthGrid(cm: Date): (cells: seq<Option<Date>>)
    requires 1 <= cm.month <= 12
  {
    seq(42, k requires 0 <= k < 42 => Some(GridCell(cm, k)))
  }

  lemma GridCellValid(cm: Date, k: int)
    requires GridDefined(cm) && 0 <= k < 42
    ensures ValidDate(GridCell(cm, k))
  {
  }

  /** The leading cells are the days of the previous month that end on the day before the first. */
  lemma LeadingCell(cm: Date, k: int)
    requires GridDefined(cm) && 0 <= k < Weekday(FirstOfMonth(cm))
    ensures PredOpt(FirstOfMonth(cm)).Some?
    ensures var last := PredOpt(FirstOfMonth(cm)).value;
      GridCell(cm, k) == Date(last.year, last.month, last.day - Weekday(FirstOfMonth(cm)) + 1 + k)
  {
  }

  /** The cells are consecutive days, starting `w` days before the first of the month. */
  lemma GridContiguous(cm: Date, k: int)
    requires 1 <= cm.month <= 12 && 0 <= k < 42
    ensures DayNumber(GridCell(cm, k)) == DayNumber(FirstOfMonth(cm)) - Weekday(FirstOfMonth(cm)) + k
  {
    MonthBoundary(cm);
  }

  /** Each cell after the first is the successor of the cell before it. */
  lemma GridSuccessor(cm: Date, k: int)
    requires GridDefined(cm) && 0 <= k < 41
    ensures SuccOpt(GridCell(cm, k)) == Some(GridCell(cm, k + 1))
  {
    var here, there := GridCell(cm, k), GridCell(cm, k + 1);
    GridCellValid(cm, k);
    GridCellValid(cm, k + 1);
    GridContiguous(cm, k);
    GridContiguous(cm, k + 1);
    if here == MaxDate {
      DayNumberBounds(there);
      DayNumberOrder(here, there);
      assert false;
    }
    DayNumberInjective(SuccOpt(here).value, there);
  }

  /** Column `k % 7` of the grid is weekday `k % 7`, Sunday first; in particular cell 0 is a Sunday. */
  lemma GridColumns(cm: Date, k: int)
    requires 1 <= cm.month <= 12 && 0 <= k < 42
    ensures Weekday(GridCell(cm, k)) == k % 7
  {
    var first := FirstOfMonth(cm);
    GridContiguous(cm, k);
    WeekdayShift(DayNumber(first) - Weekday(first), k);
  }

  /** Exactly the cells `w .. w+N-1` belong to the displayed month, and they are its days 1..N. */
  lemma GridMonthCells(cm: Date, k: int)
    requires 1 <= cm.month <= 12 && 0 <= k < 42
    ensures var w := Weekday(FirstOfMonth(cm));
      && (SameMonth(GridCell(cm, k), cm) <==> w <= k < w + DaysInMonth(cm.year, cm.month))
      && (SameMonth(GridCell(cm, k), cm) ==> GridCell(cm, k).day == k - w + 1)
  {
  }

  lemma WeekdayShift(base: int, k: int)
    requires base % 7 == 1
    ensures (base + k + 6) % 7 == k % 7
  {
    var q := base / 7;
    assert base + k + 6 == 7 * (q + 1) + k;
  }

  /** How many of `cells` hold a date in the month of `cm`. */
  function CountInMonth(cells: seq<Option<Date>>, cm: Date): (c: nat)
    ensures c <= |cells|
  {
    if cells == [] then 0
    else
      var last := cells[|cells| - 1];
      CountInMonth(cells[..|cells| - 1], cm) + (if last.Some? && SameMonth(last.value, cm) then 1 else 0)
  }

  lemma {:induction false} GridPrefixCount(cm: Date, k: int)
    requires 1 <= cm.month <= 12 && 0 <= k <= 42
    ensures var w := Weekday(FirstOfMonth(cm));
      var n := DaysInMonth(cm.year, cm.month);
      CountInMonth(MonthGrid(cm)[..k], cm) == if k <= w then 0 else if k <= w + n then k - w else n
  {
    if k > 0 {
      var grid := MonthGrid(cm);
      GridPrefixCount(cm, k - 1);
      assert grid[..k][..k - 1] == grid[..k - 1];
      GridMonthCells(cm, k - 1);
    }
  }

  /** The grid shows every day of the displayed month exactly once: 28, 29, 30 or 31 cells. */
  lemma GridMonthCount(cm: Date)
    requires 1 <= cm.month <= 12
    ensures CountInMonth(MonthGrid(cm), cm) == DaysInMonth(cm.year, cm.month)
  {
    GridPrefixCount(cm, 42);
    assert MonthGrid(cm)[..42] == MonthGrid(cm);
  }

  /** February 2024 (leap) shows 29 current-month cells, February 2023 shows 28. */
  lemma FebruaryCounts()
    ensures CountInMonth(MonthGrid(Date(2024, 2, 1)), Date(2024, 2, 1)) == 29
    ensures CountInMonth(MonthGrid(Date(2023, 2, 1)), Date(2023, 2, 1)) == 28
  {
    GridMonthCount(Date(2024, 2, 1));
    GridMonthCount(Date(2023, 2, 1));
  }

  /** January 2024 starts on a Monday: one leading cell (2023-12-31), ten trailing cells into February. */
  lemma January2024Grid()
    ensures Weekday(Date(2024, 1, 1)) == 1
    ensures GridCell(Date(2024, 1, 1), 0) == Date(2023, 12, 31)
    ensures GridCell(Date(2024, 1, 1), 1) == Date(2024, 1, 1)
    ensures GridCell(Date(2024, 1, 1), 32) == Date(2024, 2, 1)
    ensures GridCell(Date(2024, 1, 1), 41) == Date(2024, 2, 10)
  {
  }

  /** Cells holding days `from..to` of the month that `d` lies in, in order. */
  function MonthDays(d: Date, from: int, to: int): (cells: seq<Option<Date>>)
    requires from <= to + 1
  {
    seq(to - from + 1, j requires 0 <= j < to - from + 1 => Some(Date(d.year, d.month, from + j)))
  }

  /** Pushes days `from..to` of the month of `d`, in order: the two `for` loops of `get_month_days`. */
  method AppendDays(days: seq<Option<Date>>, d: Date, from: int, to: int) returns (r: seq<Option<Date>>)
    requires ValidDate(d) && 1 <= from <= to + 1 && to <= DaysInMonth(d.year, d.month)
    ensures r == days + MonthDays(d, from, to)
  {
    r := days;
    for i := from to to + 1
      invariant r == days + MonthDays(d, from, i - 1)
    {
      assert MonthDays(d, from, i) == MonthDays(d, from, i - 1) + [Some(Date(d.year, d.month, i))];
      r := r + [Some(WithDay(d, i).value)];
    }
  }

  /**
   * Appends the successor of the last cell until there are `n` cells: the
   * `while` loop of `get_month_days`. Started on the last day of a month, it fills in
   * the first days of the following month.
   */
  method PadWithSuccessors(days: seq<Option<Date>>, n: int) returns (r: seq<Option<Date>>)
    requires 0 < |days| <= n <= |days| + 28
    requires days[|days| - 1].Some? && ValidDate(days[|days| - 1].value)
    requires var last := days[|days| - 1].value;
      last == LastOfMonth(last) && !(last.year == MaxYear && last.month == 12)
    ensures r == days + MonthDays(NextMonthStart(days[|days| - 1].value), 1, n - |days|)
  {
    ghost var next := NextMonthStart(days[|days| - 1].value);
    r := days;
    while |r| < n
      invariant |days| <= |r| <= n
      invariant r == days + MonthDays(next, 1, |r| - |days|)
    {
      var lastDate := r[|r| - 1].value;
      ghost var count := |r| - |days|;
      assert count > 0 ==> lastDate == Date(next.year, next.month, count);
      assert MonthDays(next, 1, count + 1) == MonthDays(next, 1, count) + [Some(Date(next.year, next.month, count + 1))];
      r := r + [SuccOpt(lastDate)];
    }
  }

  /** The first `if` of `get_month_days`: with `w` the weekday of `firstDay`, the last `w` days of the previous month. */
  method PrecedingDays(firstDay: Date) returns (days: seq<Option<Date>>)
    requires GridDefined(firstDay) && firstDay.day == 1
    ensures days == LeadingDays(firstDay)
  {
    var firstWeekday := Weekday(firstDay);
    days := [];
    if firstWeekday > 0 {
      var prevMonth := PredOpt(firstDay).value;
      var daysInPrevMonth := prevMonth.day;
      days := AppendDays(days, prevMonth, daysInPrevMonth - firstWeekday + 1, daysInPrevMonth);
    }
  }

  /** The `days_in_month` of `get_month_days`: the day before the first of the following month. */
  method LengthOfMonth(firstDay: Date) returns (n: int)
    requires GridDefined(firstDay) && firstDay.day == 1
    ensures n == DaysInMonth(firstDay.year, firstDay.month)
  {
    var following := WithMonth(firstDay, firstDay.month + 1);
    if following.None? {
      following := WithMonth(WithYear(firstDay, firstDay.year + 1).value, 1);
    }
    n := PredOpt(following.value).value.day;
  }

  /** The leading cells followed by days 1..N of the month that starts on `firstDay`. */
  method FilledDays(firstDay: Date) returns (days: seq<Option<Date>>)
    requires GridDefined(firstDay) && firstDay.day == 1
    ensures days == LeadingDays(firstDay) + MonthDays(firstDay, 1, DaysInMonth(firstDay.year, firstDay.month))
    ensures 0 < |days| && days[|days| - 1] == Some(LastOfMonth(firstDay))
  {
    days := PrecedingDays(firstDay);
    var daysInMonth := LengthOfMonth(firstDay);
    days := AppendDays(days, firstDay, 1, daysInMonth);
  }

  /** The cells before day 1: the last `w` days of the previous month, `w` the weekday of the first. */
  function LeadingDays(cm: Date): (cells: seq<Option<Date>>)
    requires 1 <= cm.month <= 12
  {
    var w := Weekday(FirstOfMonth(cm));
    var prev := LastOfMonth(PrevMonthStart(cm));
    if w > 0 then MonthDays(prev, prev.day - w + 1, prev.day) else []
  }

  /** There are `w` leading cells, and they are the grid's first `w` cells. */
  lemma LeadingSegment(cm: Date, firstDay: Date, k: int)
    requires GridDefined(cm) && firstDay == FirstOfMonth(cm) && 0 <= k < Weekday(firstDay)
    ensures |LeadingDays(firstDay)| == Weekday(firstDay)
    ensures LeadingDays(firstDay)[k] == Some(GridCell(cm, k))
  {
    assert PrevMonthStart(firstDay) == PrevMonthStart(cm);
  }

  /** Cell `k` of the three segments is cell `k` of the month grid. */
  lemma SegmentCell(cm: Date, firstDay: Date, k: int)
    requires GridDefined(cm) && firstDay == FirstOfMonth(cm) && 0 <= k < 42
    ensures var filled := LeadingDays(firstDay) + MonthDays(firstDay, 1, DaysInMonth(cm.year, cm.month));
      |filled| <= 42 &&
      (filled + MonthDays(NextMonthStart(LastOfMonth(firstDay)), 1, 42 - |filled|))[k] == Some(GridCell(cm, k))
  {
    var w, n := Weekday(firstDay), DaysInMonth(cm.year, cm.month);
    var leading, middle := LeadingDays(firstDay), MonthDays(firstDay, 1, n);
    assert |leading| == w;
    var trailing := MonthDays(NextMonthStart(LastOfMonth(firstDay)), 1, 42 - w - n);
    var cells := leading + middle + trailing;
    if k < w {
      LeadingSegment(cm, firstDay, k);
      assert cells[k] == leading[k];
    } else if k < w + n {
      assert cells[k] == middle[k - w];
      assert middle[k - w] == Some(GridCell(cm, k));
    } else {
      assert NextMonthStart(LastOfMonth(firstDay)) == NextMonthStart(cm);
      assert cells[k] == trailing[k - w - n];
      assert trailing[k - w - n] == Some(GridCell(cm, k));
    }
  }

  /**
   * The month grid is the leading days, then days 1..N of this month (together `filled`),
   * then the first days of the following month up to 42 cells.
   */
  lemma GridAsSegments(cm: Date, firstDay: Date, filled: seq<Option<Date>>)
    requires GridDefined(cm) && firstDay == FirstOfMonth(cm)
    requires filled == LeadingDays(firstDay) + MonthDays(firstDay, 1, DaysInMonth(firstDay.year, firstDay.month))
    ensures |filled| <= 42
    ensures MonthGrid(cm) == filled + MonthDays(NextMonthStart(LastOfMonth(firstDay)), 1, 42 - |filled|)
  {
    SegmentCell(cm, firstDay, 0);
    var cells := filled + MonthDays(NextMonthStart(LastOfMonth(firstDay)), 1, 42 - |filled|);
    forall k | 0 <= k < 42 ensures cells[k] == MonthGrid(cm)[k] {
      SegmentCell(cm, firstDay, k);
    }
  }

  class Calendar {
    var currentMonth: Date
    var selectedDate: Option<Date>

    ghost predicate Valid()
      reads this
    {
      ValidDate(currentMonth) && (selectedDate.Some? ==> ValidDate(selectedDate.value))
    }

    /** Both the displayed month and the selection start at `today`, which is not moved to day 1. */
    constructor (today: Date)
      requires ValidDate(today)
      ensures Valid()
      ensures currentMonth == today && selectedDate == Some(today)
    {
      currentMonth := today;
      selectedDate := Some(today);
    }

    method PrevMonth()
      requires Valid()
      requires !(currentMonth.year == MinYear && currentMonth.month == 1)
      modifies this
      ensures Valid()
      ensures currentMonth == PrevMonthStart(old(currentMonth))
      ensures selectedDate == old(selectedDate)
    {
      var firstDay := WithDay(currentMonth, 1).value;
      var lastOfPrevious := PredOpt(firstDay).value;
      currentMonth := WithDay(lastOfPrevious, 1).value;
    }

    method NextMonth()
      requires Valid()
      requires !(currentMonth.year == MaxYear && currentMonth.month == 12)
      modifies this
      ensures Valid()
      ensures currentMonth == NextMonthStart(old(currentMonth))
      ensures selectedDate == old(selectedDate)
    {
      var firstDay := WithDay(currentMonth, 1).value;
      var next := WithMonth(firstDay, firstDay.month + 1);
      if next.None? {
        next := WithMonth(WithYear(firstDay, firstDay.year + 1).value, 1);
      }
      currentMonth := next.value;
    }

    method PrevYear()
      requires Valid()
      requires WithYear(currentMonth, currentMonth.year - 1).Some?
      modifies this
      ensures Valid()
      ensures currentMonth == Date(old(currentMonth.year) - 1, old(currentMonth.month), old(currentMonth.day))
      ensures selectedDate == old(selectedDate)
    {
      currentMonth := WithYear(currentMonth, currentMonth.year - 1).value;
    }

    method NextYear()
      requires Valid()
      requires WithYear(currentMonth, currentMonth.year + 1).Some?
      modifies this
      ensures Valid()
      ensures currentMonth == Date(old(currentMonth.year) + 1, old(currentMonth.month), old(currentMonth.day))
      ensures selectedDate == old(selectedDate)
    {
      currentMonth := WithYear(currentMonth, currentMonth.year + 1).value;
    }

    /** The 42 cells shown for the displayed month, built as `get_month_days` builds them. */
    method GetMonthDays() returns (days: seq<Option<Date>>)
      requires Valid() && GridDefined(currentMonth)
      ensures days == MonthGrid(currentMonth)
    {
      var firstDay := WithDay(currentMonth, 1).value;
      days := FilledDays(firstDay);
      GridAsSegments(currentMonth, firstDay, days);
      days := PadWithSuccessors(days, 42);
    }

    /** Independent of the calendar's state: "today" is a parameter instead of a clock read. */
    function IsToday(d: Date, today: Date): (r: bool)
      ensures r <==> d == today
    {
      d.year == today.year && d.month == today.month && d.day == today.day
    }

    function IsSelected(d: Date): (r: bool)
      reads this
      ensures r <==> selectedDate == Some(d)
    {
      match selectedDate
      case Some(selected) => d.year == selected.year && d.month == selected.month && d.day == selected.day
      case None => false
    }

    /** Whether `d` lies in the displayed month: its day number falls among that month's days. */
    function IsCurrentMonth(d: Date): (r: bool)
      reads this
      ensures ValidDate(d) && ValidDate(currentMonth) ==>
        (r <==> DayNumber(FirstOfMonth(currentMonth)) <= DayNumber(d)
                < DayNumber(FirstOfMonth(currentMonth)) + DaysInMonth(currentMonth.year, currentMonth.month))
    {
      var r := d.year == currentMonth.year && d.month == currentMonth.month;
      if ValidDate(d) && ValidDate(currentMonth) then SameMonthByDayNumber(d, currentMonth); r else r
    }
  }
}
