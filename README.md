# Calendar-GPUI-demo date picker, modelled in Dafny

The demo is a desktop window with four date pickers. Each picker has an input box showing the
selected date and a popup calendar. The calendar shows a displayed month as a Sunday-first 6 x 7
grid, with buttons for the previous/next month and the previous/next year. Clicking a day of the
displayed month selects it and closes the popup. Clicking outside the popups closes them all.

This project models the logic under that UI:

- `options.dfy`, module `Options`: the optional value that chrono's partial operations return.
- `dates.dfy`, module `Dates`: proleptic Gregorian dates, standing in for chrono's `NaiveDate`.
  - It defines validity, month lengths under the leap-year rule, and a day number counted from
    0000-01-01.
  - Successor, predecessor and weekday are stated against that day number.
  - `with_day`, `with_month` and `with_year` are partial functions returning `Option`; lemmas
    state when each succeeds on the dates the calendar gives it.
- `calendar.dfy`, module `Calendars`: the `Calendar` class (displayed month plus optional
  selection).
  - It has navigation, the grid builder written as `get_month_days`'s loops, and the membership
    predicates.
  - `MonthGrid` is the reference definition of the 42-cell grid. The lemmas state contiguity,
    Sunday-first columns, and the number of cells that belong to the displayed month.
- `datetext.dfy`, module `DateText`: the input-box text `year-MM-DD`, and the placeholder used
  when nothing is selected.
  - `ParseDate` reads the text back. It is the partner against which the format is proved
    unambiguous.
- `pickers.dfy`, module `Pickers`: the `DatePicker` and `AppView` classes.
  - The three click handlers (toggle, select a day, dismiss all) are methods.
  - Each is specified against a pure transition on `PickerState`, the observable state of one
    picker.

Every `unwrap` in the source becomes a precondition, stating exactly when that `unwrap` succeeds:

- `PrevMonth`: not January of the first supported year.
- `NextMonth`: not December of the last supported year.
- `PrevYear` and `NextYear`: the date must exist in the target year. February 29 moved into a
  common year panics in the source.
- `GetMonthDays`: the neighbouring months it needs must exist (`GridDefined`).

Dates are never clamped, because the source does not clamp them.

## Model

| member | source | states |
|---|---|---|
| Dates.DaysInMonth | src/main.rs:72-77 | a month has 28 to 31 days: 29 exactly for February of a leap year, 28 for February otherwise, 30 for April, June, September and November |
| Dates.Weekday | src/main.rs:61 | the weekday counted from Sunday is in 0..6 and agrees with the day number modulo 7 (0000-01-01 is a Saturday) |
| Dates.SuccOpt | src/main.rs:85 | the next day is absent exactly after the last supported date; otherwise it is a valid date whose day number is one more |
| Dates.PredOpt | src/main.rs:34-35 | the previous day is absent exactly before the first supported date; otherwise it is a valid date whose day number is one less |
| Dates.WithDayDefined | src/main.rs:60 | setting the day of a valid date succeeds exactly for the days 1..N of its month |
| Dates.WithMonthOnFirst | src/main.rs:41-44 | on the first of a month, `with_month(m + 1)` fails exactly in December, and the fallback through `with_year(y + 1)` then gives January 1 of the next year below the last supported year |
| Dates.WithYearDefined | src/main.rs:47-57 | moving a valid date to another supported year fails exactly for February 29 moved into a common year |
| Dates.DayNumberInjective | src/main.rs:83-86 | distinct valid dates have distinct day numbers, so "one day later" determines the date |
| Dates.DayNumberOrder | src/main.rs:83-86 | day numbers order valid dates by year, then month, then day |
| Dates.LeapYearExamples | src/main.rs:72-77 | February has 29 days in 2024 and 2000, and 28 days in 2023 and 1900; 2024-01-01 is a Monday |
| Calendars.NextMonthStart | src/main.rs:40-45 | the result is the first of a month, and its day number is one past the last day of `d`'s month (December rolls over to January) |
| Calendars.PrevMonthStart | src/main.rs:30-38 | the result is the first of a month whose last day comes right before the first of `d`'s month (January rolls back to December) |
| Calendars.MonthNavigationRoundTrip | src/main.rs:30-45 | next month then previous month, and previous then next, both land on the first of the starting month |
| Calendars.YearNavigationRoundTrip | src/main.rs:47-57 | next year then previous year restores the date whenever the first move exists |
| Calendars.FirstOfMonthYearShift | src/main.rs:47-57 | on the first of a month, moving to any supported year succeeds and keeps month and day |
| Calendars.SameMonthByDayNumber | src/main.rs:104-106 | a valid date lies in the month of `cm` exactly when its day number falls within that month's days |
| Calendars.GridCellValid | src/main.rs:59-89 | every cell of a buildable grid is a valid date |
| Calendars.LeadingCell | src/main.rs:64-70 | the first `w` cells are the last `w` days of the previous month, ending on the day before the first |
| Calendars.GridContiguous | src/main.rs:59-89 | cell `k` is `k` days after the Sunday `w` days before the first of the month |
| Calendars.GridSuccessor | src/main.rs:83-86 | each cell after the first is the successor of the one before it |
| Calendars.GridColumns | src/main.rs:60-61 | cell `k` falls on weekday `k % 7`, Sunday first |
| Calendars.GridMonthCells | src/main.rs:72-81 | exactly the cells `w .. w+N-1` belong to the displayed month, and they are its days 1..N |
| Calendars.GridPrefixCount | src/main.rs:79-81 | the number of current-month cells among the first `k` is 0, then `k - w`, then `N` |
| Calendars.GridMonthCount | src/main.rs:104-106 | the grid holds exactly `N` cells of the displayed month, `N` its length |
| Calendars.FebruaryCounts | src/main.rs:72-81 | February 2024 shows 29 current-month cells and February 2023 shows 28 |
| Calendars.January2024Grid | src/main.rs:59-89 | the January 2024 grid starts with 2023-12-31, has 2024-01-01 in cell 1, 2024-02-01 in cell 32 and ends with 2024-02-10 |
| Calendars.AppendDays | src/main.rs:67-69 | the loop appends days `from..to` of the month, in order, to what was there |
| Calendars.PadWithSuccessors | src/main.rs:83-86 | started on the last day of a month, the loop appends the first days of the following month until there are `n` cells |
| Calendars.PrecedingDays | src/main.rs:63-70 | the leading cells are the last `w` days of the previous month, `w` the weekday of the first |
| Calendars.LengthOfMonth | src/main.rs:72-77 | the day before the first of the following month is the month's length |
| Calendars.FilledDays | src/main.rs:63-81 | leading cells then days 1..N, ending on the last day of the month |
| Calendars.LeadingSegment | src/main.rs:64-70 | there are `w` leading cells and they are the grid's first `w` cells |
| Calendars.SegmentCell | src/main.rs:59-89 | cell `k` of leading, month and trailing segments is cell `k` of the reference grid |
| Calendars.GridAsSegments | src/main.rs:59-89 | the reference grid is the leading and month cells followed by the first days of the next month, 42 cells in all |
| Calendars.Calendar.constructor | src/main.rs:22-28 | the displayed month and the selection both start at today, which is not moved to day 1 |
| Calendars.Calendar.PrevMonth | src/main.rs:30-38 | the displayed month becomes the first of the previous month; the selection is unchanged |
| Calendars.Calendar.NextMonth | src/main.rs:40-45 | the displayed month becomes the first of the following month; the selection is unchanged |
| Calendars.Calendar.PrevYear | src/main.rs:47-51 | only the year decreases by one; month, day and selection are kept |
| Calendars.Calendar.NextYear | src/main.rs:53-57 | only the year increases by one; month, day and selection are kept |
| Calendars.Calendar.GetMonthDays | src/main.rs:59-89 | the built vector is the reference grid: 42 cells, all present, contiguous and Sunday-first |
| Calendars.Calendar.IsToday | src/main.rs:91-94 | true exactly when the date equals today |
| Calendars.Calendar.IsSelected | src/main.rs:96-102 | true exactly when the selection is present and equals the date; false without a selection |
| Calendars.Calendar.IsCurrentMonth | src/main.rs:104-106 | for valid dates, true exactly when the date's day number falls within the displayed month |
| DateText.NatText | src/main.rs:120 | decimal digits without a leading zero, whose value is the number |
| DateText.IntText | src/main.rs:120 | an unpadded signed decimal text (no leading zero, no "-0"), starting with `-` exactly for negative values, whose value is the number |
| DateText.NatTextOfValue | src/main.rs:120 | digits without a leading zero are the decimal text of their own value |
| DateText.IntTextOfValue | src/main.rs:120 | unpadded integer syntax is the decimal text of its own value, so the unpadded form is unique |
| DateText.Pad2 | src/main.rs:120 | exactly two digits whose value is the number |
| DateText.Pad2OfValue | src/main.rs:120 | any two digits are the zero-padded text of their value |
| DateText.FormatYmd | src/main.rs:120 | the text is the unpadded year, `-`, the two-digit month, `-`, the two-digit day |
| DateText.FormatRoundTrip | src/main.rs:118-124 | reading the shown text back yields the date that was written |
| DateText.ParseDateExact | src/main.rs:118-124 | the only text that reads back as a valid date is that date's own text, so a padded year is never a date's text |
| DateText.FormatInjective | src/main.rs:118-124 | two dates are shown alike exactly when they are the same date |
| DateText.PaddedYearRejected | src/main.rs:120 | `02024-03-05` and a `-0` year do not read back as dates |
| DateText.PlaceholderIsNoDate | src/main.rs:122 | the placeholder reads back as no date |
| DateText.FormatPaddedExample | src/main.rs:120 | 2024-03-05 is shown as `2024-03-05` |
| DateText.FormatNegativeYearExample | src/main.rs:120 | the year -44 is shown with its sign and unpadded: `-44-03-15` |
| Pickers.ToggleTwice | src/main.rs:199-203 | a toggle always flips the open flag, and two toggles restore the picker except for its now-fixed placement |
| Pickers.SelectEffect | src/main.rs:423-427 | selecting keeps the displayed month and placement; a current-month day becomes the selection and closes the popup; any other day changes nothing |
| Pickers.SelectIdempotent | src/main.rs:423-427 | selecting the same day twice is selecting it once |
| Pickers.DismissThenToggle | src/main.rs:518-522 | dismissing is idempotent, and after it a toggle opens the picker |
| Pickers.DatePicker.constructor | src/main.rs:110-116 | a new picker is closed, opens below, and shows and selects today |
| Pickers.DatePicker.FormatDate | src/main.rs:118-124 | the text reads back as the selection, so by `ParseDateExact` it is exactly the selected date's text; it is the placeholder exactly when nothing is selected |
| Pickers.AppView.AnyOpen | src/main.rs:493 | true exactly when some picker is open |
| Pickers.AppView.AnyOpenFrom | src/main.rs:493 | true exactly when some picker from index `i` on is open |
| Pickers.AppView.constructor | src/main.rs:145-154 | four distinct pickers with distinct calendars, each closed and showing today |
| Pickers.AppView.Toggle | src/main.rs:199-203 | picker `idx` opens above exactly when `idx >= 2` and its open flag flips; every other picker is unchanged |
| Pickers.AppView.SelectDay | src/main.rs:423-427 | picker `idx` takes the `Selected` transition; every other picker is unchanged |
| Pickers.AppView.DismissAll | src/main.rs:518-522 | every picker is closed and nothing else changes, so no picker is open afterwards |

## Left out

- Rendering: layout, styling, colours, weekday labels, the year and month headers, window
  creation and `main`. These are GUI-library view trees with no logic of their own.
- `calculate_position`. It is dead code in the source, computes in `f32`, and reads the window
  bounds from the GUI library. Placement follows the rule the click handler actually applies:
  `show_above` becomes `idx >= 2`. The viewport is not measured.
- The wall clock. "Today" is a parameter of `Calendar.constructor`, `DatePicker.constructor`,
  `AppView.constructor` and `IsToday`, instead of a read of the local clock.
- chrono itself. Its date functions are replaced by the Gregorian functions of `Dates`.
  - The supported year range, -262143 to 262142, is a model choice matching recent chrono
    releases.
  - Only the two ends of that range, where the source's `unwrap`s would fail, depend on it.
- Pickers.AppView.SelectDay: the source decides `is_current` when the grid is rendered and
  captures it in the click closure. The model evaluates it when the click is handled. These agree
  because every state change is followed by a re-render.
- Pickers.AppView.DismissAll: the source only installs the outside-click handler while some
  picker is open (`AnyOpen`). The method is specified for any state.
- Integer widths: `u32` and `usize` arithmetic in `get_month_days` (such as
  `days_in_prev_month - first_weekday + 1`) never wraps for valid dates, so it is modelled on
  unbounded integers.
- `Calendar::new` does not move today to day 1. `NextYear`/`PrevYear` on a calendar created on
  February 29 therefore need a leap target year. This appears as their precondition.
