/**
 * The date pickers of the demo window: each owns a calendar, an open flag and
 * a placement flag (pop up above or below its input box). The window holds
 * four of them and reacts to three clicks: on an input box (toggle), on a
 * day cell (select) and outside every popup (dismiss all).
 *
 * Each handler is specified against a pure transition on `PickerState`, the
 * observable state of one picker; the lemmas are about those transitions.
 */
module Pickers {
  import opened Options
  import opened Dates
  import opened Calendars
  import opened DateText

  /** What one picker shows: open or closed, where it opens, its month and its selection. */
  datatype PickerState = PickerState(isOpen: bool, showAbove: bool, currentMonth: Date, selectedDate: Option<Date>)

  /** A click on the input box of picker `idx`: the top two open below, the bottom two above. */
  function Toggled(s: PickerState, idx: int): PickerState {
    s.(isOpen := !s.isOpen, showAbove := idx >= 2)
  }

  /** A click on day `d`: only a day of the displayed month is taken; it is selected and the popup closes. */
  function Selected(s: PickerState, d: Date): PickerState {
    if SameMonth(d, s.currentMonth) then s.(selectedDate := Some(d), isOpen := false) else s
  }

  /** A click outside every popup closes this one. */
  function Dismissed(s: PickerState): PickerState {
    s.(isOpen := false)
  }

  /** Two clicks on the same input box restore the picker, except that its placement is now fixed. */
  lemma ToggleTwice(s: PickerState, idx: int)
    ensures Toggled(s, idx).isOpen != s.isOpen
    ensures Toggled(Toggled(s, idx), idx) == s.(showAbove := idx >= 2)
  {
  }

  /**
   * Selecting changes nothing but the selection and the open flag, and only for a
   * day of the displayed month; afterwards that day is the selection and the popup is closed.
   */
  lemma SelectEffect(s: PickerState, d: Date)
    ensures Selected(s, d).currentMonth == s.currentMonth && Selected(s, d).showAbove == s.showAbove
    ensures SameMonth(d, s.currentMonth) ==> Selected(s, d).selectedDate == Some(d) && !Selected(s, d).isOpen
    ensures !SameMonth(d, s.currentMonth) ==> Selected(s, d) == s
  {
  }

  /** Selecting the same day twice is selecting it once. */
  lemma SelectIdempotent(s: PickerState, d: Date)
    ensures Selected(Selected(s, d), d) == Selected(s, d)
  {
  }

  /** Dismissing is idempotent, and after it a toggle always opens the picker. */
  lemma DismissThenToggle(s: PickerState, idx: int)
    ensures Dismissed(Dismissed(s)) == Dismissed(s)
    ensures Toggled(Dismissed(s), idx).isOpen
  {
  }

  class DatePicker {
    const calendar: Calendar
    var isOpen: bool
    var showAbove: bool

    ghost predicate Valid()
      reads this, calendar
    {
      calendar.Valid()
    }

    function State(): PickerState
      reads this, calendar
    {
      PickerState(isOpen, showAbove, calendar.currentMonth, calendar.selectedDate)
    }

    /** A new picker is closed, opens below, and shows and selects `today`. */
    constructor (today: Date)
      requires ValidDate(today)
      ensures Valid() && fresh(calendar)
      ensures State() == PickerState(false, false, today, Some(today))
    {
      calendar := new Calendar(today);
      isOpen := false;
      showAbove := false;
    }

    /** The input box text: the selected date, or the placeholder when there is none. */
    function FormatDate(): (s: string)
      reads this, calendar
      requires Valid()
      ensures ParseDate(s) == calendar.selectedDate
      ensures s == Placeholder <==> calendar.selectedDate.None?
    {
      match calendar.selectedDate
      case Some(d) =>
        FormatRoundTrip(d);
        FormatYmd(d)
      case None => Placeholder
    }
  }

  class AppView {
    const pickers: seq<DatePicker>

    /** Every picker is valid, and no two share a picker object or a calendar. */
    ghost predicate Valid()
      reads this, pickers, set j | 0 <= j < |pickers| :: pickers[j].calendar
    {
      && (forall j :: 0 <= j < |pickers| ==> pickers[j].Valid())
      && (forall i, j :: 0 <= i < j < |pickers| ==> pickers[i] != pickers[j])
      && (forall i, j :: 0 <= i < j < |pickers| ==> pickers[i].calendar != pickers[j].calendar)
    }

    /** The overlay that catches outside clicks exists exactly while some picker is open. */
    function AnyOpen(): (r: bool)
      reads this, pickers
      ensures r <==> exists j :: 0 <= j < |pickers| && pickers[j].isOpen
    {
      AnyOpenFrom(0)
    }

    function AnyOpenFrom(i: nat): (r: bool)
      reads this, pickers
      ensures r <==> exists j :: i <= j < |pickers| && pickers[j].isOpen
      decreases |pickers| - i
    {
      if i >= |pickers| then false else pickers[i].isOpen || AnyOpenFrom(i + 1)
    }

    /** Four closed pickers, each showing and selecting `today`. */
    constructor (today: Date)
      requires ValidDate(today)
      ensures Valid() && |pickers| == 4
      ensures forall j :: 0 <= j < 4 ==> pickers[j].State() == PickerState(false, false, today, Some(today))
    {
      var p0 := new DatePicker(today);
      var p1 := new DatePicker(today);
      var p2 := new DatePicker(today);
      var p3 := new DatePicker(today);
      pickers := [p0, p1, p2, p3];
      new;
      assert forall j :: 0 <= j < 4 ==> pickers[j] == p0 || pickers[j] == p1 || pickers[j] == p2 || pickers[j] == p3;
    }

    method Toggle(idx: int)
      requires Valid() && 0 <= idx < |pickers|
      modifies pickers[idx]
      ensures Valid()
      ensures pickers[idx].State() == Toggled(old(pickers[idx].State()), idx)
      ensures forall j :: 0 <= j < |pickers| && j != idx ==> pickers[j].State() == old(pickers[j].State())
    {
      var picker := pickers[idx];
      picker.showAbove := idx >= 2;
      picker.isOpen := !picker.isOpen;
    }

    method SelectDay(idx: int, d: Date)
      requires Valid() && 0 <= idx < |pickers| && ValidDate(d)
      modifies pickers[idx], pickers[idx].calendar
      ensures Valid()
      ensures pickers[idx].State() == Selected(old(pickers[idx].State()), d)
      ensures forall j :: 0 <= j < |pickers| && j != idx ==> pickers[j].State() == old(pickers[j].State())
    {
      var picker := pickers[idx];
      if picker.calendar.IsCurrentMonth(d) {
        picker.calendar.selectedDate := Some(d);
        picker.isOpen := false;
      }
    }

    method DismissAll()
      requires Valid()
      modifies pickers
      ensures Valid() && !AnyOpen()
      ensures forall j :: 0 <= j < |pickers| ==> pickers[j].State() == Dismissed(old(pickers[j].State()))
    {
      for i := 0 to |pickers|
        invariant Valid()
        invariant forall j :: 0 <= j < i ==> pickers[j].State() == Dismissed(old(pickers[j].State()))
        invariant forall j :: i <= j < |pickers| ==> pickers[j].State() == old(pickers[j].State())
      {
        pickers[i].isOpen := false;
      }
    }
  }
}
