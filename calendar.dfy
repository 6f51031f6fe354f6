/**
 * The calendar panel: the month grid it renders (`getDaysInMonth`,
 * `getFirstDayOfMonth` and the two loops that fill the day cells) and its
 * month cursor, which the previous/next buttons move.
 */
module Calendar {
  import opened JsDate

  /** `getDaysInMonth`: the date of day 0 of the following month. */
  function DaysInMonth(year: int, month: int): (n: int)
    ensures 1 <= n <= 31
  {
    NewDate(year, month + 1, 0).day
  }

  /** `getFirstDayOfMonth`: the weekday (0 is Sunday) of the 1st. */
  function FirstDayOfMonth(year: int, month: int): (w: int)
    ensures 0 <= w < 7
  {
    WeekDay(NewDate(year, month, 1))
  }

  /**
   * Day 0 of the following month is the last day of the month, so
   * `getDaysInMonth` is the month's length in the Gregorian calendar (of the
   * year the constructor reads, which moves 0..99 into the 1900s).
   */
  lemma DaysInMonthIsMonthLength(year: int, month: int)
    requires 0 <= month < 12
    ensures DaysInMonth(year, month) == MonthLength(JsYear(year), month)
    ensures 28 <= DaysInMonth(year, month) <= 31
    ensures month == 1 ==> (DaysInMonth(year, month) == 29 <==> IsLeapYear(JsYear(year)))
  {
    var y := JsYear(year);
    if month == 11 {
      assert (month + 1) / 12 == 1 && (month + 1) % 12 == 0;
      assert NewDate(year, month + 1, 0) == RollBack(y + 1, 0, 0);
    } else {
      assert (month + 1) / 12 == 0 && (month + 1) % 12 == month + 1;
      assert NewDate(year, month + 1, 0) == RollBack(y, month + 1, 0);
    }
  }

  /** February 2024 has 29 days and February 2023 has 28. */
  lemma FebruaryExamples()
    ensures DaysInMonth(2024, 1) == 29
    ensures DaysInMonth(2023, 1) == 28
  {
    DaysInMonthIsMonthLength(2024, 1);
    DaysInMonthIsMonthLength(2023, 1);
  }

  /** The 1st of the month is the weekday of the ECMAScript day number of that day. */
  lemma FirstDayOfMonthIsWeekDay(year: int, month: int)
    ensures FirstDayOfMonth(year, month) == (MakeDay(JsYear(year), month, 1) + 4) % 7
  {
    NewDateDayNumber(year, month, 1);
  }

  /** The month after starts `daysInMonth` days later in the week. */
  lemma {:induction false} FirstDayOfNextMonth(year: int, month: int)
    requires 0 <= month < 12
    requires !(0 <= year <= 99)
    ensures FirstDayOfMonth(year, month + 1)
         == (FirstDayOfMonth(year, month) + DaysInMonth(year, month)) % 7
  {
    var first, len := MakeDay(year, month, 1), MonthLength(year, month);
    var f0, f1 := FirstDayOfMonth(year, month), FirstDayOfMonth(year, month + 1);
    assert f0 == (first + 4) % 7 by { FirstDayOfMonthIsWeekDay(year, month); }
    assert DaysInMonth(year, month) == len by { DaysInMonthIsMonthLength(year, month); }
    assert f1 == (first + len + 4) % 7 by {
      FirstDayOfMonthIsWeekDay(year, month + 1);
      MakeDayNextMonth(year, month);
    }
    assert f1 == (f0 + len) % 7 by { WeekShift(first, len); }
  }

  lemma WeekShift(first: int, len: int)
    ensures (first + len + 4) % 7 == ((first + 4) % 7 + len) % 7
  {
    ModAdd7(first + 4, len);
  }

  /** One cell of the grid: a leading blank, or a numbered day that may be today. */
  datatype Cell = Empty | Day(number: int, isToday: bool)

  /** The `isToday` test: the cell's day, the cursor's month and year all match today's. */
  predicate IsToday(year: int, month: int, day: int, today: CivilDate) {
    day == today.day && month == today.month && year == today.year
  }

  /**
   * The day cells of `month` of `year`: `FirstDayOfMonth` blanks, then the
   * days 1..`DaysInMonth` in order, each flagged when it is today.
   */
  ghost predicate IsDayGrid(cells: seq<Cell>, year: int, month: int, today: CivilDate) {
    var lead := FirstDayOfMonth(year, month);
    |cells| == lead + DaysInMonth(year, month) &&
    (forall i :: 0 <= i < lead ==> cells[i] == Empty) &&
    (forall i :: lead <= i < |cells| ==>
       cells[i] == Day(i - lead + 1, IsToday(year, month, i - lead + 1, today)))
  }

  /** The two loops that fill `days` while the panel renders. */
  method BuildDayCells(year: int, month: int, today: CivilDate) returns (days: seq<Cell>)
    ensures IsDayGrid(days, year, month, today)
  {
    var daysInMonth := DaysInMonth(year, month);
    var firstDayOfMonth := FirstDayOfMonth(year, month);
    days := [];
    var i := 0;
    while i < firstDayOfMonth
      invariant 0 <= i <= firstDayOfMonth
      invariant days == seq(i, _ => Empty)
    {
      days := days + [Empty];
      i := i + 1;
    }
    var day := 1;
    while day <= daysInMonth
      invariant 1 <= day <= daysInMonth + 1
      invariant |days| == firstDayOfMonth + day - 1
      invariant forall k :: 0 <= k < firstDayOfMonth ==> days[k] == Empty
      invariant forall k :: firstDayOfMonth <= k < |days| ==>
        days[k] == Day(k - firstDayOfMonth + 1, IsToday(year, month, k - firstDayOfMonth + 1, today))
    {
      var isToday := day == today.day && month == today.month && year == today.year;
      days := days + [Day(day, isToday)];
      day := day + 1;
    }
  }

  /** The grid has room for every day, in order, each under its own weekday column. */
  lemma {:induction false} GridColumns(cells: seq<Cell>, year: int, month: int, today: CivilDate, k: int)
    requires 0 <= month < 12
    requires IsDayGrid(cells, year, month, today)
    requires 1 <= k <= DaysInMonth(year, month)
    ensures cells[FirstDayOfMonth(year, month) + k - 1].Day?
    ensures cells[FirstDayOfMonth(year, month) + k - 1].number == k
    ensures (FirstDayOfMonth(year, month) + k - 1) % 7 == WeekDay(NewDate(year, month, k))
  {
    var y := JsYear(year);
    var first, f := MakeDay(y, month, 1), FirstDayOfMonth(year, month);
    assert f == (first + 4) % 7 by { FirstDayOfMonthIsWeekDay(year, month); }
    assert WeekDay(NewDate(year, month, k)) == (first + 4 + (k - 1)) % 7 by {
      NewDateDayNumber(year, month, k);
      assert MakeDay(y, month, k) == first + (k - 1);
    }
    assert (first + 4 + (k - 1)) % 7 == (f + k - 1) % 7 by { ModAdd7(first + 4, k - 1); }
  }

  /**
   * At most one cell is flagged today; one is exactly when the grid shows
   * today's month of today's year.
   */
  lemma TodayFlag(cells: seq<Cell>, year: int, month: int, today: CivilDate)
    requires 0 <= month < 12 && !(0 <= year <= 99)
    requires ValidDate(today)
    requires IsDayGrid(cells, year, month, today)
    ensures forall i, j :: 0 <= i < j < |cells| && cells[i].Day? && cells[j].Day? ==>
              !(cells[i].isToday && cells[j].isToday)
    ensures (exists i :: 0 <= i < |cells| && cells[i].Day? && cells[i].isToday)
        <==> (year == today.year && month == today.month)
  {
    var lead := FirstDayOfMonth(year, month);
    if year == today.year && month == today.month {
      DaysInMonthIsMonthLength(year, month);
      var i := lead + today.day - 1;
      assert cells[i].Day? && cells[i].isToday;
    }
  }

  /** `new Date(y, m - 1, 1)`: the 1st of the previous month. */
  function PreviousMonth(c: CivilDate): (r: CivilDate)
    ensures ValidDate(r) && r.day == 1
  {
    NewDate(c.year, c.month - 1, 1)
  }

  /** `new Date(y, m + 1, 1)`: the 1st of the next month. */
  function NextMonth(c: CivilDate): (r: CivilDate)
    ensures ValidDate(r) && r.day == 1
  {
    NewDate(c.year, c.month + 1, 1)
  }

  /** Backwards by exactly one month, from December of the year before when at January. */
  lemma PreviousMonthStep(c: CivilDate)
    requires ValidDate(c) && !(0 <= c.year <= 99)
    ensures PreviousMonth(c)
         == if c.month == 0 then CivilDate(c.year - 1, 11, 1) else CivilDate(c.year, c.month - 1, 1)
  {
    if c.month == 0 {
      assert (c.month - 1) / 12 == -1 && (c.month - 1) % 12 == 11;
    } else {
      assert (c.month - 1) / 12 == 0 && (c.month - 1) % 12 == c.month - 1;
    }
  }

  /** Forwards by exactly one month, into January of the next year when at December. */
  lemma NextMonthStep(c: CivilDate)
    requires ValidDate(c) && !(0 <= c.year <= 99)
    ensures NextMonth(c)
         == if c.month == 11 then CivilDate(c.year + 1, 0, 1) else CivilDate(c.year, c.month + 1, 1)
  {
    if c.month == 11 {
      assert (c.month + 1) / 12 == 1 && (c.month + 1) % 12 == 0;
    } else {
      assert (c.month + 1) / 12 == 0 && (c.month + 1) % 12 == c.month + 1;
    }
  }

  /** Next then previous returns to the same month, on its 1st. */
  lemma NextThenPrevious(c: CivilDate)
    requires ValidDate(c) && c.year >= 100
    ensures PreviousMonth(NextMonth(c)) == CivilDate(c.year, c.month, 1)
  {
    NextMonthStep(c);
    PreviousMonthStep(NextMonth(c));
  }

  /** Previous then next returns to the same month, on its 1st, unless that crosses into year 99. */
  lemma PreviousThenNext(c: CivilDate)
    requires ValidDate(c) && c.year >= 100
    requires !(c.year == 100 && c.month == 0)
    ensures NextMonth(PreviousMonth(c)) == CivilDate(c.year, c.month, 1)
  {
    PreviousMonthStep(c);
    NextMonthStep(PreviousMonth(c));
  }

  /**
   * Going back from January of year 100 reaches December of year 99, whose
   * next month the constructor reads as January 2000.
   */
  lemma TwoDigitYearJump()
    ensures PreviousMonth(CivilDate(100, 0, 1)) == CivilDate(99, 11, 1)
    ensures NextMonth(CivilDate(99, 11, 1)) == CivilDate(2000, 0, 1)
  {
    PreviousMonthStep(CivilDate(100, 0, 1));
  }

  /**
   * The mounted calendar panel. Its cursor starts at today's date when the
   * panel mounts, that is each time the calendar overlay is shown.
   */
  class CalendarPanel {
    var currentDate: CivilDate

    ghost predicate Valid()
      reads this
    {
      ValidDate(currentDate)
    }

    constructor (today: CivilDate)
      requires ValidDate(today)
      ensures Valid() && currentDate == today
    {
      currentDate := today;
    }

    method GoToPreviousMonth()
      requires Valid()
      modifies this
      ensures Valid() && currentDate == PreviousMonth(old(currentDate))
    {
      currentDate := NewDate(currentDate.year, currentDate.month - 1, 1);
    }

    method GoToNextMonth()
      requires Valid()
      modifies this
      ensures Valid() && currentDate == NextMonth(old(currentDate))
    {
      currentDate := NewDate(currentDate.year, currentDate.month + 1, 1);
    }

    /** The cells the panel renders for its current month. */
    method Days(today: CivilDate) returns (days: seq<Cell>)
      requires Valid()
      ensures IsDayGrid(days, currentDate.year, currentDate.month, today)
    {
      days := BuildDayCells(currentDate.year, currentDate.month, today);
    }
  }
}
