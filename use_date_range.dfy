/**
  The query window of the dashboard: from the current moment and the selected range kind, the
  start and end dates of the data to fetch. The start is a copy of the current moment moved back
  with one of the Date setters, so it keeps the time of day and follows MakeDay's overflow rules.
  The current moment, which the hook reads from the clock, is a parameter here.
*/
module DateRangeCalc {
  import opened Calendar
  import opened HealthTypes

  /** The window for range `selected`, ending at `now`. Unrecognised kinds fall back to a month. */
  function ComputeDateRangeFilter(now: Date, selected: DateRange): (f: DateRangeFilter)
    requires ValidDate(now)
    ensures f.rangeType == selected && f.endDate == now
    ensures ValidDate(f.startDate) && f.startDate.millis == now.millis
    ensures Before(f.startDate, f.endDate)
  {
    var startDate :=
      match selected
      case Week => OneWeekBack(now)
      case Month => OneMonthBack(now)
      case Year => OneYearBack(now)
      case Unrecognised(_) => OneMonthBack(now);
    DateRangeFilter(selected, startDate, now)
  }

  /** A copy of `now` after `setDate(now.getDate() - 7)`. */
  function OneWeekBack(now: Date): (s: Date)
    requires ValidDate(now)
    ensures ValidDate(s) && s.millis == now.millis && Before(s, now)
  {
    var s := SetDate(now, now.day.day - 7);
    WeekDays(now);
    TimeValueOrder(s, now);
    s
  }

  /** A copy of `now` after `setMonth(now.getMonth() - 1)`. */
  function OneMonthBack(now: Date): (s: Date)
    requires ValidDate(now)
    ensures ValidDate(s) && s.millis == now.millis && Before(s, now)
  {
    var s := SetMonth(now, now.day.month - 1);
    MonthDays(now);
    TimeValueOrder(s, now);
    s
  }

  /** A copy of `now` after `setFullYear(now.getFullYear() - 1)`. */
  function OneYearBack(now: Date): (s: Date)
    requires ValidDate(now)
    ensures ValidDate(s) && s.millis == now.millis && Before(s, now)
  {
    var s := SetFullYear(now, now.day.year - 1);
    YearDays(now);
    TimeValueOrder(s, now);
    s
  }

  /** The month before month `m` of year `y`, as a (year, month) pair: January goes to December. */
  function PreviousMonth(y: int, m: int): (int, int)
    requires 0 <= m < 12
  {
    if m == 0 then (y - 1, 11) else (y, m - 1)
  }

  lemma PreviousMonthEnds(y: int, m: int)
    requires 0 <= m < 12
    ensures var p := PreviousMonth(y, m);
      0 <= p.1 < 12 && FirstOfMonth(p.0, p.1) + DaysInMonth(p.0, p.1) == FirstOfMonth(y, m)
  {
    var p := PreviousMonth(y, m);
    NextMonthStarts(p.0, p.1);
  }

  lemma WeekDays(now: Date)
    requires ValidDate(now)
    ensures DayNumber(SetDate(now, now.day.day - 7).day) == DayNumber(now.day) - 7
  {
    var c := now.day;
    SetDateNumber(now, c.day - 7);
    assert c.month / 12 == 0 && c.month % 12 == c.month;
  }

  lemma MonthDays(now: Date)
    requires ValidDate(now)
    ensures DayNumber(SetMonth(now, now.day.month - 1).day) + 28 <= DayNumber(now.day)
  {
    var c := now.day;
    var p := PreviousMonth(c.year, c.month);
    var m := c.month - 1;
    if c.month == 0 {
      assert m / 12 == -1 && m % 12 == 11;
    } else {
      assert m / 12 == 0 && m % 12 == m;
    }
    SetMonthNumber(now, m);
    PreviousMonthEnds(c.year, c.month);
    MonthLength(p.0, p.1);
  }

  lemma YearDays(now: Date)
    requires ValidDate(now)
    ensures DayNumber(SetFullYear(now, now.day.year - 1).day) == FirstOfMonth(now.day.year - 1, now.day.month) + now.day.day - 1
    ensures DayNumber(SetFullYear(now, now.day.year - 1).day) + 364 <= DayNumber(now.day)
  {
    YearBackNumber(now);
    SameMonthYearBefore(now.day.year, now.day.month);
  }

  lemma YearBackNumber(now: Date)
    requires ValidDate(now)
    ensures DayNumber(SetFullYear(now, now.day.year - 1).day) == FirstOfMonth(now.day.year - 1, now.day.month) + now.day.day - 1
  {
    SetFullYearNumber(now, now.day.year - 1);
    MakeDayInYear(now.day.year - 1, now.day.month, now.day.day);
  }

  lemma MakeDayInYear(y: int, m: int, d: int)
    requires 0 <= m < 12
    ensures MakeDay(y, m, d) == FirstOfMonth(y, m) + d - 1
  {
    assert m / 12 == 0 && m % 12 == m;
  }

  /** A month starts at least 364 days after the same month of the year before. */
  lemma SameMonthYearBefore(y: int, m: int)
    requires 0 <= m < 12
    ensures FirstOfMonth(y - 1, m) + 364 <= FirstOfMonth(y, m)
  {
    YearLength(y - 1);
    assert y - 1 + 1 == y;
  }

  /** The year before a leap year is a common year. */
  lemma AfterLeapYear(y: int)
    requires IsLeapYear(y)
    ensures DaysInMonth(y - 1, 1) == 28
  {
    assert (y - 1) % 4 == 3;
  }

  // ---------------------------------------------------------------------------------------
  // The setters on the days the range kinds produce

  lemma NormalizeBeforeJanuary(y: int, d: int)
    ensures Normalize(y, -1, d) == NormalizeDay(y - 1, 11, d)
  {
    assert -1 / 12 == -1 && -1 % 12 == 11;
  }

  lemma NormalizeWithinYear(y: int, m: int, d: int)
    requires 0 <= m < 12
    ensures Normalize(y, m, d) == NormalizeDay(y, m, d)
  {
    assert m / 12 == 0 && m % 12 == m;
  }

  /** Moving a month back normalises the same day of month in the previous month. */
  lemma SetMonthBack(now: Date)
    requires ValidDate(now)
    ensures var p := PreviousMonth(now.day.year, now.day.month);
      SetMonth(now, now.day.month - 1).day == NormalizeDay(p.0, p.1, now.day.day)
  {
    var c := now.day;
    assert SetMonth(now, c.month - 1).day == Normalize(c.year, c.month - 1, c.day);
    if c.month == 0 {
      NormalizeBeforeJanuary(c.year, c.day);
    } else {
      NormalizeWithinYear(c.year, c.month - 1, c.day);
    }
  }

  /** Moving a month back to a day the previous month has lands on that day. */
  lemma MonthBackInRange(now: Date)
    requires ValidDate(now)
    requires var p := PreviousMonth(now.day.year, now.day.month); now.day.day <= DaysInMonth(p.0, p.1)
    ensures var p := PreviousMonth(now.day.year, now.day.month);
      SetMonth(now, now.day.month - 1).day == CalendarDay(p.0, p.1, now.day.day)
  {
    SetMonthBack(now);
  }

  /** A day past the end of the previous month is that many days into month `m`. */
  lemma NormalizeOverflow(y: int, m: int, d: int)
    requires 0 <= m < 12 && 1 <= d <= DaysInMonth(y, m)
    requires var p := PreviousMonth(y, m); d > DaysInMonth(p.0, p.1)
    ensures var p := PreviousMonth(y, m);
      NormalizeDay(p.0, p.1, d) == CalendarDay(y, m, d - DaysInMonth(p.0, p.1))
  {
    var p := PreviousMonth(y, m);
    var len := DaysInMonth(p.0, p.1);
    MonthLength(y, m);
    MonthLength(p.0, p.1);
    assert MonthAfter(p.0, p.1) == CalendarDay(y, m, len);
    assert NormalizeDay(y, m, d - len) == CalendarDay(y, m, d - len);
  }

  /** Moving a month back to a day the previous month lacks runs on into the current month. */
  lemma MonthBackOverflow(now: Date)
    requires ValidDate(now)
    requires var p := PreviousMonth(now.day.year, now.day.month); now.day.day > DaysInMonth(p.0, p.1)
    ensures var p := PreviousMonth(now.day.year, now.day.month);
      SetMonth(now, now.day.month - 1).day == CalendarDay(now.day.year, now.day.month, now.day.day - DaysInMonth(p.0, p.1))
  {
    SetMonthBack(now);
    NormalizeOverflow(now.day.year, now.day.month, now.day.day);
  }

  /** 29 February of a leap year, one year back, is 1 March. */
  lemma LeapDayBack(now: Date)
    requires ValidDate(now) && now.day.month == 1 && now.day.day == 29
    ensures SetFullYear(now, now.day.year - 1).day == CalendarDay(now.day.year - 1, 2, 1)
  {
    var y := now.day.year - 1;
    AfterLeapYear(now.day.year);
    assert 1 / 12 == 0 && 1 % 12 == 1;
    assert MonthAfter(y, 1) == CalendarDay(y, 2, 28);
    assert NormalizeDay(y, 2, 1) == CalendarDay(y, 2, 1);
  }

  /** Every other day exists one year earlier too. */
  lemma SameDayExists(c: CalendarDay)
    requires c.Valid() && !(c.month == 1 && c.day == 29)
    ensures CalendarDay(c.year - 1, c.month, c.day).Valid()
  {
    if c.month != 1 {
      assert DaysInMonth(c.year - 1, c.month) == DaysInMonth(c.year, c.month);
    } else {
      MonthLength(c.year - 1, 1);
    }
  }

  lemma SameDayBackOfValid(now: Date)
    requires ValidDate(now) && CalendarDay(now.day.year - 1, now.day.month, now.day.day).Valid()
    ensures SetFullYear(now, now.day.year - 1).day == CalendarDay(now.day.year - 1, now.day.month, now.day.day)
  {
    NormalizeValid(CalendarDay(now.day.year - 1, now.day.month, now.day.day));
  }

  lemma SameDayBack(now: Date)
    requires ValidDate(now) && !(now.day.month == 1 && now.day.day == 29)
    ensures SetFullYear(now, now.day.year - 1).day == CalendarDay(now.day.year - 1, now.day.month, now.day.day)
  {
    SameDayExists(now.day);
    SameDayBackOfValid(now);
  }

  // ---------------------------------------------------------------------------------------
  // The start date in calendar terms

  /** A week back is exactly seven days earlier, across month and year boundaries alike. */
  lemma WeekStart(now: Date)
    requires ValidDate(now)
    ensures var s := ComputeDateRangeFilter(now, Week).startDate;
      DayNumber(s.day) == DayNumber(now.day) - 7 && s.millis == now.millis
  {
    WeekKindIsOneWeekBack(now);
    OneWeekBackIsSetDate(now);
    WeekDays(now);
  }
  lemma WeekKindIsOneWeekBack(now: Date)
    requires ValidDate(now)
    ensures ComputeDateRangeFilter(now, Week).startDate == OneWeekBack(now)
  {
  }
  lemma OneWeekBackIsSetDate(now: Date)
    requires ValidDate(now)
    ensures OneWeekBack(now) == SetDate(now, now.day.day - 7)
  {
  }

  /**
    A month back keeps the day of month in the previous month, January going to December of the
    year before. A day the previous month does not have is not clamped: it runs on into the
    current month.
  */
  lemma MonthStart(now: Date)
    requires ValidDate(now)
    ensures var c := now.day;
      var p := PreviousMonth(c.year, c.month);
      var s := ComputeDateRangeFilter(now, Month).startDate;
      var len := DaysInMonth(p.0, p.1);
      s.millis == now.millis &&
      (c.day <= len ==> s.day == CalendarDay(p.0, p.1, c.day)) &&
      (c.day > len ==> s.day == CalendarDay(c.year, c.month, c.day - len))
  {
    MonthKindStart(now);
    var p := PreviousMonth(now.day.year, now.day.month);
    if now.day.day <= DaysInMonth(p.0, p.1) {
      MonthBackInRange(now);
    } else {
      MonthBackOverflow(now);
    }
  }

  lemma MonthKindStart(now: Date)
    requires ValidDate(now)
    ensures ComputeDateRangeFilter(now, Month).startDate == SetMonth(now, now.day.month - 1)
  {
    MonthKindIsOneMonthBack(now);
    OneMonthBackIsSetMonth(now);
  }
  lemma MonthKindIsOneMonthBack(now: Date)
    requires ValidDate(now)
    ensures ComputeDateRangeFilter(now, Month).startDate == OneMonthBack(now)
  {
  }
  lemma OneMonthBackIsSetMonth(now: Date)
    requires ValidDate(now)
    ensures OneMonthBack(now) == SetMonth(now, now.day.month - 1)
  {
  }

  lemma YearKindStart(now: Date)
    requires ValidDate(now)
    ensures ComputeDateRangeFilter(now, Year).startDate == SetFullYear(now, now.day.year - 1)
  {
    YearKindIsOneYearBack(now);
    OneYearBackIsSetFullYear(now);
  }
  lemma YearKindIsOneYearBack(now: Date)
    requires ValidDate(now)
    ensures ComputeDateRangeFilter(now, Year).startDate == OneYearBack(now)
  {
  }
  lemma OneYearBackIsSetFullYear(now: Date)
    requires ValidDate(now)
    ensures OneYearBack(now) == SetFullYear(now, now.day.year - 1)
  {
  }

  /** A kind outside week, month and year gives the month window. */
  lemma FallbackIsMonth(now: Date, text: string)
    requires ValidDate(now) && text !in {"week", "month", "year"}
    ensures ComputeDateRangeFilter(now, Unrecognised(text)) == ComputeDateRangeFilter(now, Month).(rangeType := Unrecognised(text))
  {
  }

  /** The year kind goes back one year to the same month and day; 29 February becomes 1 March. */
  lemma YearStart(now: Date)
    requires ValidDate(now)
    ensures var c := now.day;
      var s := ComputeDateRangeFilter(now, Year).startDate;
      s.millis == now.millis &&
      (c.month == 1 && c.day == 29 ==> s.day == CalendarDay(c.year - 1, 2, 1)) &&
      (!(c.month == 1 && c.day == 29) ==> s.day == CalendarDay(c.year - 1, c.month, c.day))
  {
    YearKindStart(now);
    if now.day.month == 1 && now.day.day == 29 {
      LeapDayBack(now);
    } else {
      SameDayBack(now);
    }
  }

  // ---------------------------------------------------------------------------------------
  // Worked examples, all at noon local time

  const Noon: int := 43200000

  function Moment(y: int, m: int, d: int): Date {
    At(CalendarDay(y, m, d), Noon)
  }

  /** From 15 March 2024: a week back is 8 March, a month back 15 February, a year back 15 March 2023. */
  lemma MidMarchExamples()
    ensures ComputeDateRangeFilter(Moment(2024, 2, 15), Week).startDate == Moment(2024, 2, 8)
    ensures ComputeDateRangeFilter(Moment(2024, 2, 15), Month).startDate == Moment(2024, 1, 15)
    ensures ComputeDateRangeFilter(Moment(2024, 2, 15), Year).startDate == Moment(2023, 2, 15)
    ensures ComputeDateRangeFilter(Moment(2024, 2, 15), Unrecognised("quarter")).startDate == Moment(2024, 1, 15)
    ensures ComputeDateRangeFilter(Moment(2024, 2, 15), Year).endDate == Moment(2024, 2, 15)
  {
    var now := Moment(2024, 2, 15);
    var week := ComputeDateRangeFilter(now, Week).startDate;
    WeekStart(now);
    DayNumberInjective(week.day, CalendarDay(2024, 2, 8));
    MonthStart(now);
    FallbackIsMonth(now, "quarter");
    YearStart(now);
  }

  /** From 5 January 2024 a week back is 29 December 2023, and a month back 5 December 2023. */
  lemma NewYearExamples()
    ensures ComputeDateRangeFilter(Moment(2024, 0, 5), Week).startDate == Moment(2023, 11, 29)
    ensures ComputeDateRangeFilter(Moment(2024, 0, 5), Month).startDate == Moment(2023, 11, 5)
  {
    var now := Moment(2024, 0, 5);
    var week := ComputeDateRangeFilter(now, Week).startDate;
    WeekStart(now);
    NextMonthStarts(2023, 11);
    DayNumberInjective(week.day, CalendarDay(2023, 11, 29));
    MonthStart(now);
  }

  /** From 31 March 2024 a month back runs past 29 February to 2 March. */
  lemma MonthOverflowExample()
    ensures ComputeDateRangeFilter(Moment(2024, 2, 31), Month).startDate == Moment(2024, 2, 2)
  {
    assert DaysInMonth(2024, 1) == 29;
    MonthStart(Moment(2024, 2, 31));
  }

  /** From 29 February 2024 a year back is 1 March 2023. */
  lemma LeapDayExample()
    ensures ComputeDateRangeFilter(Moment(2024, 1, 29), Year).startDate == Moment(2023, 2, 1)
  {
    YearStart(Moment(2024, 1, 29));
  }
}
