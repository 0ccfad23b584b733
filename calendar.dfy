/**
  Calendar arithmetic behind a JavaScript `Date` read through its local-time getters.

  A day is numbered from 1 January 1970 exactly as ECMAScript's DayFromYear and MakeDay do,
  and every setter and constructor the dashboard uses (`new Date(y, m, d)`, `setDate`,
  `setMonth`, `setFullYear`) goes through MakeDay, which lets the month and the day of month
  overflow into neighbouring months and years.
*/
module Calendar {

  const MsPerDay: int := 86400000

  /** A day of the proleptic Gregorian calendar; `month` is 0-based, as `Date.getMonth()`. */
  datatype CalendarDay = CalendarDay(year: int, month: int, day: int) {
    predicate Valid() {
      0 <= month < 12 && 1 <= day <= DaysInMonth(year, month)
    }
  }

  /** A JavaScript `Date`: the Invalid Date, or a local calendar day and milliseconds into it. */
  datatype Date = InvalidDate | At(day: CalendarDay, millis: int)

  predicate ValidDate(d: Date) {
    d.At? && d.day.Valid() && 0 <= d.millis < MsPerDay
  }

  predicate IsLeapYear(y: int) {
    y % 4 == 0 && (y % 100 != 0 || y % 400 == 0)
  }

  function DaysInYear(y: int): int {
    if IsLeapYear(y) then 366 else 365
  }

  function DaysInMonth(y: int, m: int): int
    requires 0 <= m < 12
  {
    if m == 1 then (if IsLeapYear(y) then 29 else 28)
    else if m == 3 || m == 5 || m == 8 || m == 10 then 30
    else 31
  }

  /** Days of year `y` in the months before month `m`; `m == 12` gives the whole year. */
  function DaysBeforeMonth(y: int, m: int): int
    requires 0 <= m <= 12
  {
    var leap := if m >= 2 && IsLeapYear(y) then 1 else 0;
    leap +
    if m == 0 then 0 else if m == 1 then 31 else if m == 2 then 59
    else if m == 3 then 90 else if m == 4 then 120 else if m == 5 then 151
    else if m == 6 then 181 else if m == 7 then 212 else if m == 8 then 243
    else if m == 9 then 273 else if m == 10 then 304 else if m == 11 then 334
    else 365
  }

  /** Day number of 1 January of year `y` (ECMAScript DayFromYear; `/` is floor division here). */
  function DayFromYear(y: int): int {
    365 * (y - 1970) + (y - 1969) / 4 - (y - 1901) / 100 + (y - 1601) / 400
  }

  /** Day number of the first day of month `m` of year `y`. */
  function FirstOfMonth(y: int, m: int): int
    requires 0 <= m <= 12
  {
    DayFromYear(y) + DaysBeforeMonth(y, m)
  }

  /** Days from 1 January 1970 to the given day. */
  function DayNumber(c: CalendarDay): int
    requires 0 <= c.month < 12
  {
    FirstOfMonth(c.year, c.month) + c.day - 1
  }

  /** ECMAScript MakeDay: the day number of (y, m, d) where m and d may lie outside their ranges. */
  function MakeDay(y: int, m: int, d: int): int {
    FirstOfMonth(y + m / 12, m % 12) + d - 1
  }

  // ---------------------------------------------------------------------------------------
  // Lengths of months and years

  lemma MonthLength(y: int, m: int)
    requires 0 <= m < 12
    ensures DaysBeforeMonth(y, m + 1) == DaysBeforeMonth(y, m) + DaysInMonth(y, m)
    ensures 28 <= DaysInMonth(y, m) <= 31
  {
  }

  lemma LeapDaysStep4(y: int)
    ensures (y - 1968) / 4 - (y - 1969) / 4 == (if y % 4 == 0 then 1 else 0)
  {
  }

  lemma LeapDaysStep100(y: int)
    ensures (y - 1900) / 100 - (y - 1901) / 100 == (if y % 100 == 0 then 1 else 0)
  {
  }

  lemma LeapDaysStep400(y: int)
    ensures (y - 1600) / 400 - (y - 1601) / 400 == (if y % 400 == 0 then 1 else 0)
  {
  }

  lemma CenturyDivisibleBy4(y: int)
    requires y % 100 == 0
    ensures y % 4 == 0
  {
    assert y == 4 * (25 * (y / 100));
  }

  lemma QuadricentennialIsCentury(y: int)
    requires y % 400 == 0
    ensures y % 100 == 0
  {
    assert y == 100 * (4 * (y / 400));
  }

  /** The leap-day terms of DayFromYear grow by one exactly in a leap year. */
  lemma LeapDayCount(y: int)
    ensures 365 + ((y - 1968) / 4 - (y - 1969) / 4) - ((y - 1900) / 100 - (y - 1901) / 100)
            + ((y - 1600) / 400 - (y - 1601) / 400) == DaysInYear(y)
  {
    LeapDaysStep4(y);
    LeapDaysStep100(y);
    LeapDaysStep400(y);
    if y % 400 == 0 {
      QuadricentennialIsCentury(y);
      CenturyDivisibleBy4(y);
    } else if y % 100 == 0 {
      CenturyDivisibleBy4(y);
    }
  }

  lemma DayFromYearStep(y: int)
    ensures DayFromYear(y + 1) - DayFromYear(y)
        == 365 + ((y - 1968) / 4 - (y - 1969) / 4) - ((y - 1900) / 100 - (y - 1901) / 100)
           + ((y - 1600) / 400 - (y - 1601) / 400)
  {
    assert y + 1 - 1969 == y - 1968 && y + 1 - 1901 == y - 1900 && y + 1 - 1601 == y - 1600;
  }

  /** One year after DayFromYear(y) comes DayFromYear(y + 1): the closed form counts leap days right. */
  lemma YearLength(y: int)
    ensures DayFromYear(y + 1) == DayFromYear(y) + DaysInYear(y)
    ensures DaysBeforeMonth(y, 12) == DaysInYear(y)
  {
    DayFromYearStep(y);
    LeapDayCount(y);
  }

  /** The month after (y, m) starts DaysInMonth(y, m) days after (y, m) does. */
  lemma NextMonthStarts(y: int, m: int)
    requires 0 <= m < 12
    ensures m < 11 ==> FirstOfMonth(y, m + 1) == FirstOfMonth(y, m) + DaysInMonth(y, m)
    ensures m == 11 ==> FirstOfMonth(y + 1, 0) == FirstOfMonth(y, m) + DaysInMonth(y, m)
  {
    MonthLength(y, m);
    if m == 11 {
      YearLength(y);
    }
  }

  // ---------------------------------------------------------------------------------------
  // Normalisation: the valid day with a given MakeDay number

  /**
    Carries an out-of-range day of month into the neighbouring months, one month at a time,
    the way MakeDay followed by the local-time getters does.
  */
  function NormalizeDay(y: int, m: int, d: int): (c: CalendarDay)
    requires 0 <= m < 12
    ensures c.Valid()
    decreases if d < 1 then 1 else 0, if d < 1 then -d else d
  {
    if d < 1 then
      var p := MonthBefore(y, m);
      NormalizeDay(p.year, p.month, d + p.day)
    else if d > DaysInMonth(y, m) then
      var n := MonthAfter(y, m);
      NormalizeDay(n.year, n.month, d - n.day)
    else
      CalendarDay(y, m, d)
  }

  /** Carrying into neighbouring months keeps the day number: day `d` of month `m` counted from its first day. */
  lemma {:induction false} NormalizeDayNumber(y: int, m: int, d: int)
    requires 0 <= m < 12
    ensures DayNumber(NormalizeDay(y, m, d)) == FirstOfMonth(y, m) + d - 1
    decreases if d < 1 then 1 else 0, if d < 1 then -d else d
  {
    if d < 1 {
      var p := MonthBefore(y, m);
      MonthBeforeStarts(y, m);
      NormalizeDayNumber(p.year, p.month, d + p.day);
    } else if d > DaysInMonth(y, m) {
      var n := MonthAfter(y, m);
      MonthAfterStarts(y, m);
      NormalizeDayNumber(n.year, n.month, d - n.day);
    }
  }

  /** The month before month `m` of `y`, with its length in the `day` field. */
  function MonthBefore(y: int, m: int): (p: CalendarDay)
    requires 0 <= m < 12
    ensures 0 <= p.month < 12 && 28 <= p.day <= 31
  {
    var py := if m == 0 then y - 1 else y;
    var pm := if m == 0 then 11 else m - 1;
    MonthLength(py, pm);
    CalendarDay(py, pm, DaysInMonth(py, pm))
  }

  /** Month `m` starts as many days after the previous month's first day as that month has. */
  lemma MonthBeforeStarts(y: int, m: int)
    requires 0 <= m < 12
    ensures var p := MonthBefore(y, m); FirstOfMonth(p.year, p.month) + p.day == FirstOfMonth(y, m)
  {
    var p := MonthBefore(y, m);
    NextMonthStarts(p.year, p.month);
  }

  /** The month after month `m` of `y`, with the length of month `m` in the `day` field. */
  function MonthAfter(y: int, m: int): (n: CalendarDay)
    requires 0 <= m < 12
    ensures 0 <= n.month < 12 && n.day == DaysInMonth(y, m) && 28 <= n.day <= 31
  {
    MonthLength(y, m);
    CalendarDay(if m == 11 then y + 1 else y, if m == 11 then 0 else m + 1, DaysInMonth(y, m))
  }

  /** The next month starts DaysInMonth(y, m) days after month `m` does. */
  lemma MonthAfterStarts(y: int, m: int)
    requires 0 <= m < 12
    ensures var n := MonthAfter(y, m); FirstOfMonth(n.year, n.month) == FirstOfMonth(y, m) + n.day
  {
    NextMonthStarts(y, m);
  }

  /** The valid calendar day whose day number is MakeDay(y, m, d). */
  function Normalize(y: int, m: int, d: int): (c: CalendarDay)
    ensures c.Valid()
  {
    NormalizeDay(y + m / 12, m % 12, d)
  }

  lemma NormalizeNumber(y: int, m: int, d: int)
    ensures DayNumber(Normalize(y, m, d)) == MakeDay(y, m, d)
  {
    NormalizeDayNumber(y + m / 12, m % 12, d);
  }

  lemma NormalizeValid(c: CalendarDay)
    requires c.Valid()
    ensures Normalize(c.year, c.month, c.day) == c
  {
    assert c.month / 12 == 0 && c.month % 12 == c.month;
  }

  // ---------------------------------------------------------------------------------------
  // Day numbers order valid days as the calendar does

  /** Lexicographic order of (year, month, day). */
  predicate Precedes(a: CalendarDay, b: CalendarDay) {
    a.year < b.year
    || (a.year == b.year && a.month < b.month)
    || (a.year == b.year && a.month == b.month && a.day < b.day)
  }

  lemma {:induction false} YearsIncrease(a: int, b: int)
    requires a < b
    ensures DayFromYear(a) + DaysInYear(a) <= DayFromYear(b)
    decreases b - a
  {
    YearLength(a);
    if a + 1 < b {
      YearsIncrease(a + 1, b);
      YearLength(a + 1);
    }
  }

  lemma {:induction false} MonthsIncrease(y: int, m1: int, m2: int)
    requires 0 <= m1 < m2 <= 12
    ensures DaysBeforeMonth(y, m1) + DaysInMonth(y, m1) <= DaysBeforeMonth(y, m2)
    decreases m2 - m1
  {
    MonthLength(y, m1);
    if m1 + 1 < m2 {
      MonthsIncrease(y, m1 + 1, m2);
      MonthLength(y, m1 + 1);
    }
  }

  lemma DayNumberInYear(c: CalendarDay)
    requires c.Valid()
    ensures DayFromYear(c.year) <= DayNumber(c) < DayFromYear(c.year) + DaysInYear(c.year)
  {
    YearLength(c.year);
    MonthsIncrease(c.year, c.month, 12);
  }

  /** For valid days, calendar order and day-number order coincide. */
  lemma DayNumberOrder(a: CalendarDay, b: CalendarDay)
    requires a.Valid() && b.Valid()
    ensures Precedes(a, b) <==> DayNumber(a) < DayNumber(b)
    ensures a == b <==> DayNumber(a) == DayNumber(b)
  {
    if a.year != b.year {
      var (lo, hi) := if a.year < b.year then (a, b) else (b, a);
      DayNumberInYear(lo);
      DayNumberInYear(hi);
      YearsIncrease(lo.year, hi.year);
    } else if a.month != b.month {
      var (lo, hi) := if a.month < b.month then (a, b) else (b, a);
      MonthsIncrease(a.year, lo.month, hi.month);
    }
  }

  lemma DayNumberInjective(a: CalendarDay, b: CalendarDay)
    requires a.Valid() && b.Valid()
    requires DayNumber(a) == DayNumber(b)
    ensures a == b
  {
    DayNumberOrder(a, b);
  }

  // ---------------------------------------------------------------------------------------
  // Time values and the Date setters

  /** `getTime()` of a Date in local terms: milliseconds since local midnight of 1 January 1970. */
  function TimeValue(d: Date): int
    requires d.At? && 0 <= d.day.month < 12
  {
    DayNumber(d.day) * MsPerDay + d.millis
  }

  /** `a` lies strictly before `b` on the time line. */
  predicate Before(a: Date, b: Date) {
    ValidDate(a) && ValidDate(b) && TimeValue(a) < TimeValue(b)
  }

  lemma DayScale(x: int, y: int)
    requires x < y
    ensures x * MsPerDay + MsPerDay <= y * MsPerDay
  {
  }

  /** Time values order valid dates by day number first, then by the time of day. */
  lemma TimeValueOrder(a: Date, b: Date)
    requires ValidDate(a) && ValidDate(b)
    ensures DayNumber(a.day) < DayNumber(b.day) ==> TimeValue(a) < TimeValue(b)
    ensures DayNumber(a.day) == DayNumber(b.day) ==> (TimeValue(a) < TimeValue(b) <==> a.millis < b.millis)
    ensures a == b <==> TimeValue(a) == TimeValue(b)
  {
    if DayNumber(a.day) < DayNumber(b.day) {
      DayScale(DayNumber(a.day), DayNumber(b.day));
    } else if DayNumber(b.day) < DayNumber(a.day) {
      DayScale(DayNumber(b.day), DayNumber(a.day));
    } else {
      DayNumberInjective(a.day, b.day);
    }
  }

  /** `new Date(year, month, day)`: local midnight; years 0..99 mean 1900..1999. */
  function NewDate(year: int, month: int, day: int): (d: Date)
    ensures ValidDate(d) && d.millis == 0
  {
    var fullYear := if 0 <= year <= 99 then 1900 + year else year;
    At(Normalize(fullYear, month, day), 0)
  }

  lemma NewDateNumber(year: int, month: int, day: int)
    ensures DayNumber(NewDate(year, month, day).day)
         == MakeDay(if 0 <= year <= 99 then 1900 + year else year, month, day)
  {
    NormalizeNumber(if 0 <= year <= 99 then 1900 + year else year, month, day);
  }

  /** A valid day outside the years 0..99 is built back exactly, at midnight. */
  lemma NewDateOfDay(c: CalendarDay)
    requires c.Valid() && !(0 <= c.year <= 99)
    ensures NewDate(c.year, c.month, c.day) == At(c, 0)
  {
    NormalizeValid(c);
  }

  /** `t.setDate(date)` on a copy: same year, month and time of day, day of month `date`. */
  function SetDate(t: Date, date: int): (r: Date)
    requires ValidDate(t)
    ensures ValidDate(r) && r.millis == t.millis
  {
    At(Normalize(t.day.year, t.day.month, date), t.millis)
  }

  lemma SetDateNumber(t: Date, date: int)
    requires ValidDate(t)
    ensures DayNumber(SetDate(t, date).day) == MakeDay(t.day.year, t.day.month, date)
  {
    NormalizeNumber(t.day.year, t.day.month, date);
  }

  /** `t.setMonth(month)` on a copy: same year, day of month and time of day. */
  function SetMonth(t: Date, month: int): (r: Date)
    requires ValidDate(t)
    ensures ValidDate(r) && r.millis == t.millis
  {
    At(Normalize(t.day.year, month, t.day.day), t.millis)
  }

  lemma SetMonthNumber(t: Date, month: int)
    requires ValidDate(t)
    ensures DayNumber(SetMonth(t, month).day) == MakeDay(t.day.year, month, t.day.day)
  {
    NormalizeNumber(t.day.year, month, t.day.day);
  }

  /** `t.setFullYear(year)` on a copy: same month, day of month and time of day. */
  function SetFullYear(t: Date, year: int): (r: Date)
    requires ValidDate(t)
    ensures ValidDate(r) && r.millis == t.millis
  {
    At(Normalize(year, t.day.month, t.day.day), t.millis)
  }

  lemma SetFullYearNumber(t: Date, year: int)
    requires ValidDate(t)
    ensures DayNumber(SetFullYear(t, year).day) == MakeDay(year, t.day.month, t.day.day)
  {
    NormalizeNumber(year, t.day.month, t.day.day);
  }
}
