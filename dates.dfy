/**
 * Calendar dates as Python's `datetime` handles them: the proleptic Gregorian
 * calendar over years 1 to 9999.  Stepping past either end is where Python
 * raises OverflowError (or ValueError from `replace`); those steps return None.
 */
module Dates {
  import opened Wrappers
  import opened Ordering

  datatype Date = Date(year: int, month: int, day: int)

  const MinYear := 1
  const MaxYear := 9999

  /** The Gregorian leap-year rule. */
  predicate IsLeapYear(y: int) {
    y % 4 == 0 && (y % 100 != 0 || y % 400 == 0)
  }

  function DaysInMonth(y: int, m: int): (n: int)
    requires 1 <= m <= 12
    ensures 28 <= n <= 31
    ensures m == 2 ==> (n == 29 <==> IsLeapYear(y))
  {
    if m == 2 then (if IsLeapYear(y) then 29 else 28)
    else if m == 4 || m == 6 || m == 9 || m == 11 then 30
    else 31
  }

  /** A date `datetime` accepts. */
  predicate IsValid(d: Date) {
    MinYear <= d.year <= MaxYear && 1 <= d.month <= 12 && 1 <= d.day <= DaysInMonth(d.year, d.month)
  }

  type CalendarDate = d: Date | IsValid(d) witness Date(1, 1, 1)

  const MinDate: CalendarDate := Date(MinYear, 1, 1)
  const MaxDate: CalendarDate := Date(MaxYear, 12, 31)

  /** Chronological order; on valid dates it is also the order of their "YYYY-MM-DD" strings. */
  predicate Before(a: Date, b: Date) {
    a.year < b.year || (a.year == b.year && (a.month < b.month || (a.month == b.month && a.day < b.day)))
  }

  /** The order SQL's `ORDER BY DATE(...)` and Python's `sorted` put days in. */
  predicate EarlierDay(a: CalendarDate, b: CalendarDate) {
    Before(a, b)
  }

  /** The order of `ORDER BY ... DESC`. */
  predicate LaterDay(a: CalendarDate, b: CalendarDate) {
    Before(b, a)
  }

  lemma DayOrdersAreStrictTotalOrders()
    ensures IsStrictTotalOrder(EarlierDay)
    ensures IsStrictTotalOrder(LaterDay)
  {
  }

  /** `d + timedelta(days=1)`: the earliest valid date after `d`; None past 9999-12-31. */
  function NextDay(d: CalendarDate): (r: Option<CalendarDate>)
    ensures r.None? <==> d == MaxDate
    ensures r.Some? ==> Before(d, r.value)
    ensures r.Some? ==> forall e: Date :: IsValid(e) && Before(d, e) ==> !Before(e, r.value)
  {
    if d.day < DaysInMonth(d.year, d.month) then Some(Date(d.year, d.month, d.day + 1))
    else if d.month < 12 then Some(Date(d.year, d.month + 1, 1))
    else if d.year < MaxYear then Some(Date(d.year + 1, 1, 1))
    else None
  }

  /** `d - timedelta(days=1)`: the step NextDay undoes; None before 0001-01-01. */
  function PrevDay(d: CalendarDate): (r: Option<CalendarDate>)
    ensures r.None? <==> d == MinDate
    ensures r.Some? ==> NextDay(r.value) == Some(d)
  {
    if d.day > 1 then Some(Date(d.year, d.month, d.day - 1))
    else if d.month > 1 then Some(Date(d.year, d.month - 1, DaysInMonth(d.year, d.month - 1)))
    else if d.year > MinYear then Some(Date(d.year - 1, 12, 31))
    else None
  }

  lemma NextDayThenPrevDay(d: CalendarDate)
    ensures NextDay(d).Some? ==> PrevDay(NextDay(d).value) == Some(d)
  {
  }

  /** `d + timedelta(days=n)`, one day at a time: a later date, or None past 9999-12-31. */
  function AddDays(d: CalendarDate, n: nat): (r: Option<CalendarDate>)
    ensures n == 0 ==> r == Some(d)
    ensures n > 0 && r.Some? ==> Before(d, r.value)
    ensures d == MaxDate && n > 0 ==> r.None?
    decreases n
  {
    if n == 0 then Some(d)
    else match NextDay(d)
      case None => None
      case Some(e) => AddDays(e, n - 1)
  }

  lemma {:induction false} AddDaysWithinMonth(d: CalendarDate, n: nat)
    requires d.day + n <= DaysInMonth(d.year, d.month)
    ensures AddDays(d, n) == Some(Date(d.year, d.month, d.day + n))
    decreases n
  {
    if n > 0 {
      AddDaysWithinMonth(Date(d.year, d.month, d.day + 1), n - 1);
    }
  }

  lemma {:induction false} AddDaysSplit(d: CalendarDate, a: nat, b: nat)
    ensures AddDays(d, a + b) == match AddDays(d, a) case None => None case Some(e) => AddDays(e, b)
    decreases a
  {
    if a > 0 {
      match NextDay(d)
      case None =>
      case Some(e) => AddDaysSplit(e, a - 1, b);
    }
  }

  /** The year and month after (y, m). */
  function MonthAfter(y: int, m: int): (int, int)
  {
    if m == 12 then (y + 1, 1) else (y, m + 1)
  }

  /** The year and month before (y, m). */
  function MonthBefore(y: int, m: int): (int, int)
  {
    if m == 1 then (y - 1, 12) else (y, m - 1)
  }

  lemma MonthAfterThenBefore(y: int, m: int)
    requires 1 <= m <= 12
    ensures var (y', m') := MonthAfter(y, m); 1 <= m' <= 12 && MonthBefore(y', m') == (y, m)
  {
  }

  /**
   * The inclusive range a month view queries (MeynYuay/ProgressUI.py:386-388):
   * the 1st of the viewed month, and `start + 32 days`, moved back to its 1st,
   * minus one day.  None where `start + 32 days` overflows, which happens
   * only in December 9999; otherwise the month's first and last calendar day.
   */
  function MonthBounds(viewed: CalendarDate): (r: Option<(CalendarDate, CalendarDate)>)
    ensures (viewed.year, viewed.month) == (MaxYear, 12) <==> r.None?
    ensures r.Some? ==>
      r.value == (Date(viewed.year, viewed.month, 1), Date(viewed.year, viewed.month, DaysInMonth(viewed.year, viewed.month)))
  {
    var start: CalendarDate := Date(viewed.year, viewed.month, 1);
    MonthBoundsSteps(viewed.year, viewed.month);
    match AddDays(start, 32)
    case None => None
    case Some(later) =>
      var first: CalendarDate := Date(later.year, later.month, 1);
      match PrevDay(first)
      case None => None
      case Some(end) => Some((start, end))
  }

  /** The two steps of the month bounds: `+ 32 days` overflows only from December 9999, and the day before the 1st it lands in is the month's last day. */
  lemma MonthBoundsSteps(y: int, m: int)
    requires MinYear <= y <= MaxYear && 1 <= m <= 12
    ensures (y, m) == (MaxYear, 12) <==> AddDays(Date(y, m, 1), 32).None?
    ensures AddDays(Date(y, m, 1), 32).Some? ==>
      var later := AddDays(Date(y, m, 1), 32).value;
      PrevDay(Date(later.year, later.month, 1)) == Some(Date(y, m, DaysInMonth(y, m)))
  {
    ThirtyTwoDaysOn(y, m);
    if (y, m) != (MaxYear, 12) {
      var (ny, nm) := MonthAfter(y, m);
      assert PrevDay(Date(ny, nm, 1)) == Some(Date(y, m, DaysInMonth(y, m)));
    }
  }

  /** `start + 32 days` from the 1st of a month lands in the next month, except from December 9999. */
  lemma ThirtyTwoDaysOn(y: int, m: int)
    requires MinYear <= y <= MaxYear && 1 <= m <= 12
    ensures var start: CalendarDate := Date(y, m, 1);
      AddDays(start, 32) ==
        if (y, m) == (MaxYear, 12) then None
        else Some(Date(MonthAfter(y, m).0, MonthAfter(y, m).1, 33 - DaysInMonth(y, m)))
  {
    var dim := DaysInMonth(y, m);
    var start: CalendarDate := Date(y, m, 1);
    var last: CalendarDate := Date(y, m, dim);
    AddDaysWithinMonth(start, dim - 1);
    AddDaysSplit(start, dim - 1, 33 - dim);
    if (y, m) == (MaxYear, 12) {
      assert NextDay(last) == None;
    } else {
      var (ny, nm) := MonthAfter(y, m);
      var next: CalendarDate := Date(ny, nm, 1);
      assert NextDay(last) == Some(next);
      AddDaysWithinMonth(next, 32 - dim);
    }
  }
}
