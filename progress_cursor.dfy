/**
 * The month the progress screen shows, and its two navigation buttons.
 * The cursor is a full date (`datetime.now()` at start), of which only the
 * year and month select what is shown.
 */
module ProgressCursor {
  import opened Wrappers
  import opened Dates

  /**
   * `current - timedelta(days=1)`, then `.replace(day=1)`.  It always lands
   * on a 1st: on the 1st of a month, the 1st of the month before (January
   * goes to the previous December); on any other day, the 1st of the same
   * month.  Only 0001-01-01 overflows (None).
   */
  function PrevMonthOf(d: CalendarDate): (r: Option<CalendarDate>)
    ensures r.None? <==> d == MinDate
    ensures r.Some? ==> r.value.day == 1
    ensures r.Some? && d.day == 1 ==> (r.value.year, r.value.month) == MonthBefore(d.year, d.month)
    ensures r.Some? && d.day > 1 ==> (r.value.year, r.value.month) == (d.year, d.month)
  {
    match PrevDay(d)
    case None => None
    case Some(p) => Some(Date(p.year, p.month, 1))
  }

  /**
   * `.replace(year=year + 1, month=1)` in December, `.replace(month=month + 1)`
   * otherwise.  It moves to the next month and keeps the day; `replace`
   * raises ValueError (None) exactly when that day does not exist there or
   * the year would pass 9999.
   */
  function NextMonthOf(d: CalendarDate): (r: Option<CalendarDate>)
    ensures r.None? <==>
      (d.month == 12 && d.year == MaxYear) || d.day > DaysInMonth(MonthAfter(d.year, d.month).0, MonthAfter(d.year, d.month).1)
    ensures r.Some? ==> (r.value.year, r.value.month) == MonthAfter(d.year, d.month) && r.value.day == d.day
  {
    var target := if d.month == 12 then Date(d.year + 1, 1, d.day) else Date(d.year, d.month + 1, d.day);
    if IsValid(target) then Some(target) else None
  }

  /** From the 1st of a month, going back and then forward returns to where it started. */
  lemma PrevThenNextFromFirst(d: CalendarDate)
    requires d.day == 1 && d != MinDate
    ensures PrevMonthOf(d).Some? && NextMonthOf(PrevMonthOf(d).value) == Some(d)
  {
  }

  /** The progress window's month cursor (`self.current_date`). */
  class ProgressView {
    var current: CalendarDate

    /** The window opens on today. */
    constructor(now: CalendarDate)
      ensures current == now
    {
      current := now;
    }

    /** `prev_month`; a step before 0001-01-01 raises and leaves the cursor where it was. */
    method PrevMonth() returns (moved: bool)
      modifies this
      ensures moved <==> PrevMonthOf(old(current)).Some?
      ensures current == if moved then PrevMonthOf(old(current)).value else old(current)
    {
      var back := PrevDay(current);
      if back.None? {
        return false;
      }
      current := back.value;
      current := Date(current.year, current.month, 1);
      moved := true;
    }

    /** `next_month`; a `replace` that raises leaves the cursor where it was. */
    method NextMonth() returns (moved: bool)
      modifies this
      ensures moved <==> NextMonthOf(old(current)).Some?
      ensures current == if moved then NextMonthOf(old(current)).value else old(current)
    {
      var target: Date;
      if current.month == 12 {
        target := Date(current.year + 1, 1, current.day);
      } else {
        target := Date(current.year, current.month + 1, current.day);
      }
      if !IsValid(target) {
        return false;
      }
      current := target;
      moved := true;
    }
  }
}
