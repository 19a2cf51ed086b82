/**
 * `calculate_habit_streaks`: for every habit ever logged, the number of
 * consecutive days, counting back from today, on which it was completed.
 */
module ProgressStreaks {
  import opened Wrappers
  import opened Ordering
  import opened Dates
  import opened Text
  import opened EventLog

  /** `d - timedelta(days=k)`, one day at a time; None where it would fall before 0001-01-01. */
  function DaysBefore(d: CalendarDate, k: nat): Option<CalendarDate>
    decreases k
  {
    if k == 0 then Some(d)
    else match PrevDay(d)
      case None => None
      case Some(p) => DaysBefore(p, k - 1)
  }

  /** Going `k` days back and then `k` days forward returns to the start. */
  lemma {:induction false} DaysBeforeThenAddDays(d: CalendarDate, k: nat)
    ensures DaysBefore(d, k).Some? ==> AddDays(DaysBefore(d, k).value, k) == Some(d)
    decreases k
  {
    if k > 0 && PrevDay(d).Some? {
      var p := PrevDay(d).value;
      DaysBeforeThenAddDays(p, k - 1);
      if DaysBefore(p, k - 1).Some? {
        var x := DaysBefore(p, k - 1).value;
        AddDaysSplit(x, k - 1, 1);
        assert AddDays(p, 1) == Some(d);
      }
    }
  }

  /** The days of the habit's completed rows (`WHERE name = ? AND done = 1`), in table order. */
  function DoneDaysOf(log: seq<Event>, name: string): (days: seq<CalendarDate>)
    ensures forall d :: d in days <==> exists e :: e in log && e.name == name && IsDone(e) && e.day == d
  {
    if log == [] then []
    else
      var days := (if log[0].name == name && IsDone(log[0]) then [log[0].day] else []) + DoneDaysOf(log[1..], name);
      assert forall e :: e in log <==> e == log[0] || e in log[1..];
      days
  }

  /** There is one day per completed row of the habit. */
  lemma {:induction false} DoneDaysCount(log: seq<Event>, name: string)
    ensures |DoneDaysOf(log, name)| == Count(DoneOnly(log), NameOf, name)
  {
    if log != [] {
      DoneDaysCount(log[1..], name);
      if IsDone(log[0]) {
        assert DoneOnly(log)[0] == log[0] && DoneOnly(log)[1..] == DoneOnly(log[1..]);
      } else {
        assert DoneOnly(log) == DoneOnly(log[1..]);
      }
    }
  }

  /** `ORDER BY logged_at DESC`: the habit's completed days, latest first (a day repeats once per row). */
  function CompletedDays(log: seq<Event>, name: string): (days: seq<CalendarDate>)
    ensures Ascending(days, LaterDay)
    ensures multiset(days) == multiset(DoneDaysOf(log, name))
  {
    DayOrdersAreStrictTotalOrders();
    Sort(DoneDaysOf(log, name), LaterDay)
  }

  /**
   * The walk over the completed days: count while each day is the expected
   * one, stepping the expected day back by one after each match.  Stepping
   * back from 0001-01-01 overflows (None).
   */
  function StreakWalk(dates: seq<CalendarDate>, expected: CalendarDate): (r: Option<nat>)
    ensures r == Some(0) <==> dates == [] || dates[0] != expected
    ensures r.Some? ==> r.value <= |dates|
  {
    if dates == [] || dates[0] != expected then Some(0)
    else match PrevDay(expected)
      case None => None
      case Some(p) =>
        match StreakWalk(dates[1..], p)
        case None => None
        case Some(n) => Some(n + 1)
  }

  function Plus(r: Option<nat>, k: nat): Option<nat> {
    match r
    case None => None
    case Some(n) => Some(n + k)
  }

  /** The walk of one habit: 0 for a habit never completed, else the loop from `today` backwards. */
  method CurrentStreak(dates: seq<CalendarDate>, today: CalendarDate) returns (streak: Option<nat>)
    ensures streak == StreakWalk(dates, today)
  {
    if dates == [] {
      return Some(0);
    }
    var current := 0;
    var expected := today;
    var i := 0;
    while i < |dates|
      invariant 0 <= i <= |dates| && current == i
      invariant StreakWalk(dates, today) == Plus(StreakWalk(dates[i..], expected), i)
    {
      if dates[i] == expected {
        current := current + 1;
        var p := PrevDay(expected);
        if p.None? {
          return None;
        }
        assert dates[i..][1..] == dates[i + 1..];
        expected := p.value;
      } else {
        break;
      }
      i := i + 1;
    }
    return Some(current);
  }

  /**
   * A walk that yields `n` matched the first `n` dates against today,
   * today-1, ..., and stopped at the first date that is not the next one
   * expected; 0 for no dates.  A walk that overflows matched a prefix ending
   * in 0001-01-01.
   */
  lemma {:induction false} StreakWalkMeaning(dates: seq<CalendarDate>, today: CalendarDate)
    ensures dates == [] || dates[0] != today ==> StreakWalk(dates, today) == Some(0)
    ensures StreakWalk(dates, today).Some? ==>
      var n := StreakWalk(dates, today).value;
      && n <= |dates|
      && (forall k :: 0 <= k < n ==> DaysBefore(today, k) == Some(dates[k]))
      && (n < |dates| ==> DaysBefore(today, n) != Some(dates[n]))
    ensures StreakWalk(dates, today).None? ==>
      exists k :: 0 <= k < |dates| && dates[k] == MinDate && forall j :: 0 <= j <= k ==> DaysBefore(today, j) == Some(dates[j])
  {
    if dates != [] && dates[0] == today {
      match PrevDay(today)
      case None =>
        assert dates[0] == MinDate;
      case Some(p) =>
        StreakWalkMeaning(dates[1..], p);
        forall k | 1 <= k <= |dates| ensures DaysBefore(today, k) == DaysBefore(p, k - 1) {
        }
    }
  }

  /** Going back `k` days and going back `k + 1` days never land on the same day. */
  lemma DaysBeforeStepsBack(today: CalendarDate, k: nat)
    requires DaysBefore(today, k).Some? && DaysBefore(today, k + 1).Some?
    ensures DaysBefore(today, k) != DaysBefore(today, k + 1)
  {
    var y := DaysBefore(today, k + 1).value;
    DaysBeforeThenAddDays(today, k);
    DaysBeforeThenAddDays(today, k + 1);
    AddDaysSplit(y, k, 1);
    assert Before(AddDays(y, k).value, today);
  }

  /** Two completions on the same day end the walk: the streak covers at most the first of them. */
  lemma RepeatedDayEndsWalk(dates: seq<CalendarDate>, today: CalendarDate, k: nat)
    requires k + 1 < |dates| && dates[k] == dates[k + 1]
    ensures StreakWalk(dates, today).Some? ==> StreakWalk(dates, today).value <= k + 1
  {
    StreakWalkMeaning(dates, today);
    if DaysBefore(today, k).Some? && DaysBefore(today, k + 1).Some? {
      DaysBeforeStepsBack(today, k);
    }
  }

  /** The walk over the 10th, 9th, 8th and 6th from the 10th stops at the missing 7th. */
  lemma StreakGapExample()
    ensures StreakWalk([Date(2024, 3, 10), Date(2024, 3, 9), Date(2024, 3, 8), Date(2024, 3, 6)], Date(2024, 3, 10)) == Some(3)
  {
    var a: seq<CalendarDate> := [Date(2024, 3, 10), Date(2024, 3, 9), Date(2024, 3, 8), Date(2024, 3, 6)];
    assert PrevDay(Date(2024, 3, 8)) == Some(Date(2024, 3, 7));
    assert StreakWalk(a[3..], Date(2024, 3, 7)) == Some(0);
    assert PrevDay(Date(2024, 3, 9)) == Some(Date(2024, 3, 8));
    assert a[2..][1..] == a[3..];
    assert StreakWalk(a[2..], Date(2024, 3, 8)) == Some(1);
    assert PrevDay(Date(2024, 3, 10)) == Some(Date(2024, 3, 9));
    assert a[1..][1..] == a[2..];
    assert StreakWalk(a[1..], Date(2024, 3, 9)) == Some(2);
  }

  /** Completed on the 10th, 9th, 8th and 6th, today the 10th: 3 days; twice on the 10th: 1 day. */
  lemma StreakExamples()
    ensures StreakWalk([Date(2024, 3, 10), Date(2024, 3, 9), Date(2024, 3, 8), Date(2024, 3, 6)], Date(2024, 3, 10)) == Some(3)
    ensures StreakWalk([Date(2024, 3, 10), Date(2024, 3, 10), Date(2024, 3, 9)], Date(2024, 3, 10)) == Some(1)
    ensures StreakWalk([Date(2024, 3, 9)], Date(2024, 3, 10)) == Some(0)
  {
    StreakGapExample();
    var b: seq<CalendarDate> := [Date(2024, 3, 10), Date(2024, 3, 10), Date(2024, 3, 9)];
    assert PrevDay(Date(2024, 3, 10)) == Some(Date(2024, 3, 9));
    assert b[1..] == [Date(2024, 3, 10), Date(2024, 3, 9)];
  }

  /** `SELECT DISTINCT name FROM habit_logs ORDER BY name`. */
  function HabitNames(log: seq<Event>): (names: seq<string>)
    ensures StrictlyAscending(names, NameBefore)
    ensures forall n :: n in names <==> exists e :: e in log && e.name == n
  {
    NameBeforeIsStrictTotalOrder();
    var names := SortDistinct(KeysOf(log, NameOf), NameBefore);
    forall n ensures n in names <==> exists e :: e in log && e.name == n {
      if n in names {
        var i :| 0 <= i < |log| && KeysOf(log, NameOf)[i] == n;
        assert log[i] in log;
      }
      if e :| e in log && e.name == n {
        var i :| 0 <= i < |log| && log[i] == e;
        assert KeysOf(log, NameOf)[i] == n;
      }
    }
    names
  }

  datatype Streak = Streak(name: string, days: nat)

  /** The current-streak walk of each name. */
  function Walks(log: seq<Event>, today: CalendarDate, names: seq<string>): (walks: seq<Option<nat>>)
    ensures |walks| == |names|
  {
    seq(|names|, i requires 0 <= i < |names| => StreakWalk(CompletedDays(log, names[i]), today))
  }

  /** The dict built from the names and their walks, or None once one walk overflowed. */
  function TableOf(names: seq<string>, walks: seq<Option<nat>>): Option<seq<Streak>>
    requires |walks| == |names|
  {
    if names == [] then Some([])
    else
      var n := |names|;
      match TableOf(names[..n - 1], walks[..n - 1])
      case None => None
      case Some(t) =>
        match walks[n - 1]
        case None => None
        case Some(k) => Some(t + [Streak(names[n - 1], k)])
  }

  lemma {:induction false} TableOfFails(names: seq<string>, walks: seq<Option<nat>>)
    requires |walks| == |names|
    ensures TableOf(names, walks).None? <==> exists i :: 0 <= i < |walks| && walks[i].None?
  {
    if names != [] {
      var n := |names|;
      var init := walks[..n - 1];
      TableOfFails(names[..n - 1], init);
      if exists i :: 0 <= i < |init| && init[i].None? {
        var i :| 0 <= i < |init| && init[i].None?;
        assert walks[i].None?;
      }
      if exists i :: 0 <= i < n && walks[i].None? {
        var i :| 0 <= i < n && walks[i].None?;
        if i < n - 1 {
          assert init[i].None?;
        }
      }
    }
  }

  lemma {:induction false} TableOfEntries(names: seq<string>, walks: seq<Option<nat>>)
    requires |walks| == |names|
    ensures TableOf(names, walks).Some? ==>
      var t := TableOf(names, walks).value;
      && |t| == |names|
      && forall i :: 0 <= i < |names| ==> walks[i].Some? && t[i] == Streak(names[i], walks[i].value)
  {
    if names != [] {
      var n := |names|;
      TableOfEntries(names[..n - 1], walks[..n - 1]);
    }
  }

  /**
   * The streak dict for the given names: None, the whole call then returning
   * `{}`, exactly when some habit's walk overflows; otherwise one entry per
   * name, in the names' order, holding that habit's walk.
   */
  function StreakTable(log: seq<Event>, today: CalendarDate, names: seq<string>): (r: Option<seq<Streak>>)
    ensures r.None? <==> exists i :: 0 <= i < |names| && StreakWalk(CompletedDays(log, names[i]), today).None?
    ensures r.Some? ==>
      && |r.value| == |names|
      && forall i :: 0 <= i < |names| ==>
        r.value[i].name == names[i] && StreakWalk(CompletedDays(log, names[i]), today) == Some(r.value[i].days)
  {
    var walks := Walks(log, today, names);
    TableOfFails(names, walks);
    TableOfEntries(names, walks);
    assert (exists i :: 0 <= i < |names| && StreakWalk(CompletedDays(log, names[i]), today).None?) ==>
      exists i :: 0 <= i < |walks| && walks[i].None?;
    TableOf(names, walks)
  }

  /** One more name whose walk succeeded extends the table by its entry. */
  lemma TableOfStep(names: seq<string>, walks: seq<Option<nat>>, i: nat, t: seq<Streak>)
    requires |walks| == |names| && i < |names|
    requires TableOf(names[..i], walks[..i]) == Some(t) && walks[i].Some?
    ensures TableOf(names[..i + 1], walks[..i + 1]) == Some(t + [Streak(names[i], walks[i].value)])
  {
    assert names[..i + 1][..i] == names[..i];
    assert walks[..i + 1][..i] == walks[..i];
  }

  /** The loop over all habit names; any overflow abandons the dict built so far and yields `{}`. */
  method CalculateHabitStreaks(log: seq<Event>, today: CalendarDate) returns (streaks: seq<Streak>)
    ensures streaks == match StreakTable(log, today, HabitNames(log)) case None => [] case Some(t) => t
  {
    var names := HabitNames(log);
    ghost var walks := Walks(log, today, names);
    streaks := [];
    var i := 0;
    while i < |names|
      invariant 0 <= i <= |names|
      invariant TableOf(names[..i], walks[..i]) == Some(streaks)
    {
      var walk := CurrentStreak(CompletedDays(log, names[i]), today);
      assert walks[i] == walk;
      if walk.None? {
        TableOfFails(names, walks);
        return [];
      }
      TableOfStep(names, walks, i, streaks);
      streaks := streaks + [Streak(names[i], walk.value)];
      i := i + 1;
    }
    assert names[..i] == names && walks[..i] == walks;
  }
}
