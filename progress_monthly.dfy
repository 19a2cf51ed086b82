/**
 * `calculate_monthly_stats`: days logged, mean of the per-day rates, total
 * rows and the longest run of consecutive logged days of the viewed month.
 */
module ProgressMonthly {
  import opened Wrappers
  import opened Ordering
  import opened Dates
  import opened EventLog
  import opened ProgressRates
  import opened ProgressAggregates

  datatype MonthlyStats = MonthlyStats(totalDays: nat, avgCompletion: real, bestStreak: nat, totalLogs: nat)

  /** `(curr - prev).days == 1` */
  predicate Consecutive(prev: CalendarDate, curr: CalendarDate) {
    NextDay(prev) == Some(curr)
  }

  /** `days[i..j]` is a run: each of its days is the day after the one before it. */
  predicate IsRun(days: seq<CalendarDate>, i: int, j: int) {
    0 <= i < j <= |days| && forall k :: i < k < j ==> Consecutive(days[k - 1], days[k])
  }

  /** `n` is the length of the longest run in `days`. */
  ghost predicate IsLongestRun(days: seq<CalendarDate>, n: int) {
    && (exists i, j | 0 <= i < j <= |days| :: IsRun(days, i, j) && j - i == n)
    && (forall i, j | 0 <= i < j <= |days| :: IsRun(days, i, j) ==> j - i <= n)
  }

  function Max(a: int, b: int): int {
    if a < b then b else a
  }

  /** The run ending at `i` is the longest one ending there, and `bound` covers every run up to `i`. */
  ghost predicate RunsUpTo(days: seq<CalendarDate>, i: nat, current: nat, bound: int) {
    && 1 <= current <= i <= |days|
    && IsRun(days, i - current, i)
    && (i - current > 0 ==> !Consecutive(days[i - current - 1], days[i - current]))
    && forall a, b :: IsRun(days, a, b) && b <= i ==> b - a <= bound
  }

  /** A day that follows the one before it lengthens the current run. */
  lemma RunContinues(days: seq<CalendarDate>, i: nat, current: nat, best: nat)
    requires i < |days| && RunsUpTo(days, i, current, Max(best, current))
    requires Consecutive(days[i - 1], days[i])
    ensures RunsUpTo(days, i + 1, current + 1, Max(best, current + 1))
  {
    assert forall a, b :: IsRun(days, a, b) && b <= i + 1 ==> b - a <= Max(best, current + 1);
  }

  /** A day that does not follow the one before it starts a new run of one. */
  lemma RunBreaks(days: seq<CalendarDate>, i: nat, current: nat, best: nat)
    requires i < |days| && RunsUpTo(days, i, current, Max(best, current))
    requires !Consecutive(days[i - 1], days[i])
    ensures RunsUpTo(days, i + 1, 1, Max(Max(best, current), 1))
  {
    assert forall a, b :: IsRun(days, a, b) && b <= i + 1 ==> b - a <= Max(Max(best, current), 1);
  }

  /**
   * The streak loop of `calculate_monthly_stats`, which runs only once the
   * dict of logged days is known to be non-empty.
   */
  method BestStreak(days: seq<CalendarDate>) returns (best: nat)
    requires |days| > 0
    ensures IsLongestRun(days, best)
    ensures 1 <= best <= |days|
  {
    best := 0;
    var current := 1;
    var i := 1;
    while i < |days|
      invariant 1 <= i <= |days| && best <= i
      invariant RunsUpTo(days, i, current, Max(best, current))
      invariant best == 0 || exists a, b :: IsRun(days, a, b) && b <= i && b - a == best
    {
      if Consecutive(days[i - 1], days[i]) {
        RunContinues(days, i, current, best);
        current := current + 1;
      } else {
        RunBreaks(days, i, current, best);
        assert IsRun(days, i - current, i);
        best := Max(best, current);
        current := 1;
      }
      i := i + 1;
    }
    assert IsRun(days, i - current, i);
    best := Max(best, current);
  }

  function SumRates(entries: seq<Entry<CalendarDate>>): real {
    if entries == [] then 0.0 else entries[0].rate + SumRates(entries[1..])
  }

  function SumTotals<K>(entries: seq<Entry<K>>): nat {
    if entries == [] then 0 else entries[0].total + SumTotals(entries[1..])
  }

  /**
   * All zeros for a month without logs; otherwise the number of logged days,
   * the mean of their rates, the sum of their totals and the longest run of
   * consecutive days among the sorted days.
   */
  method CalculateMonthlyStats(logged: seq<Entry<CalendarDate>>) returns (s: MonthlyStats)
    ensures logged == [] ==> s == MonthlyStats(0, 0.0, 0, 0)
    ensures logged != [] ==>
      && s.totalDays == |logged|
      && s.avgCompletion == SumRates(logged) / (|logged| as real)
      && s.totalLogs == SumTotals(logged)
      && IsLongestRun(Sort(EntryKeys(logged), EarlierDay), s.bestStreak)
      && 1 <= s.bestStreak <= |logged|
  {
    if logged == [] {
      return MonthlyStats(0, 0.0, 0, 0);
    }
    var totalDays := |logged|;
    var avg := SumRates(logged) / (totalDays as real);
    var totalLogs := SumTotals(logged);
    DayOrdersAreStrictTotalOrders();
    var days := Sort(EntryKeys(logged), EarlierDay);
    assert |days| == |logged| by {
      assert |multiset(days)| == |multiset(EntryKeys(logged))|;
    }
    var best := BestStreak(days);
    s := MonthlyStats(totalDays, avg, best, totalLogs);
  }

  lemma {:induction false} SumRatesBounds(entries: seq<Entry<CalendarDate>>)
    requires forall i :: 0 <= i < |entries| ==> 0.0 <= entries[i].rate <= 100.0
    ensures 0.0 <= SumRates(entries) <= 100.0 * (|entries| as real)
  {
    if entries != [] {
      SumRatesBounds(entries[1..]);
    }
  }

  lemma {:induction false} SumTotalsOfEntries<K>(rows: seq<Row<K>>)
    ensures SumTotals(Entries(rows)) == SumTotal(rows)
  {
    if rows != [] {
      SumTotalsOfEntries(rows[1..]);
      assert Entries(rows)[1..] == Entries(rows[1..]);
    }
  }

  lemma DivideBounds(sum: real, n: real)
    requires n > 0.0 && 0.0 <= sum <= 100.0 * n
    ensures 0.0 <= sum / n <= 100.0
  {
  }

  /** On the viewed month's per-day dict, the mean completion lies between 0 and 100. */
  lemma MonthlyAverageBounds(log: seq<Event>, viewed: CalendarDate)
    ensures LoggedDates(log, viewed) != [] ==>
      0.0 <= SumRates(LoggedDates(log, viewed)) / (|LoggedDates(log, viewed)| as real) <= 100.0
  {
    var logged := LoggedDates(log, viewed);
    if logged != [] {
      var bounds := MonthBounds(viewed).value;
      DayOrdersAreStrictTotalOrders();
      EntriesOfGroups(MonthWindow(log, bounds), DayOf, EarlierDay);
      SumRatesBounds(logged);
      DivideBounds(SumRates(logged), |logged| as real);
    }
  }

  /** The per-day totals of the viewed month add up to the number of rows logged in it. */
  lemma MonthlyTotalLogs(log: seq<Event>, viewed: CalendarDate)
    requires (viewed.year, viewed.month) != (MaxYear, 12)
    ensures SumTotals(LoggedDates(log, viewed)) == Count(log, MonthOf, (viewed.year, viewed.month))
  {
    DayOrdersAreStrictTotalOrders();
    var w := MonthWindow(log, MonthBounds(viewed).value);
    SumTotalsOfEntries(GroupBy(w, DayOf, EarlierDay));
    GroupByPartitions(w, DayOf, EarlierDay);
    MonthWindowSize(log, viewed);
  }

  /** Days 1, 2, 3 and 5 of a month: the longest run is 3 days. */
  lemma BestStreakExample()
    ensures IsLongestRun([Date(2024, 3, 1), Date(2024, 3, 2), Date(2024, 3, 3), Date(2024, 3, 5)], 3)
  {
    var days: seq<CalendarDate> := [Date(2024, 3, 1), Date(2024, 3, 2), Date(2024, 3, 3), Date(2024, 3, 5)];
    assert IsRun(days, 0, 3);
    assert !Consecutive(days[2], days[3]);
  }
}
