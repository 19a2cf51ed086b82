/**
 * `get_logged_dates` and `get_habit_stats`: the viewed month's rows grouped
 * by day and by habit name, each group turned into
 * `{"total", "completed", "completion_rate"}`.
 */
module ProgressAggregates {
  import opened Wrappers
  import opened Ordering
  import opened Dates
  import opened Text
  import opened EventLog
  import opened ProgressRates

  /** One key of a result dict with its value. */
  datatype Entry<K> = Entry(key: K, total: nat, completed: nat, rate: real)

  function ToEntry<K>(row: Row<K>): Entry<K> {
    Entry(row.key, row.total, row.completed, CompletionRate(row.completed, row.total))
  }

  function Entries<K>(rows: seq<Row<K>>): seq<Entry<K>> {
    seq(|rows|, i requires 0 <= i < |rows| => ToEntry(rows[i]))
  }

  function EntryKeys<K>(entries: seq<Entry<K>>): (ks: seq<K>)
    ensures |ks| == |entries| && forall i :: 0 <= i < |entries| ==> ks[i] == entries[i].key
  {
    seq(|entries|, i requires 0 <= i < |entries| => entries[i].key)
  }

  /**
   * The loop over the fetched rows.  The rows come from `GROUP BY`, so their
   * keys are distinct and every `result[key] = ...` adds a new key at the end.
   */
  method CollectEntries<K>(rows: seq<Row<K>>) returns (result: seq<Entry<K>>)
    ensures result == Entries(rows)
  {
    result := [];
    var i := 0;
    while i < |rows|
      invariant 0 <= i <= |rows|
      invariant result == Entries(rows[..i])
    {
      var row := rows[i];
      result := result + [Entry(row.key, row.total, row.completed, CompletionRate(row.completed, row.total))];
      i := i + 1;
    }
    assert rows[..i] == rows;
  }

  /** The rows of the viewed month: `WHERE DATE(logged_at) BETWEEN start AND end`. */
  function MonthWindow(log: seq<Event>, bounds: (CalendarDate, CalendarDate)): seq<Event> {
    Window(log, bounds.0, bounds.1)
  }

  /** A day lies between the viewed month's bounds exactly when it is in that month. */
  lemma InMonthBounds(viewed: CalendarDate, d: CalendarDate)
    requires MonthBounds(viewed).Some?
    ensures InRange(d, MonthBounds(viewed).value.0, MonthBounds(viewed).value.1)
      <==> d.year == viewed.year && d.month == viewed.month
  {
  }

  /** The month's window holds exactly the events logged in the viewed month. */
  lemma MonthWindowMembers(log: seq<Event>, viewed: CalendarDate)
    requires MonthBounds(viewed).Some?
    ensures forall e :: e in MonthWindow(log, MonthBounds(viewed).value) <==>
      e in log && e.day.year == viewed.year && e.day.month == viewed.month
  {
    forall e ensures e in MonthWindow(log, MonthBounds(viewed).value) <==>
      e in log && e.day.year == viewed.year && e.day.month == viewed.month
    {
      InMonthBounds(viewed, e.day);
    }
  }

  /** A habit's rows and completed rows in the month's window are its rows and completed rows of that month in the whole table. */
  lemma MonthWindowNameCount(log: seq<Event>, viewed: CalendarDate, n: string)
    requires MonthBounds(viewed).Some?
    ensures var w := MonthWindow(log, MonthBounds(viewed).value);
      && Count(w, NameOf, n) == Count(log, NameAndMonthOf, (n, viewed.year, viewed.month))
      && Count(DoneOnly(w), NameOf, n) == Count(DoneOnly(log), NameAndMonthOf, (n, viewed.year, viewed.month))
  {
    var bounds := MonthBounds(viewed).value;
    var ks2 := {(n, viewed.year, viewed.month)};
    forall e | e in log
      ensures InRange(e.day, bounds.0, bounds.1) && NameOf(e) in {n} <==> NameAndMonthOf(e) in ks2
    {
      InMonthBounds(viewed, e.day);
    }
    WindowCountIn(log, bounds.0, bounds.1, NameOf, {n}, NameAndMonthOf, ks2);
    DoneOnlyWindow(log, bounds.0, bounds.1);
    WindowCountIn(DoneOnly(log), bounds.0, bounds.1, NameOf, {n}, NameAndMonthOf, ks2);
  }

  /** The month's window has one row per row of the table logged in the viewed month, and so has its completed part. */
  lemma MonthWindowSize(log: seq<Event>, viewed: CalendarDate)
    requires MonthBounds(viewed).Some?
    ensures var w := MonthWindow(log, MonthBounds(viewed).value);
      && |w| == Count(log, MonthOf, (viewed.year, viewed.month))
      && |DoneOnly(w)| == Count(DoneOnly(log), MonthOf, (viewed.year, viewed.month))
  {
    var bounds := MonthBounds(viewed).value;
    var ks := {(viewed.year, viewed.month)};
    forall e | e in log
      ensures InRange(e.day, bounds.0, bounds.1) <==> MonthOf(e) in ks
    {
      InMonthBounds(viewed, e.day);
    }
    WindowSize(log, bounds.0, bounds.1, MonthOf, ks);
    DoneOnlyWindow(log, bounds.0, bounds.1);
    WindowSize(DoneOnly(log), bounds.0, bounds.1, MonthOf, ks);
  }

  /** `get_logged_dates`: per-day aggregates of the viewed month, by ascending day; `{}` where the month bounds overflow. */
  function LoggedDates(log: seq<Event>, viewed: CalendarDate): (r: seq<Entry<CalendarDate>>)
    ensures (viewed.year, viewed.month) == (MaxYear, 12) ==> r == []
    ensures forall i :: 0 <= i < |r| ==> WellFormed(r[i])
  {
    match MonthBounds(viewed)
    case None => []
    case Some(bounds) =>
      DayOrdersAreStrictTotalOrders();
      var w := MonthWindow(log, bounds);
      EntriesOfGroups(w, DayOf, EarlierDay);
      Entries(GroupBy(w, DayOf, EarlierDay))
  }

  /** `get_habit_stats`: per-habit aggregates of the viewed month, by ascending name; `{}` where the month bounds overflow. */
  function HabitStats(log: seq<Event>, viewed: CalendarDate): (r: seq<Entry<string>>)
    ensures (viewed.year, viewed.month) == (MaxYear, 12) ==> r == []
    ensures forall i :: 0 <= i < |r| ==> WellFormed(r[i])
  {
    match MonthBounds(viewed)
    case None => []
    case Some(bounds) =>
      NameBeforeIsStrictTotalOrder();
      var w := MonthWindow(log, bounds);
      EntriesOfGroups(w, NameOf, NameBefore);
      Entries(GroupBy(w, NameOf, NameBefore))
  }

  method GetLoggedDates(log: seq<Event>, viewed: CalendarDate) returns (result: seq<Entry<CalendarDate>>)
    ensures result == LoggedDates(log, viewed)
  {
    var bounds := MonthBounds(viewed);
    if bounds.None? {
      return [];
    }
    DayOrdersAreStrictTotalOrders();
    result := CollectEntries(GroupBy(MonthWindow(log, bounds.value), DayOf, EarlierDay));
  }

  method GetHabitStats(log: seq<Event>, viewed: CalendarDate) returns (result: seq<Entry<string>>)
    ensures result == HabitStats(log, viewed)
  {
    var bounds := MonthBounds(viewed);
    if bounds.None? {
      return [];
    }
    NameBeforeIsStrictTotalOrder();
    result := CollectEntries(GroupBy(MonthWindow(log, bounds.value), NameOf, NameBefore));
  }

  /** What every entry of a grouped result satisfies. */
  predicate WellFormed<K>(e: Entry<K>) {
    && 1 <= e.total
    && e.completed <= e.total
    && e.rate == CompletionRate(e.completed, e.total)
    && 0.0 <= e.rate <= 100.0
    && (e.rate == 100.0 <==> e.completed == e.total)
  }

  lemma EntriesOfGroups<K(!new)>(log: seq<Event>, key: Event -> K, lt: (K, K) -> bool)
    requires IsStrictTotalOrder(lt)
    ensures EntryKeys(Entries(GroupBy(log, key, lt))) == RowKeys(GroupBy(log, key, lt))
    ensures forall i :: 0 <= i < |GroupBy(log, key, lt)| ==> WellFormed(Entries(GroupBy(log, key, lt))[i])
  {
    var rows := GroupBy(log, key, lt);
    forall i | 0 <= i < |rows| ensures WellFormed(Entries(rows)[i]) {
      RateBands(rows[i].completed, rows[i].total);
    }
  }

  /** The entry under key `k`: `k in result` and `result[k]`. */
  function Lookup<K(==)>(entries: seq<Entry<K>>, k: K): (r: Option<Entry<K>>)
    ensures r.None? <==> k !in EntryKeys(entries)
    ensures r.Some? ==> exists i :: 0 <= i < |entries| && entries[i] == r.value && r.value.key == k
  {
    if entries == [] then None
    else if entries[0].key == k then Some(entries[0])
    else
      var r := Lookup(entries[1..], k);
      assert EntryKeys(entries) == [entries[0].key] + EntryKeys(entries[1..]);
      assert r.Some? ==> exists i :: 0 <= i < |entries[1..]| && entries[1..][i] == r.value && r.value.key == k;
      r
  }

  /** The grouped dict has an entry for `k` exactly when some row has key `k`, and it holds that group's counts. */
  lemma LookupGroup<K(!new)>(log: seq<Event>, key: Event -> K, lt: (K, K) -> bool, k: K)
    requires IsStrictTotalOrder(lt)
    ensures var total := Count(log, key, k);
      var completed := Count(DoneOnly(log), key, k);
      Lookup(Entries(GroupBy(log, key, lt)), k) ==
        if total == 0 then None else Some(Entry(k, total, completed, CompletionRate(completed, total)))
  {
    var rows := GroupBy(log, key, lt);
    EntriesOfGroups(log, key, lt);
    match Lookup(Entries(rows), k)
    case None =>
    case Some(e) =>
      var i :| 0 <= i < |rows| && Entries(rows)[i] == e;
  }

  /**
   * The per-day dict of a month holds, in ascending order, exactly the days
   * of the viewed month on which something was logged.  December 9999
   * overflows and yields `{}`.
   */
  lemma LoggedDatesKeys(log: seq<Event>, viewed: CalendarDate)
    ensures (viewed.year, viewed.month) == (MaxYear, 12) ==> LoggedDates(log, viewed) == []
    ensures StrictlyAscending(EntryKeys(LoggedDates(log, viewed)), EarlierDay)
    ensures forall d: CalendarDate :: d in EntryKeys(LoggedDates(log, viewed)) <==>
      && (viewed.year, viewed.month) != (MaxYear, 12)
      && d.year == viewed.year && d.month == viewed.month
      && exists e :: e in log && e.day == d
  {
    match MonthBounds(viewed)
    case None =>
    case Some(bounds) =>
      DayOrdersAreStrictTotalOrders();
      EntriesOfGroups(MonthWindow(log, bounds), DayOf, EarlierDay);
      forall d: CalendarDate
        ensures d in EntryKeys(LoggedDates(log, viewed)) <==> d.year == viewed.year && d.month == viewed.month && exists e :: e in log && e.day == d
      {
        LoggedDay(log, viewed, d);
      }
  }

  lemma LoggedDay(log: seq<Event>, viewed: CalendarDate, d: CalendarDate)
    requires MonthBounds(viewed).Some?
    ensures d in EntryKeys(LoggedDates(log, viewed)) <==> d.year == viewed.year && d.month == viewed.month && exists e :: e in log && e.day == d
  {
    var w := MonthWindow(log, MonthBounds(viewed).value);
    DayOrdersAreStrictTotalOrders();
    var rows := GroupBy(w, DayOf, EarlierDay);
    EntriesOfGroups(w, DayOf, EarlierDay);
    assert EntryKeys(LoggedDates(log, viewed)) == RowKeys(rows);
    InMonthBounds(viewed, d);
    if d in RowKeys(rows) {
      var e :| e in w && DayOf(e) == d;
      assert e in log && e.day == d;
    }
    if d.year == viewed.year && d.month == viewed.month && exists e :: e in log && e.day == d {
      var e :| e in log && e.day == d;
      assert e in w && DayOf(e) == d;
    }
  }

  /**
   * Each day's entry is well formed and its `total` / `completed` are that
   * day's rows / completed rows in the whole table.
   */
  lemma LoggedDatesEntries(log: seq<Event>, viewed: CalendarDate)
    ensures forall i :: 0 <= i < |LoggedDates(log, viewed)| ==>
      var e := LoggedDates(log, viewed)[i];
      && WellFormed(e)
      && e.total == Count(log, DayOf, e.key)
      && e.completed == Count(DoneOnly(log), DayOf, e.key)
  {
    var r := LoggedDates(log, viewed);
    match MonthBounds(viewed)
    case None =>
    case Some(bounds) =>
      DayOrdersAreStrictTotalOrders();
      var w := MonthWindow(log, bounds);
      var rows := GroupBy(w, DayOf, EarlierDay);
      EntriesOfGroups(w, DayOf, EarlierDay);
      DoneOnlyWindow(log, bounds.0, bounds.1);
      forall i | 0 <= i < |r|
        ensures r[i].total == Count(log, DayOf, r[i].key) && r[i].completed == Count(DoneOnly(log), DayOf, r[i].key)
      {
        var d := rows[i].key;
        assert d in RowKeys(rows);
        var e :| e in w && DayOf(e) == d;
        WindowCount(log, bounds.0, bounds.1, d);
        WindowCount(DoneOnly(log), bounds.0, bounds.1, d);
      }
  }

  /** A day of the viewed month has an entry exactly when rows were logged on it, and the entry holds that day's counts. */
  lemma LookupLoggedDay(log: seq<Event>, viewed: CalendarDate, d: CalendarDate)
    requires (viewed.year, viewed.month) != (MaxYear, 12)
    requires d.year == viewed.year && d.month == viewed.month
    ensures var total := Count(log, DayOf, d);
      var completed := Count(DoneOnly(log), DayOf, d);
      Lookup(LoggedDates(log, viewed), d) == if total == 0 then None else Some(Entry(d, total, completed, CompletionRate(completed, total)))
  {
    var bounds := MonthBounds(viewed).value;
    DayOrdersAreStrictTotalOrders();
    LookupGroup(MonthWindow(log, bounds), DayOf, EarlierDay, d);
    InMonthBounds(viewed, d);
    WindowCount(log, bounds.0, bounds.1, d);
    WindowCount(DoneOnly(log), bounds.0, bounds.1, d);
    DoneOnlyWindow(log, bounds.0, bounds.1);
  }

  /**
   * The per-habit dict of a month holds, in ascending order, exactly the
   * names logged in the viewed month.
   */
  lemma HabitStatsKeys(log: seq<Event>, viewed: CalendarDate)
    ensures (viewed.year, viewed.month) == (MaxYear, 12) ==> HabitStats(log, viewed) == []
    ensures StrictlyAscending(EntryKeys(HabitStats(log, viewed)), NameBefore)
    ensures forall n :: n in EntryKeys(HabitStats(log, viewed)) <==>
      && (viewed.year, viewed.month) != (MaxYear, 12)
      && exists e :: e in log && e.name == n && e.day.year == viewed.year && e.day.month == viewed.month
  {
    match MonthBounds(viewed)
    case None =>
    case Some(bounds) =>
      NameBeforeIsStrictTotalOrder();
      var w := MonthWindow(log, bounds);
      EntriesOfGroups(w, NameOf, NameBefore);
      MonthWindowMembers(log, viewed);
  }

  /**
   * Each habit's entry is well formed and its `total` / `completed` are its
   * rows / completed rows of the viewed month in the whole table.
   */
  lemma HabitStatsEntries(log: seq<Event>, viewed: CalendarDate)
    ensures forall i :: 0 <= i < |HabitStats(log, viewed)| ==>
      var e := HabitStats(log, viewed)[i];
      && WellFormed(e)
      && e.total == Count(log, NameAndMonthOf, (e.key, viewed.year, viewed.month))
      && e.completed == Count(DoneOnly(log), NameAndMonthOf, (e.key, viewed.year, viewed.month))
  {
    var r := HabitStats(log, viewed);
    forall i | 0 <= i < |r|
      ensures && r[i].total == Count(log, NameAndMonthOf, (r[i].key, viewed.year, viewed.month))
              && r[i].completed == Count(DoneOnly(log), NameAndMonthOf, (r[i].key, viewed.year, viewed.month))
    {
      HabitStatsEntry(log, viewed, i);
    }
  }

  lemma HabitStatsEntry(log: seq<Event>, viewed: CalendarDate, i: nat)
    requires i < |HabitStats(log, viewed)|
    ensures var e := HabitStats(log, viewed)[i];
      && e.total == Count(log, NameAndMonthOf, (e.key, viewed.year, viewed.month))
      && e.completed == Count(DoneOnly(log), NameAndMonthOf, (e.key, viewed.year, viewed.month))
  {
    var bounds := MonthBounds(viewed).value;
    NameBeforeIsStrictTotalOrder();
    var w := MonthWindow(log, bounds);
    var rows := GroupBy(w, NameOf, NameBefore);
    assert HabitStats(log, viewed) == Entries(rows);
    MonthWindowNameCount(log, viewed, rows[i].key);
  }
}
