/**
 * What the progress screen draws from the aggregates: the colour of each
 * calendar day, the per-habit breakdown sorted by rate with its text bars,
 * and the figures behind the two monthly pie charts.
 */
module ProgressViews {
  import opened Wrappers
  import opened Ordering
  import opened Dates
  import opened Text
  import opened EventLog
  import opened ProgressRates
  import opened ProgressAggregates

  /** The colour of the calendar cell of day `d`, given the month's per-day dict. */
  function CellColour(logged: seq<Entry<CalendarDate>>, d: CalendarDate): (c: Colour)
    ensures c == Gray <==> d !in EntryKeys(logged)
  {
    match Lookup(logged, d)
    case None => DayColour(None)
    case Some(e) => DayColour(Some(e.rate))
  }

  /**
   * Each day of the viewed month is gray when nothing was logged on it,
   * otherwise coloured by the share of that day's rows that were completed.
   * In December 9999 the month bounds overflow and every day is gray.
   */
  lemma CalendarCellColour(log: seq<Event>, viewed: CalendarDate, d: CalendarDate)
    requires d.year == viewed.year && d.month == viewed.month
    ensures var colour := CellColour(LoggedDates(log, viewed), d);
      var total := Count(log, DayOf, d);
      var completed := Count(DoneOnly(log), DayOf, d);
      if (viewed.year, viewed.month) == (MaxYear, 12) then colour == Gray
      else
        && (colour == Gray <==> total == 0)
        && (colour == Green <==> 0 < total && completed == total)
        && (colour == Yellow <==> 0 < total && 2 * completed >= total && completed < total)
        && (colour == LightRed <==> 0 < total && 2 * completed < total)
  {
    if (viewed.year, viewed.month) != (MaxYear, 12) {
      var total := Count(log, DayOf, d);
      var completed := Count(DoneOnly(log), DayOf, d);
      LookupLoggedDay(log, viewed, d);
      if total > 0 {
        DoneCountAtMostCount(log, DayOf, {d});
        DayColourBands(completed, total);
      }
    }
  }

  /** `a` comes before `b` in the breakdown: a higher rate, or the same rate and an earlier name. */
  predicate RankedBefore(a: Entry<string>, b: Entry<string>) {
    a.rate > b.rate || (a.rate == b.rate && NameBefore(a.key, b.key))
  }

  predicate Ranked(s: seq<Entry<string>>) {
    forall i, j :: 0 <= i < j < |s| ==> RankedBefore(s[i], s[j])
  }

  /** Puts `x` in front of the first entry whose rate is not above its own. */
  function InsertByRate(x: Entry<string>, s: seq<Entry<string>>): (r: seq<Entry<string>>)
    ensures |r| == |s| + 1
    ensures multiset(r) == multiset(s) + multiset{x}
  {
    if s == [] || s[0].rate <= x.rate then [x] + s
    else
      assert s == [s[0]] + s[1..];
      [s[0]] + InsertByRate(x, s[1..])
  }

  /** `sorted(habit_stats, key=rate, reverse=True)`: Python's sort is stable, so equal rates keep their order. */
  function SortByRateDesc(entries: seq<Entry<string>>): (r: seq<Entry<string>>)
    ensures |r| == |entries|
    ensures multiset(r) == multiset(entries)
  {
    if entries == [] then []
    else
      assert entries == [entries[0]] + entries[1..];
      InsertByRate(entries[0], SortByRateDesc(entries[1..]))
  }

  /** An entry ranked before `x` and before every entry of `s` is ranked before every entry of a rearrangement of them. */
  lemma RankedBeforeAll(b: Entry<string>, r: seq<Entry<string>>, s: seq<Entry<string>>, x: Entry<string>)
    requires multiset(r) == multiset(s) + multiset{x}
    requires forall k :: 0 <= k < |s| ==> RankedBefore(b, s[k])
    requires RankedBefore(b, x)
    ensures forall k :: 0 <= k < |r| ==> RankedBefore(b, r[k])
  {
    forall k | 0 <= k < |r|
      ensures RankedBefore(b, r[k])
    {
      assert r[k] in multiset(r);
      if r[k] != x {
        assert r[k] in multiset(s);
        var m :| 0 <= m < |s| && s[m] == r[k];
      }
    }
  }

  lemma RankedCons(b: Entry<string>, r: seq<Entry<string>>)
    requires Ranked(r) && forall k :: 0 <= k < |r| ==> RankedBefore(b, r[k])
    ensures Ranked([b] + r)
  {
    var t := [b] + r;
    forall i, j | 0 <= i < j < |t|
      ensures RankedBefore(t[i], t[j])
    {
      assert t[j] == r[j - 1];
      if i > 0 {
        assert t[i] == r[i - 1];
      }
    }
  }

  lemma {:induction false} InsertByRateRanked(x: Entry<string>, s: seq<Entry<string>>)
    requires Ranked(s)
    requires forall y :: y in s ==> NameBefore(x.key, y.key)
    ensures Ranked(InsertByRate(x, s))
  {
    if s == [] || s[0].rate <= x.rate {
      forall k | 0 <= k < |s|
        ensures RankedBefore(x, s[k])
      {
        assert s[k] in s;
        if k > 0 {
          assert RankedBefore(s[0], s[k]);
        }
      }
      RankedCons(x, s);
    } else {
      var tail := s[1..];
      assert Ranked(tail) by {
        forall i, j | 0 <= i < j < |tail| ensures RankedBefore(tail[i], tail[j]) {
          assert tail[i] == s[i + 1] && tail[j] == s[j + 1];
        }
      }
      assert forall k :: 0 <= k < |tail| ==> RankedBefore(s[0], tail[k]) by {
        forall k | 0 <= k < |tail| ensures RankedBefore(s[0], tail[k]) {
          assert tail[k] == s[k + 1];
        }
      }
      InsertByRateRanked(x, tail);
      RankedBeforeAll(s[0], InsertByRate(x, tail), tail, x);
      RankedCons(s[0], InsertByRate(x, tail));
    }
  }

  /**
   * With the habits arriving in ascending name order (`ORDER BY name`), the
   * breakdown lists them by descending rate and, among equal rates, by name.
   */
  lemma {:induction false} SortByRateDescRanked(entries: seq<Entry<string>>)
    requires StrictlyAscending(EntryKeys(entries), NameBefore)
    ensures Ranked(SortByRateDesc(entries))
  {
    if entries != [] {
      var rest := entries[1..];
      assert EntryKeys(rest) == EntryKeys(entries)[1..];
      SortByRateDescRanked(rest);
      forall y | y in SortByRateDesc(rest) ensures NameBefore(entries[0].key, y.key) {
        assert y in multiset(rest);
        var k :| 0 <= k < |rest| && rest[k] == y;
        assert EntryKeys(entries)[k + 1] == y.key;
      }
      InsertByRateRanked(entries[0], SortByRateDesc(rest));
    }
  }

  /** One breakdown line: name, `completed/total`, the bar and the rate. */
  datatype BarLine = BarLine(name: string, completed: nat, total: nat, bar: string, rate: real)

  datatype Breakdown = NoHabitsLogged | Table(lines: seq<BarLine>)

  /**
   * A line shows `completed/total` of a non-empty group, its rate is the
   * group's completion, and its 20-cell bar fills `20 * completed // total` cells.
   */
  predicate LineShowsCounts(line: BarLine) {
    && 1 <= line.total && line.completed <= line.total
    && line.rate == CompletionRate(line.completed, line.total)
    && |line.bar| == BarLength
    && FilledCells(line.rate) == 20 * line.completed / line.total
  }

  function BarLineOf(e: Entry<string>): BarLine {
    BarLine(e.key, e.completed, e.total, ProgressBar(e.rate), e.rate)
  }

  /** `display_habit_breakdown`: the "No habits logged this month." message, or one line per habit. */
  function BreakdownOf(stats: seq<Entry<string>>): (b: Breakdown)
    ensures b.NoHabitsLogged? <==> stats == []
    ensures b.Table? ==> |b.lines| == |stats|
  {
    if stats == [] then NoHabitsLogged
    else
      var sorted := SortByRateDesc(stats);
      Table(seq(|sorted|, i requires 0 <= i < |sorted| => BarLineOf(sorted[i])))
  }

  function LineNames(lines: seq<BarLine>): (names: seq<string>)
    ensures |names| == |lines| && forall i :: 0 <= i < |lines| ==> names[i] == lines[i].name
  {
    seq(|lines|, i requires 0 <= i < |lines| => lines[i].name)
  }

  lemma SortByRateDescMembers(stats: seq<Entry<string>>)
    ensures |SortByRateDesc(stats)| == |stats|
    ensures forall x :: x in SortByRateDesc(stats) <==> x in stats
  {
    var sorted := SortByRateDesc(stats);
    assert |multiset(sorted)| == |multiset(stats)|;
    forall x ensures x in sorted <==> x in stats {
      assert x in sorted <==> x in multiset(sorted);
    }
  }

  /** The breakdown shows the message exactly when nothing was logged in the viewed month. */
  lemma BreakdownEmpty(log: seq<Event>, viewed: CalendarDate)
    ensures BreakdownOf(HabitStats(log, viewed)).NoHabitsLogged? <==>
      ((viewed.year, viewed.month) == (MaxYear, 12) || forall e :: e in log ==> !(e.day.year == viewed.year && e.day.month == viewed.month))
  {
    var stats := HabitStats(log, viewed);
    HabitStatsKeys(log, viewed);
    if stats == [] {
      forall e | e in log ensures !(e.day.year == viewed.year && e.day.month == viewed.month) || (viewed.year, viewed.month) == (MaxYear, 12) {
        assert e.name !in EntryKeys(stats);
      }
    } else {
      assert stats[0].key in EntryKeys(stats);
    }
  }

  lemma BreakdownOrder(stats: seq<Entry<string>>)
    requires stats != [] && StrictlyAscending(EntryKeys(stats), NameBefore)
    ensures var lines := BreakdownOf(stats).lines;
      forall i, j :: 0 <= i < j < |lines| ==>
        lines[i].rate > lines[j].rate || (lines[i].rate == lines[j].rate && NameBefore(lines[i].name, lines[j].name))
  {
    SortByRateDescRanked(stats);
  }

  /** Entry lists with the same members have the same keys. */
  lemma SameMembersSameKeys(a: seq<Entry<string>>, b: seq<Entry<string>>, n: string)
    requires forall x :: x in a ==> x in b
    ensures n in EntryKeys(a) ==> n in EntryKeys(b)
  {
    if n in EntryKeys(a) {
      var i :| 0 <= i < |a| && EntryKeys(a)[i] == n;
      assert a[i] in b;
      var j :| 0 <= j < |b| && b[j] == a[i];
      assert EntryKeys(b)[j] == n;
    }
  }

  lemma BreakdownNames(stats: seq<Entry<string>>)
    requires stats != []
    ensures forall n :: n in LineNames(BreakdownOf(stats).lines) <==> n in EntryKeys(stats)
  {
    var sorted := SortByRateDesc(stats);
    SortByRateDescMembers(stats);
    var lines := BreakdownOf(stats).lines;
    assert LineNames(lines) == EntryKeys(sorted);
    forall n ensures n in EntryKeys(sorted) <==> n in EntryKeys(stats) {
      SameMembersSameKeys(sorted, stats, n);
      SameMembersSameKeys(stats, sorted, n);
    }
  }

  lemma BreakdownBars(stats: seq<Entry<string>>)
    requires stats != []
    requires forall i :: 0 <= i < |stats| ==> WellFormed(stats[i])
    ensures var lines := BreakdownOf(stats).lines;
      forall i :: 0 <= i < |lines| ==> LineShowsCounts(lines[i])
  {
    var sorted := SortByRateDesc(stats);
    SortByRateDescMembers(stats);
    var lines := BreakdownOf(stats).lines;
    forall i | 0 <= i < |lines| ensures LineShowsCounts(lines[i])
    {
      assert sorted[i] in stats;
      ProgressBarCells(sorted[i].completed, sorted[i].total);
    }
  }

  /** The lines of a non-empty dict are its entries, ranked, each with its bar. */
  lemma BreakdownTable(stats: seq<Entry<string>>)
    requires stats != [] && StrictlyAscending(EntryKeys(stats), NameBefore)
    requires forall i :: 0 <= i < |stats| ==> WellFormed(stats[i])
    ensures var lines := BreakdownOf(stats).lines;
      && (forall i, j :: 0 <= i < j < |lines| ==>
            lines[i].rate > lines[j].rate || (lines[i].rate == lines[j].rate && NameBefore(lines[i].name, lines[j].name)))
      && (forall n :: n in LineNames(lines) <==> n in EntryKeys(stats))
      && (forall i :: 0 <= i < |lines| ==> LineShowsCounts(lines[i]))
  {
    BreakdownOrder(stats);
    BreakdownNames(stats);
    BreakdownBars(stats);
  }

  lemma MonthLinesRanked(log: seq<Event>, viewed: CalendarDate)
    ensures BreakdownOf(HabitStats(log, viewed)).Table? ==>
      var lines := BreakdownOf(HabitStats(log, viewed)).lines;
      forall i, j :: 0 <= i < j < |lines| ==>
        lines[i].rate > lines[j].rate || (lines[i].rate == lines[j].rate && NameBefore(lines[i].name, lines[j].name))
  {
    var stats := HabitStats(log, viewed);
    if stats != [] {
      HabitStatsKeys(log, viewed);
      BreakdownOrder(stats);
    }
  }

  lemma MonthLinesNames(log: seq<Event>, viewed: CalendarDate)
    ensures BreakdownOf(HabitStats(log, viewed)).Table? ==>
      forall n :: n in LineNames(BreakdownOf(HabitStats(log, viewed)).lines) <==>
        exists e :: e in log && e.name == n && e.day.year == viewed.year && e.day.month == viewed.month
  {
    var stats := HabitStats(log, viewed);
    if stats != [] {
      HabitStatsKeys(log, viewed);
      BreakdownNames(stats);
      assert (viewed.year, viewed.month) != (MaxYear, 12);
    }
  }

  lemma MonthLinesBars(log: seq<Event>, viewed: CalendarDate)
    ensures BreakdownOf(HabitStats(log, viewed)).Table? ==>
      var lines := BreakdownOf(HabitStats(log, viewed)).lines;
      forall i :: 0 <= i < |lines| ==> LineShowsCounts(lines[i])
  {
    var stats := HabitStats(log, viewed);
    if stats != [] {
      BreakdownBars(stats);
    }
  }

  /**
   * Otherwise it has one line per habit logged in the month, ordered by
   * descending rate then name, each bar with `20 * completed // total` filled
   * cells out of 20.
   */
  lemma BreakdownLines(log: seq<Event>, viewed: CalendarDate)
    ensures BreakdownOf(HabitStats(log, viewed)).Table? ==>
      var lines := BreakdownOf(HabitStats(log, viewed)).lines;
      && (forall i, j :: 0 <= i < j < |lines| ==>
            lines[i].rate > lines[j].rate || (lines[i].rate == lines[j].rate && NameBefore(lines[i].name, lines[j].name)))
      && (forall n :: n in LineNames(lines) <==>
            exists e :: e in log && e.name == n && e.day.year == viewed.year && e.day.month == viewed.month)
      && (forall i :: 0 <= i < |lines| ==> LineShowsCounts(lines[i]))
  {
    MonthLinesRanked(log, viewed);
    MonthLinesNames(log, viewed);
    MonthLinesBars(log, viewed);
  }

  /** One wedge of the per-habit pie: its label's name, its size (the rate) and its colour. */
  datatype Slice = Slice(name: string, rate: real, colour: Colour)

  /** The two pies: completed vs. not completed over all rows of the month, and one wedge per habit. */
  datatype PieChart = PieChart(totalCompleted: nat, totalLogged: nat, overall: real, slices: seq<Slice>)

  function SumCompletedOf(entries: seq<Entry<string>>): nat {
    if entries == [] then 0 else entries[0].completed + SumCompletedOf(entries[1..])
  }

  function SumTotalOf(entries: seq<Entry<string>>): nat {
    if entries == [] then 0 else entries[0].total + SumTotalOf(entries[1..])
  }

  /** `display_monthly_pie_chart` up to the drawing: nothing for an empty month. */
  function MonthlyPie(stats: seq<Entry<string>>): (pie: Option<PieChart>)
    ensures pie.None? <==> stats == []
    ensures pie.Some? ==> |pie.value.slices| == |stats|
  {
    if stats == [] then None
    else
      var completed := SumCompletedOf(stats);
      var logged := SumTotalOf(stats);
      var sorted := SortByRateDesc(stats);
      Some(PieChart(completed, logged, CompletionRate(completed, logged),
        seq(|sorted|, i requires 0 <= i < |sorted| => Slice(sorted[i].key, sorted[i].rate, PieColour(sorted[i].rate)))))
  }

  function SliceNames(slices: seq<Slice>): (names: seq<string>)
    ensures |names| == |slices| && forall i :: 0 <= i < |slices| ==> names[i] == slices[i].name
  {
    seq(|slices|, i requires 0 <= i < |slices| => slices[i].name)
  }

  /**
   * The per-habit pie is drawn exactly when the breakdown is a table, and its
   * wedges are the breakdown's lines in the same order, each sized by the
   * line's rate and coloured by its band.
   */
  lemma MonthlyPieSlices(stats: seq<Entry<string>>)
    ensures MonthlyPie(stats).None? <==> BreakdownOf(stats).NoHabitsLogged?
    ensures MonthlyPie(stats).Some? ==>
      var slices := MonthlyPie(stats).value.slices;
      var lines := BreakdownOf(stats).lines;
      && |slices| == |lines|
      && forall i :: 0 <= i < |slices| ==> slices[i] == Slice(lines[i].name, lines[i].rate, PieColour(lines[i].rate))
  {
  }

  /**
   * The month's per-habit pie has one wedge per habit logged in the viewed
   * month, ranked by rate and then by name, each coloured by its rate's band.
   */
  lemma MonthPieSlices(log: seq<Event>, viewed: CalendarDate)
    ensures MonthlyPie(HabitStats(log, viewed)).Some? ==>
      var slices := MonthlyPie(HabitStats(log, viewed)).value.slices;
      && (forall i, j :: 0 <= i < j < |slices| ==>
            slices[i].rate > slices[j].rate || (slices[i].rate == slices[j].rate && NameBefore(slices[i].name, slices[j].name)))
      && (forall i :: 0 <= i < |slices| ==> slices[i].colour == PieColour(slices[i].rate))
      && (forall n :: n in SliceNames(slices) <==>
            exists e :: e in log && e.name == n && e.day.year == viewed.year && e.day.month == viewed.month)
  {
    var stats := HabitStats(log, viewed);
    MonthlyPieSlices(stats);
    if stats != [] {
      MonthLinesRanked(log, viewed);
      MonthLinesNames(log, viewed);
      WedgesFollowLines(MonthlyPie(stats).value.slices, BreakdownOf(stats).lines);
    }
  }

  /** Wedges made line by line from ranked lines are ranked, coloured by band and carry the lines' names. */
  lemma WedgesFollowLines(slices: seq<Slice>, lines: seq<BarLine>)
    requires |slices| == |lines|
    requires forall i :: 0 <= i < |slices| ==> slices[i] == Slice(lines[i].name, lines[i].rate, PieColour(lines[i].rate))
    ensures (forall i, j :: 0 <= i < j < |lines| ==>
               lines[i].rate > lines[j].rate || (lines[i].rate == lines[j].rate && NameBefore(lines[i].name, lines[j].name)))
      ==> (forall i, j :: 0 <= i < j < |slices| ==>
               slices[i].rate > slices[j].rate || (slices[i].rate == slices[j].rate && NameBefore(slices[i].name, slices[j].name)))
    ensures forall i :: 0 <= i < |slices| ==> slices[i].colour == PieColour(slices[i].rate)
    ensures SliceNames(slices) == LineNames(lines)
  {
  }

  lemma {:induction false} SumsOfEntries(rows: seq<Row<string>>)
    ensures SumTotalOf(Entries(rows)) == SumTotal(rows)
    ensures SumCompletedOf(Entries(rows)) == SumCompleted(rows)
  {
    if rows != [] {
      SumsOfEntries(rows[1..]);
      assert Entries(rows)[1..] == Entries(rows[1..]);
    }
  }

  /**
   * The overall pie of the viewed month counts every row logged in it and
   * every completed one (so its "not completed" wedge is never negative), and
   * its rate is the month's overall completion.
   */
  lemma MonthlyPieTotals(log: seq<Event>, viewed: CalendarDate)
    ensures MonthlyPie(HabitStats(log, viewed)).Some? ==>
      var pie := MonthlyPie(HabitStats(log, viewed)).value;
      var logged := Count(log, MonthOf, (viewed.year, viewed.month));
      var completed := Count(DoneOnly(log), MonthOf, (viewed.year, viewed.month));
      && pie.totalLogged == logged
      && pie.totalCompleted == completed
      && pie.totalCompleted <= pie.totalLogged
      && pie.overall == CompletionRate(completed, logged)
  {
    if MonthBounds(viewed).Some? {
      NameBeforeIsStrictTotalOrder();
      var w := MonthWindow(log, MonthBounds(viewed).value);
      var rows := GroupBy(w, NameOf, NameBefore);
      SumsOfEntries(rows);
      GroupByPartitions(w, NameOf, NameBefore);
      MonthWindowSize(log, viewed);
      DoneCountAtMostCount(log, MonthOf, {(viewed.year, viewed.month)});
    }
  }
}
