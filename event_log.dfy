/**
 * The `habit_logs` table and the aggregate queries the progress screen runs
 * on it: the month window (`WHERE DATE(logged_at) BETWEEN ? AND ?`), the
 * completed rows (`done = 1`) and `GROUP BY` with `COUNT(*)` and
 * `SUM(CASE WHEN done = 1 THEN 1 ELSE 0 END)`.
 */
module EventLog {
  import opened Ordering
  import opened Dates

  /**
   * One logged row, reduced to what the analytics read: the habit's name,
   * the `done` column and the calendar day `DATE(logged_at)`.
   */
  datatype Event = Event(name: string, done: int, day: CalendarDate)

  /** `done = 1` (any other stored value counts as not done). */
  predicate IsDone(e: Event) {
    e.done == 1
  }

  function DayOf(e: Event): CalendarDate {
    e.day
  }

  function NameOf(e: Event): string {
    e.name
  }

  /** The year and month an event was logged in. */
  function MonthOf(e: Event): (int, int) {
    (e.day.year, e.day.month)
  }

  /** The habit of an event together with the year and month it was logged in. */
  function NameAndMonthOf(e: Event): (string, int, int) {
    (e.name, e.day.year, e.day.month)
  }

  /** `d BETWEEN lo AND hi`, both ends included. */
  predicate InRange(d: CalendarDate, lo: CalendarDate, hi: CalendarDate) {
    !Before(d, lo) && !Before(hi, d)
  }

  /** `WHERE DATE(logged_at) BETWEEN lo AND hi`, keeping the table's order. */
  function Window(log: seq<Event>, lo: CalendarDate, hi: CalendarDate): (w: seq<Event>)
    ensures |w| <= |log|
    ensures forall e :: e in w <==> e in log && InRange(e.day, lo, hi)
  {
    if log == [] then []
    else (if InRange(log[0].day, lo, hi) then [log[0]] else []) + Window(log[1..], lo, hi)
  }

  /** The window keeps every in-range row as many times as the table holds it, and no other row. */
  lemma {:induction false} WindowMultiplicity(log: seq<Event>, lo: CalendarDate, hi: CalendarDate)
    ensures forall e :: multiset(Window(log, lo, hi))[e] == if InRange(e.day, lo, hi) then multiset(log)[e] else 0
  {
    if log != [] {
      WindowMultiplicity(log[1..], lo, hi);
      assert log == [log[0]] + log[1..];
    }
  }

  /** `WHERE done = 1`, keeping the table's order. */
  function DoneOnly(log: seq<Event>): (r: seq<Event>)
    ensures |r| <= |log|
    ensures forall e :: e in r <==> e in log && IsDone(e)
  {
    if log == [] then []
    else (if IsDone(log[0]) then [log[0]] else []) + DoneOnly(log[1..])
  }

  /** The completed rows keep every completed row as many times as the table holds it, and no other row. */
  lemma {:induction false} DoneOnlyMultiplicity(log: seq<Event>)
    ensures forall e :: multiset(DoneOnly(log))[e] == if IsDone(e) then multiset(log)[e] else 0
  {
    if log != [] {
      DoneOnlyMultiplicity(log[1..]);
      assert log == [log[0]] + log[1..];
    }
  }

  /** Number of rows whose grouping key lies in `ks`. */
  function CountIn<K(==)>(log: seq<Event>, key: Event -> K, ks: set<K>): (n: nat)
    ensures n <= |log|
    ensures n > 0 <==> exists e :: e in log && key(e) in ks
  {
    if log == [] then 0
    else
      var n := (if key(log[0]) in ks then 1 else 0) + CountIn(log[1..], key, ks);
      assert forall e :: e in log <==> e == log[0] || e in log[1..];
      n
  }

  /** `COUNT(*)` of one group. */
  function Count<K(==)>(log: seq<Event>, key: Event -> K, k: K): nat {
    CountIn(log, key, {k})
  }

  /** Counting rows over two disjoint key sets adds up. */
  lemma {:induction false} CountInUnion<K>(log: seq<Event>, key: Event -> K, a: set<K>, b: set<K>)
    requires a !! b
    ensures CountIn(log, key, a + b) == CountIn(log, key, a) + CountIn(log, key, b)
  {
    if log != [] {
      CountInUnion(log[1..], key, a, b);
    }
  }

  /** When the key set covers every row, every row is counted. */
  lemma {:induction false} CountInAll<K>(log: seq<Event>, key: Event -> K, ks: set<K>)
    requires forall e :: e in log ==> key(e) in ks
    ensures CountIn(log, key, ks) == |log|
  {
    if log != [] {
      assert log[0] in log;
      CountInAll(log[1..], key, ks);
    }
  }

  /** The completed rows of a group are never more than the group's rows. */
  lemma {:induction false} DoneCountAtMostCount<K>(log: seq<Event>, key: Event -> K, ks: set<K>)
    ensures CountIn(DoneOnly(log), key, ks) <= CountIn(log, key, ks)
  {
    if log != [] {
      DoneCountAtMostCount(log[1..], key, ks);
      if IsDone(log[0]) {
        assert DoneOnly(log)[0] == log[0] && DoneOnly(log)[1..] == DoneOnly(log[1..]);
      } else {
        assert DoneOnly(log) == DoneOnly(log[1..]);
      }
    }
  }

  /** A day's count inside the window is its count in the whole table when the day is in range, and 0 otherwise. */
  lemma {:induction false} WindowCount(log: seq<Event>, lo: CalendarDate, hi: CalendarDate, d: CalendarDate)
    ensures Count(Window(log, lo, hi), DayOf, d) == if InRange(d, lo, hi) then Count(log, DayOf, d) else 0
  {
    if log != [] {
      WindowCount(log[1..], lo, hi, d);
      var w := Window(log, lo, hi);
      if InRange(log[0].day, lo, hi) {
        assert w[0] == log[0] && w[1..] == Window(log[1..], lo, hi);
        assert CountIn(w, DayOf, {d}) == (if log[0].day in {d} then 1 else 0) + CountIn(w[1..], DayOf, {d});
      } else {
        assert w == Window(log[1..], lo, hi);
      }
    }
  }

  /**
   * Counting over the window is counting over the whole table with a key that
   * also checks the range: `key2` picks out exactly the in-range rows `key` would count.
   */
  lemma {:induction false} WindowCountIn<K, L>(log: seq<Event>, lo: CalendarDate, hi: CalendarDate,
                                               key: Event -> K, ks: set<K>, key2: Event -> L, ks2: set<L>)
    requires forall e :: e in log ==> (InRange(e.day, lo, hi) && key(e) in ks <==> key2(e) in ks2)
    ensures CountIn(Window(log, lo, hi), key, ks) == CountIn(log, key2, ks2)
  {
    if log != [] {
      assert log[0] in log;
      assert forall e :: e in log[1..] ==> e in log;
      WindowCountIn(log[1..], lo, hi, key, ks, key2, ks2);
      var w := Window(log, lo, hi);
      if InRange(log[0].day, lo, hi) {
        assert w[0] == log[0] && w[1..] == Window(log[1..], lo, hi);
      } else {
        assert w == Window(log[1..], lo, hi);
      }
    }
  }

  /** The window is as long as the count of rows whose key says they are in range. */
  lemma {:induction false} WindowSize<K>(log: seq<Event>, lo: CalendarDate, hi: CalendarDate, key: Event -> K, ks: set<K>)
    requires forall e :: e in log ==> (InRange(e.day, lo, hi) <==> key(e) in ks)
    ensures |Window(log, lo, hi)| == CountIn(log, key, ks)
  {
    if log != [] {
      assert log[0] in log;
      assert forall e :: e in log[1..] ==> e in log;
      WindowSize(log[1..], lo, hi, key, ks);
    }
  }

  /** Restricting to the window and to completed rows can be done in either order. */
  lemma {:induction false} DoneOnlyWindow(log: seq<Event>, lo: CalendarDate, hi: CalendarDate)
    ensures DoneOnly(Window(log, lo, hi)) == Window(DoneOnly(log), lo, hi)
  {
    if log != [] {
      DoneOnlyWindow(log[1..], lo, hi);
      var h := log[0];
      var rest := log[1..];
      if InRange(h.day, lo, hi) {
        assert Window(log, lo, hi) == [h] + Window(rest, lo, hi);
        assert DoneOnly([h] + Window(rest, lo, hi)) == (if IsDone(h) then [h] else []) + DoneOnly(Window(rest, lo, hi)) by {
          assert ([h] + Window(rest, lo, hi))[1..] == Window(rest, lo, hi);
        }
      } else {
        assert Window(log, lo, hi) == Window(rest, lo, hi);
      }
      if IsDone(h) {
        assert DoneOnly(log) == [h] + DoneOnly(rest);
        assert Window([h] + DoneOnly(rest), lo, hi) == (if InRange(h.day, lo, hi) then [h] else []) + Window(DoneOnly(rest), lo, hi) by {
          assert ([h] + DoneOnly(rest))[1..] == DoneOnly(rest);
        }
      } else {
        assert DoneOnly(log) == DoneOnly(rest);
      }
    }
  }

  /** The grouping key of every row, in the table's order. */
  function KeysOf<K>(log: seq<Event>, key: Event -> K): (ks: seq<K>)
    ensures |ks| == |log| && forall i :: 0 <= i < |log| ==> ks[i] == key(log[i])
  {
    seq(|log|, i requires 0 <= i < |log| => key(log[i]))
  }

  /** One result row of `SELECT key, COUNT(*) AS total, SUM(...) AS completed ... GROUP BY key`. */
  datatype Row<K> = Row(key: K, total: nat, completed: nat)

  /** The result rows for the given keys, in the keys' order. */
  function RowsFor<K(==)>(log: seq<Event>, key: Event -> K, ks: seq<K>): (rows: seq<Row<K>>)
    ensures |rows| == |ks|
    ensures forall i :: 0 <= i < |ks| ==>
      rows[i] == Row(ks[i], Count(log, key, ks[i]), Count(DoneOnly(log), key, ks[i]))
  {
    if ks == [] then []
    else [Row(ks[0], Count(log, key, ks[0]), Count(DoneOnly(log), key, ks[0]))] + RowsFor(log, key, ks[1..])
  }

  function RowKeys<K>(rows: seq<Row<K>>): (ks: seq<K>)
    ensures |ks| == |rows| && forall i :: 0 <= i < |rows| ==> ks[i] == rows[i].key
  {
    seq(|rows|, i requires 0 <= i < |rows| => rows[i].key)
  }

  /**
   * `GROUP BY key ORDER BY key`: one row per key that occurs, in ascending
   * key order, carrying the group's row count and completed count.
   */
  function GroupBy<K(==,!new)>(log: seq<Event>, key: Event -> K, lt: (K, K) -> bool): (rows: seq<Row<K>>)
    requires IsStrictTotalOrder(lt)
    ensures StrictlyAscending(RowKeys(rows), lt)
    ensures forall k :: k in RowKeys(rows) <==> exists e :: e in log && key(e) == k
    ensures forall i :: 0 <= i < |rows| ==> 1 <= rows[i].total && rows[i].completed <= rows[i].total
    ensures forall i :: 0 <= i < |rows| ==>
      rows[i].total == Count(log, key, rows[i].key) && rows[i].completed == Count(DoneOnly(log), key, rows[i].key)
  {
    var ks := SortDistinct(KeysOf(log, key), lt);
    var rows := RowsFor(log, key, ks);
    assert RowKeys(rows) == ks;
    forall k ensures k in ks <==> exists e :: e in log && key(e) == k {
      if k in ks {
        var i :| 0 <= i < |log| && KeysOf(log, key)[i] == k;
        assert log[i] in log;
      }
      if e :| e in log && key(e) == k {
        var i :| 0 <= i < |log| && log[i] == e;
        assert KeysOf(log, key)[i] == k;
      }
    }
    forall i | 0 <= i < |rows| ensures 1 <= rows[i].total && rows[i].completed <= rows[i].total {
      assert ks[i] in ks;
      DoneCountAtMostCount(log, key, {ks[i]});
    }
    rows
  }

  function SumTotal<K>(rows: seq<Row<K>>): nat {
    if rows == [] then 0 else rows[0].total + SumTotal(rows[1..])
  }

  function SumCompleted<K>(rows: seq<Row<K>>): nat {
    if rows == [] then 0 else rows[0].completed + SumCompleted(rows[1..])
  }

  /** The keys of a sequence without repeats: its first one, apart from those of the rest. */
  lemma KeySetSplit<K>(ks: seq<K>)
    requires ks != [] && forall i, j :: 0 <= i < j < |ks| ==> ks[i] != ks[j]
    ensures (set k | k in ks) == {ks[0]} + (set k | k in ks[1..])
    ensures ks[0] !in (set k | k in ks[1..])
  {
    assert forall j :: 0 <= j < |ks| - 1 ==> ks[1..][j] == ks[j + 1];
  }

  /** For keys without repeats, the row counts add up to the rows whose key is one of them. */
  lemma {:induction false} RowsForSums<K>(log: seq<Event>, key: Event -> K, ks: seq<K>)
    requires forall i, j :: 0 <= i < j < |ks| ==> ks[i] != ks[j]
    ensures SumTotal(RowsFor(log, key, ks)) == CountIn(log, key, set k | k in ks)
    ensures SumCompleted(RowsFor(log, key, ks)) == CountIn(DoneOnly(log), key, set k | k in ks)
  {
    if ks == [] {
      assert (set k | k in ks) == {};
    } else {
      var tail := ks[1..];
      assert forall i, j :: 0 <= i < j < |tail| ==> tail[i] != tail[j] by {
        forall i, j | 0 <= i < j < |tail| ensures tail[i] != tail[j] {
          assert tail[i] == ks[i + 1] && tail[j] == ks[j + 1];
        }
      }
      RowsForSums(log, key, tail);
      KeySetSplit(ks);
      CountInUnion(log, key, {ks[0]}, set k | k in tail);
      CountInUnion(DoneOnly(log), key, {ks[0]}, set k | k in tail);
      assert RowsFor(log, key, ks)[1..] == RowsFor(log, key, tail);
    }
  }

  /** The groups partition the rows: their totals add up to all rows, their completed counts to all completed rows. */
  lemma GroupByPartitions<K(!new)>(log: seq<Event>, key: Event -> K, lt: (K, K) -> bool)
    requires IsStrictTotalOrder(lt)
    ensures SumTotal(GroupBy(log, key, lt)) == |log|
    ensures SumCompleted(GroupBy(log, key, lt)) == |DoneOnly(log)|
  {
    var ks := SortDistinct(KeysOf(log, key), lt);
    RowsForSums(log, key, ks);
    forall e | e in log ensures key(e) in (set k | k in ks) {
      var i :| 0 <= i < |log| && log[i] == e;
      assert KeysOf(log, key)[i] == key(e);
    }
    CountInAll(log, key, set k | k in ks);
    CountInAll(DoneOnly(log), key, set k | k in ks);
  }
}
