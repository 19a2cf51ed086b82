/**
 * The habit master file `habits.csv` of the habit-list screen, as pandas
 * reads it with `dtype=str, keep_default_na=False` (every cell a string) and
 * as `csv.writer` writes it back.
 */
module HabitsCsv {
  import opened Wrappers
  import opened Text
  import opened OrderedDict

  /** A parsed CSV file: its header cells and its data rows. */
  datatype Table = Table(columns: seq<string>, rows: seq<seq<string>>)

  /** What a successful read yields: at least one column, every row as wide as the header. */
  predicate WellShaped(t: Table) {
    |t.columns| > 0 && forall i :: 0 <= i < |t.rows| ==> |t.rows[i]| == |t.columns|
  }

  type CsvTable = t: Table | WellShaped(t) witness Table(["name"], [])

  /** Position of the first column headed `c`, or `|columns|` when there is none. */
  function ColumnIndex(columns: seq<string>, c: string): (i: nat)
    ensures i <= |columns|
    ensures i < |columns| <==> c in columns
    ensures i < |columns| ==> columns[i] == c
    ensures forall j :: 0 <= j < i ==> columns[j] != c
  {
    if columns == [] then 0
    else if columns[0] == c then 0
    else 1 + ColumnIndex(columns[1..], c)
  }

  /** `row.get(c, default)`: the cell under the first column headed `c`, or `default` without one. */
  function CellOr(t: CsvTable, i: nat, c: string, default: string): (cell: string)
    requires i < |t.rows|
    ensures c !in t.columns ==> cell == default
    ensures c in t.columns ==>
      exists k :: 0 <= k < |t.columns| && t.columns[k] == c && (forall j :: 0 <= j < k ==> t.columns[j] != c) && cell == t.rows[i][k]
  {
    var k := ColumnIndex(t.columns, c);
    if k < |t.columns| then t.rows[i][k] else default
  }

  /** The column the habit names are read from: the one headed `name`, else the first. */
  function NameColumn(t: CsvTable): (c: nat)
    ensures c < |t.columns|
    ensures "name" in t.columns ==> t.columns[c] == "name" && forall j :: 0 <= j < c ==> t.columns[j] != "name"
    ensures "name" !in t.columns ==> c == 0
  {
    var k := ColumnIndex(t.columns, "name");
    if k < |t.columns| then k else 0
  }

  /** `df[column].tolist()` for the name column. */
  function NameCells(t: CsvTable): seq<string> {
    seq(|t.rows|, i requires 0 <= i < |t.rows| => t.rows[i][NameColumn(t)])
  }

  /** `f` applied to every element. */
  function MapSeq<T, U>(f: T -> U, s: seq<T>): (r: seq<U>)
    ensures |r| == |s|
  {
    seq(|s|, i requires 0 <= i < |s| => f(s[i]))
  }

  lemma MapSeqAppend<T, U>(f: T -> U, a: seq<T>, b: seq<T>)
    ensures MapSeq(f, a + b) == MapSeq(f, a) + MapSeq(f, b)
  {
    var l := MapSeq(f, a + b);
    var r := MapSeq(f, a) + MapSeq(f, b);
    forall k | 0 <= k < |l|
      ensures l[k] == r[k]
    {
      if k < |a| {
        assert (a + b)[k] == a[k];
      } else {
        assert (a + b)[k] == b[k - |a|];
      }
    }
  }

  /** `str(n).strip()` of every name. */
  function StripAll(names: seq<string>): (r: seq<string>)
    ensures |r| == |names|
    ensures forall i :: 0 <= i < |names| ==> r[i] == Strip(names[i]) && IsStripped(r[i])
  {
    MapSeq(Strip, names)
  }

  /** The non-empty entries, in order. */
  function NonBlank(names: seq<string>): (r: seq<string>)
    ensures |r| <= |names|
    ensures forall k :: 0 <= k < |r| ==> r[k] != [] && r[k] in names
  {
    if names == [] then []
    else
      var rest := NonBlank(names[..|names| - 1]);
      var nm := names[|names| - 1];
      if nm != [] then rest + [nm] else rest
  }

  /** Filtering keeps only entries that were there, so stripped entries stay stripped. */
  lemma NonBlankOfStripped(s: seq<string>)
    requires forall i :: 0 <= i < |s| ==> IsStripped(s[i])
    ensures forall k :: 0 <= k < |NonBlank(s)| ==> IsStripped(NonBlank(s)[k])
  {
    var r := NonBlank(s);
    forall k | 0 <= k < |r|
      ensures IsStripped(r[k])
    {
      var i :| 0 <= i < |s| && s[i] == r[k];
    }
  }

  /** The names that survive `str(n).strip()` and the emptiness test, stripped, in file order. */
  function NormalizeNames(names: seq<string>): (r: seq<string>)
    ensures |r| <= |names|
    ensures forall k :: 0 <= k < |r| ==> r[k] != [] && IsStripped(r[k])
  {
    NonBlankOfStripped(StripAll(names));
    NonBlank(StripAll(names))
  }

  lemma {:induction false} NonBlankAppend(a: seq<string>, b: seq<string>)
    ensures NonBlank(a + b) == NonBlank(a) + NonBlank(b)
  {
    if b == [] {
      assert a + b == a;
    } else {
      NonBlankAppend(a, b[..|b| - 1]);
      assert (a + b)[..|a + b| - 1] == a + b[..|b| - 1];
    }
  }

  lemma StripAllAppend(a: seq<string>, b: seq<string>)
    ensures StripAll(a + b) == StripAll(a) + StripAll(b)
  {
    MapSeqAppend(Strip, a, b);
  }

  /** Normalising a concatenation normalises each part: the file order of the names is kept. */
  lemma NormalizeNamesAppend(a: seq<string>, b: seq<string>)
    ensures NormalizeNames(a + b) == NormalizeNames(a) + NormalizeNames(b)
  {
    StripAllAppend(a, b);
    NonBlankAppend(StripAll(a), StripAll(b));
  }

  /** Filtering one more entry appends it exactly when it is not blank. */
  lemma NonBlankSnoc(s: seq<string>, x: string)
    ensures NonBlank(s + [x]) == NonBlank(s) + if x != [] then [x] else []
  {
    assert (s + [x])[..|s|] == s;
  }

  lemma {:induction false} NonBlankMembers(names: seq<string>, x: string)
    ensures x in NonBlank(names) <==> x != [] && x in names
  {
    if names != [] {
      var init := names[..|names| - 1];
      NonBlankMembers(init, x);
      assert names == init + [names[|names| - 1]];
    }
  }

  lemma StripAllMembers(names: seq<string>, x: string)
    ensures x in StripAll(names) <==> exists n :: n in names && Strip(n) == x
  {
    var stripped := StripAll(names);
    if x in stripped {
      var i :| 0 <= i < |stripped| && stripped[i] == x;
      assert names[i] in names;
    }
    if exists n :: n in names && Strip(n) == x {
      var n :| n in names && Strip(n) == x;
      var i :| 0 <= i < |names| && names[i] == n;
      assert stripped[i] == x;
    }
  }

  /** A loaded name is exactly a name of the file that is not blank, stripped. */
  lemma NormalizeNamesMembers(names: seq<string>, x: string)
    ensures x in NormalizeNames(names) <==> x != [] && exists n :: n in names && Strip(n) == x
  {
    NonBlankMembers(StripAll(names), x);
    StripAllMembers(names, x);
  }

  lemma {:induction false} NonBlankOfNonEmpty(hs: seq<string>)
    requires forall k :: 0 <= k < |hs| ==> hs[k] != []
    ensures NonBlank(hs) == hs
  {
    if hs != [] {
      NonBlankOfNonEmpty(hs[..|hs| - 1]);
      assert hs[..|hs| - 1] + [hs[|hs| - 1]] == hs;
    }
  }

  /** Names that are already stripped and non-empty load back unchanged. */
  lemma NormalizeNamesOfLoaded(hs: seq<string>)
    requires forall k :: 0 <= k < |hs| ==> hs[k] != [] && IsStripped(hs[k])
    ensures NormalizeNames(hs) == hs
  {
    forall k | 0 <= k < |hs|
      ensures Strip(hs[k]) == hs[k]
    {
      StripOfStripped(hs[k]);
    }
    assert StripAll(hs) == hs;
    NonBlankOfNonEmpty(hs);
  }

  /** The habit list `load_habits_csv` builds; no file, or one pandas cannot read, gives none. */
  function LoadedNames(file: Option<CsvTable>): (names: seq<string>)
    ensures forall k :: 0 <= k < |names| ==> names[k] != [] && IsStripped(names[k])
    ensures file.None? ==> names == []
  {
    match file
    case None => []
    case Some(t) => NormalizeNames(NameCells(t))
  }

  lemma NormalizeNamesStep(names: seq<string>, i: nat)
    requires i < |names|
    ensures var nm := Strip(names[i]);
      NonBlank(StripAll(names[..i + 1])) == NonBlank(StripAll(names[..i])) + if nm != [] then [nm] else []
  {
    assert names[..i + 1] == names[..i] + [names[i]];
    StripAllAppend(names[..i], [names[i]]);
    assert StripAll([names[i]]) == [Strip(names[i])];
    NonBlankSnoc(StripAll(names[..i]), Strip(names[i]));
  }

  /** The `for n in names` loop of `load_habits_csv`. */
  method ReadNames(t: CsvTable) returns (loaded: seq<string>)
    ensures loaded == LoadedNames(Some(t))
  {
    var names := NameCells(t);
    loaded := [];
    for i := 0 to |names|
      invariant loaded == NonBlank(StripAll(names[..i]))
    {
      var nm := Strip(names[i]);
      NormalizeNamesStep(names, i);
      if nm != [] {
        loaded := loaded + [nm];
      }
    }
    assert names[..|names|] == names;
  }

  /** What `save_habits_csv` writes: a `name,done` header, then each habit with `False`. */
  function SavedTable(hs: seq<string>): (t: CsvTable)
    ensures NameCells(t) == hs
    ensures forall i :: 0 <= i < |t.rows| ==> CellOr(t, i, "done", "") == "False"
  {
    var t: CsvTable := Table(["name", "done"], seq(|hs|, i requires 0 <= i < |hs| => [hs[i], "False"]));
    assert NameColumn(t) == 0;
    assert ColumnIndex(t.columns, "done") == 1 by {
      assert t.columns[1..] == ["done"];
    }
    t
  }

  /** Loading the file just saved gives back the habit list. */
  lemma LoadAfterSave(hs: seq<string>)
    requires forall k :: 0 <= k < |hs| ==> hs[k] != [] && IsStripped(hs[k])
    ensures LoadedNames(Some(SavedTable(hs))) == hs
  {
    var t := SavedTable(hs);
    assert NameColumn(t) == 0;
    assert NameCells(t) == hs;
    NormalizeNamesOfLoaded(hs);
  }

  /** `{row.get("name", ""): row.get("done", "False")}` for each row, in file order. */
  function RowItems(t: CsvTable): (items: seq<Item<string, string>>)
    ensures |items| == |t.rows|
    ensures "name" in t.columns ==> Keys(items) == NameCells(t)
  {
    var items := seq(|t.rows|, i requires 0 <= i < |t.rows| => Item(CellOr(t, i, "name", ""), CellOr(t, i, "done", "False")));
    assert "name" in t.columns ==> Keys(items) == NameCells(t) by {
      if "name" in t.columns {
        var k := ColumnIndex(t.columns, "name");
        assert NameColumn(t) == k;
        forall i | 0 <= i < |items| ensures Keys(items)[i] == NameCells(t)[i] {
          assert CellOr(t, i, "name", "") == t.rows[i][k];
        }
      }
    }
    items
  }

  /** The `existing` dict of `record_habits`; no file, or one pandas cannot read, gives an empty one. */
  function ExistingStatus(file: Option<CsvTable>): (d: seq<Item<string, string>>)
    ensures DistinctKeys(d)
  {
    match file
    case None => []
    case Some(t) => PutAll([], RowItems(t))
  }

  /** The `for _, row in df.iterrows()` loop of `record_habits`. */
  method ReadExisting(file: Option<CsvTable>) returns (existing: seq<Item<string, string>>)
    ensures existing == ExistingStatus(file)
  {
    existing := [];
    if file.Some? {
      var items := RowItems(file.value);
      for i := 0 to |items|
        invariant DistinctKeys(existing)
        invariant existing == PutAll([], items[..i])
      {
        PutAllStep([], items, i);
        existing := Put(existing, items[i].key, items[i].value);
      }
      assert items[..|items|] == items;
    }
  }

  /** Each current habit paired with the status it is recorded with, always `False`. */
  function HabitItems(hs: seq<string>): seq<Item<string, string>> {
    seq(|hs|, i requires 0 <= i < |hs| => Item(hs[i], "False"))
  }

  /** The last status assigned to a name by the merge loop. */
  lemma {:induction false} LastValueOfHabitItems(hs: seq<string>, name: string)
    ensures LastValue(HabitItems(hs), name) == if name in hs then Some("False") else None
  {
    if hs != [] {
      var init := hs[..|hs| - 1];
      LastValueOfHabitItems(init, name);
      assert HabitItems(hs)[..|hs| - 1] == HabitItems(init);
      assert hs == init + [hs[|hs| - 1]];
    }
  }

  /** `merged`: the existing statuses, then every current habit set to its status. */
  function MergedStatus(existing: seq<Item<string, string>>, hs: seq<string>): (d: seq<Item<string, string>>)
    requires DistinctKeys(existing)
    ensures DistinctKeys(d)
  {
    PutAll(existing, HabitItems(hs))
  }

  /** The `for h in habits` loop of `record_habits`. */
  method Merge(existing: seq<Item<string, string>>, hs: seq<string>) returns (merged: seq<Item<string, string>>)
    requires DistinctKeys(existing)
    ensures merged == MergedStatus(existing, hs)
  {
    var items := HabitItems(hs);
    merged := existing;
    for i := 0 to |hs|
      invariant DistinctKeys(merged)
      invariant merged == PutAll(existing, items[..i])
    {
      PutAllStep(existing, items, i);
      merged := Put(merged, hs[i], "False");
    }
    assert items[..|hs|] == items;
  }

  /** The file `record_habits` writes: a `name,done` header, then one row per merged item. */
  function StatusTable(d: seq<Item<string, string>>): (t: CsvTable)
    ensures RowItems(t) == d
  {
    var t: CsvTable := Table(["name", "done"], seq(|d|, i requires 0 <= i < |d| => [d[i].key, d[i].value]));
    assert ColumnIndex(t.columns, "done") == 1 by {
      assert t.columns[1..] == ["done"];
    }
    t
  }

  /** What `record_habits` writes; reading it back gives exactly the merged statuses. */
  function RecordedTable(file: Option<CsvTable>, hs: seq<string>): (t: CsvTable)
    ensures ExistingStatus(Some(t)) == MergedStatus(ExistingStatus(file), hs)
  {
    var merged := MergedStatus(ExistingStatus(file), hs);
    PutAllFresh(merged);
    StatusTable(merged)
  }

  /**
   * Recording keeps every name already in the file, in its place, adds the
   * current habits not yet there after them, writes each name once, sets
   * every current habit to `False` and leaves every other name's status as
   * the file had it.
   */
  lemma RecordedStatus(file: Option<CsvTable>, hs: seq<string>, name: string)
    ensures var existing := ExistingStatus(file);
      var merged := MergedStatus(existing, hs);
      && DistinctKeys(merged)
      && |existing| <= |merged| && Keys(merged)[..|existing|] == Keys(existing)
      && (name in Keys(merged) <==> name in Keys(existing) || name in hs)
      && Get(merged, name) == if name in hs then Some("False") else Get(existing, name)
  {
    var existing := ExistingStatus(file);
    PutAllMeaning(existing, HabitItems(hs), name);
    LastValueOfHabitItems(hs, name);
    assert name in Keys(HabitItems(hs)) <==> name in hs by {
      if name in hs {
        var k :| 0 <= k < |hs| && hs[k] == name;
        assert Keys(HabitItems(hs))[k] == name;
      }
    }
  }

  /** After recording, loading the file finds every current habit. */
  lemma RecordThenLoad(file: Option<CsvTable>, hs: seq<string>, h: string)
    requires forall k :: 0 <= k < |hs| ==> hs[k] != [] && IsStripped(hs[k])
    requires h in hs
    ensures h in LoadedNames(Some(RecordedTable(file, hs)))
  {
    var merged := MergedStatus(ExistingStatus(file), hs);
    var t := StatusTable(merged);
    RecordedStatus(file, hs, h);
    assert NameColumn(t) == 0;
    assert NameCells(t) == Keys(merged);
    StripOfStripped(h);
    NormalizeNamesMembers(Keys(merged), h);
  }

  /** The rows of a saved file read back as its habits, each with `False`. */
  lemma SavedRowItems(hs: seq<string>)
    ensures RowItems(SavedTable(hs)) == HabitItems(hs)
  {
    var t := SavedTable(hs);
    assert ColumnIndex(t.columns, "done") == 1 by {
      assert t.columns[1..] == ["done"];
    }
  }

  /** Recording a duplicate-free habit list right after saving it rewrites the same file. */
  lemma RecordAfterSave(hs: seq<string>)
    requires forall i, j :: 0 <= i < j < |hs| ==> hs[i] != hs[j]
    ensures RecordedTable(Some(SavedTable(hs)), hs) == SavedTable(hs)
  {
    var items := HabitItems(hs);
    SavedRowItems(hs);
    PutAllFresh(items);
    PutAllSelf(items);
    assert StatusTable(items) == SavedTable(hs);
  }
}
