/**
 * The habit-list screen: the list of habit names, the page shown, the
 * delete mode and the master file on disk, with the handlers of its buttons.
 */
module HabitsScreen {
  import opened Wrappers
  import opened Text
  import opened Paging
  import opened HabitsCsv

  const HabitsPerPage: nat := 5

  /**
   * The label font size for a habit name: 40 up to ten characters, then
   * `max(20, 30 - (len - 20) // 2)`. Python's `//` floors; for the positive
   * divisor 2 Dafny's `/` agrees with it, also on the negative numerators
   * names of 11 to 19 characters give.
   */
  function FontSize(name: string): (size: int)
    ensures size == 40 <==> |name| <= 10
    ensures |name| > 10 ==> 20 <= size <= 35
    ensures size == 20 <==> |name| >= 40
  {
    if |name| > 10 then
      var scaled := 30 - (|name| - 20) / 2;
      if scaled > 20 then scaled else 20
    else 40
  }

  /** A longer name never gets a larger font. */
  lemma FontSizeNonIncreasing(a: string, b: string)
    requires |a| <= |b|
    ensures FontSize(a) >= FontSize(b)
  {
    if |a| > 10 {
      assert (|a| - 20) / 2 <= (|b| - 20) / 2;
    }
  }

  /** One habit row as `render_habits` lays it out. */
  datatype HabitRow = HabitRow(index: nat, name: string, fontSize: int, deleteButton: bool)

  class HabitsScreen {
    var habits: seq<string>
    var currentPage: nat
    var totalPages: nat
    var deleteMode: bool
    /** The contents of `habits.csv`; `None` when it is missing or cannot be read. */
    var file: Option<CsvTable>

    /** Names as loading and adding leave them, and the page counter in range. */
    predicate Valid()
      reads this
    {
      && totalPages == PageCount(|habits|, HabitsPerPage)
      && currentPage < totalPages
      && forall k :: 0 <= k < |habits| ==> habits[k] != [] && IsStripped(habits[k])
    }

    /** Start-up: the initial state, then `load_habits_csv` and the page count. */
    constructor(disk: Option<CsvTable>)
      ensures Valid()
      ensures habits == LoadedNames(disk) && file == disk
      ensures currentPage == 0 && !deleteMode
    {
      habits := [];
      currentPage := 0;
      totalPages := 1;
      deleteMode := false;
      file := disk;
      new;
      LoadHabitsCsv();
      totalPages := PageCount(|habits|, HabitsPerPage);
    }

    /**
     * `load_habits_csv`: the habit list becomes the names of the file. A read
     * clamps the page to the last one; without a file the page is left as it
     * was, which keeps the counter in range only because start-up is its one
     * caller and starts at page 0.
     */
    method LoadHabitsCsv()
      modifies this
      ensures habits == LoadedNames(file)
      ensures totalPages == PageCount(|habits|, HabitsPerPage)
      ensures currentPage == if file.Some? && old(currentPage) >= totalPages then totalPages - 1 else old(currentPage)
      ensures file == old(file) && deleteMode == old(deleteMode)
      ensures file.Some? || old(currentPage) == 0 ==> Valid()
    {
      if file.Some? {
        var loaded := ReadNames(file.value);
        ShowLoaded(loaded);
      } else {
        habits := [];
        totalPages := PageCount(|habits|, HabitsPerPage);
      }
    }

    /** The end of a successful read: the list replaced, the pages recounted and the page clamped. */
    method ShowLoaded(loaded: seq<string>)
      requires forall k :: 0 <= k < |loaded| ==> loaded[k] != [] && IsStripped(loaded[k])
      modifies this
      ensures habits == loaded
      ensures totalPages == PageCount(|habits|, HabitsPerPage)
      ensures currentPage == if old(currentPage) >= totalPages then totalPages - 1 else old(currentPage)
      ensures file == old(file) && deleteMode == old(deleteMode)
      ensures Valid()
    {
      habits := loaded;
      totalPages := PageCount(|habits|, HabitsPerPage);
      if currentPage >= totalPages {
        currentPage := totalPages - 1;
      }
    }

    /**
     * The rows `render_habits` shows: the habits of the current page, each
     * with its position in the whole list, its font size and, in delete
     * mode, a delete button. A valid page is never empty while there are habits.
     */
    method Render() returns (rows: seq<HabitRow>)
      ensures |rows| == |PageSlice(habits, currentPage, HabitsPerPage)|
      ensures forall i :: 0 <= i < |rows| ==>
        && rows[i].index == currentPage * HabitsPerPage + i
        && rows[i].index < |habits| && rows[i].name == habits[rows[i].index]
        && rows[i].fontSize == FontSize(rows[i].name)
        && rows[i].deleteButton == deleteMode
      ensures Valid() && habits != [] ==> |rows| > 0
    {
      var start := currentPage * HabitsPerPage;
      var page := PageSlice(habits, currentPage, HabitsPerPage);
      rows := [];
      for local := 0 to |page|
        invariant |rows| == local
        invariant forall i :: 0 <= i < local ==>
          rows[i] == HabitRow(start + i, page[i], FontSize(page[i]), deleteMode)
      {
        var name := page[local];
        rows := rows + [HabitRow(start + local, name, FontSize(name), deleteMode)];
      }
      if Valid() && habits != [] {
        PageInRangeStartsInList(|habits|, HabitsPerPage, currentPage);
      }
    }

    /** `update_page_label`: recounts the pages and shows "page/pages". */
    method UpdatePageLabel() returns (shown: nat, pages: nat)
      modifies this
      ensures totalPages == PageCount(|habits|, HabitsPerPage)
      ensures shown == currentPage + 1 && pages == totalPages
      ensures habits == old(habits) && currentPage == old(currentPage)
      ensures deleteMode == old(deleteMode) && file == old(file)
      ensures old(Valid()) ==> Valid() && totalPages == old(totalPages) && shown <= pages
    {
      totalPages := PageCount(|habits|, HabitsPerPage);
      shown := currentPage + 1;
      pages := totalPages;
    }

    /** `go_prev`: one page back unless on the first. */
    method GoPrev()
      modifies this
      ensures currentPage == if old(currentPage) > 0 then old(currentPage) - 1 else old(currentPage)
      ensures habits == old(habits) && totalPages == old(totalPages)
      ensures deleteMode == old(deleteMode) && file == old(file)
      ensures old(Valid()) ==> Valid()
    {
      if currentPage > 0 {
        currentPage := currentPage - 1;
      }
    }

    /** `go_next`: one page on unless on the last. */
    method GoNext()
      modifies this
      ensures currentPage == if old(currentPage) + 1 < old(totalPages) then old(currentPage) + 1 else old(currentPage)
      ensures habits == old(habits) && totalPages == old(totalPages)
      ensures deleteMode == old(deleteMode) && file == old(file)
      ensures old(Valid()) ==> Valid()
    {
      if currentPage < totalPages - 1 {
        currentPage := currentPage + 1;
      }
    }

    /**
     * `ask_delete` for the row at `gi`, the user answering the confirmation
     * with `confirmed`: the habit goes, the list is saved, the page count is
     * recomputed and the page pulled back onto the last one if it fell off.
     */
    method AskDelete(gi: int, confirmed: bool) returns (deleted: bool)
      modifies this
      ensures deleted <==> 0 <= gi < |old(habits)| && confirmed
      ensures deleted ==>
        && habits == old(habits)[..gi] + old(habits)[gi + 1..]
        && file == Some(SavedTable(habits))
        && totalPages == PageCount(|habits|, HabitsPerPage)
        && currentPage == if old(currentPage) >= totalPages then totalPages - 1 else old(currentPage)
      ensures !deleted ==>
        && habits == old(habits) && file == old(file)
        && currentPage == old(currentPage) && totalPages == old(totalPages)
      ensures deleteMode == old(deleteMode)
      ensures old(Valid()) ==> Valid()
    {
      if gi < 0 || gi >= |habits| {
        return false;
      }
      if !confirmed {
        return false;
      }
      habits := habits[..gi] + habits[gi + 1..];
      file := Some(SavedTable(habits));
      totalPages := PageCount(|habits|, HabitsPerPage);
      if currentPage >= totalPages {
        currentPage := totalPages - 1;
      }
      deleted := true;
    }

    /**
     * The accepted branch of `save_and_close`: the name is appended, the list
     * saved, and the last page, the one holding the new habit, shown.
     */
    method AppendHabit(name: string)
      requires name != [] && IsStripped(name)
      modifies this
      ensures habits == old(habits) + [name]
      ensures file == Some(SavedTable(habits))
      ensures totalPages == PageCount(|habits|, HabitsPerPage)
      ensures currentPage == totalPages - 1
      ensures name in PageSlice(habits, currentPage, HabitsPerPage)
      ensures deleteMode == old(deleteMode)
      ensures old(Valid()) ==> Valid()
    {
      AppendedOnLastPage(habits, name, HabitsPerPage);
      habits := habits + [name];
      file := Some(SavedTable(habits));
      // `math.ceil(n / 5)` without the `max(1, ...)`: the same count, as n >= 1 here
      totalPages := PageCount(|habits|, HabitsPerPage);
      currentPage := totalPages - 1;
    }

    /**
     * `save_and_close` of the add dialog: a name that strips to nothing is
     * refused; otherwise it is added as `AppendHabit` describes.
     */
    method SaveAndClose(input: string) returns (added: bool)
      modifies this
      ensures added <==> Strip(input) != []
      ensures added ==>
        && habits == old(habits) + [Strip(input)]
        && file == Some(SavedTable(habits))
        && totalPages == PageCount(|habits|, HabitsPerPage)
        && currentPage == totalPages - 1
        && Strip(input) in PageSlice(habits, currentPage, HabitsPerPage)
      ensures !added ==>
        && habits == old(habits) && file == old(file)
        && currentPage == old(currentPage) && totalPages == old(totalPages)
      ensures deleteMode == old(deleteMode)
      ensures old(Valid()) ==> Valid()
    {
      var name := Strip(input);
      if name == [] {
        return false;
      }
      AppendHabit(name);
      added := true;
    }

    /** `toggle_delete_mode`. */
    method ToggleDeleteMode()
      modifies this
      ensures deleteMode == !old(deleteMode)
      ensures habits == old(habits) && file == old(file)
      ensures currentPage == old(currentPage) && totalPages == old(totalPages)
      ensures old(Valid()) ==> Valid()
    {
      deleteMode := !deleteMode;
    }

    /**
     * `record_habits`, the user answering the confirmation with `confirmed`:
     * with habits and a yes, the file is rewritten with its own statuses
     * merged with the current habits; otherwise nothing is written.
     */
    method RecordHabits(confirmed: bool) returns (recorded: bool)
      modifies this
      ensures recorded <==> habits != [] && confirmed
      ensures file == if recorded then Some(RecordedTable(old(file), habits)) else old(file)
      ensures habits == old(habits) && deleteMode == old(deleteMode)
      ensures currentPage == old(currentPage) && totalPages == old(totalPages)
      ensures old(Valid()) ==> Valid()
    {
      if habits == [] {
        return false;
      }
      if !confirmed {
        return false;
      }
      var existing := ReadExisting(file);
      var merged := Merge(existing, habits);
      file := Some(StatusTable(merged));
      recorded := true;
    }
  }

  /** Deleting the first habit of a lone last page moves the view one page back. */
  lemma DeleteLastOnPageMovesBack(n: nat)
    requires n > 0 && (n - 1) % HabitsPerPage == 0 && n > HabitsPerPage
    ensures PageCount(n - 1, HabitsPerPage) == PageCount(n, HabitsPerPage) - 1
  {
    LastIndexOnLastPage(n, HabitsPerPage);
    LastIndexOnLastPage(n - 1, HabitsPerPage);
  }
}
