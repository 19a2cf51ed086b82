/**
 * The main screen: an in-memory habit list, each habit with a done
 * checkbox, shown three to a page, with add, delete and paging handlers.
 * Nothing on this screen is saved.
 */
module MainScreen {
  import opened Text
  import opened Paging

  const HabitsPerPage: nat := 3

  datatype Habit = Habit(name: string, done: bool)

  /** The seven sample habits the screen starts with, every other one done. */
  const SampleHabits: seq<Habit> := [
    Habit("Sample Habit", false), Habit("Sample Habit", true), Habit("Sample Habit", false),
    Habit("Sample Habit", true), Habit("Sample Habit", false), Habit("Sample Habit", true),
    Habit("Sample Habit", false)
  ]

  /** How many habits are ticked. */
  function DoneCount(hs: seq<Habit>): (n: nat)
    ensures n <= |hs|
    ensures n == 0 <==> forall i :: 0 <= i < |hs| ==> !hs[i].done
  {
    if hs == [] then 0
    else DoneCount(hs[..|hs| - 1]) + if hs[|hs| - 1].done then 1 else 0
  }

  /** Ticking or unticking one habit moves the done count by exactly one. */
  lemma {:induction false} DoneCountFlip(hs: seq<Habit>, gi: nat)
    requires gi < |hs|
    ensures var flipped := hs[gi := Habit(hs[gi].name, !hs[gi].done)];
      DoneCount(flipped) == if hs[gi].done then DoneCount(hs) - 1 else DoneCount(hs) + 1
  {
    var flipped := hs[gi := Habit(hs[gi].name, !hs[gi].done)];
    var n := |hs|;
    if gi < n - 1 {
      DoneCountFlip(hs[..n - 1], gi);
      assert flipped[..n - 1] == hs[..n - 1][gi := Habit(hs[gi].name, !hs[gi].done)];
    } else {
      assert flipped[..n - 1] == hs[..n - 1];
    }
  }

  /** Three of the seven sample habits start done. */
  lemma SampleDoneCount()
    ensures DoneCount(SampleHabits) == 3
  {
    var s := SampleHabits;
    assert s[..0] == [];
    assert s[..1][..0] == s[..0] && DoneCount(s[..1]) == 0;
    assert s[..2][..1] == s[..1] && DoneCount(s[..2]) == 1;
    assert s[..3][..2] == s[..2] && DoneCount(s[..3]) == 1;
    assert s[..4][..3] == s[..3] && DoneCount(s[..4]) == 2;
    assert s[..5][..4] == s[..4] && DoneCount(s[..5]) == 2;
    assert s[..6][..5] == s[..5] && DoneCount(s[..6]) == 3;
    assert s[..6] == s[..|s| - 1];
  }

  /** One habit row as `render_habits` lays it out. */
  datatype HabitRow = HabitRow(index: nat, name: string, checked: bool, deleteButton: bool)

  class MainScreen {
    var habits: seq<Habit>
    var currentPage: nat
    var totalPages: nat
    var deleteMode: bool

    predicate Valid()
      reads this
    {
      totalPages == PageCount(|habits|, HabitsPerPage) && currentPage < totalPages
    }

    /** Start-up: the sample habits on three pages, the first one shown. */
    constructor()
      ensures Valid()
      ensures habits == SampleHabits && DoneCount(habits) == 3
      ensures currentPage == 0 && totalPages == 3 && !deleteMode
    {
      habits := SampleHabits;
      currentPage := 0;
      totalPages := PageCount(|SampleHabits|, HabitsPerPage);
      deleteMode := false;
      new;
      SampleDoneCount();
    }

    /**
     * The rows `render_habits` shows: the habits of the current page, each
     * with its position in the whole list, its checkbox and, in delete mode,
     * a delete button. A valid page is never empty while there are habits.
     */
    method Render() returns (rows: seq<HabitRow>)
      ensures |rows| == |PageSlice(habits, currentPage, HabitsPerPage)|
      ensures forall i :: 0 <= i < |rows| ==>
        && rows[i].index == currentPage * HabitsPerPage + i
        && rows[i].index < |habits|
        && rows[i].name == habits[rows[i].index].name
        && rows[i].checked == habits[rows[i].index].done
        && rows[i].deleteButton == deleteMode
      ensures Valid() && habits != [] ==> |rows| > 0
    {
      var start := currentPage * HabitsPerPage;
      var page := PageSlice(habits, currentPage, HabitsPerPage);
      rows := [];
      for local := 0 to |page|
        invariant |rows| == local
        invariant forall i :: 0 <= i < local ==>
          rows[i] == HabitRow(start + i, page[i].name, page[i].done, deleteMode)
      {
        var habit := page[local];
        rows := rows + [HabitRow(start + local, habit.name, habit.done, deleteMode)];
      }
      if Valid() && habits != [] {
        PageInRangeStartsInList(|habits|, HabitsPerPage, currentPage);
      }
    }

    /** `update_page_label`: recounts the pages and shows "page/pages". */
    method UpdatePageLabel() returns (shown: nat, pages: nat)
      modifies this
      ensures totalPages == PageCount(|habits|, HabitsPerPage)
      ensures shown == currentPage + 1 && pages == totalPages
      ensures habits == old(habits) && currentPage == old(currentPage) && deleteMode == old(deleteMode)
      ensures old(Valid()) ==> Valid() && totalPages == old(totalPages) && shown <= pages
    {
      totalPages := PageCount(|habits|, HabitsPerPage);
      shown := currentPage + 1;
      pages := totalPages;
    }

    /** `go_prev`: one page back unless on the first. */
    method GoPrev()
      modifies this
      ensures currentPage == if old(currentPage) > 0 then old(currentPage) - 1 else old(currentPage)
      ensures habits == old(habits) && totalPages == old(totalPages) && deleteMode == old(deleteMode)
      ensures old(Valid()) ==> Valid()
    {
      if currentPage > 0 {
        currentPage := currentPage - 1;
      }
    }

    /** `go_next`: one page on unless on the last. */
    method GoNext()
      modifies this
      ensures currentPage == if old(currentPage) + 1 < old(totalPages) then old(currentPage) + 1 else old(currentPage)
      ensures habits == old(habits) && totalPages == old(totalPages) && deleteMode == old(deleteMode)
      ensures old(Valid()) ==> Valid()
    {
      if currentPage < totalPages - 1 {
        currentPage := currentPage + 1;
      }
    }

    /**
     * `ask_delete` for the row at `gi`, the user answering the confirmation
     * with `confirmed`: the habit goes, the page count is recomputed and the
     * page pulled back onto the last one if it fell off.
     */
    method AskDelete(gi: int, confirmed: bool) returns (deleted: bool)
      modifies this
      ensures deleted <==> 0 <= gi < |old(habits)| && confirmed
      ensures deleted ==>
        && habits == old(habits)[..gi] + old(habits)[gi + 1..]
        && totalPages == PageCount(|habits|, HabitsPerPage)
        && currentPage == if old(currentPage) >= totalPages then totalPages - 1 else old(currentPage)
      ensures !deleted ==>
        habits == old(habits) && currentPage == old(currentPage) && totalPages == old(totalPages)
      ensures deleteMode == old(deleteMode)
      ensures old(Valid()) ==> Valid()
    {
      if gi < 0 || gi >= |habits| {
        return false;
      }
      if !confirmed {
        return false;
      }
      habits := habits[..gi] + habits[gi + 1..];
      totalPages := PageCount(|habits|, HabitsPerPage);
      if currentPage >= totalPages {
        currentPage := totalPages - 1;
      }
      deleted := true;
    }

    /**
     * `toggle` on the checkbox of the row at `gi`: outside delete mode and
     * within the list it flips that habit's done flag and nothing else.
     */
    method Toggle(gi: int) returns (toggled: bool)
      modifies this
      ensures toggled <==> !deleteMode && 0 <= gi < |old(habits)|
      ensures toggled ==>
        && habits == old(habits)[gi := Habit(old(habits)[gi].name, !old(habits)[gi].done)]
        && DoneCount(habits) == if old(habits)[gi].done then DoneCount(old(habits)) - 1 else DoneCount(old(habits)) + 1
      ensures !toggled ==> habits == old(habits)
      ensures deleteMode == old(deleteMode) && currentPage == old(currentPage) && totalPages == old(totalPages)
      ensures old(Valid()) ==> Valid()
    {
      if deleteMode {
        return false;
      }
      if gi < 0 || gi >= |habits| {
        return false;
      }
      DoneCountFlip(habits, gi);
      habits := habits[gi := Habit(habits[gi].name, !habits[gi].done)];
      toggled := true;
    }

    /**
     * The accepted branch of `save_and_close`: the habit is appended not done
     * (the dialog's done flag is never set) and the last page, the one
     * holding it, shown.
     */
    method AppendHabit(name: string)
      modifies this
      ensures habits == old(habits) + [Habit(name, false)]
      ensures totalPages == PageCount(|habits|, HabitsPerPage)
      ensures currentPage == totalPages - 1
      ensures Habit(name, false) in PageSlice(habits, currentPage, HabitsPerPage)
      ensures deleteMode == old(deleteMode)
      ensures old(Valid()) ==> Valid()
    {
      AppendedOnLastPage(habits, Habit(name, false), HabitsPerPage);
      habits := habits + [Habit(name, false)];
      // `math.ceil(n / 3)` without the `max(1, ...)`: the same count, as n >= 1 here
      totalPages := PageCount(|habits|, HabitsPerPage);
      currentPage := totalPages - 1;
    }

    /**
     * `save_and_close` of the add dialog: a name that strips to nothing is
     * refused; otherwise it is added as `AppendHabit` describes.
     */
    method SaveAndClose(input: string) returns (added: bool)
      modifies this
      ensures added <==> Strip(input) != []
      ensures added ==>
        && habits == old(habits) + [Habit(Strip(input), false)]
        && totalPages == PageCount(|habits|, HabitsPerPage)
        && currentPage == totalPages - 1
        && Habit(Strip(input), false) in PageSlice(habits, currentPage, HabitsPerPage)
      ensures !added ==>
        habits == old(habits) && currentPage == old(currentPage) && totalPages == old(totalPages)
      ensures deleteMode == old(deleteMode)
      ensures old(Valid()) ==> Valid()
    {
      var name := Strip(input);
      if name == [] {
        return false;
      }
      AppendHabit(name);
      added := true;
    }

    /** `toggle_delete_mode`. */
    method ToggleDeleteMode()
      modifies this
      ensures deleteMode == !old(deleteMode)
      ensures habits == old(habits) && currentPage == old(currentPage) && totalPages == old(totalPages)
      ensures old(Valid()) ==> Valid()
    {
      deleteMode := !deleteMode;
    }
  }
}
