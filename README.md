# HabiTrack habit tracker: the analytics and the habit-list screens, in Dafny

HabiTrack is a desktop habit tracker. This project models three parts of it:

- **The monthly progress view** (`MeynYuay/ProgressUI.py`). It reads a log of habit events (a habit name, a done flag and the time it was logged) and computes monthly figures:
  - per-day and per-habit totals, completions and completion rates;
  - the number of logged days, the mean daily rate, the total logs and the longest run of consecutive logged days;
  - each habit's current streak back from today;
  - the calendar cell colours and the pie-chart colours;
  - the rate-ordered breakdown, with its 20-cell text bars;
  - the previous-month and next-month cursor.
- **The habit-list screen** (`Habits_/Habits.py`). It keeps a list of habit names in `habits.csv`, five to a page, with add, delete, paging, delete mode and "record" (which merges the list into the file).
- **The main screen** (`MeynYuay/MainUI.py`). It keeps an in-memory list of habits with done checkboxes, three to a page, with add, delete, toggle and paging.

How the program's parts are represented:

- **The event store.** The SQLite table `habit_logs` becomes a sequence of `Event(name, done, day)` values. Only `DATE(logged_at)` matters to the queries.
  - `WHERE DATE(..) BETWEEN ? AND ?` is `Window`.
  - `done = 1` is `DoneOnly`.
  - `COUNT(*)` and `SUM(CASE ...)` are `Count`.
  - `GROUP BY ... ORDER BY` is `GroupBy`, under a strict total order on the keys.
- **Dates.**
  - Dates are proleptic Gregorian dates from 0001-01-01 to 9999-12-31, as Python's `datetime` has them.
  - Stepping past either end is an overflow. It gives `None`, just as Python raises `OverflowError`.
  - `replace(day=...)` on a day the month lacks gives `None`, just as Python raises `ValueError`.
- **Rates.** Rates are `real`s.
- **Python dicts.** A dict is the list of its items in insertion order (`OrderedDict`).
- **The screens.** Each screen is a class. Its fields are the module globals of the script: `habits`, `current_page`, `total_pages`, `delete_mode`, and for the habit-list screen the contents of `habits.csv`. Each event handler is a method.
- **Dialogs.** The answer to a confirmation dialog is a parameter. So is the text typed into the add dialog.
- **Time.** `datetime.now()` is a parameter.

The central invariant of both screens is `Valid()`:

- `total_pages == max(1, ceil(n / k))`;
- `0 <= current_page < total_pages`;
- on the habit-list screen, also that every name is stripped and non-empty.

Every handler preserves it.

Notes on the source:

- **Habit-list done flag.** The habit-list screen stores habits as name-only dicts, so `h.get("done")` is always `None`. Saving and recording therefore always write `False`, and the model writes `False`.
- **`prev_month` mid-month.** From the middle of a month, `prev_month` moves to the 1st of the *same* month.
- **`next_month` day overflow.** `next_month` keeps the day of the month, so it fails on a day the next month lacks (31 January, for example). The model returns `None` there and leaves the view where it was.
- **December 9999.** The month bounds of December 9999 overflow. `get_logged_dates` and `get_habit_stats` then return `{}`, and the model gives empty results.
- **Current streak.** The current streak does not remove repeated dates, so two completions on today stop the walk at 1. A walk that would step back from 0001-01-01 overflows; `calculate_habit_streaks` then returns `{}` for every habit, and so does the model.

## Model

| member | source | states |
|---|---|---|
| Dates.DaysInMonth | MeynYuay/ProgressUI.py:386-388 | Every month has 28 to 31 days; February has 29 exactly in a Gregorian leap year |
| Dates.AddDays | MeynYuay/ProgressUI.py:387 | Adding no days keeps the date, adding some lands strictly later, and from 9999-12-31 it overflows |
| Dates.NextDay | MeynYuay/ProgressUI.py:387 | The next day is the least date after `d`; there is none only after 9999-12-31 |
| Dates.PrevDay | MeynYuay/ProgressUI.py:388 | The previous day is the date whose next day is `d`; there is none only before 0001-01-01 |
| Dates.NextDayThenPrevDay | MeynYuay/ProgressUI.py:387-388 | Stepping a day forward and back returns to the same date |
| Dates.AddDaysWithinMonth | MeynYuay/ProgressUI.py:387 | Adding days that stay inside the month only raises the day number |
| Dates.AddDaysSplit | MeynYuay/ProgressUI.py:387 | Adding `a + b` days is adding `a` days, then `b` |
| Dates.MonthAfterThenBefore | MeynYuay/ProgressUI.py:630-645 | The month before the month after (y, m) is (y, m), December rolling into January of the next year |
| Dates.MonthBounds | MeynYuay/ProgressUI.py:386-388 | The bounds are the viewed month's 1st and its last calendar day; they are missing (the overflow) exactly in December 9999 |
| Dates.MonthBoundsSteps | MeynYuay/ProgressUI.py:387-388 | start + 32 days overflows only from December 9999; otherwise the day before the 1st of the month it lands in is the viewed month's last day |
| Dates.DayOrdersAreStrictTotalOrders | MeynYuay/ProgressUI.py:396 | Earlier-day and later-day are strict total orders on dates, the orders of `GROUP BY DATE` and `ORDER BY logged_at DESC` |
| Ordering.SortDistinct | MeynYuay/ProgressUI.py:496-500 | `DISTINCT ... ORDER BY` gives the strictly ascending list of exactly the input's keys |
| Ordering.StrictlyAscendingUnique | MeynYuay/ProgressUI.py:496-500 | Two strictly ascending lists with the same members are equal |
| Ordering.SortDistinctOfAscending | MeynYuay/ProgressUI.py:496-500 | Sorting a list that is already strictly ascending returns it unchanged |
| Ordering.Sort | MeynYuay/ProgressUI.py:509-512 | `ORDER BY` with duplicates gives an ascending permutation of its input |
| Text.Strip | Habits_/Habits.py:184 | `strip()` leaves a string with no whitespace at either end, no longer than its input |
| Text.StripIsSlice | Habits_/Habits.py:184 | `strip()` removes exactly a leading and a trailing run of whitespace: the result is a slice of the input with only whitespace around it |
| Text.StripOfStripped | Habits_/Habits.py:184 | A string without outer whitespace strips to itself |
| Text.StripIsIdempotent | Habits_/Habits.py:371 | Stripping twice is stripping once |
| Text.StripIsEmptyIffBlank | Habits_/Habits.py:371-374 | A name strips to nothing exactly when it is all whitespace |
| Text.NameBeforeIsStrictTotalOrder | MeynYuay/ProgressUI.py:469-470 | Code-point order on names, the order of `GROUP BY name ORDER BY name`, is a strict total order |
| Paging.PageCount | Habits_/Habits.py:189 | `max(1, ceil(n / k))`: at least one page, and n fits in the pages with the last page non-empty |
| Paging.PageOfIndex | Habits_/Habits.py:245-249 | Index i lies on page i / k, which is a valid page |
| Paging.LastIndexOnLastPage | Habits_/Habits.py:377-379 | The last habit is on the last page |
| Paging.PageSlice | Habits_/Habits.py:245-248 | `habits[p*k : p*k+k]` holds at most k habits, each at position p*k + local, and is non-empty when p*k < n |
| Paging.HabitOnItsPage | Habits_/Habits.py:245-249 | Every habit appears on its page at its offset |
| OrderedDict.Get | Habits_/Habits.py:421 | `d.get(k)` is absent exactly when k is not a key |
| OrderedDict.Put | Habits_/Habits.py:426 | `d[k] = v` keeps keys unique, keeps the key order, and appends a new key at the end |
| OrderedDict.PutGet | Habits_/Habits.py:426 | After `d[k] = v`, k holds v and every other key keeps its value |
| OrderedDict.PutAllMeaning | Habits_/Habits.py:424-426 | A batch of assignments keeps the old keys in place with the new ones after them; each assigned key holds its last value, every other key its old one |
| OrderedDict.PutAllFresh | Habits_/Habits.py:418-421 | Assigning distinct new keys to an empty dict lists them in order |
| OrderedDict.PutAllUnchanged | Habits_/Habits.py:424-426 | Assigning keys the values they already hold changes nothing |
| OrderedDict.PutAllSelf | Habits_/Habits.py:424-426 | Re-assigning every item of a duplicate-free dict to itself leaves the dict as it was |
| EventLog.Window | MeynYuay/ProgressUI.py:395 | `BETWEEN` keeps exactly the events whose day is in the inclusive range, never more events than the store |
| EventLog.WindowMultiplicity | MeynYuay/ProgressUI.py:395 | `BETWEEN` keeps every in-range event as many times as the store holds it, and no other |
| EventLog.WindowSize | MeynYuay/ProgressUI.py:392-395 | The range holds as many events as the store has events whose key marks them in range |
| EventLog.WindowCountIn | MeynYuay/ProgressUI.py:392-395 | Counting keys inside the range is counting, over the whole store, a key that also requires the range |
| EventLog.DoneOnly | MeynYuay/ProgressUI.py:393 | `done = 1` keeps exactly the completed events, never more events than the store |
| EventLog.DoneOnlyMultiplicity | MeynYuay/ProgressUI.py:393 | `done = 1` keeps every completed event as many times as the store holds it, and no other |
| EventLog.CountIn | MeynYuay/ProgressUI.py:392-393 | A count is at most the number of events and is positive exactly when some event has a matching key |
| EventLog.CountInUnion | MeynYuay/ProgressUI.py:392-396 | Counts over disjoint key sets add up |
| EventLog.CountInAll | MeynYuay/ProgressUI.py:392-396 | Counting every key counts every event |
| EventLog.DoneCountAtMostCount | MeynYuay/ProgressUI.py:392-393 | The completed count never exceeds the total |
| EventLog.WindowCount | MeynYuay/ProgressUI.py:395-396 | A day's count in the range is its count in the whole store if in range, else 0 |
| EventLog.DoneOnlyWindow | MeynYuay/ProgressUI.py:393-395 | Filtering by date range and by done commute |
| EventLog.GroupBy | MeynYuay/ProgressUI.py:391-396 | One row per key that occurs, keys strictly ascending, each row holding that key's count and completed count with 1 <= total and completed <= total |
| EventLog.RowsForSums | MeynYuay/ProgressUI.py:391-396 | The row totals over distinct keys add up to the events with those keys |
| EventLog.GroupByPartitions | MeynYuay/ProgressUI.py:391-396 | The groups partition the events: totals add up to the number of events, completions to the number completed |
| ProgressRates.CompletionRate | MeynYuay/ProgressUI.py:401 | The rate is 0 without events and otherwise satisfies rate * total = 100 * completed |
| ProgressRates.RateBands | MeynYuay/ProgressUI.py:401 | Rate 100 iff completed = total, >= 50 iff 2c >= t, > 75 iff 4c > 3t, > 0 iff c > 0, and within [0, 100] |
| ProgressRates.HexIsInjective | MeynYuay/ProgressUI.py:218-229 | Distinct colours have distinct hex codes, so gray never coincides with the 0% colour |
| ProgressRates.DayColour | MeynYuay/ProgressUI.py:218-231 | A calendar day is gray exactly when it has no entry |
| ProgressRates.PieColour | MeynYuay/ProgressUI.py:595-604 | A wedge is never gray; it is green exactly at 100% and red exactly at 0% or below |
| ProgressRates.DayColourBands | MeynYuay/ProgressUI.py:218-225 | Calendar colour: green iff all done, yellow iff at least half but not all, light red iff under half, never gray |
| ProgressRates.PieColourBands | MeynYuay/ProgressUI.py:595-604 | Pie colour partition: green iff all, light red iff over 3/4, yellow iff half to 3/4, dark orange iff some under half, red iff none |
| ProgressRates.Repeat | MeynYuay/ProgressUI.py:373 | `c * n` has max(n, 0) copies of c |
| ProgressRates.FilledCells | MeynYuay/ProgressUI.py:371-372 | `int(20 * rate / 100)` is the whole part of 20 * rate / 100: at most 20 for a rate up to 100, never positive for a negative rate |
| ProgressRates.ProgressBar | MeynYuay/ProgressUI.py:371-373 | For a rate in [0, 100] the bar has 20 cells, of which exactly the first `FilledCells(rate)` are full |
| ProgressRates.ProgressBarCells | MeynYuay/ProgressUI.py:371-373 | The bar has 20 cells, the first 20c/t filled and the rest light |
| ProgressAggregates.CollectEntries | MeynYuay/ProgressUI.py:399-407 | The result-dict loop turns each row into an entry with its completion rate |
| ProgressAggregates.MonthWindowNameCount | MeynYuay/ProgressUI.py:463-470 | A name's rows and completed rows in the month's range are its rows and completed rows of that month in the whole table |
| ProgressAggregates.MonthWindowSize | MeynYuay/ProgressUI.py:390-396 | The month's range holds as many rows, and completed rows, as the whole table has in that month |
| ProgressAggregates.LoggedDates | MeynYuay/ProgressUI.py:380-413 | `{}` in December 9999; every entry has a positive total, at most that many completions and their completion rate in [0, 100] |
| ProgressAggregates.HabitStats | MeynYuay/ProgressUI.py:453-487 | `{}` in December 9999; every entry has a positive total, at most that many completions and their completion rate in [0, 100] |
| ProgressAggregates.GetLoggedDates | MeynYuay/ProgressUI.py:380-413 | `get_logged_dates` equals the per-day grouping of the month's events |
| ProgressAggregates.GetHabitStats | MeynYuay/ProgressUI.py:453-487 | `get_habit_stats` equals the per-name grouping of the month's events |
| ProgressAggregates.InMonthBounds | MeynYuay/ProgressUI.py:386-395 | A date is in the month's range exactly when it has the viewed year and month |
| ProgressAggregates.EntriesOfGroups | MeynYuay/ProgressUI.py:399-407 | Every grouped entry has 1 <= total, completed <= total, rate in [0, 100] and rate 100 iff completed = total |
| ProgressAggregates.Lookup | MeynYuay/ProgressUI.py:217-218 | A key lookup fails exactly when the key is absent and otherwise returns that key's entry |
| ProgressAggregates.LookupGroup | MeynYuay/ProgressUI.py:399-407 | Looking up a key gives nothing when it has no events, else its total, completed count and rate |
| ProgressAggregates.LoggedDatesKeys | MeynYuay/ProgressUI.py:380-413 | The logged days are ascending and are exactly the viewed month's days with an event |
| ProgressAggregates.LoggedDay | MeynYuay/ProgressUI.py:390-396 | A date is a key of the per-day dict exactly when it is in the viewed month and something was logged on it |
| ProgressAggregates.LoggedDatesEntries | MeynYuay/ProgressUI.py:390-407 | Each day's entry is well formed and counts that day's events and completions |
| ProgressAggregates.LookupLoggedDay | MeynYuay/ProgressUI.py:214-218 | A day of the viewed month is listed exactly when it has events, with its counts and rate |
| ProgressAggregates.HabitStatsKeys | MeynYuay/ProgressUI.py:463-481 | The habits listed are in name order and are exactly those with an event in the viewed month |
| ProgressAggregates.HabitStatsEntries | MeynYuay/ProgressUI.py:463-481 | Each habit's entry is well formed and its total and completed count are its rows and completed rows of the viewed month in the whole table |
| ProgressAggregates.HabitStatsEntry | MeynYuay/ProgressUI.py:463-481 | The same two counts for one entry |
| ProgressMonthly.BestStreak | MeynYuay/ProgressUI.py:432-444 | The streak loop returns the length of the longest run of consecutive days, between 1 and the number of days |
| ProgressMonthly.CalculateMonthlyStats | MeynYuay/ProgressUI.py:415-451 | All zeros without logged days; otherwise days logged, the mean of the daily rates, the sum of daily totals and the longest run |
| ProgressMonthly.SumRatesBounds | MeynYuay/ProgressUI.py:426 | Rates in [0, 100] sum to at most 100 per day |
| ProgressMonthly.SumTotalsOfEntries | MeynYuay/ProgressUI.py:427 | Summing entry totals sums the row totals |
| ProgressMonthly.MonthlyAverageBounds | MeynYuay/ProgressUI.py:426 | The average completion lies in [0, 100] |
| ProgressMonthly.MonthlyTotalLogs | MeynYuay/ProgressUI.py:427 | Total logs equals the number of rows of the whole table logged in the viewed month |
| ProgressMonthly.BestStreakExample | MeynYuay/ProgressUI.py:432-444 | Days 1, 2, 3, 5 have longest run 3 |
| ProgressStreaks.DaysBeforeThenAddDays | MeynYuay/ProgressUI.py:528 | Going k days back and k days forward returns to today |
| ProgressStreaks.DoneDaysOf | MeynYuay/ProgressUI.py:506-514 | The dates are exactly the days the habit was completed |
| ProgressStreaks.DoneDaysCount | MeynYuay/ProgressUI.py:506-514 | One date per completed event of the habit, repeats kept |
| ProgressStreaks.CompletedDays | MeynYuay/ProgressUI.py:512-514 | The completed dates, latest first, as a permutation of the completion days |
| ProgressStreaks.StreakWalk | MeynYuay/ProgressUI.py:515-531 | The streak is 0 exactly when there are no dates or the latest is not today, and never exceeds the number of dates |
| ProgressStreaks.CurrentStreak | MeynYuay/ProgressUI.py:522-531 | The walk loop computes the streak walk from today |
| ProgressStreaks.StreakWalkMeaning | MeynYuay/ProgressUI.py:516-533 | 0 unless the latest date is today; otherwise the longest prefix equal to today, today-1, ..., at most the number of dates; overflow only after matching 0001-01-01 |
| ProgressStreaks.DaysBeforeStepsBack | MeynYuay/ProgressUI.py:528 | Successive expected dates differ |
| ProgressStreaks.RepeatedDayEndsWalk | MeynYuay/ProgressUI.py:522-531 | A date repeated at positions k and k+1 stops the streak at k+1 or less |
| ProgressStreaks.StreakExamples | MeynYuay/ProgressUI.py:522-531 | 10, 9, 8, 6 from the 10th gives 3; 10, 10, 9 gives 1; a latest date of the 9th gives 0 |
| ProgressStreaks.HabitNames | MeynYuay/ProgressUI.py:496-502 | The habit names are distinct, in name order, exactly those in the log |
| ProgressStreaks.StreakTable | MeynYuay/ProgressUI.py:489-540 | The whole table is lost exactly when some habit's walk overflows; otherwise one entry per habit, in name order, holding its walk |
| ProgressStreaks.CalculateHabitStreaks | MeynYuay/ProgressUI.py:489-540 | The per-habit loop gives the streak table, or nothing on overflow |
| ProgressViews.CalendarCellColour | MeynYuay/ProgressUI.py:214-231 | A day of the viewed month is gray iff it has no events, else green, yellow or light red by its completion |
| ProgressViews.CellColour | MeynYuay/ProgressUI.py:214-231 | A cell is gray exactly when its day is not a key of the per-day dict |
| ProgressViews.InsertByRate | MeynYuay/ProgressUI.py:358-360 | Inserting into the rate order adds exactly one entry |
| ProgressViews.SortByRateDesc | MeynYuay/ProgressUI.py:358-360 | The stable descending sort is a permutation |
| ProgressViews.InsertByRateRanked | MeynYuay/ProgressUI.py:358-360 | Insertion keeps rate-descending order, ties by name |
| ProgressViews.SortByRateDescRanked | MeynYuay/ProgressUI.py:358-360 | From name order, the stable sort is by rate descending, ties in name order |
| ProgressViews.SortByRateDescMembers | MeynYuay/ProgressUI.py:358-360 | The sort keeps exactly the entries and their number |
| ProgressViews.LineNames | MeynYuay/ProgressUI.py:371 | The names of the breakdown lines, in order |
| ProgressViews.BreakdownOf | MeynYuay/ProgressUI.py:346-378 | The message appears exactly for an empty dict; otherwise there is one line per habit |
| ProgressViews.MonthlyPie | MeynYuay/ProgressUI.py:542-606 | No chart exactly for an empty dict; otherwise one wedge per habit |
| ProgressViews.SliceNames | MeynYuay/ProgressUI.py:606 | The names on the wedges, in order |
| ProgressViews.MonthlyPieSlices | MeynYuay/ProgressUI.py:589-608 | The pie is drawn exactly when the breakdown is a table; its wedges are the breakdown lines in the same order, each sized by its rate and coloured `PieColour(rate)` |
| ProgressViews.WedgesFollowLines | MeynYuay/ProgressUI.py:589-608 | Wedges made line by line from ranked lines are ranked, coloured by their band and carry the lines' names |
| ProgressViews.MonthPieSlices | MeynYuay/ProgressUI.py:542-608 | The month's wedges are ranked by rate then name, each coloured by its band, and name exactly the habits logged in the viewed month |
| ProgressViews.BreakdownEmpty | MeynYuay/ProgressUI.py:352-353 | "No habits logged" appears exactly when no event falls in the viewed month |
| ProgressViews.BreakdownTable | MeynYuay/ProgressUI.py:354-372 | Lines are ordered by rate, ties by name, hold exactly the habits, and each has a 20-cell bar filled to 20c/t |
| ProgressViews.BreakdownLines | MeynYuay/ProgressUI.py:346-378 | The breakdown lists exactly the month's habits in rate order with their counts and bars |
| ProgressViews.SumsOfEntries | MeynYuay/ProgressUI.py:551-552 | The pie totals sum the per-habit rows |
| ProgressViews.MonthlyPieTotals | MeynYuay/ProgressUI.py:544-553 | The pie's totals are the whole table's rows and completed rows of the viewed month, completed <= logged, and its overall rate is their rate |
| ProgressCursor.PrevMonthOf | MeynYuay/ProgressUI.py:630-633 | Lands on day 1: of the previous month from the 1st, of the same month otherwise; only 0001-01-01 overflows |
| ProgressCursor.NextMonthOf | MeynYuay/ProgressUI.py:637-645 | The next month with the same day; fails when that day does not exist there or the year would pass 9999 |
| ProgressCursor.PrevThenNextFromFirst | MeynYuay/ProgressUI.py:630-645 | From a 1st, previous month then next month returns to the start |
| ProgressCursor.ProgressView.constructor | MeynYuay/ProgressUI.py:27 | The view starts on the given now |
| ProgressCursor.ProgressView.PrevMonth | MeynYuay/ProgressUI.py:630-635 | Moves the cursor to the previous-month date, or leaves it on overflow |
| ProgressCursor.ProgressView.NextMonth | MeynYuay/ProgressUI.py:637-647 | Moves the cursor to the next-month date, or leaves it when `replace` fails |
| HabitsCsv.ColumnIndex | Habits_/Habits.py:178 | The first column with the given header, or none |
| HabitsCsv.CellOr | Habits_/Habits.py:419 | `row.get(c, default)`: the default without a column c, else the cell under the first column named c |
| HabitsCsv.NameColumn | Habits_/Habits.py:178-182 | Names come from the `name` column if there is one, else from the first column |
| HabitsCsv.StripAll | Habits_/Habits.py:184 | Each name is replaced, in place, by its stripped form |
| HabitsCsv.NonBlank | Habits_/Habits.py:185-186 | Keeps only non-empty names, each from the input |
| HabitsCsv.NormalizeNames | Habits_/Habits.py:183-188 | Loaded names are stripped and non-empty |
| HabitsCsv.NonBlankAppend | Habits_/Habits.py:183-188 | Filtering a concatenation filters each part |
| HabitsCsv.NormalizeNamesAppend | Habits_/Habits.py:183-188 | Loading keeps the file order |
| HabitsCsv.NonBlankMembers | Habits_/Habits.py:185-186 | The filter keeps exactly the non-empty names |
| HabitsCsv.NormalizeNamesMembers | Habits_/Habits.py:183-188 | A loaded name is exactly a file name that is non-blank, stripped |
| HabitsCsv.NonBlankOfNonEmpty | Habits_/Habits.py:185-186 | Filtering non-empty names changes nothing |
| HabitsCsv.NormalizeNamesOfLoaded | Habits_/Habits.py:183-188 | Loading names that are already stripped and non-empty returns them unchanged |
| HabitsCsv.NormalizeNamesStep | Habits_/Habits.py:183-187 | One more file name adds its stripped form when it is non-empty |
| HabitsCsv.LoadedNames | Habits_/Habits.py:170-226 | The loaded list is stripped and non-empty, and empty without a readable file |
| HabitsCsv.SavedTable | Habits_/Habits.py:228-236 | The file saved has the habit names, in order, in its `name` column and `False` in every `done` cell |
| HabitsCsv.ReadNames | Habits_/Habits.py:183-188 | The loading loop computes the names a load of that table gives |
| HabitsCsv.LoadAfterSave | Habits_/Habits.py:228-238 | Loading the file just saved gives back the habit list |
| HabitsCsv.ExistingStatus | Habits_/Habits.py:414-421 | The existing statuses have unique names |
| HabitsCsv.RowItems | Habits_/Habits.py:418-419 | One item per row; with a `name` column the keys are the rows' names in file order |
| HabitsCsv.StatusTable | Habits_/Habits.py:428-433 | Reading back the written `name,done` table gives the dict that was written |
| HabitsCsv.RecordedTable | Habits_/Habits.py:414-433 | The file written by a record reads back as the merge of the old statuses with the current habits |
| HabitsCsv.ReadExisting | Habits_/Habits.py:416-421 | The row loop builds the existing name-to-status dict |
| HabitsCsv.LastValueOfHabitItems | Habits_/Habits.py:425-426 | The merge loop assigns `False` to exactly the current habits |
| HabitsCsv.MergedStatus | Habits_/Habits.py:424-426 | The merged dict has unique names |
| HabitsCsv.Merge | Habits_/Habits.py:424-426 | The merge loop computes the merged dict |
| HabitsCsv.RecordedStatus | Habits_/Habits.py:414-433 | Recording keeps every stored name in place, appends new habits, lists each name once, sets current habits to `False` and keeps other names' statuses |
| HabitsCsv.RecordThenLoad | Habits_/Habits.py:414-433 | After recording, loading the file finds every current habit |
| HabitsCsv.RecordAfterSave | Habits_/Habits.py:228-238 | Recording a duplicate-free list right after saving it rewrites the same file |
| HabitsScreen.FontSize | Habits_/Habits.py:279-283 | 40 iff the name has at most 10 characters, otherwise in [20, 35], and 20 iff 40 or more characters |
| HabitsScreen.FontSizeNonIncreasing | Habits_/Habits.py:279-283 | A longer name never gets a larger font |
| HabitsScreen.HabitsScreen.constructor | Habits_/Habits.py:161-164 | Start-up loads the file's names on page 0, not in delete mode, with the invariant holding |
| HabitsScreen.HabitsScreen.LoadHabitsCsv | Habits_/Habits.py:170-226 | Loads the names, recounts the pages and clamps the page after a read |
| HabitsScreen.HabitsScreen.ShowLoaded | Habits_/Habits.py:188-191 | After a read the list is the loaded names, the pages are recounted and the page is clamped to the last one, keeping the invariant |
| HabitsScreen.HabitsScreen.Render | Habits_/Habits.py:241-288 | Rows are exactly the current page's slice, with global index, font size and delete button; never empty on a valid page of a non-empty list |
| HabitsScreen.HabitsScreen.UpdatePageLabel | Habits_/Habits.py:302-305 | Recounts the pages and shows page+1 of total, which on a valid screen changes nothing |
| HabitsScreen.HabitsScreen.GoPrev | Habits_/Habits.py:307-311 | Decrements only above page 0; keeps the invariant |
| HabitsScreen.HabitsScreen.GoNext | Habits_/Habits.py:313-317 | Increments only below the last page; keeps the invariant |
| HabitsScreen.HabitsScreen.AskDelete | Habits_/Habits.py:261-272 | Out of range or declined changes nothing; otherwise removes exactly that habit, saves, recounts and clamps the page |
| HabitsScreen.HabitsScreen.AppendHabit | Habits_/Habits.py:377-381 | Appends the name, saves the list, recounts the pages and shows the last page, which holds the name |
| HabitsScreen.HabitsScreen.SaveAndClose | Habits_/Habits.py:370-382 | A blank name changes nothing; otherwise it is appended stripped, saved, and the last page, which holds it, shown |
| HabitsScreen.HabitsScreen.ToggleDeleteMode | Habits_/Habits.py:391-395 | Flips delete mode and nothing else, so doing it twice restores it |
| HabitsScreen.HabitsScreen.RecordHabits | Habits_/Habits.py:400-438 | No habits or a declined dialog writes nothing; otherwise the file becomes the merge of its statuses with the current habits |
| HabitsScreen.DeleteLastOnPageMovesBack | Habits_/Habits.py:268-270 | Deleting the lone habit of the last page removes that page |
| MainScreen.DoneCount | MeynYuay/MainUI.py:171-177 | Counts the ticked habits; 0 exactly when none is done |
| MainScreen.DoneCountFlip | MeynYuay/MainUI.py:176 | Flipping one habit moves the done count by exactly one |
| MainScreen.SampleDoneCount | MeynYuay/MainUI.py:12-20 | Three of the seven sample habits start done |
| MainScreen.MainScreen.constructor | MeynYuay/MainUI.py:12-24 | The seven sample habits on three pages, page 0 shown, delete mode off |
| MainScreen.MainScreen.Render | MeynYuay/MainUI.py:97-182 | Rows are exactly the current page's slice with global index, checkbox state and delete button |
| MainScreen.MainScreen.UpdatePageLabel | MeynYuay/MainUI.py:217-220 | Recounts the pages and shows page+1 of total, which on a valid screen changes nothing |
| MainScreen.MainScreen.GoPrev | MeynYuay/MainUI.py:222-226 | Decrements only above page 0; keeps the invariant |
| MainScreen.MainScreen.GoNext | MeynYuay/MainUI.py:228-232 | Increments only below the last page; keeps the invariant |
| MainScreen.MainScreen.AskDelete | MeynYuay/MainUI.py:129-142 | Out of range or declined changes nothing; otherwise removes exactly that habit, recounts and clamps the page |
| MainScreen.MainScreen.Toggle | MeynYuay/MainUI.py:171-180 | Only outside delete mode and in range, flips exactly habit gi's done flag |
| MainScreen.MainScreen.AppendHabit | MeynYuay/MainUI.py:297-302 | Appends the habit not done, recounts the pages and shows the last page, which holds it |
| MainScreen.MainScreen.SaveAndClose | MeynYuay/MainUI.py:286-303 | A blank name changes nothing; otherwise appends it stripped and not done, then shows the last page, which holds it |
| MainScreen.MainScreen.ToggleDeleteMode | MeynYuay/MainUI.py:314-318 | Flips delete mode and nothing else, so doing it twice restores it |

## Left out

- **The SQLite connection and the `except` branches.** These cover a missing database, a query error and the like. Each query is modelled on an in-memory event sequence that is always readable.
- **`datetime.now()`.** It is the "today" and "now" parameter. The time of day is dropped, because only `DATE(logged_at)` is queried.
- **`GROUP BY DATE(logged_at)` output order.** It is taken as ascending by date, as SQLite produces it. Only `calculate_monthly_stats` depends on it, and it sorts the keys again.
- **Floating point.** Rates are exact reals. This leaves out the float rounding of `completed / total * 100`, the rounding of `int(20 * rate / 100)`, and the `:.0f`/`:.1f` formatting.
- **`calendar.monthcalendar` (`MeynYuay/ProgressUI.py:203`).** Its weekday layout of the calendar is left out. The model gives the colour of each day of the month.
- **Drawing.** This covers the tkinter widgets, images and bindings, and the matplotlib drawing of the pies (angles, shadows, label text, percentages). The pie's totals, overall rate and the wedges (name, rate and colour, in order) are modelled.
- **The day-click path.** `get_logs_for_specific_date` never assigns its result and so always returns `[]`. `handle_day_click` does nothing, and `open_day_detail` only displays. None of this computes anything.
- **Malformed timestamps.** Every event's day is taken to be a well-formed date. A NULL or malformed `DATE(logged_at)` would make `strptime` raise at `MeynYuay/ProgressUI.py:515`, and `calculate_habit_streaks` would then return `{}`.
- **Year padding.** `strftime` pads years below 1000 on some platforms only. The model compares dates as values, not as strings.
- **pandas parsing details.** Quoting, duplicate headers and short rows are left out. A successfully read CSV file is a table whose rows are all as wide as its header. A missing or unreadable file is `None`.
- **The legacy fallback of `load_habits_csv` (`Habits_/Habits.py:196-222`).** It rereads the same path as the master file, so it can only repeat the first attempt's outcome.
- **Failed writes.** The error dialogs of `save_habits_csv` and `record_habits` are left out; writes always succeed.
- **Dialogs and labels.** The confirmation text, success messages and the `Cancel`/`Delete` button caption are left out.
- **`go_back` and `subprocess`.** Launching the login screen is left out.
- **The `record_habits` placeholder of the main screen (`MeynYuay/MainUI.py:323-324`).** It only shows a message.
- **Other files.** `Habits_/Debugging.py` and `MeynYuay/Inspect.py` only print query results. The static `MainUI/build/assets/frame0/MainUI.py` and the login screens hold no habit logic.
- HabitsScreen.HabitsScreen.Render: models the rows, not the `update_page_label` call at its end. That call is `UpdatePageLabel`, which changes nothing on a valid screen.
- MainScreen.MainScreen.Render: models the rows, not the `update_page_label` call at its end. That call is `UpdatePageLabel`, which changes nothing on a valid screen.
