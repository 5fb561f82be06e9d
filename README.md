# task-calendar, modelled in Dafny

task-calendar is a small calendar for tasks. An Express/Mongoose backend
stores task records and answers three read queries: the tasks of one date,
of one calendar month, and of an inclusive date range. It also creates,
updates and deletes tasks. A React frontend shows the tasks in month, week
and day views. It has a case-insensitive search, status and type filters,
per-status counts, a `Today`/`Tomorrow`/`Yesterday` label, and an add/edit
dialog.

This project models that core:

- `TaskModel` (`task_model.dfy`): the `Task` schema. It has the required
  fields, the status and type enums, the defaults, and what `Task.create`
  checks and fills in.
- `TaskRoutes` (`task_routes.dfy`): the five `/api/tasks` handlers.
  - The read handlers are pure functions over a sequence of tasks: they
    filter by comparing date strings, then sort.
  - The collection is a `TaskStore` class whose `Create`, `Update` and
    `Delete` methods change it in place.
- `Civil` (`civil.dfy`): JavaScript `Date` objects as day numbers over the
  proleptic Gregorian calendar.
  - It has days-from-civil and civil-from-days, which are proved inverse.
  - It models the getters, `setDate`, `setMonth` and `new Date(y, m, d)` with
    their month/day roll-over, and `getDay` with Sunday as 0.
- `DateFormat` (`date_format.dfy`): `pad`, `fmt`, date-only parsing and
  `normalizeDateKey`.
  - For four-digit years, comparing formatted dates as strings agrees with
    calendar order.
  - Formatting and parsing undo each other.
- `App` (`app.dfy`): the page.
  - Its untrimmed `matchesSearch`, the month/week/day filters and the stats.
  - The week and month fetch parameters, which are proved to fetch exactly
    the week's and the month's formatted dates.
  - The selected-date / active-month state, as the `CalendarView` class.
- `MonthlyCalendar`, `WeeklyCalendar`, `DailyCalendar`
  (`monthly_calendar.dfy`, `weekly_calendar.dfy`, `daily_calendar.dfy`): the
  three views.
  - The month view has the 42-day grid, the week view the 7-day strip; both
    are built by loops.
  - The grouping loops fill a `map` from date key to bucket.
  - Each view has its cell contents, the trimmed search, and its
    empty-result messages.
- `Header` (`header.dfy`): `formatDDMMYYYY` and `getDateLabel`. The current
  day is a parameter.
- `TaskModal` (`task_modal.dfy`): the add/edit form.
  - The form is a `TaskForm` class holding the six fields.
  - `Load` models the effect that fills the fields from the edited task, with
    fallbacks.
  - It models the save gate, the payload, create-versus-update, and the
    delete guard.
- `Seqs`, `Strings`, `Wrappers`: `filter`, counts, subsequences, string
  order, `padStart`, `trim`, `toLowerCase`, `includes`, `split` and
  `Option`/`Result`.

A JavaScript `Date` is its day number: the count of days since 1 January of
year 0. Times of day and time zones are not modelled. A stored field the
frontend reads as `task.x || ""` is always a string, with "" standing for
missing.

## Model

| member | source | states |
|---|---|---|
| `TaskModel.ValidationErrors` | backend/models/Task.js:5-22 | a path is reported exactly when its validator fails: title, date, startTime and endTime when absent or "", status and type when present but not in their enum |
| `TaskModel.ErrorList` | backend/models/Task.js:5-22 | each path is listed exactly when its own check fails, whatever the other checks give |
| `TaskModel.Cast` | backend/models/Task.js:3-25 | `Task.create` fails exactly when some validator fails, with those paths; otherwise the record is valid, gets the given id and both timestamps set to `now` |
| `TaskModel.MissingRequiredRejected` | backend/models/Task.js:5-10 | a body lacking title, date, startTime or endTime is rejected |
| `TaskModel.CastStoresFields` | backend/models/Task.js:5-22 | on success, the supplied strings are stored as given; description defaults to "", status to "pending", type to "other" |
| `TaskModel.CastInputOf` | backend/models/Task.js:3-25 | re-creating a task from its own fields succeeds exactly when the task is valid, and then gives it back up to the timestamps |
| `TaskRoutes.Insert` | backend/routes/taskRoutes.js:45 | inserting into a list adds exactly that task to its multiset |
| `TaskRoutes.InsertSorted` | backend/routes/taskRoutes.js:45 | inserting into a sorted list keeps it sorted |
| `TaskRoutes.Sort` | backend/routes/taskRoutes.js:22 | `.sort(...)` yields a sorted permutation of its input |
| `TaskRoutes.OnDate` | backend/routes/taskRoutes.js:22 | `find({ date })` keeps every task whose date string equals the query, as often as stored, in order, and no other |
| `TaskRoutes.Between` | backend/routes/taskRoutes.js:61-63 | `$gte`/`$lte` keeps exactly the tasks whose date string lies in the window, in order |
| `TaskRoutes.InWindow` | backend/routes/taskRoutes.js:61-63 | the `$gte`/`$lte` test: the date string sorts between the two bounds as strings, both included; `InWindowEmpty` and `IsoMonthWindow` state what it admits |
| `TaskRoutes.DateQuery` | backend/routes/taskRoutes.js:17-27 | a missing or empty date gives the 400 error; otherwise the tasks with exactly that date, sorted by start time |
| `TaskRoutes.MonthQuery` | backend/routes/taskRoutes.js:30-51 | a missing year or month gives the 400 error; otherwise the tasks whose date lies between `y-MM-01` and `y-MM-31`, sorted by date then start time |
| `TaskRoutes.MonthStart` | backend/routes/taskRoutes.js:40 | the lower bound `${y}-MM-01`, with the month padded but not range-checked; `MonthWindowIsIsoDates` ties it to `fmt` |
| `TaskRoutes.MonthEnd` | backend/routes/taskRoutes.js:41 | the upper bound `${y}-MM-31` for every month alike; `MonthWindowMembership` shows that it still admits exactly that month's formatted dates |
| `TaskRoutes.RangeQuery` | backend/routes/taskRoutes.js:54-69 | a missing start or end gives the 400 error; otherwise the tasks with `start <= date <= end` as strings, sorted by date then start time |
| `TaskRoutes.MonthWindowIsIsoDates` | backend/routes/taskRoutes.js:40-41 | the month window's bounds are the first and the thirty-first of the month as `fmt` would write them |
| `TaskRoutes.MonthWindowMembership` | backend/routes/taskRoutes.js:40-45 | for a four-digit year and a month below 100, a formatted date lies in the month window exactly when it is in that year and month; a month outside 1..12 admits no formatted date |
| `TaskRoutes.IsoMonthWindow` | backend/routes/taskRoutes.js:40-45 | the month window admits exactly the `Y-MM-DD` strings of that year and month |
| `TaskRoutes.InWindowEmpty` | backend/routes/taskRoutes.js:61-63 | a window whose end sorts before its start admits nothing |
| `TaskRoutes.RangeQueryReversed` | backend/routes/taskRoutes.js:54-69 | `start > end` gives an empty list, not an error |
| `TaskRoutes.IndexOf` | backend/routes/taskRoutes.js:74 | finds the position of the task with that id, or reports that no task has it |
| `TaskRoutes.ApplyPatch` | backend/routes/taskRoutes.js:74-76 | the body's present fields overwrite the task's, the rest are kept, id and createdAt kept, updatedAt refreshed |
| `TaskRoutes.ApplyPatchIdempotent` | backend/routes/taskRoutes.js:74-76 | applying the same body twice at the same time equals applying it once |
| `TaskRoutes.ApplyPatchKeepsValid` | backend/routes/taskRoutes.js:74-76 | a body whose present fields each pass their validator keeps a valid task valid |
| `TaskRoutes.ApplyPatchSkipsValidation` | backend/routes/taskRoutes.js:74-76 | the update runs no validator: it can store an empty title and an unlisted status that `create` rejects |
| `TaskRoutes.Without` | backend/routes/taskRoutes.js:86 | removes every task with that id and keeps every other task, in order |
| `TaskRoutes.SubsequenceIdsFresh` | backend/routes/taskRoutes.js:86 | removing tasks keeps ids distinct and below the next fresh id |
| `TaskRoutes.TaskStore.constructor` | backend/routes/taskRoutes.js:1-4 | the collection starts empty with distinct fresh ids |
| `TaskRoutes.TaskStore.Create` | backend/routes/taskRoutes.js:7-14 | a valid body is appended under a fresh id and answered with 201; an invalid one with 400 and the store unchanged |
| `TaskRoutes.TaskStore.Update` | backend/routes/taskRoutes.js:72-81 | the task with that id is patched and returned, all other tasks are unchanged; an unknown id changes nothing and answers `null` with 200 |
| `TaskRoutes.TaskStore.Delete` | backend/routes/taskRoutes.js:84-91 | afterwards no task has that id, the others stay in order, and the reply is the success message whether or not the id existed |
| `Civil.DaysBeforeNextYear` | frontend/src/App.jsx:21-25 | consecutive years start exactly one year length apart (the leap-year rule) |
| `Civil.CivilFromDays` | frontend/src/App.jsx:21-25 | `getFullYear`/`getMonth`/`getDate` read the one valid civil date with that day number |
| `Civil.CivilFromDaysExists` | frontend/src/App.jsx:21-25 | every day number has a valid civil date |
| `Civil.CivilRoundTrip` | frontend/src/App.jsx:21-25 | civil-from-days undoes days-from-civil on every valid date |
| `Civil.DaysFromCivilOrder` | frontend/src/App.jsx:21-25 | day numbers run in calendar order |
| `Civil.DaysFromCivilInjective` | frontend/src/App.jsx:21-25 | no two valid dates share a day number |
| `Civil.SetDateShift` | frontend/src/App.jsx:89-90 | `setDate(getDate() + k)` moves exactly `k` days, across month and year ends |
| `Civil.GettersOfValid` | frontend/src/App.jsx:21-25 | the getters of a valid date's day number give back its year, month and day |
| `Civil.WeekStartShift` | frontend/src/App.jsx:86-87 | `setDate(getDate() - getDay())` goes back exactly `getDay()` days |
| `Civil.WeekStartSunday` | frontend/src/App.jsx:86-87 | that day is a Sunday, on or before the date, less than a week back |
| `Civil.SundayOnOrBefore` | frontend/src/components/WeeklyCalendar.jsx:19-20 | going back `getDay()` days always lands on a Sunday |
| `Civil.Weekday` | frontend/src/components/WeeklyCalendar.jsx:20 | `getDay()` is in 0..6 |
| `Civil.MakeDayShiftValid` | frontend/src/components/WeeklyCalendar.jsx:22-27 | `new Date(y, m - 1, d + k)` from a valid date is `k` days after it, with no bound on `k` |
| `Civil.FirstOfMonthProps` | frontend/src/App.jsx:34-37 | `new Date(getFullYear(), getMonth(), 1)` is day 1 of the same year and month, `getDate() - 1` days back |
| `Civil.MakeDay` | frontend/src/components/Header.jsx:16 | `new Date(y, monthIndex, day)`: the month index is carried into the year and the day counts from the first of that month, so out-of-range values roll over; `MakeDayShiftValid` and `MakeDayNextTo` state the roll-over |
| `Civil.SetDate` | frontend/src/App.jsx:87 | `setDate(day)` on a copy: the same year and month with the day rolled over; `SetDateShift` proves it moves by the day difference |
| `Civil.SetMonth` | frontend/src/components/MonthlyCalendar.jsx:110 | `setMonth(monthIndex)` on a copy, keeping the day of the month; `SetMonthShift` states it for days up to the 28th |
| `Civil.FirstOfMonth` | frontend/src/App.jsx:34-37 | `new Date(getFullYear(), getMonth(), 1)`; `FirstOfMonthProps` states its year, month and day |
| `Civil.WeekStart` | frontend/src/App.jsx:86-87 | `setDate(getDate() - getDay())` on a copy; `WeekStartShift` and `WeekStartSunday` state what it is |
| `DateFormat.Pad2Fixed` | frontend/src/App.jsx:17-19 | `pad(n)` for `n` in 0..99 is its two-digit numeral |
| `DateFormat.Pad2` | frontend/src/App.jsx:17-19 | `String(n).padStart(2, "0")`; `Pad2Fixed` states its value for 0..99 |
| `DateFormat.IsoDate` | frontend/src/App.jsx:21-25 | the template `${y}-${pad(m)}-${pad(d)}`; `IsoDateFixed` and `IsoDateOrder` state its form and its order |
| `DateFormat.Fmt` | frontend/src/App.jsx:21-25 | `fmt(d)`: the local year, month and day of `d` in that template; `FmtShape`, `FmtOrder`, `ParseFmt` and `FmtParse` state its form, order and inverse |
| `DateFormat.ParseIsoDate` | frontend/src/App.jsx:84 | `new Date("YYYY-MM-DD")`: that calendar day for a four-digit year and a valid date, otherwise invalid; `ParseFmt` and `FmtParse` make it the inverse of `fmt` |
| `DateFormat.IsoDateFixed` | frontend/src/App.jsx:21-25 | `fmt` with a four-digit year and two-digit fields is the fixed `YYYY-MM-DD` form |
| `DateFormat.IsoDateOrder` | frontend/src/App.jsx:21-25 | for such fields, the formatted strings compare as (year, month, day) triples, and are equal only for equal triples |
| `DateFormat.FmtOrder` | frontend/src/App.jsx:92-94 | for four-digit years, `fmt` strings compare exactly as the days do |
| `DateFormat.FmtShape` | frontend/src/App.jsx:21-25 | a formatted date with a four-digit year has ten characters, dashes at 4 and 7, and the three padded fields |
| `DateFormat.ParseFmt` | frontend/src/App.jsx:84 | `new Date(fmt(d))` is `d` again for a four-digit year |
| `DateFormat.FmtParse` | frontend/src/App.jsx:84 | a string that parses as a date with a four-digit year is what `fmt` prints for that date |
| `DateFormat.NormalizeDateKey` | frontend/src/components/MonthlyCalendar.jsx:52-57 | "" exactly for an empty value, otherwise its first ten characters (all of it when shorter) |
| `DateFormat.NormalizeFmt` | frontend/src/components/WeeklyCalendar.jsx:1-6 | a formatted date is its own key |
| `DateFormat.NormalizeTimestamp` | frontend/src/components/DailyCalendar.jsx:1-6 | a timestamp starting with a formatted date is keyed by that date |
| `App.AppMatchImpliesTrimmed` | frontend/src/App.jsx:53-62 | whatever the page's untrimmed search keeps, the views' trimmed search keeps too |
| `App.AppMatchesTrimmedSearch` | frontend/src/App.jsx:53-62 | for a search without surrounding white space the two searches agree |
| `App.AppMatchesTrailingSpace` | frontend/src/App.jsx:54-55 | "work " misses a task of type "work" on the page, although the views' trimmed search matches it |
| `App.AppMatches` | frontend/src/App.jsx:53-62 | the page's `matchesSearch`: a blank search matches all, otherwise a lowercased field contains the lowercased, untrimmed search; related to the views' search by the three lemmas above |
| `App.TrailingSpaceMisses` | frontend/src/App.jsx:53-62 | for every trimmed query found in a task and every white-space character that no field of the task holds, the query followed by that character misses the task on the page but matches it in the views |
| `App.FilteredMonthTasks` | frontend/src/App.jsx:109-115 | keeps exactly the occurrences that pass the status filter, the type filter and the search, in order |
| `App.FilteredMonthTasksIdentity` | frontend/src/App.jsx:111-113 | both filters "all" and a blank search keep the whole month list |
| `App.MonthNoResultsIffNoMatch` | frontend/src/components/MonthlyCalendar.jsx:121 | given the list the page passes, the month view's "No tasks matched" shows exactly when a search is typed and no task of the month passes the filters and the search |
| `App.SearchFiltered` | frontend/src/App.jsx:117-125 | the week and day lists keep exactly the occurrences the search matches, in order |
| `App.SearchFilteredPassesTrimmed` | frontend/src/App.jsx:117-125 | every task the page passes to a view passes that view's own search |
| `App.ComputeStats` | frontend/src/App.jsx:128-136 | total is the list length; each status count is the number of tasks with that status; the four counts plus the unlisted ones make the total |
| `App.StatusCountsPartition` | frontend/src/App.jsx:129-133 | every task falls under exactly one of the four statuses or none |
| `App.StatsAddUp` | frontend/src/App.jsx:128-136 | for schema-valid tasks the four counts add up to the total |
| `App.WeekRange` | frontend/src/App.jsx:84-90 | `start` is the Sunday on or before the selected day and `end` is six days later |
| `App.WeekBounds` | frontend/src/App.jsx:92-94 | the range parameters are the formatted `start` and `end` of the week |
| `App.WeekParams` | frontend/src/App.jsx:83-94 | an unparsable selected date sends `NaN-NaN-NaN` for both bounds |
| `App.WeekParamsOfParsed` | frontend/src/App.jsx:83-94 | a selected date that parses as day `n` sends the week bounds of `n` |
| `App.WeekParamsOfFmt` | frontend/src/App.jsx:83-94 | for a formatted selected date the bounds are its week's formatted Sunday and Saturday |
| `App.WeekParamsAdmit` | frontend/src/App.jsx:83-94 | those bounds admit exactly the formatted days of that Sunday-to-Saturday week |
| `App.WeekFetchListsWeek` | frontend/src/App.jsx:83-97 | the week request returns, sorted, every task dated with a formatted day of the week and none dated with another formatted day |
| `App.RangeFetch` | frontend/src/App.jsx:92-94 | a range request with both bounds given lists a task as often as it is stored exactly when it passes the window |
| `App.MonthParams` | frontend/src/App.jsx:71-77 | the month parameter is 1-based, in 1..12 |
| `App.MonthFetchListsMonth` | frontend/src/App.jsx:71-80 | the month request returns, sorted, every task dated with a formatted day of the active month and no other formatted day |
| `App.CalendarView.constructor` | frontend/src/App.jsx:30-37 | the selected date is today's key and the active month is the first of today's month |
| `App.CalendarView.SelectFromHeader` | frontend/src/App.jsx:147-151 | the selected date is set as given and the active month becomes the first of its month, or invalid when it does not parse |
| `App.CalendarView.SelectDay` | frontend/src/App.jsx:198 | the raw setter changes the selected date only |
| `App.CalendarView.AddTaskOn` | frontend/src/App.jsx:202-203 | a non-empty date key becomes the selected date; the active month is untouched |
| `App.CalendarView.GoPrev` | frontend/src/components/MonthlyCalendar.jsx:108-112 | the active month becomes the first of the previous month, and stays the first of a month |
| `App.CalendarView.GoNext` | frontend/src/components/MonthlyCalendar.jsx:114-118 | the active month becomes the first of the next month, and stays the first of a month |
| `MonthlyCalendar.SameDayIff` | frontend/src/components/MonthlyCalendar.jsx:14-20 | `sameDay` holds exactly for the same day |
| `MonthlyCalendar.SameDay` | frontend/src/components/MonthlyCalendar.jsx:14-20 | `sameDay`: equal year, month and day getters; `SameDayIff` proves it is day equality |
| `MonthlyCalendar.GridStart` | frontend/src/components/MonthlyCalendar.jsx:79-86 | `startDay`: the week start of the first of the active month; `GridCoversMonth` states it is a Sunday and the grid covers the month |
| `MonthlyCalendar.BuildGrid` | frontend/src/components/MonthlyCalendar.jsx:79-93 | the grid is 42 consecutive days from the Sunday on or before the first of the month |
| `MonthlyCalendar.GridCoversMonth` | frontend/src/components/MonthlyCalendar.jsx:79-93 | the grid starts on a Sunday and contains every day of the active month |
| `MonthlyCalendar.AddToGroupStep` | frontend/src/components/MonthlyCalendar.jsx:99-104 | one loop step keeps every non-empty key's bucket equal to that key's tasks so far, in order |
| `MonthlyCalendar.PushByDate` | frontend/src/components/MonthlyCalendar.jsx:100-103 | the loop body skips an empty key, creates a missing bucket, and appends the task |
| `MonthlyCalendar.GroupByDate` | frontend/src/components/MonthlyCalendar.jsx:97-106 | no empty key and no empty bucket; each non-empty key's bucket is that key's tasks in order |
| `MonthlyCalendar.Preview` | frontend/src/components/MonthlyCalendar.jsx:271 | a cell lists the first three tasks, or all of them when fewer |
| `MonthlyCalendar.MoreButton` | frontend/src/components/MonthlyCalendar.jsx:305-316 | "+N more" appears exactly when there are more than three tasks, with N the tasks not listed |
| `MonthlyCalendar.StatusDot` | frontend/src/components/MonthlyCalendar.jsx:205-208 | a status dot shows exactly when some task of the day has that status |
| `MonthlyCalendar.IsSelected` | frontend/src/components/MonthlyCalendar.jsx:198 | a cell is highlighted exactly when it is the selected day |
| `MonthlyCalendar.CellListsDayTasks` | frontend/src/components/MonthlyCalendar.jsx:200-201 | a cell lists that day's tasks, in list order |
| `MonthlyCalendar.DayCell` | frontend/src/components/MonthlyCalendar.jsx:196-208 | one cell: its `fmt` key, whether it is in the active month, whether selected, its tasks, the preview, the more button and the four status dots; each part is stated by the rows above |
| `MonthlyCalendar.NoResults` | frontend/src/components/MonthlyCalendar.jsx:121 | `noResults`: a non-blank search and an empty month list; `App.MonthNoResultsIffNoMatch` states when that happens |
| `MonthlyCalendar.SetMonthShift` | frontend/src/components/MonthlyCalendar.jsx:110 | `setMonth(getMonth() ± 1)` on a day up to the 28th keeps the day and carries the year across December/January |
| `MonthlyCalendar.MakeDayNextTo` | frontend/src/components/MonthlyCalendar.jsx:110-116 | `new Date(y, m ± 1, d)` for a day up to the 28th reads back as that day in the neighbouring month, the year carried |
| `MonthlyCalendar.PrevMonthProps` | frontend/src/components/MonthlyCalendar.jsx:108-112 | `goPrev` lands on the first of the previous month, wrapping January to December of the year before |
| `MonthlyCalendar.NextMonthProps` | frontend/src/components/MonthlyCalendar.jsx:114-118 | `goNext` lands on the first of the next month, wrapping December to January of the year after |
| `MonthlyCalendar.PrevMonth` | frontend/src/components/MonthlyCalendar.jsx:108-112 | `goPrev`: `setMonth(getMonth() - 1)` on a copy, then the first of the month reached; stated by `PrevMonthProps` |
| `MonthlyCalendar.NextMonth` | frontend/src/components/MonthlyCalendar.jsx:114-118 | `goNext`: `setMonth(getMonth() + 1)` on a copy, then the first of the month reached; stated by `NextMonthProps` |
| `MonthlyCalendar.PrevNextInverse` | frontend/src/components/MonthlyCalendar.jsx:108-118 | from the first of a month, `goNext` undoes `goPrev` and vice versa |
| `WeeklyCalendar.WeekDays` | frontend/src/components/WeeklyCalendar.jsx:17-27 | seven consecutive days from the Sunday on or before the selected date, which they contain |
| `WeeklyCalendar.WeekFiltered` | frontend/src/components/WeeklyCalendar.jsx:30-43 | keeps exactly the occurrences the trimmed search matches, in order |
| `WeeklyCalendar.NoResults` | frontend/src/components/WeeklyCalendar.jsx:46 | `noResults`: a non-blank search that leaves nothing |
| `WeeklyCalendar.NoResultsIffNoMatch` | frontend/src/components/WeeklyCalendar.jsx:30-46 | "No tasks matched" shows exactly when a search is typed and no task of the week list matches it |
| `WeeklyCalendar.RefilterKeepsAll` | frontend/src/components/WeeklyCalendar.jsx:43 | applied to the list the page hands over, the view's search removes nothing |
| `WeeklyCalendar.AddToBucketStep` | frontend/src/components/WeeklyCalendar.jsx:50-54 | one loop step keeps every key's bucket, the empty key included, equal to that key's tasks so far |
| `WeeklyCalendar.PushByKey` | frontend/src/components/WeeklyCalendar.jsx:51-53 | the loop body creates a missing bucket and appends the task, empty key included |
| `WeeklyCalendar.GroupByKey` | frontend/src/components/WeeklyCalendar.jsx:49-54 | no empty bucket; every key's bucket is that key's tasks in order |
| `WeeklyCalendar.TaskInItsColumn` | frontend/src/components/WeeklyCalendar.jsx:112-114 | a task dated with a formatted day of the week is listed in that day's column and in no other |
| `WeeklyCalendar.Column` | frontend/src/components/WeeklyCalendar.jsx:112-114 | `grouped[fmt(d)]`, or no tasks: the bucket of the day's formatted date; `TaskInItsColumn` states which tasks it holds |
| `TaskView.BlankSearchMatchesAll` | frontend/src/components/WeeklyCalendar.jsx:31-32 | a search that is blank after trimming matches every task |
| `TaskView.TrimmedMatchesNonBlank` | frontend/src/components/DailyCalendar.jsx:16-26 | otherwise a task matches exactly when a lowercased field contains the trimmed, lowercased query |
| `TaskView.TrimmedMatches` | frontend/src/components/WeeklyCalendar.jsx:30-40 | the views' `matchesSearch`: an empty trimmed, lowercased query matches all, otherwise some lowercased field contains it; stated by the two rows above |
| `TaskView.MatchesQuery` | frontend/src/components/WeeklyCalendar.jsx:34-39 | some of title, description, type and status, lowercased, contains the query |
| `TaskView.Bucket` | frontend/src/components/DailyCalendar.jsx:29-31 | keeps exactly the occurrences whose date key is the given one, in order |
| `TaskView.BucketAppend` | frontend/src/components/WeeklyCalendar.jsx:50-54 | one more task extends only its own key's bucket |
| `TaskView.BucketsDisjoint` | frontend/src/components/WeeklyCalendar.jsx:49-54 | no task is in two buckets |
| `DailyCalendar.FilteredToday` | frontend/src/components/DailyCalendar.jsx:29-34 | keeps exactly the occurrences with the selected date key that pass the trimmed search, in order |
| `DailyCalendar.BlankSearchKeepsDay` | frontend/src/components/DailyCalendar.jsx:17-18 | a blank search keeps all of the selected date's tasks |
| `DailyCalendar.EmptyMessagesExclusive` | frontend/src/components/DailyCalendar.jsx:37-121 | an empty list shows exactly one of the two messages: the no-match message (the `noResults` flag of line 37) or "No tasks for this day." (the condition of line 119); a non-empty list shows neither |
| `DailyCalendar.NoResults` | frontend/src/components/DailyCalendar.jsx:37 | `noResults`: a non-blank search and nothing left |
| `DailyCalendar.ShowEmptyMessage` | frontend/src/components/DailyCalendar.jsx:119 | "No tasks for this day.": nothing left and an empty trimmed search |
| `DailyCalendar.NoResultsIffNoMatch` | frontend/src/components/DailyCalendar.jsx:29-37 | "No tasks matched" shows exactly when a search is typed and no task of the day list has the selected key and matches it |
| `DailyCalendar.DayListKeyedBySelected` | frontend/src/App.jsx:64-67 | the fetched day list passes the view's key test entirely when the selected date has at most ten characters, and not at all otherwise |
| `DailyCalendar.SameDateBucket` | frontend/src/components/DailyCalendar.jsx:29-31 | a list all dated with the same string is kept whole by that string's key when it has at most ten characters, and dropped otherwise |
| `Header.FormatDashed` | frontend/src/components/Header.jsx:1-5 | `Y-M-D` is shown as `D M Y` |
| `Header.FormatFmt` | frontend/src/components/Header.jsx:1-5 | a formatted date is shown as `DD MM YYYY` |
| `Header.FormatWithoutDash` | frontend/src/components/Header.jsx:3-4 | a value without a dash is shown after two `undefined` fields |
| `Header.FormatDDMMYYYY` | frontend/src/components/Header.jsx:1-5 | "" for an empty value, otherwise the first three dash-separated fields in reverse order; stated by the three rows above |
| `Header.JsNumber` | frontend/src/components/Header.jsx:15 | `Number(part)` of a dash-free field is, in the model, a number exactly for a digit string, 0 for "", and reads back as the field |
| `Header.SelectedDay` | frontend/src/components/Header.jsx:15-16 | `split("-").map(Number)` then `new Date(y, m - 1, d)`; `SelectedDayOfFmt` states it reads a formatted date back |
| `Header.DayOfParts` | frontend/src/components/Header.jsx:15-16 | invalid when a field is missing or not a number, otherwise `new Date(y, m - 1, d)` of the three numbers |
| `Header.SelectedDayOfFmt` | frontend/src/components/Header.jsx:15-16 | a formatted date is read back as its own day |
| `Header.Midnight` | frontend/src/components/Header.jsx:12-13 | the identity: a day number carries no time of day, so `setHours(0, 0, 0, 0)` has nothing to clear |
| `Header.DateLabel` | frontend/src/components/Header.jsx:11-24 | "Today", "Tomorrow" and "Yesterday" exactly for a selected day 0, +1 and -1 days from today; none otherwise or for an invalid date |
| `Header.LabelOfDay` | frontend/src/components/Header.jsx:16-23 | the label of a parsed day: "Today", "Tomorrow", "Yesterday" exactly for 0, +1, -1 days from today; none for any other day or an invalid date |
| `Header.LabelOfDiff` | frontend/src/components/Header.jsx:20-23 | the label of a day difference: 0, 1 and -1 only |
| `Header.LabelOfFmt` | frontend/src/components/Header.jsx:11-24 | a formatted date is labelled by how many days it lies from today |
| `TaskModal.TaskForm.constructor` | frontend/src/components/TaskModal.jsx:8-15 | the form starts empty with 09:00, 10:00, "pending" and "other" |
| `TaskModal.TaskForm.Load` | frontend/src/components/TaskModal.jsx:17-33 | no edited task resets the defaults; an edited task's fields are copied, each falling back to its default when empty |
| `TaskModal.TaskForm.Type` | frontend/src/components/TaskModal.jsx:106-143 | typing changes that one field only |
| `TaskModal.TaskForm.ChooseStatus` | frontend/src/components/TaskModal.jsx:153-162 | picking a status changes the status only, to a listed value |
| `TaskModal.TaskForm.ChooseKind` | frontend/src/components/TaskModal.jsx:167-177 | picking a type changes the type only, to a listed value |
| `TaskModal.TaskForm.Payload` | frontend/src/components/TaskModal.jsx:38-46 | the payload carries the six form fields and the dialog's date |
| `TaskModal.TaskForm.Save` | frontend/src/components/TaskModal.jsx:35-53 | a title blank after trimming is refused; otherwise a PUT to the edited task's id when editing, else a POST, with the payload |
| `TaskModal.TaskForm.PostAccepted` | frontend/src/components/TaskModal.jsx:35-53 | a complete, non-refused new task is accepted by the schema and stored with the form's fields and the dialog's date |
| `TaskModal.EditWritesSelectedDate` | frontend/src/components/TaskModal.jsx:38-50 | saving a loaded edit writes the dialog's date over the task's own; all other fields come back as they were |
| `TaskModal.DeleteTarget` | frontend/src/components/TaskModal.jsx:63-70 | a delete is sent only for an edited task and a confirmed prompt, to its id |
| `Strings.JoinSplit` | frontend/src/components/Header.jsx:3 | joining the parts of `split` with the same separator gives the string back |
| `Strings.Split` | frontend/src/components/Header.jsx:3 | `split` gives at least one part and no part contains the separator |
| `Strings.PadStart` | frontend/src/App.jsx:17-19 | `padStart` fills on the left up to the width and keeps the string as its tail |
| `Strings.Lower` | frontend/src/App.jsx:55-60 | `toLowerCase` keeps the length and lowers each character |
| `Strings.TrimStart` | frontend/src/App.jsx:54 | drops exactly the leading white space |
| `Strings.TrimEnd` | frontend/src/App.jsx:54 | drops exactly the trailing white space |
| `Strings.TrimTrailingSpace` | frontend/src/App.jsx:54 | `trim()` of a string that neither starts nor ends with white space, followed by one white-space character, is that string |
| `Strings.ContainsNeedsChar` | frontend/src/App.jsx:57-60 | `includes` fails when the needle holds a character the haystack lacks |
| `Strings.TrimEmptyIffBlank` | frontend/src/App.jsx:54 | `trim()` is empty exactly for a blank string |
| `Strings.ContainsTrim` | frontend/src/components/WeeklyCalendar.jsx:31 | the trimmed string occurs inside the original |
| `Seqs.FilterSpec` | frontend/src/App.jsx:109-125 | `filter` keeps each element as often as it occurs exactly when it passes |
| `Seqs.FilterIsSubsequence` | frontend/src/App.jsx:109-125 | `filter` keeps the order of what it keeps |
| `Seqs.FilterFilter` | frontend/src/components/DailyCalendar.jsx:29-34 | filtering twice is filtering once by both tests |
| `Seqs.EmptyIffNonePass` | frontend/src/App.jsx:109-125 | a filtered list is empty exactly when no element passes |

## Left out

- Time zones and times of day. `new Date("YYYY-MM-DD")` reads UTC midnight but the getters read local time; the model reads both as the same civil day.
- `toISOString`. It sets the initial selected date (`App.jsx:31`), so the model starts from `fmt(today)` instead. It is also the non-string branch of `normalizeDateKey`, so date keys are modelled for string dates only, and in `toYYYYMMDD`, which the header never calls.
- `new Date(string)` is modelled for the date-only `YYYY-MM-DD` form with a four-digit year. Any other string is an invalid date.
- `DateFormat.ParseIsoDate`: a calendar-invalid day such as `2021-02-31` is an invalid date in the model. Engines differ here: V8 rolls it over to 3 March, Firefox gives Invalid Date.
- The `Date` range limit is not modelled. A time value is bounded to ±8.64e15 ms (years -271821..275760); past it, `new Date(y, m, d)`, `setDate` and `setMonth` give an Invalid Date and `fmt` prints `NaN-NaN-NaN`. `Civil.MakeDay`, `Civil.SetDate` and `Civil.SetMonth` work on unbounded day numbers.
- `MonthlyCalendar.BuildGrid`, `MonthlyCalendar.DayCell`, `WeeklyCalendar.WeekDays` and `WeeklyCalendar.Column` take a valid day only. Clearing the header's date input makes the selected date "" and the active month an Invalid Date. The month view then shows 42 cells keyed `NaN-NaN-NaN`, none in the current month and none selected. The week view shows seven columns keyed `NaN-NaN-NaN`. The week fetch sends `NaN-NaN-NaN` for both bounds (`App.WeekParams`), so a task stored with that date would be listed in all seven columns. The model keeps the invalid state (`App.CalendarView` holds `None`) but states nothing about what the views render from it.
- `DateFormat.NormalizeDateKey` counts characters as Unicode code points. JavaScript's `slice(0, 10)` counts UTF-16 code units, so a date whose first ten code units end inside a surrogate pair (`"2024-03-1😀"`) is keyed differently: nine characters and a lone high surrogate in JavaScript, all ten code points in the model. Neither key equals a formatted date, so no view shows such a task in a day cell either way.
- `Header.JsNumber` reads only digit strings and "" as numbers. JavaScript's `Number()` also reads leading or trailing white space, a sign, a fraction, an exponent, hexadecimal and `Infinity`, which the model reads as NaN. The page passes the header only date-input values and `fmt` output, which are digit fields.
- `new Date(y, m, d)` maps years 0..99 to 1900..1999; the model does not. It matters only for dates before year 100.
- Floating-point milliseconds in `getDateLabel`. The difference is modelled as a whole number of days, which `Math.round` gives when there is no time of day and no daylight-saving shift.
- `Number()` on the month query's `year` and `month`. They are integers in the model. A non-numeric value (NaN in the window strings) and an array-valued query parameter are not modelled.
- The 500 replies of the read handlers, and the 400 reply of update/delete for an id that is not an ObjectId. Database failures are not modelled.
- Mongoose's error message text. A failed create carries the list of failing paths instead.
- Mongoose's cast of non-string values to String, and `null` fields. A stored field is a string, "" standing for missing.
- Which of two tasks with equal sort keys comes first. The model sorts stably; the contracts state only sortedness and permutation.
- The axios calls, React state scheduling, `alert`/`confirm`, refresh order and rendering (CSS classes, `toLocaleString` labels, the day-modal component). The fetch functions are modelled by the parameters they send.
- `toLowerCase` is modelled on ASCII letters. Other Unicode case mappings are not.
- `handleSave`'s `editTask` test is modelled as "a task is being edited". Any edited task counts as truthy.
- `TaskRoutes.TaskStore.Update` follows the code: `findByIdAndUpdate` runs no validator. So an update can store values `create` would reject; `ApplyPatchSkipsValidation` shows one.
- `App.WeekParams` states only the invalid-date case in its own contract. Its result for a parsable date is stated by `App.WeekParamsOfParsed` and `App.WeekParamsOfFmt`.
- `MonthlyCalendar.PrevMonthProps`, `MonthlyCalendar.NextMonthProps` and `App.CalendarView.GoPrev`/`GoNext` rely on the active month being day 1, which the page always sets. For days 29..31 `setMonth` can skip a month, and the model does not state that case.
