/** The month view: the 42-day grid around the active month, the tasks of
    the month grouped by date key, what each day cell shows, and the
    previous/next month buttons. */
module MonthlyCalendar {
  import opened Wrappers
  import opened Seqs
  import opened Civil
  import opened DateFormat
  import opened TaskModel
  import opened TaskView

  /** `sameDay(a, b)`: equal year, month and day of the month. */
  predicate SameDay(a: int, b: int)
  {
    FullYear(a) == FullYear(b) && MonthIndex(a) == MonthIndex(b) && DayOfMonth(a) == DayOfMonth(b)
  }

  /** Two days agree on all three getters exactly when they are the same day. */
  lemma SameDayIff(a: int, b: int)
    ensures SameDay(a, b) <==> a == b
  {
    var da, db := CivilFromDays(a), CivilFromDays(b);
    if SameDay(a, b) {
      assert da == db;
    }
  }

  /** `startDay`: the Sunday on or before the first of the active month. */
  function GridStart(activeMonth: int): int
  {
    WeekStart(FirstOfMonth(activeMonth))
  }

  /** The `days` loop: 42 consecutive days from `startDay`, each made by
      `setDate(startDay.getDate() + i)` on a copy of `startDay`. */
  method BuildGrid(activeMonth: int) returns (days: seq<int>)
    ensures |days| == 42
    ensures forall k :: 0 <= k < 42 ==> days[k] == GridStart(activeMonth) + k
  {
    var first := FirstOfMonth(activeMonth);
    var startDay := SetDate(first, DayOfMonth(first) - Weekday(first));
    days := [];
    var i := 0;
    while i < 42
      invariant 0 <= i <= 42 && |days| == i
      invariant forall k :: 0 <= k < i ==> days[k] == startDay + k
    {
      SetDateShift(startDay, i);
      var d := SetDate(startDay, DayOfMonth(startDay) + i);
      days := days + [d];
      i := i + 1;
    }
  }

  /** The grid starts on a Sunday and contains every day of the active month. */
  lemma GridCoversMonth(activeMonth: int, n: int)
    requires FullYear(n) == FullYear(activeMonth) && MonthIndex(n) == MonthIndex(activeMonth)
    ensures Weekday(GridStart(activeMonth)) == 0
    ensures GridStart(activeMonth) <= n < GridStart(activeMonth) + 42
  {
    var first := FirstOfMonth(activeMonth);
    FirstOfMonthProps(activeMonth);
    FirstOfMonthProps(n);
    assert FirstOfMonth(n) == first;
    WeekStartSunday(first);
  }

  /** `grouped` holds, for every non-empty key, the tasks of `tasks` with
      that key in order, and no empty bucket and no empty key. */
  ghost predicate GroupedAs(grouped: map<string, seq<Task>>, tasks: seq<Task>)
  {
    "" !in grouped
    && (forall k :: k in grouped ==> grouped[k] != [])
    && (forall k :: k != "" ==> Lookup(grouped, k) == Filter(tasks, HasKey(k)))
  }

  /** One step of the loop: append `t` to its bucket unless its key is empty. */
  function AddToGroup(grouped: map<string, seq<Task>>, t: Task): map<string, seq<Task>>
  {
    var key := NormalizeDateKey(t.date);
    if key == "" then grouped else grouped[key := Lookup(grouped, key) + [t]]
  }

  lemma AddToGroupStep(grouped: map<string, seq<Task>>, tasks: seq<Task>, t: Task)
    requires GroupedAs(grouped, tasks)
    ensures GroupedAs(AddToGroup(grouped, t), tasks + [t])
  {
    forall k | k != ""
      ensures Lookup(AddToGroup(grouped, t), k) == Filter(tasks + [t], HasKey(k))
    {
      AddToGroupKey(grouped, tasks, t, k);
    }
  }

  /** One bucket of `AddToGroupStep`. */
  lemma AddToGroupKey(grouped: map<string, seq<Task>>, tasks: seq<Task>, t: Task, k: string)
    requires k != "" && Lookup(grouped, k) == Filter(tasks, HasKey(k))
    ensures Lookup(AddToGroup(grouped, t), k) == Filter(tasks + [t], HasKey(k))
  {
    FilterAppend(tasks, t, HasKey(k));
  }

  lemma GroupedAsEmpty(tasks: seq<Task>)
    ensures GroupedAs(map[], tasks[..0])
  {
    assert tasks[..0] == [];
  }

  /** The body of the `map` loop for one task: a task with an empty date key
      is skipped; otherwise its bucket is created on first use and the task
      pushed onto it. */
  method PushByDate(grouped: map<string, seq<Task>>, t: Task) returns (g: map<string, seq<Task>>)
    ensures g == AddToGroup(grouped, t)
  {
    g := grouped;
    var key := NormalizeDateKey(t.date);
    if key != "" {
      if key !in g {
        g := g[key := []];
      }
      g := g[key := g[key] + [t]];
    }
  }

  /** The `map` loop over the month's tasks. */
  method GroupByDate(tasks: seq<Task>) returns (grouped: map<string, seq<Task>>)
    ensures "" !in grouped
    ensures forall k :: k in grouped ==> grouped[k] != []
    ensures forall k :: k != "" ==> Lookup(grouped, k) == Bucket(tasks, k)
  {
    grouped := map[];
    var i := 0;
    GroupedAsEmpty(tasks);
    while i < |tasks|
      invariant 0 <= i <= |tasks|
      invariant GroupedAs(grouped, tasks[..i])
    {
      ghost var before := grouped;
      grouped := PushByDate(grouped, tasks[i]);
      AddToGroupStep(before, tasks[..i], tasks[i]);
      PrefixExtend(tasks, i);
      i := i + 1;
    }
    assert tasks[..|tasks|] == tasks;
  }

  /** What one grid cell shows. `more` is the `+N more` button, if any. */
  datatype Cell = Cell(
    key: string,
    isCurrentMonth: bool,
    isSelected: bool,
    tasks: seq<Task>,
    shown: seq<Task>,
    more: Option<nat>,
    hasPending: bool,
    hasInProgress: bool,
    hasCompleted: bool,
    hasOverdue: bool)

  /** `tasks.slice(0, 3)`: the tasks listed in a cell. */
  function Preview(tasks: seq<Task>): (shown: seq<Task>)
    ensures |shown| <= 3 && |shown| <= |tasks| && shown == tasks[..|shown|]
    ensures |tasks| <= 3 ==> shown == tasks
    ensures |tasks| > 3 ==> |shown| == 3
  {
    if |tasks| <= 3 then tasks else tasks[..3]
  }

  /** The `+N more` button: present exactly when more than three tasks
      exist, and N counts the tasks not listed. */
  function MoreButton(tasks: seq<Task>): (more: Option<nat>)
    ensures more.Some? <==> |tasks| > 3
    ensures more.Some? ==> |Preview(tasks)| + more.value == |tasks|
  {
    if |tasks| > 3 then Some(|tasks| - 3) else None
  }

  /** `tasks.some((t) => t.status === s)`: a dot for status `s`. */
  function StatusDot(tasks: seq<Task>, s: string): (shown: bool)
    ensures shown <==> Count(tasks, HasStatus(s)) > 0
  {
    AnyIffCount(tasks, HasStatus(s));
    Any(tasks, HasStatus(s))
  }

  /** `sameDay(day, selected)`, with `None` for an invalid selected date. */
  function IsSelected(day: int, selected: Option<int>): (b: bool)
    ensures b <==> selected == Some(day)
  {
    match selected
    case Some(sel) => SameDayIff(day, sel); SameDay(day, sel)
    case None => false
  }

  /** The cell of `day`: its tasks are the bucket of its formatted date. */
  function DayCell(grouped: map<string, seq<Task>>, day: int, activeMonth: int, selected: Option<int>): (c: Cell)
  {
    var tasks := Lookup(grouped, Fmt(day));
    Cell(
      Fmt(day),
      MonthIndex(day) == MonthIndex(activeMonth),
      IsSelected(day, selected),
      tasks,
      Preview(tasks),
      MoreButton(tasks),
      StatusDot(tasks, "pending"),
      StatusDot(tasks, "inprogress"),
      StatusDot(tasks, "completed"),
      StatusDot(tasks, "overdue"))
  }

  /** A cell of the grid built from the month's tasks lists that day's tasks,
      in their order in the month list. */
  lemma CellListsDayTasks(tasks: seq<Task>, grouped: map<string, seq<Task>>, day: int, activeMonth: int, selected: Option<int>)
    requires forall k :: k != "" ==> Lookup(grouped, k) == Bucket(tasks, k)
    ensures DayCell(grouped, day, activeMonth, selected).tasks == Bucket(tasks, Fmt(day))
  {
    FmtNonEmpty(day);
  }

  /** A formatted date is never the empty key. */
  lemma FmtNonEmpty(n: int)
    ensures Fmt(n) != ""
  {
    assert |Fmt(n)| >= 2;
  }

  /** `noResults`: a non-blank search and an empty month list. */
  predicate NoResults(search: string, monthTasks: seq<Task>)
  {
    Searching(search) && |monthTasks| == 0
  }

  /** `goPrev`: `setMonth(getMonth() - 1)` on a copy, then the first of the
      month reached. */
  function PrevMonth(activeMonth: int): int
  {
    FirstOfMonth(SetMonth(activeMonth, MonthIndex(activeMonth) - 1))
  }

  /** `goNext`: `setMonth(getMonth() + 1)` on a copy, then the first of the
      month reached. */
  function NextMonth(activeMonth: int): int
  {
    FirstOfMonth(SetMonth(activeMonth, MonthIndex(activeMonth) + 1))
  }

  /** `new Date(y, mi, day)` for a month index one off a valid date's: the
      year is carried across December/January and the day is kept. */
  lemma MakeDayNextTo(c: Civil.Date, k: int)
    requires IsValid(c) && c.day <= 28 && -1 <= k <= 1
    ensures var mi := c.month - 1 + k;
      var r := MakeDay(c.year, mi, c.day);
      FullYear(r) == c.year + mi / 12 && MonthIndex(r) == mi % 12 && DayOfMonth(r) == c.day
  {
    var mi := c.month - 1 + k;
    var d := Civil.Date(c.year + mi / 12, mi % 12 + 1, c.day);
    MonthCarry(mi);
    assert IsValid(d);
    assert MakeDay(c.year, mi, c.day) == DaysFromCivil(d);
    GettersOfValid(d);
  }

  /** A month index one outside 0..11 carries into the neighbouring year. */
  lemma MonthCarry(mi: int)
    requires -1 <= mi <= 12
    ensures mi == -1 ==> mi / 12 == -1 && mi % 12 == 11
    ensures mi == 12 ==> mi / 12 == 1 && mi % 12 == 0
    ensures 0 <= mi < 12 ==> mi / 12 == 0 && mi % 12 == mi
  {
  }

  /** Moving the month of `n` by `k` months (`k` in -1..1) keeps the day when
      the day is at most 28, carrying the year across December/January. */
  lemma SetMonthShift(n: int, k: int)
    requires -1 <= k <= 1 && DayOfMonth(n) <= 28
    ensures var mi := MonthIndex(n) + k;
      var r := SetMonth(n, mi);
      FullYear(r) == FullYear(n) + mi / 12 && MonthIndex(r) == mi % 12
      && DayOfMonth(r) == DayOfMonth(n)
  {
    var c := CivilFromDays(n);
    assert SetMonth(n, MonthIndex(n) + k) == MakeDay(c.year, c.month - 1 + k, c.day);
    MakeDayNextTo(c, k);
  }

  /** `goPrev` from a day up to the 28th lands on the first of the previous
      month, wrapping January to December of the year before. */
  lemma PrevMonthProps(activeMonth: int)
    requires DayOfMonth(activeMonth) <= 28
    ensures var r := PrevMonth(activeMonth);
      DayOfMonth(r) == 1
      && (if MonthIndex(activeMonth) == 0
          then FullYear(r) == FullYear(activeMonth) - 1 && MonthIndex(r) == 11
          else FullYear(r) == FullYear(activeMonth) && MonthIndex(r) == MonthIndex(activeMonth) - 1)
  {
    SetMonthShift(activeMonth, -1);
    FirstOfMonthProps(SetMonth(activeMonth, MonthIndex(activeMonth) - 1));
  }

  /** `goNext` from a day up to the 28th lands on the first of the next
      month, wrapping December to January of the year after. */
  lemma NextMonthProps(activeMonth: int)
    requires DayOfMonth(activeMonth) <= 28
    ensures var r := NextMonth(activeMonth);
      DayOfMonth(r) == 1
      && (if MonthIndex(activeMonth) == 11
          then FullYear(r) == FullYear(activeMonth) + 1 && MonthIndex(r) == 0
          else FullYear(r) == FullYear(activeMonth) && MonthIndex(r) == MonthIndex(activeMonth) + 1)
  {
    SetMonthShift(activeMonth, 1);
    FirstOfMonthProps(SetMonth(activeMonth, MonthIndex(activeMonth) + 1));
  }

  /** From the first of a month, `goNext` undoes `goPrev` and vice versa. */
  lemma PrevNextInverse(activeMonth: int)
    requires DayOfMonth(activeMonth) == 1
    ensures NextMonth(PrevMonth(activeMonth)) == activeMonth
    ensures PrevMonth(NextMonth(activeMonth)) == activeMonth
  {
    PrevMonthProps(activeMonth);
    NextMonthProps(activeMonth);
    NextMonthProps(PrevMonth(activeMonth));
    PrevMonthProps(NextMonth(activeMonth));
    SameDayIff(NextMonth(PrevMonth(activeMonth)), activeMonth);
    SameDayIff(PrevMonth(NextMonth(activeMonth)), activeMonth);
  }
}
