/** The top-level page: its search and filters over the fetched lists, the
    month statistics, the query parameters it fetches with, and the
    selected-date / active-month state the calendar views share. */
module App {
  import opened Wrappers
  import opened Strings
  import opened Seqs
  import opened Civil
  import opened DateFormat
  import opened TaskModel
  import opened TaskRoutes
  import opened TaskView
  import opened MonthlyCalendar

  // ---------------------------------------------------------------------------
  // Search and filters

  /** The page's `matchesSearch`: a blank search matches everything; otherwise
      the query is the lowercased search as typed, NOT trimmed. */
  predicate AppMatches(search: string, t: Task)
  {
    Trim(search) == "" || MatchesQuery(t, Lower(search))
  }

  /** `matchesSearch` as a filter predicate. */
  function AppMatch(search: string): Task -> bool
  {
    (t: Task) => AppMatches(search, t)
  }

  /** Whatever the page's search keeps, the views' trimmed search keeps too:
      the untrimmed query contains the trimmed one. */
  lemma AppMatchImpliesTrimmed(search: string, t: Task)
    ensures AppMatches(search, t) ==> TrimmedMatches(search, t)
  {
    if AppMatches(search, t) && Trim(search) != "" {
      var q := Lower(search);
      var tq := Lower(Trim(search));
      ContainsTrim(search);
      ContainsLower(search, Trim(search));
      if Contains(Lower(t.title), q) {
        ContainsTransitive(Lower(t.title), q, tq);
      } else if Contains(Lower(t.description), q) {
        ContainsTransitive(Lower(t.description), q, tq);
      } else if Contains(Lower(t.kind), q) {
        ContainsTransitive(Lower(t.kind), q, tq);
      } else {
        ContainsTransitive(Lower(t.status), q, tq);
      }
    }
  }

  /** Without surrounding white space the two searches agree. */
  lemma AppMatchesTrimmedSearch(search: string, t: Task)
    requires Trim(search) == search
    ensures AppMatches(search, t) <==> TrimmedMatches(search, t)
  {
    if search != "" {
      assert Lower(search) != "";
    }
  }

  /** A trailing white-space character makes the page's search miss a task
      that the views' trimmed search matches, whenever the trimmed query
      occurs in one of its fields and that character occurs in none. */
  lemma TrailingSpaceMisses(w: string, c: char, t: Task)
    requires IsSpace(c) && w != [] && !IsSpace(w[0]) && !IsSpace(w[|w| - 1])
    requires c !in Lower(t.title) && c !in Lower(t.description)
    requires c !in Lower(t.kind) && c !in Lower(t.status)
    requires MatchesQuery(t, Lower(w))
    ensures !AppMatches(w + [c], t) && TrimmedMatches(w + [c], t)
  {
    var search := w + [c];
    TrimTrailingSpace(w, c);
    assert c in Lower(search) by {
      assert Lower(search)[|w|] == LowerChar(c) == c;
    }
    ContainsNeedsChar(Lower(t.title), Lower(search), c);
    ContainsNeedsChar(Lower(t.description), Lower(search), c);
    ContainsNeedsChar(Lower(t.kind), Lower(search), c);
    ContainsNeedsChar(Lower(t.status), Lower(search), c);
  }

  /** For example "work " misses a task of type "work" on the page, although
      the views' trimmed search matches it. */
  lemma AppMatchesTrailingSpace(t: Task)
    requires t.title == "" && t.description == "" && t.kind == "work" && t.status == "pending"
    ensures !AppMatches("work ", t) && TrimmedMatches("work ", t)
  {
    LowerOfLowerCase("");
    LowerOfLowerCase("work");
    LowerOfLowerCase("pending");
    assert OccursAt(Lower(t.kind), Lower("work"), 0);
    assert "work " == "work" + [' '];
    TrailingSpaceMisses("work", ' ', t);
  }

  /** A status or type filter: "all" lets everything through. */
  predicate FilterOk(filter: string, value: string)
  {
    filter == "all" || value == filter
  }

  /** The month list's test: status filter, type filter and search together. */
  predicate MonthPasses(statusFilter: string, typeFilter: string, search: string, t: Task)
  {
    FilterOk(statusFilter, t.status) && FilterOk(typeFilter, t.kind) && AppMatches(search, t)
  }

  function MonthFilter(statusFilter: string, typeFilter: string, search: string): Task -> bool
  {
    (t: Task) => MonthPasses(statusFilter, typeFilter, search, t)
  }

  /** `filteredMonthTasks`: the month tasks passing both filters and the
      search, every occurrence kept, in their order. */
  function FilteredMonthTasks(monthTasks: seq<Task>, statusFilter: string, typeFilter: string, search: string): (r: seq<Task>)
    ensures forall t :: multiset(r)[t] == if MonthPasses(statusFilter, typeFilter, search, t) then multiset(monthTasks)[t] else 0
    ensures IsSubsequence(r, monthTasks)
  {
    var p := MonthFilter(statusFilter, typeFilter, search);
    FilterSpec(monthTasks, p);
    FilterIsSubsequence(monthTasks, p);
    Filter(monthTasks, p)
  }

  /** With both filters on "all" and a blank search nothing is filtered out. */
  lemma FilteredMonthTasksIdentity(monthTasks: seq<Task>, search: string)
    requires IsBlank(search)
    ensures FilteredMonthTasks(monthTasks, "all", "all", search) == monthTasks
  {
    TrimEmptyIffBlank(search);
    FilterAllPass(monthTasks, MonthFilter("all", "all", search));
  }

  /** The month view's "No tasks matched your search" shows exactly when a
      search is typed and no task of the month passes the filters and the
      page's search. */
  lemma MonthNoResultsIffNoMatch(monthTasks: seq<Task>, statusFilter: string, typeFilter: string, search: string)
    ensures MonthlyCalendar.NoResults(search, FilteredMonthTasks(monthTasks, statusFilter, typeFilter, search))
        <==> Searching(search)
             && forall t :: t in monthTasks ==> !MonthPasses(statusFilter, typeFilter, search, t)
  {
    EmptyIffNonePass(FilteredMonthTasks(monthTasks, statusFilter, typeFilter, search), monthTasks,
      MonthFilter(statusFilter, typeFilter, search));
  }

  /** `filteredWeekTasks` / `filteredDayTasks`: the tasks the search keeps. */
  function SearchFiltered(tasks: seq<Task>, search: string): (r: seq<Task>)
    ensures forall t :: multiset(r)[t] == if AppMatches(search, t) then multiset(tasks)[t] else 0
    ensures IsSubsequence(r, tasks)
  {
    FilterSpec(tasks, AppMatch(search));
    FilterIsSubsequence(tasks, AppMatch(search));
    Filter(tasks, AppMatch(search))
  }

  /** Every task the page's search keeps also passes the views' trimmed search. */
  lemma SearchFilteredPassesTrimmed(tasks: seq<Task>, search: string)
    ensures forall t :: t in SearchFiltered(tasks, search) ==> TrimmedMatches(search, t)
  {
    forall t | t in SearchFiltered(tasks, search)
      ensures TrimmedMatches(search, t)
    {
      assert multiset(SearchFiltered(tasks, search))[t] > 0;
      AppMatchImpliesTrimmed(search, t);
    }
  }

  // ---------------------------------------------------------------------------
  // Statistics

  /** The stat cards: counts over the unfiltered month list. */
  datatype Stats = Stats(total: nat, pending: nat, inprogress: nat, completed: nat, overdue: nat)

  /** Tasks whose status is none of the four listed. */
  function Unlisted(): Task -> bool
  {
    (t: Task) => t.status !in Statuses
  }

  /** `stats`: the length of the month list and one count per status. */
  function ComputeStats(monthTasks: seq<Task>): (s: Stats)
    ensures s.total == |monthTasks|
    ensures s.pending + s.inprogress + s.completed + s.overdue + Count(monthTasks, Unlisted()) == s.total
    ensures s.pending == Count(monthTasks, HasStatus("pending"))
    ensures s.inprogress == Count(monthTasks, HasStatus("inprogress"))
    ensures s.completed == Count(monthTasks, HasStatus("completed"))
    ensures s.overdue == Count(monthTasks, HasStatus("overdue"))
  {
    StatusCountsPartition(monthTasks);
    Stats(
      |monthTasks|,
      Count(monthTasks, HasStatus("pending")),
      Count(monthTasks, HasStatus("inprogress")),
      Count(monthTasks, HasStatus("completed")),
      Count(monthTasks, HasStatus("overdue")))
  }

  /** Every task is counted by exactly one of the four statuses or is unlisted. */
  lemma {:induction false} StatusCountsPartition(s: seq<Task>)
    ensures Count(s, HasStatus("pending")) + Count(s, HasStatus("inprogress"))
      + Count(s, HasStatus("completed")) + Count(s, HasStatus("overdue"))
      + Count(s, Unlisted()) == |s|
    decreases |s|
  {
    if s != [] {
      StatusCountsPartition(s[..|s| - 1]);
    }
  }

  /** When every status is one the schema allows, the four counts add up to
      the total. */
  lemma StatsAddUp(monthTasks: seq<Task>)
    requires forall i :: 0 <= i < |monthTasks| ==> ValidTask(monthTasks[i])
    ensures var s := ComputeStats(monthTasks);
      s.pending + s.inprogress + s.completed + s.overdue == s.total
  {
    FilterNonePass(monthTasks, Unlisted());
  }

  // ---------------------------------------------------------------------------
  // Fetch parameters

  /** `fetchWeekTasks`: `start` is moved back to Sunday with `setDate`, and
      `end` six days further on with `setDate` again. */
  function WeekRange(selected: int): (r: (int, int))
    ensures r == (WeekStart(selected), WeekStart(selected) + 6)
  {
    var start := SetDate(selected, DayOfMonth(selected) - Weekday(selected));
    var end := SetDate(start, DayOfMonth(start) + 6);
    SetDateShift(start, 6);
    (start, end)
  }

  /** What `fmt` prints for an invalid date: every getter gives NaN. */
  const InvalidFmt: string := "NaN-NaN-NaN"

  /** The formatted `start` and `end` of the week of day `n`. */
  function WeekBounds(n: int): (r: (string, string))
    ensures r == (Fmt(WeekStart(n)), Fmt(WeekStart(n) + 6))
  {
    var w := WeekRange(n);
    (Fmt(w.0), Fmt(w.1))
  }

  /** The `start` and `end` parameters sent for a selected date string: the
      formatted Sunday and Saturday of its week, or NaN fields when the
      string is not a date. */
  function WeekParams(selectedDate: string): (r: (string, string))
    ensures ParseIsoDate(selectedDate).None? ==> r == (InvalidFmt, InvalidFmt)
  {
    match ParseIsoDate(selectedDate)
    case None => (InvalidFmt, InvalidFmt)
    case Some(n) => WeekBounds(n)
  }

  /** The week parameters of a formatted day with a four-digit year. */
  lemma WeekParamsOfFmt(n: int)
    requires HasFourDigitYear(n)
    ensures WeekParams(Fmt(n)) == (Fmt(WeekStart(n)), Fmt(WeekStart(n) + 6))
  {
    ParseFmt(n);
    WeekParamsOfParsed(Fmt(n), n);
  }

  /** A string that parses as day `n` is sent as the bounds of `n`'s week. */
  lemma WeekParamsOfParsed(s: string, n: int)
    requires ParseIsoDate(s) == Some(n)
    ensures WeekParams(s) == WeekBounds(n)
  {
  }

  /** For four-digit years, the week parameters of a formatted day admit
      exactly the formatted days of its Sunday-to-Saturday week. */
  lemma WeekParamsAdmit(n: int, d: int)
    requires HasFourDigitYear(n) && HasFourDigitYear(d)
    requires HasFourDigitYear(WeekStart(n)) && HasFourDigitYear(WeekStart(n) + 6)
    ensures var r := WeekParams(Fmt(n));
      InWindow(r.0, r.1, Fmt(d)) <==> WeekStart(n) <= d <= WeekStart(n) + 6
  {
    WeekParamsOfFmt(n);
    FmtOrder(WeekStart(n), d);
    FmtOrder(d, WeekStart(n) + 6);
  }

  /** The range request for the week of a formatted day returns, sorted,
      every stored task dated with a formatted day of that week and no other
      formatted day. */
  lemma WeekFetchListsWeek(tasks: seq<Task>, n: int, d: int, t: Task)
    requires HasFourDigitYear(n) && HasFourDigitYear(d)
    requires HasFourDigitYear(WeekStart(n)) && HasFourDigitYear(WeekStart(n) + 6)
    requires t.date == Fmt(d)
    ensures WeekParams(Fmt(n)) == (Fmt(WeekStart(n)), Fmt(WeekStart(n) + 6))
    ensures var r := RangeQuery(tasks, Some(Fmt(WeekStart(n))), Some(Fmt(WeekStart(n) + 6)));
      r.TaskList? && Sorted(ByDateThenStartTime, r.tasks)
      && multiset(r.tasks)[t] == if WeekStart(n) <= d <= WeekStart(n) + 6 then multiset(tasks)[t] else 0
  {
    WeekParamsOfFmt(n);
    WeekParamsAdmit(n, d);
    FmtNonEmpty(WeekStart(n));
    FmtNonEmpty(WeekStart(n) + 6);
    RangeFetch(tasks, Fmt(WeekStart(n)), Fmt(WeekStart(n) + 6), t, WeekStart(n) <= d <= WeekStart(n) + 6);
  }

  /** A range request with both bounds given lists `t` as often as the store
      does exactly when `t` passes the window test. */
  lemma RangeFetch(tasks: seq<Task>, lo: string, hi: string, t: Task, passes: bool)
    requires lo != "" && hi != "" && (InWindow(lo, hi, t.date) <==> passes)
    ensures var r := RangeQuery(tasks, Some(lo), Some(hi));
      r.TaskList? && Sorted(ByDateThenStartTime, r.tasks)
      && multiset(r.tasks)[t] == if passes then multiset(tasks)[t] else 0
  {
  }

  /** `fetchMonthTasks`: `year` and `month` (1-based) of the active month. */
  function MonthParams(activeMonth: int): (r: (int, int))
    ensures 1 <= r.1 <= 12
  {
    (FullYear(activeMonth), MonthIndex(activeMonth) + 1)
  }

  /** The month request for a four-digit active month returns, sorted, every
      stored task dated with a formatted day of that month. */
  lemma MonthFetchListsMonth(tasks: seq<Task>, activeMonth: int, d: int, t: Task)
    requires HasFourDigitYear(activeMonth) && HasFourDigitYear(d)
    requires t.date == Fmt(d)
    ensures var p := MonthParams(activeMonth);
      var r := MonthQuery(tasks, Some(p.0), Some(p.1));
      r.TaskList? && Sorted(ByDateThenStartTime, r.tasks)
      && multiset(r.tasks)[t] ==
        if FullYear(d) == FullYear(activeMonth) && MonthIndex(d) == MonthIndex(activeMonth)
        then multiset(tasks)[t] else 0
  {
    var p := MonthParams(activeMonth);
    MonthWindowMembership(p.0, p.1, d);
  }

  // ---------------------------------------------------------------------------
  // Selected date and active month

  /** The page state the calendars share. `activeMonth` is `None` when it
      holds an invalid date (a `new Date` of an unparsable string). */
  class CalendarView {
    var selectedDate: string
    var activeMonth: Option<int>

    /** A valid active month is always the first of its month. */
    predicate Valid()
      reads this
    {
      activeMonth.Some? ==> DayOfMonth(activeMonth.value) == 1
    }

    /** Initial state: today's date key and the first of today's month. */
    constructor(today: int)
      ensures Valid()
      ensures selectedDate == Fmt(today)
      ensures activeMonth == Some(FirstOfMonth(today))
    {
      selectedDate := Fmt(today);
      activeMonth := Some(FirstOfMonth(today));
      FirstOfMonthProps(today);
    }

    /** The header's date picker: the selected date is set to the value as
        given, and the active month follows it, becoming invalid when the
        value does not parse. */
    method SelectFromHeader(val: string)
      requires Valid()
      modifies this
      ensures Valid()
      ensures selectedDate == val
      ensures ParseIsoDate(val).None? ==> activeMonth.None?
      ensures ParseIsoDate(val).Some? ==>
        var n := ParseIsoDate(val).value;
        activeMonth == Some(FirstOfMonth(n))
        && FullYear(activeMonth.value) == FullYear(n) && MonthIndex(activeMonth.value) == MonthIndex(n)
    {
      selectedDate := val;
      match ParseIsoDate(val)
      case None =>
        activeMonth := None;
      case Some(n) =>
        FirstOfMonthProps(n);
        activeMonth := Some(FirstOfMonth(n));
    }

    /** A calendar cell click: the raw setter, which leaves the active month. */
    method SelectDay(key: string)
      requires Valid()
      modifies this
      ensures Valid()
      ensures selectedDate == key && activeMonth == old(activeMonth)
    {
      selectedDate := key;
    }

    /** The month view's add button: a non-empty date key becomes the selected
        date; the active month is left alone. */
    method AddTaskOn(dateStr: string)
      requires Valid()
      modifies this
      ensures Valid()
      ensures selectedDate == (if dateStr != "" then dateStr else old(selectedDate))
      ensures activeMonth == old(activeMonth)
    {
      if dateStr != "" {
        selectedDate := dateStr;
      }
    }

    /** `goPrev`: the first of the previous month; an invalid month stays
        invalid. The selected date is untouched. */
    method GoPrev()
      requires Valid()
      modifies this
      ensures Valid()
      ensures selectedDate == old(selectedDate)
      ensures old(activeMonth).None? ==> activeMonth.None?
      ensures old(activeMonth).Some? ==> activeMonth == Some(PrevMonth(old(activeMonth).value))
    {
      if activeMonth.Some? {
        PrevMonthProps(activeMonth.value);
        activeMonth := Some(PrevMonth(activeMonth.value));
      }
    }

    /** `goNext`: the first of the next month; an invalid month stays invalid. */
    method GoNext()
      requires Valid()
      modifies this
      ensures Valid()
      ensures selectedDate == old(selectedDate)
      ensures old(activeMonth).None? ==> activeMonth.None?
      ensures old(activeMonth).Some? ==> activeMonth == Some(NextMonth(old(activeMonth).value))
    {
      if activeMonth.Some? {
        NextMonthProps(activeMonth.value);
        activeMonth := Some(NextMonth(activeMonth.value));
      }
    }
  }
}
