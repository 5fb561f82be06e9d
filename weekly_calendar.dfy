/** The week view: seven columns from the Sunday of the selected date, the
    week list filtered by the trimmed search, and its grouping by date key. */
module WeeklyCalendar {
  import opened Seqs
  import opened Civil
  import opened DateFormat
  import opened TaskModel
  import opened TaskView
  import App

  /** The `days` loop: seven consecutive days from the Sunday on or before
      `selected`, each made by `setDate(start.getDate() + i)` on a copy of
      `start`. */
  method WeekDays(selected: int) returns (days: seq<int>)
    ensures |days| == 7
    ensures forall k :: 0 <= k < 7 ==> days[k] == WeekStart(selected) + k
    ensures Weekday(days[0]) == 0 && days[0] <= selected <= days[6]
  {
    var start := SetDate(selected, DayOfMonth(selected) - Weekday(selected));
    days := [];
    var i := 0;
    while i < 7
      invariant 0 <= i <= 7 && |days| == i
      invariant forall k :: 0 <= k < i ==> days[k] == start + k
    {
      SetDateShift(start, i);
      var d := SetDate(start, DayOfMonth(start) + i);
      days := days + [d];
      i := i + 1;
    }
    WeekStartSunday(selected);
  }

  /** `filteredWeekTasks`: the week list filtered by the trimmed search. */
  function WeekFiltered(weekTasks: seq<Task>, search: string): (r: seq<Task>)
    ensures forall t :: multiset(r)[t] == if TrimmedMatches(search, t) then multiset(weekTasks)[t] else 0
    ensures IsSubsequence(r, weekTasks)
  {
    FilterSpec(weekTasks, TrimmedMatch(search));
    FilterIsSubsequence(weekTasks, TrimmedMatch(search));
    Filter(weekTasks, TrimmedMatch(search))
  }

  /** The list the page hands over has already passed the page's search, so
      the view's own search removes nothing from it. */
  lemma RefilterKeepsAll(weekTasks: seq<Task>, search: string)
    ensures var given := App.SearchFiltered(weekTasks, search);
      WeekFiltered(given, search) == given
  {
    var given := App.SearchFiltered(weekTasks, search);
    App.SearchFilteredPassesTrimmed(weekTasks, search);
    FilterAllPass(given, TrimmedMatch(search));
  }

  /** `noResults`: a non-blank search that leaves nothing. */
  predicate NoResults(search: string, filtered: seq<Task>)
  {
    Searching(search) && |filtered| == 0
  }

  /** "No tasks matched your search" shows exactly when a search is typed
      and no task of the week list matches it. */
  lemma NoResultsIffNoMatch(weekTasks: seq<Task>, search: string)
    ensures NoResults(search, WeekFiltered(weekTasks, search))
        <==> Searching(search) && forall t :: t in weekTasks ==> !TrimmedMatches(search, t)
  {
    EmptyIffNonePass(WeekFiltered(weekTasks, search), weekTasks, TrimmedMatch(search));
  }

  /** `grouped` holds every key's bucket of `tasks`, the empty key included,
      and no empty bucket. */
  ghost predicate GroupedAll(grouped: map<string, seq<Task>>, tasks: seq<Task>)
  {
    (forall k :: k in grouped ==> grouped[k] != [])
    && (forall k :: Lookup(grouped, k) == Filter(tasks, HasKey(k)))
  }

  /** One step of the loop: `t` goes to the end of its key's bucket. */
  function AddToBucket(grouped: map<string, seq<Task>>, t: Task): map<string, seq<Task>>
  {
    var key := NormalizeDateKey(t.date);
    grouped[key := Lookup(grouped, key) + [t]]
  }

  lemma AddToBucketStep(grouped: map<string, seq<Task>>, tasks: seq<Task>, t: Task)
    requires GroupedAll(grouped, tasks)
    ensures GroupedAll(AddToBucket(grouped, t), tasks + [t])
  {
    var g := AddToBucket(grouped, t);
    forall k
      ensures Lookup(g, k) == Filter(tasks + [t], HasKey(k))
    {
      FilterAppend(tasks, t, HasKey(k));
    }
  }

  lemma GroupedAllEmpty(tasks: seq<Task>)
    ensures GroupedAll(map[], tasks[..0])
  {
    assert tasks[..0] == [];
  }

  /** The body of the `grouped` loop for one task: unlike the month view, a
      task whose key is empty is kept, under the empty key. */
  method PushByKey(grouped: map<string, seq<Task>>, t: Task) returns (g: map<string, seq<Task>>)
    ensures g == AddToBucket(grouped, t)
  {
    g := grouped;
    var key := NormalizeDateKey(t.date);
    if key !in g {
      g := g[key := []];
    }
    g := g[key := g[key] + [t]];
  }

  /** The `grouped` loop over the week's filtered tasks. */
  method GroupByKey(tasks: seq<Task>) returns (grouped: map<string, seq<Task>>)
    ensures forall k :: k in grouped ==> grouped[k] != []
    ensures forall k :: Lookup(grouped, k) == Bucket(tasks, k)
  {
    grouped := map[];
    var i := 0;
    GroupedAllEmpty(tasks);
    while i < |tasks|
      invariant 0 <= i <= |tasks|
      invariant GroupedAll(grouped, tasks[..i])
    {
      ghost var before := grouped;
      grouped := PushByKey(grouped, tasks[i]);
      AddToBucketStep(before, tasks[..i], tasks[i]);
      PrefixExtend(tasks, i);
      i := i + 1;
    }
    assert tasks[..|tasks|] == tasks;
  }

  /** The tasks of one column: the bucket of the day's formatted date. */
  function Column(grouped: map<string, seq<Task>>, day: int): seq<Task>
  {
    Lookup(grouped, Fmt(day))
  }

  /** A filtered task dated with a formatted day of the week is listed in
      that day's column, and in no other column of the week. */
  lemma TaskInItsColumn(tasks: seq<Task>, grouped: map<string, seq<Task>>, days: seq<int>, t: Task, j: int, k: int)
    requires forall key :: Lookup(grouped, key) == Bucket(tasks, key)
    requires 0 <= j < |days| && 0 <= k < |days|
    requires HasFourDigitYear(days[j]) && HasFourDigitYear(days[k])
    requires t in tasks && t.date == Fmt(days[j])
    ensures t in Column(grouped, days[j])
    ensures t in Column(grouped, days[k]) <==> days[k] == days[j]
  {
    NormalizeFmt(days[j]);
    FmtOrder(days[j], days[k]);
    assert multiset(tasks)[t] > 0;
    assert multiset(Bucket(tasks, Fmt(days[j])))[t] > 0;
    if days[k] != days[j] {
      assert multiset(Bucket(tasks, Fmt(days[k])))[t] == 0;
    }
  }
}
