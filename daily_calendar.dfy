/** The day view: the tasks of the selected date key, filtered by the
    trimmed search, and which of its two empty-list messages it shows. */
module DailyCalendar {
  import opened Wrappers
  import opened Strings
  import opened Seqs
  import opened DateFormat
  import opened TaskModel
  import opened TaskRoutes
  import opened TaskView

  /** `todaysTasks` then `filteredTodayTasks`: the day list's tasks whose
      date key is the selected date and which pass the trimmed search. */
  predicate ShownToday(selectedDate: string, search: string, t: Task)
  {
    NormalizeDateKey(t.date) == selectedDate && TrimmedMatches(search, t)
  }

  function FilteredToday(dayTasks: seq<Task>, selectedDate: string, search: string): (r: seq<Task>)
    ensures forall t :: multiset(r)[t] == if ShownToday(selectedDate, search, t) then multiset(dayTasks)[t] else 0
    ensures IsSubsequence(r, dayTasks)
  {
    var both := Both(HasKey(selectedDate), TrimmedMatch(search));
    FilterFilter(dayTasks, HasKey(selectedDate), TrimmedMatch(search));
    FilterSpec(dayTasks, both);
    FilterIsSubsequence(dayTasks, both);
    Filter(Bucket(dayTasks, selectedDate), TrimmedMatch(search))
  }

  /** `noResults`: a non-blank search and nothing left. */
  predicate NoResults(search: string, filtered: seq<Task>)
  {
    Searching(search) && |filtered| == 0
  }

  /** "No tasks matched your search" shows exactly when a search is typed
      and no task of the day list has the selected key and matches it. */
  lemma NoResultsIffNoMatch(dayTasks: seq<Task>, selectedDate: string, search: string)
    ensures NoResults(search, FilteredToday(dayTasks, selectedDate, search))
        <==> Searching(search) && forall t :: t in dayTasks ==> !ShownToday(selectedDate, search, t)
  {
    EmptyIffNonePass(FilteredToday(dayTasks, selectedDate, search), dayTasks,
      (t: Task) => ShownToday(selectedDate, search, t));
  }

  /** "No tasks for this day.": nothing left and a blank search. */
  predicate ShowEmptyMessage(search: string, filtered: seq<Task>)
  {
    |filtered| == 0 && |Trim(search)| == 0
  }

  /** An empty day shows exactly one of the two messages; a non-empty day
      shows neither. */
  lemma EmptyMessagesExclusive(search: string, filtered: seq<Task>)
    ensures !(NoResults(search, filtered) && ShowEmptyMessage(search, filtered))
    ensures |filtered| == 0 <==> NoResults(search, filtered) || ShowEmptyMessage(search, filtered)
  {
  }

  /** A blank search keeps every task of the selected date. */
  lemma BlankSearchKeepsDay(dayTasks: seq<Task>, selectedDate: string, search: string)
    requires IsBlank(search)
    ensures FilteredToday(dayTasks, selectedDate, search) == Bucket(dayTasks, selectedDate)
  {
    var bucket := Bucket(dayTasks, selectedDate);
    forall i | 0 <= i < |bucket|
      ensures TrimmedMatch(search)(bucket[i])
    {
      BlankSearchMatchesAll(search, bucket[i]);
    }
    FilterAllPass(bucket, TrimmedMatch(search));
  }

  /** The day list the page fetches holds the tasks stored with exactly the
      selected date; the view's date-key test keeps all of them when the
      selected date has at most ten characters and none otherwise. */
  lemma DayListKeyedBySelected(tasks: seq<Task>, selectedDate: string)
    requires selectedDate != ""
    ensures var r := DateQuery(tasks, Some(selectedDate));
      r.TaskList?
      && Bucket(r.tasks, selectedDate) == if |selectedDate| <= 10 then r.tasks else []
  {
    var r := DateQuery(tasks, Some(selectedDate)).tasks;
    forall i | 0 <= i < |r|
      ensures r[i].date == selectedDate
    {
      assert multiset(r)[r[i]] > 0;
    }
    SameDateBucket(r, selectedDate);
  }

  /** A list whose tasks all carry the date `sd` is its own bucket under
      `sd` when `sd` is a key (ten characters at most), and has an empty
      bucket otherwise. */
  lemma SameDateBucket(r: seq<Task>, sd: string)
    requires forall i :: 0 <= i < |r| ==> r[i].date == sd
    ensures Bucket(r, sd) == if |sd| <= 10 then r else []
  {
    if |sd| <= 10 {
      FilterAllPass(r, HasKey(sd));
    } else {
      FilterNonePass(r, HasKey(sd));
    }
  }
}
