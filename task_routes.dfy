/** The five `/api/tasks` handlers over an in-memory task collection.

    The three read handlers are pure: they check their query parameters,
    filter the collection by date string and sort the result. Create, update
    and delete change the collection, which is the `TaskStore` class. Dates
    are compared as strings, as MongoDB compares them. */
module TaskRoutes {
  import opened Wrappers
  import opened Strings
  import opened Seqs
  import opened Civil
  import opened DateFormat
  import opened TaskModel

  /** A handler's reply: the JSON body, with its HTTP status in `StatusCode`. */
  datatype Response =
    | Created(task: Task)
    | TaskList(tasks: seq<Task>)
    | TaskOrNull(found: Option<Task>)
    | Message(text: string)
    | MissingParameter(error: string)
    | ValidationFailed(paths: seq<Field>)
  {
    function StatusCode(): (code: int)
      ensures code == 400 <==> (MissingParameter? || ValidationFailed?)
      ensures code == 201 <==> Created?
    {
      match this
      case Created(_) => 201
      case MissingParameter(_) => 400
      case ValidationFailed(_) => 400
      case _ => 200
    }
  }

  const DeletedMessage: string := "Task deleted \U{2705}"

  /** A query parameter that is present and not the empty string (truthy). */
  predicate Given(p: Option<string>)
  {
    p.Some? && p.value != ""
  }

  // ---------------------------------------------------------------------------
  // Sorting, as the database applies `.sort(...)`

  /** `{ startTime: 1 }` or `{ date: 1, startTime: 1 }`. */
  datatype SortKey = ByStartTime | ByDateThenStartTime

  /** `a` may come before `b` under `key`. */
  predicate InOrder(key: SortKey, a: Task, b: Task)
  {
    match key
    case ByStartTime => LessEq(a.startTime, b.startTime)
    case ByDateThenStartTime =>
      Less(a.date, b.date) || (a.date == b.date && LessEq(a.startTime, b.startTime))
  }

  predicate Sorted(key: SortKey, s: seq<Task>)
  {
    forall i, j :: 0 <= i < j < |s| ==> InOrder(key, s[i], s[j])
  }

  lemma InOrderTotal(key: SortKey, a: Task, b: Task)
    ensures InOrder(key, a, b) || InOrder(key, b, a)
  {
    LessTotal(a.startTime, b.startTime);
    LessTotal(a.date, b.date);
  }

  lemma InOrderTransitive(key: SortKey, a: Task, b: Task, c: Task)
    requires InOrder(key, a, b) && InOrder(key, b, c)
    ensures InOrder(key, a, c)
  {
    match key
    case ByStartTime =>
      LessEqTransitive(a.startTime, b.startTime, c.startTime);
    case ByDateThenStartTime =>
      LessIrreflexive(b.date);
      if Less(a.date, b.date) && Less(b.date, c.date) {
        LessTransitive(a.date, b.date, c.date);
      } else if a.date == b.date && b.date == c.date {
        LessEqTransitive(a.startTime, b.startTime, c.startTime);
      }
  }

  /** Insert `x` before the first element it may precede. */
  function Insert(key: SortKey, x: Task, s: seq<Task>): (r: seq<Task>)
    ensures multiset(r) == multiset(s) + multiset{x}
    decreases |s|
  {
    if s == [] then [x]
    else if InOrder(key, x, s[0]) then [x] + s
    else
      assert s == [s[0]] + s[1..];
      [s[0]] + Insert(key, x, s[1..])
  }

  lemma {:induction false} InsertSorted(key: SortKey, x: Task, s: seq<Task>)
    requires Sorted(key, s)
    ensures Sorted(key, Insert(key, x, s))
    decreases |s|
  {
    if s != [] {
      if InOrder(key, x, s[0]) {
        forall j | 0 <= j < |s|
          ensures InOrder(key, x, s[j])
        {
          if j > 0 {
            InOrderTransitive(key, x, s[0], s[j]);
          }
        }
        ConsSorted(key, x, s);
      } else {
        var tail := s[1..];
        InsertSorted(key, x, tail);
        InOrderTotal(key, x, s[0]);
        InsertKeepsLowerBound(key, s[0], x, tail);
        ConsSorted(key, s[0], Insert(key, x, tail));
        assert Insert(key, x, s) == [s[0]] + Insert(key, x, tail);
      }
    }
  }

  /** An element that may precede every element of a sorted list may be
      put in front of it. */
  lemma ConsSorted(key: SortKey, y: Task, t: seq<Task>)
    requires Sorted(key, t)
    requires forall j :: 0 <= j < |t| ==> InOrder(key, y, t[j])
    ensures Sorted(key, [y] + t)
  {
  }

  /** A lower bound of `x` and of every element of `s` bounds `Insert`'s result. */
  lemma InsertKeepsLowerBound(key: SortKey, y: Task, x: Task, s: seq<Task>)
    requires InOrder(key, y, x)
    requires forall j :: 0 <= j < |s| ==> InOrder(key, y, s[j])
    ensures forall j :: 0 <= j < |Insert(key, x, s)| ==> InOrder(key, y, Insert(key, x, s)[j])
  {
    var t := Insert(key, x, s);
    forall j | 0 <= j < |t|
      ensures InOrder(key, y, t[j])
    {
      assert t[j] in multiset(t);
      if t[j] != x {
        assert t[j] in multiset(s);
        var k :| 0 <= k < |s| && s[k] == t[j];
      }
    }
  }

  /** The database's sort: a sorted permutation of `s`. Ties are left in an
      order the contract does not fix. */
  function Sort(key: SortKey, s: seq<Task>): (r: seq<Task>)
    ensures multiset(r) == multiset(s)
    ensures Sorted(key, r)
    decreases |s|
  {
    if s == [] then []
    else
      var rest := Sort(key, s[1..]);
      InsertSorted(key, s[0], rest);
      HeadTail(s);
      Insert(key, s[0], rest)
  }

  lemma HeadTail(s: seq<Task>)
    requires s != []
    ensures multiset(s) == multiset(s[1..]) + multiset{s[0]}
  {
    assert s == [s[0]] + s[1..];
  }

  // ---------------------------------------------------------------------------
  // Read queries

  /** `{ date }`: the tasks stored with exactly that date string, in order. */
  function OnDate(tasks: seq<Task>, d: string): (r: seq<Task>)
    ensures forall t :: multiset(r)[t] == if t.date == d then multiset(tasks)[t] else 0
    ensures IsSubsequence(r, tasks)
  {
    var p := (t: Task) => t.date == d;
    FilterSpec(tasks, p);
    FilterIsSubsequence(tasks, p);
    Filter(tasks, p)
  }

  /** `{ $gte: lo, $lte: hi }` on a date string. */
  predicate InWindow(lo: string, hi: string, d: string)
  {
    LessEq(lo, d) && LessEq(d, hi)
  }

  /** The tasks whose date string lies in the window, in order. */
  function Between(tasks: seq<Task>, lo: string, hi: string): (r: seq<Task>)
    ensures forall t :: multiset(r)[t] == if InWindow(lo, hi, t.date) then multiset(tasks)[t] else 0
    ensures IsSubsequence(r, tasks)
  {
    var p := (t: Task) => InWindow(lo, hi, t.date);
    FilterSpec(tasks, p);
    FilterIsSubsequence(tasks, p);
    Filter(tasks, p)
  }

  /** `GET /?date=`: the tasks of that date sorted by start time; a missing
      or empty `date` is a 400 that does not look at the store. */
  function DateQuery(tasks: seq<Task>, date: Option<string>): (r: Response)
    ensures !Given(date) ==> r == MissingParameter("date query is required")
    ensures Given(date) ==>
      r.TaskList? && Sorted(ByStartTime, r.tasks)
      && forall t :: multiset(r.tasks)[t] == if t.date == date.value then multiset(tasks)[t] else 0
  {
    if !Given(date) then MissingParameter("date query is required")
    else TaskList(Sort(ByStartTime, OnDate(tasks, date.value)))
  }

  /** `${y}-${String(m).padStart(2, "0")}-01`: the month is not range-checked. */
  function MonthStart(y: int, m: int): string
  {
    NumberToString(y) + "-" + Pad2(m) + "-" + "01"
  }

  /** `${y}-${String(m).padStart(2, "0")}-31`, for every month alike. */
  function MonthEnd(y: int, m: int): string
  {
    NumberToString(y) + "-" + Pad2(m) + "-" + "31"
  }

  /** `GET /month?year=&month=`: the tasks whose date string lies in the
      month window, sorted by date then start time. `None` stands for a
      parameter that is missing or empty; a present parameter is taken as
      the number it converts to. */
  function MonthQuery(tasks: seq<Task>, year: Option<int>, month: Option<int>): (r: Response)
    ensures (year.None? || month.None?) ==> r == MissingParameter("year and month required")
    ensures year.Some? && month.Some? ==>
      var lo, hi := MonthStart(year.value, month.value), MonthEnd(year.value, month.value);
      r.TaskList? && Sorted(ByDateThenStartTime, r.tasks)
      && forall t :: multiset(r.tasks)[t] == if InWindow(lo, hi, t.date) then multiset(tasks)[t] else 0
  {
    if year.None? || month.None? then MissingParameter("year and month required")
    else
      var y, m := year.value, month.value;
      TaskList(Sort(ByDateThenStartTime, Between(tasks, MonthStart(y, m), MonthEnd(y, m))))
  }

  /** `GET /range?start=&end=`: the tasks with `start <= date <= end` as
      strings, sorted by date then start time. */
  function RangeQuery(tasks: seq<Task>, start: Option<string>, end: Option<string>): (r: Response)
    ensures (!Given(start) || !Given(end)) ==> r == MissingParameter("start and end are required")
    ensures Given(start) && Given(end) ==>
      r.TaskList? && Sorted(ByDateThenStartTime, r.tasks)
      && forall t :: multiset(r.tasks)[t] == if InWindow(start.value, end.value, t.date) then multiset(tasks)[t] else 0
  {
    if !Given(start) || !Given(end) then MissingParameter("start and end are required")
    else TaskList(Sort(ByDateThenStartTime, Between(tasks, start.value, end.value)))
  }

  /** The month window is the first and the thirty-first of the month as
      `IsoDate` writes them. */
  lemma MonthWindowIsIsoDates(y: int, m: int)
    ensures MonthStart(y, m) == IsoDate(y, m, 1)
    ensures MonthEnd(y, m) == IsoDate(y, m, 31)
  {
    Pad2Literals();
    IsoDateWithDay(y, m, 1, "01");
    IsoDateWithDay(y, m, 31, "31");
    MonthBoundsParts(y, m);
  }

  lemma MonthBoundsParts(y: int, m: int)
    ensures MonthStart(y, m) == NumberToString(y) + "-" + Pad2(m) + "-" + "01"
    ensures MonthEnd(y, m) == NumberToString(y) + "-" + Pad2(m) + "-" + "31"
  {
  }

  /** `IsoDate` with the padded day already known. */
  lemma IsoDateWithDay(y: int, m: int, d: int, dd: string)
    requires Pad2(d) == dd
    ensures IsoDate(y, m, d) == NumberToString(y) + "-" + Pad2(m) + "-" + dd
  {
  }

  /** For a four-digit year and a month written with at most two digits, a
      formatted date lies in the window exactly when it is in that month.
      A month outside 1..12 (not range-checked) therefore admits no
      formatted date at all. */
  lemma MonthWindowMembership(y: int, m: int, n: int)
    requires 1000 <= y <= 9999 && 0 <= m <= 99 && HasFourDigitYear(n)
    ensures InWindow(MonthStart(y, m), MonthEnd(y, m), Fmt(n))
        <==> FullYear(n) == y && MonthIndex(n) + 1 == m
  {
    IsoMonthWindow(y, m, FullYear(n), MonthIndex(n) + 1, DayOfMonth(n), Fmt(n));
  }

  /** The month window admits exactly the `IsoDate` strings of that month's
      days. */
  lemma IsoMonthWindow(y: int, m: int, yy: int, mm: int, dd: int, s: string)
    requires 1000 <= y <= 9999 && 0 <= m <= 99
    requires 1000 <= yy <= 9999 && 0 <= mm <= 99 && 1 <= dd <= 31
    requires s == IsoDate(yy, mm, dd)
    ensures InWindow(MonthStart(y, m), MonthEnd(y, m), s) <==> yy == y && mm == m
  {
    MonthWindowAsIso(y, m, s);
    IsoWindow(y, m, yy, mm, dd);
  }

  /** The month window and the `IsoDate` window of its first and last day
      admit the same strings. */
  lemma MonthWindowAsIso(y: int, m: int, s: string)
    ensures InWindow(MonthStart(y, m), MonthEnd(y, m), s) <==> InWindow(IsoDate(y, m, 1), IsoDate(y, m, 31), s)
  {
    MonthWindowIsIsoDates(y, m);
    SameWindow(MonthStart(y, m), MonthEnd(y, m), IsoDate(y, m, 1), IsoDate(y, m, 31), s);
  }

  lemma SameWindow(lo: string, hi: string, lo': string, hi': string, s: string)
    requires lo == lo' && hi == hi'
    ensures InWindow(lo, hi, s) <==> InWindow(lo', hi', s)
  {
  }

  /** From the first to the thirty-first of a month, as `IsoDate` strings. */
  lemma IsoWindow(y: int, m: int, yy: int, mm: int, dd: int)
    requires 1000 <= y <= 9999 && 0 <= m <= 99
    requires 1000 <= yy <= 9999 && 0 <= mm <= 99 && 1 <= dd <= 31
    ensures InWindow(IsoDate(y, m, 1), IsoDate(y, m, 31), IsoDate(yy, mm, dd)) <==> yy == y && mm == m
  {
    IsoDateOrder(y, m, 1, yy, mm, dd);
    IsoDateOrder(yy, mm, dd, y, m, 31);
    WindowByFields(IsoDate(y, m, 1), IsoDate(y, m, 31), IsoDate(yy, mm, dd), y, m, yy, mm, dd);
  }

  /** The window step of `IsoMonthWindow` on strings whose order is already
      known to be that of their fields. */
  lemma WindowByFields(lo: string, hi: string, s: string, y: int, m: int, yy: int, mm: int, dd: int)
    requires 1 <= dd <= 31
    requires Less(lo, s) <==> TripleLess(y, m, 1, yy, mm, dd)
    requires lo == s <==> (y == yy && m == mm && 1 == dd)
    requires Less(s, hi) <==> TripleLess(yy, mm, dd, y, m, 31)
    requires s == hi <==> (yy == y && mm == m && dd == 31)
    ensures InWindow(lo, hi, s) <==> yy == y && mm == m
  {
  }

  /** A window whose end sorts before its start admits nothing. */
  lemma InWindowEmpty(lo: string, hi: string, d: string)
    ensures Less(hi, lo) ==> !InWindow(lo, hi, d)
  {
    if InWindow(lo, hi, d) {
      LessEqTransitive(lo, d, hi);
    }
    LessExcludesLessEq(hi, lo);
  }

  /** `start > end` gives an empty list, not an error. */
  lemma RangeQueryReversed(tasks: seq<Task>, start: string, end: string)
    requires start != "" && end != "" && Less(end, start)
    ensures RangeQuery(tasks, Some(start), Some(end)) == TaskList([])
  {
    var r := RangeQuery(tasks, Some(start), Some(end)).tasks;
    forall t: Task
      ensures multiset(r)[t] == 0
    {
      InWindowEmpty(start, end, t.date);
    }
    assert multiset(r) == multiset{};
  }

  // ---------------------------------------------------------------------------
  // The mutable collection

  /** The position of the task with this id, if any. */
  function IndexOf(tasks: seq<Task>, id: nat): (r: Option<nat>)
    ensures r.Some? ==> r.value < |tasks| && tasks[r.value].id == id
    ensures r.None? <==> forall i :: 0 <= i < |tasks| ==> tasks[i].id != id
    decreases |tasks|
  {
    if tasks == [] then None
    else if tasks[0].id == id then Some(0)
    else match IndexOf(tasks[1..], id)
      case None => None
      case Some(i) => Some(i + 1)
  }

  /** `findByIdAndUpdate(id, body, { new: true })`: every field present in
      the body is overwritten, the others are kept, and the `updatedAt`
      timestamp is refreshed. No validator runs. */
  function ApplyPatch(t: Task, patch: TaskInput, now: int): (u: Task)
    ensures u.id == t.id && u.createdAt == t.createdAt && u.updatedAt == now
    ensures u.title == patch.title.GetOr(t.title)
    ensures u.description == patch.description.GetOr(t.description)
    ensures u.date == patch.date.GetOr(t.date)
    ensures u.startTime == patch.startTime.GetOr(t.startTime)
    ensures u.endTime == patch.endTime.GetOr(t.endTime)
    ensures u.status == patch.status.GetOr(t.status)
    ensures u.kind == patch.kind.GetOr(t.kind)
  {
    t.(title := patch.title.GetOr(t.title),
       description := patch.description.GetOr(t.description),
       date := patch.date.GetOr(t.date),
       startTime := patch.startTime.GetOr(t.startTime),
       endTime := patch.endTime.GetOr(t.endTime),
       status := patch.status.GetOr(t.status),
       kind := patch.kind.GetOr(t.kind),
       updatedAt := now)
  }

  /** Applying the same body twice at the same time changes nothing more. */
  lemma ApplyPatchIdempotent(t: Task, patch: TaskInput, now: int)
    ensures ApplyPatch(ApplyPatch(t, patch, now), patch, now) == ApplyPatch(t, patch, now)
  {
  }

  /** A body whose present fields would each pass their validator keeps a
      valid task valid. */
  lemma ApplyPatchKeepsValid(t: Task, patch: TaskInput, now: int)
    requires ValidTask(t)
    requires patch.title.None? || Supplied(patch.title)
    requires patch.date.None? || Supplied(patch.date)
    requires patch.startTime.None? || Supplied(patch.startTime)
    requires patch.endTime.None? || Supplied(patch.endTime)
    requires Allowed(patch.status, Statuses) && Allowed(patch.kind, Kinds)
    ensures ValidTask(ApplyPatch(t, patch, now))
  {
  }

  /** Because the update runs no validator, it can store a status outside
      the enum, or an empty title, which `Task.create` would reject. */
  lemma ApplyPatchSkipsValidation(t: Task, now: int)
    ensures var body := TaskInput(Some(""), None, None, None, None, Some("done"), None);
      !ValidTask(ApplyPatch(t, body, now)) && Cast(body, t.id, now).Failure?
  {
    var body := TaskInput(Some(""), None, None, None, None, Some("done"), None);
    assert Title in ValidationErrors(body);
  }

  /** The tasks other than the one with this id, in order. */
  function Without(tasks: seq<Task>, id: nat): (r: seq<Task>)
    ensures forall t :: multiset(r)[t] == if t.id == id then 0 else multiset(tasks)[t]
    ensures IsSubsequence(r, tasks)
  {
    var p := (t: Task) => t.id != id;
    FilterSpec(tasks, p);
    FilterIsSubsequence(tasks, p);
    Filter(tasks, p)
  }

  /** Every id below `bound`, and no id twice. */
  predicate IdsFresh(tasks: seq<Task>, bound: nat)
  {
    (forall i :: 0 <= i < |tasks| ==> tasks[i].id < bound)
    && (forall i, j :: 0 <= i < j < |tasks| ==> tasks[i].id != tasks[j].id)
  }

  /** Removing tasks keeps ids below the bound and distinct. */
  lemma {:induction false} SubsequenceIdsFresh(a: seq<Task>, b: seq<Task>, bound: nat)
    requires IsSubsequence(a, b) && IdsFresh(b, bound)
    ensures IdsFresh(a, bound)
    decreases |b|
  {
    if a != [] {
      var a', b' := a[..|a| - 1], b[..|b| - 1];
      assert IdsFresh(b', bound);
      if a[|a| - 1] == b[|b| - 1] {
        SubsequenceIdsFresh(a', b', bound);
        forall i | 0 <= i < |a'|
          ensures a'[i].id != a[|a| - 1].id
        {
          SubsequenceMembers(a', b', a'[i]);
          var k :| 0 <= k < |b'| && b'[k] == a'[i];
        }
      } else {
        SubsequenceIdsFresh(a, b', bound);
      }
    }
  }

  /** Every element of a subsequence occurs in the longer sequence. */
  lemma {:induction false} SubsequenceMembers(a: seq<Task>, b: seq<Task>, x: Task)
    requires IsSubsequence(a, b) && x in a
    ensures x in b
    decreases |b|
  {
    var a', b' := a[..|a| - 1], b[..|b| - 1];
    assert b == b' + [b[|b| - 1]];
    if a[|a| - 1] == b[|b| - 1] {
      assert a == a' + [a[|a| - 1]];
      if x != a[|a| - 1] {
        SubsequenceMembers(a', b', x);
      }
    } else {
      SubsequenceMembers(a, b', x);
    }
  }

  /** The task collection. `nextId` stands for the source of fresh `_id`s. */
  class TaskStore {
    var tasks: seq<Task>
    var nextId: nat

    predicate Valid()
      reads this
    {
      IdsFresh(tasks, nextId)
    }

    constructor ()
      ensures Valid() && tasks == [] && nextId == 0
    {
      tasks := [];
      nextId := 0;
    }

    /** `POST /`: `Task.create(body)`. A body that passes validation is
        stored under a fresh id and returned with 201; otherwise the reply is
        400 and nothing is stored. */
    method Create(body: TaskInput, now: int) returns (r: Response)
      requires Valid()
      modifies this
      ensures Valid()
      ensures match Cast(body, old(nextId), now)
        case Success(t) =>
          tasks == old(tasks) + [t] && nextId == old(nextId) + 1 && r == Created(t)
          && forall i :: 0 <= i < |old(tasks)| ==> old(tasks)[i].id != t.id
        case Failure(paths) =>
          tasks == old(tasks) && nextId == old(nextId) && r == ValidationFailed(paths)
      ensures r.StatusCode() == 201 || (r.StatusCode() == 400 && tasks == old(tasks))
    {
      var result := Cast(body, nextId, now);
      match result
      case Success(t) =>
        tasks := tasks + [t];
        nextId := nextId + 1;
        r := Created(t);
      case Failure(paths) =>
        r := ValidationFailed(paths);
    }

    /** `PUT /:id`: the task with this id gets the body's fields and is
        returned as it is after the update; every other task is unchanged.
        An unknown id changes nothing and replies with `null`, status 200. */
    method Update(id: nat, patch: TaskInput, now: int) returns (r: Response)
      requires Valid()
      modifies this
      ensures Valid() && nextId == old(nextId)
      ensures match IndexOf(old(tasks), id)
        case Some(i) =>
          tasks == old(tasks)[i := ApplyPatch(old(tasks)[i], patch, now)]
          && r == TaskOrNull(Some(tasks[i]))
        case None =>
          tasks == old(tasks) && r == TaskOrNull(None)
      ensures r.StatusCode() == 200
    {
      match IndexOf(tasks, id)
      case Some(i) =>
        var u := ApplyPatch(tasks[i], patch, now);
        tasks := tasks[i := u];
        r := TaskOrNull(Some(u));
      case None =>
        r := TaskOrNull(None);
    }

    /** `DELETE /:id`: no task with this id remains, every other task stays
        in order, and the reply is the success message whether or not the
        id existed. */
    method Delete(id: nat) returns (r: Response)
      requires Valid()
      modifies this
      ensures Valid() && nextId == old(nextId)
      ensures tasks == Without(old(tasks), id)
      ensures forall i :: 0 <= i < |tasks| ==> tasks[i].id != id
      ensures r == Message(DeletedMessage) && r.StatusCode() == 200
    {
      var rest := Without(tasks, id);
      SubsequenceIdsFresh(rest, tasks, nextId);
      forall i | 0 <= i < |rest|
        ensures rest[i].id != id
      {
        assert rest[i] in multiset(rest);
      }
      tasks := rest;
      r := Message(DeletedMessage);
    }
  }
}
