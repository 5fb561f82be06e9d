/** The `Task` schema: the stored record, the request body it is cast from,
    and what `Task.create` checks and fills in.

    A stored string field is never absent in the model: a field that the
    frontend reads with `task.x || ""` is represented by "" when it is
    missing, so "missing" and "empty" coincide wherever the source treats
    them alike. */
module TaskModel {
  import opened Wrappers

  /** A stored task. `id` stands for the database-assigned `_id`; `kind` is
      the schema's `type` field; the two timestamps are supplied by the store. */
  datatype Task = Task(
    id: nat,
    title: string,
    description: string,
    date: string,
    startTime: string,
    endTime: string,
    status: string,
    kind: string,
    createdAt: int,
    updatedAt: int)

  /** A request body: each schema field may be present or absent. */
  datatype TaskInput = TaskInput(
    title: Option<string>,
    description: Option<string>,
    date: Option<string>,
    startTime: Option<string>,
    endTime: Option<string>,
    status: Option<string>,
    kind: Option<string>)

  /** The paths a validation error can name, in schema order. */
  datatype Field = Title | Date | StartTime | EndTime | Status | Kind

  const Statuses: seq<string> := ["pending", "inprogress", "completed", "overdue"]
  const Kinds: seq<string> := ["work", "study", "health", "personal", "other"]

  const DefaultStatus: string := "pending"
  const DefaultKind: string := "other"

  /** Mongoose's `required` check on a string path: absent and "" both fail. */
  predicate Supplied(v: Option<string>)
  {
    v.Some? && v.value != ""
  }

  /** An `enum` check: an absent value passes (the default applies), a
      present one must be listed. */
  predicate Allowed(v: Option<string>, values: seq<string>)
  {
    v.None? || v.value in values
  }

  /** The paths whose validator fails, in schema order. */
  function ValidationErrors(input: TaskInput): (errs: seq<Field>)
    ensures Title in errs <==> !Supplied(input.title)
    ensures Date in errs <==> !Supplied(input.date)
    ensures StartTime in errs <==> !Supplied(input.startTime)
    ensures EndTime in errs <==> !Supplied(input.endTime)
    ensures Status in errs <==> !Allowed(input.status, Statuses)
    ensures Kind in errs <==> !Allowed(input.kind, Kinds)
  {
    ErrorList(Supplied(input.title), Supplied(input.date), Supplied(input.startTime),
              Supplied(input.endTime), Allowed(input.status, Statuses), Allowed(input.kind, Kinds))
  }

  /** The failing paths, in schema order, given which validators pass. */
  function ErrorList(title: bool, date: bool, startTime: bool, endTime: bool, status: bool, kind: bool): (errs: seq<Field>)
    ensures Title in errs <==> !title
    ensures Date in errs <==> !date
    ensures StartTime in errs <==> !startTime
    ensures EndTime in errs <==> !endTime
    ensures Status in errs <==> !status
    ensures Kind in errs <==> !kind
  {
    var first := Failing(title, Title) + Failing(date, Date) + Failing(startTime, StartTime);
    var second := Failing(endTime, EndTime) + Failing(status, Status) + Failing(kind, Kind);
    first + second
  }

  /** The error list of one validator. */
  function Failing(passes: bool, f: Field): (r: seq<Field>)
    ensures forall g :: g in r <==> !passes && g == f
  {
    if passes then [] else [f]
  }

  /** A record the schema accepts. */
  predicate ValidTask(t: Task)
  {
    t.title != "" && t.date != "" && t.startTime != "" && t.endTime != ""
    && t.status in Statuses && t.kind in Kinds
  }

  /** `Task.create(body)`: defaults are applied to absent paths, every
      validator runs, and the document gets the fresh id and both timestamps
      set to `now`. The supplied strings are stored exactly as given. */
  function Cast(input: TaskInput, id: nat, now: int): (r: Result<Task, seq<Field>>)
    ensures r.Failure? <==> ValidationErrors(input) != []
    ensures r.Failure? ==> r.error == ValidationErrors(input)
    ensures r.Success? ==> ValidTask(r.value)
    ensures r.Success? ==> r.value.id == id && r.value.createdAt == now && r.value.updatedAt == now
  {
    var errs := ValidationErrors(input);
    if errs != [] then Failure(errs)
    else Success(Task(
      id,
      input.title.value,
      input.description.GetOr(""),
      input.date.value,
      input.startTime.value,
      input.endTime.value,
      input.status.GetOr(DefaultStatus),
      input.kind.GetOr(DefaultKind),
      now,
      now))
  }

  /** A body lacking any of the four required strings is rejected. */
  lemma MissingRequiredRejected(input: TaskInput, id: nat, now: int)
    requires !Supplied(input.title) || !Supplied(input.date)
          || !Supplied(input.startTime) || !Supplied(input.endTime)
    ensures Cast(input, id, now).Failure?
  {
  }

  /** On success, supplied fields are stored as given and absent optional
      fields take their defaults: "" for the description, "pending" for the
      status and "other" for the type. */
  lemma CastStoresFields(input: TaskInput, id: nat, now: int)
    requires Cast(input, id, now).Success?
    ensures var t := Cast(input, id, now).value;
      Some(t.title) == input.title && Some(t.date) == input.date
      && Some(t.startTime) == input.startTime && Some(t.endTime) == input.endTime
      && t.description == (if input.description.Some? then input.description.value else "")
      && t.status == (if input.status.Some? then input.status.value else "pending")
      && t.kind == (if input.kind.Some? then input.kind.value else "other")
  {
  }

  /** The body a stored task serialises to. */
  function InputOf(t: Task): TaskInput
  {
    TaskInput(Some(t.title), Some(t.description), Some(t.date), Some(t.startTime),
              Some(t.endTime), Some(t.status), Some(t.kind))
  }

  /** The schema accepts exactly the valid records: re-creating a valid task
      from its own fields gives it back, up to id and timestamps. */
  lemma CastInputOf(t: Task, now: int)
    ensures Cast(InputOf(t), t.id, now).Success? <==> ValidTask(t)
    ensures ValidTask(t) ==>
      Cast(InputOf(t), t.id, now).value == t.(createdAt := now, updatedAt := now)
  {
  }
}
