/** The add/edit dialog: the form's fields, how they are loaded from the task
    being edited, and what saving and deleting send to the server. */
module TaskModal {
  import opened Wrappers
  import opened Strings
  import opened TaskModel
  import opened TaskRoutes

  const DefaultStartTime: string := "09:00"
  const DefaultEndTime: string := "10:00"

  /** `x || fallback` for a string field. */
  function Or(x: string, fallback: string): (r: string)
    ensures x != "" ==> r == x
    ensures x == "" ==> r == fallback
  {
    if x != "" then x else fallback
  }

  /** The four free-text inputs of the form. */
  datatype TextField = TitleInput | DescriptionInput | StartTimeInput | EndTimeInput

  /** What `handleSave` does: nothing but an alert for a blank title, a POST
      of a new task, or a PUT to the edited task's id. */
  datatype SaveAction = Rejected | Post(payload: TaskInput) | Put(id: nat, payload: TaskInput)

  class TaskForm {
    var title: string
    var description: string
    var startTime: string
    var endTime: string
    var status: string
    var kind: string

    /** The form as first rendered. */
    constructor()
      ensures title == "" && description == ""
      ensures startTime == DefaultStartTime && endTime == DefaultEndTime
      ensures status == DefaultStatus && kind == DefaultKind
    {
      title, description := "", "";
      startTime, endTime := DefaultStartTime, DefaultEndTime;
      status, kind := DefaultStatus, DefaultKind;
    }

    /** The `[editTask]` effect: the edited task's fields, each falling back
        to its default when empty, or all defaults for a new task. */
    method Load(editTask: Option<Task>)
      modifies this
      ensures editTask.None? ==>
        title == "" && description == "" && startTime == DefaultStartTime
        && endTime == DefaultEndTime && status == DefaultStatus && kind == DefaultKind
      ensures editTask.Some? ==>
        var e := editTask.value;
        title == e.title && description == e.description
        && startTime == Or(e.startTime, DefaultStartTime) && endTime == Or(e.endTime, DefaultEndTime)
        && status == Or(e.status, DefaultStatus) && kind == Or(e.kind, DefaultKind)
    {
      match editTask
      case Some(e) =>
        title := Or(e.title, "");
        description := Or(e.description, "");
        startTime := Or(e.startTime, DefaultStartTime);
        endTime := Or(e.endTime, DefaultEndTime);
        status := Or(e.status, DefaultStatus);
        kind := Or(e.kind, DefaultKind);
      case None =>
        title, description := "", "";
        startTime, endTime := DefaultStartTime, DefaultEndTime;
        status, kind := DefaultStatus, DefaultKind;
    }

    /** Typing into one of the text inputs; the other fields keep their values. */
    method Type(field: TextField, value: string)
      modifies this
      ensures title == (if field == TitleInput then value else old(title))
      ensures description == (if field == DescriptionInput then value else old(description))
      ensures startTime == (if field == StartTimeInput then value else old(startTime))
      ensures endTime == (if field == EndTimeInput then value else old(endTime))
      ensures status == old(status) && kind == old(kind)
    {
      match field
      case TitleInput => title := value;
      case DescriptionInput => description := value;
      case StartTimeInput => startTime := value;
      case EndTimeInput => endTime := value;
    }

    /** Picking a status from its drop-down, which offers only the listed ones. */
    method ChooseStatus(s: string)
      requires s in Statuses
      modifies this
      ensures status == s
      ensures title == old(title) && description == old(description) && kind == old(kind)
      ensures startTime == old(startTime) && endTime == old(endTime)
    {
      status := s;
    }

    /** Picking a type from its drop-down, which offers only the listed ones. */
    method ChooseKind(k: string)
      requires k in Kinds
      modifies this
      ensures kind == k
      ensures title == old(title) && description == old(description) && status == old(status)
      ensures startTime == old(startTime) && endTime == old(endTime)
    {
      kind := k;
    }

    /** `payload`: every form field, and the dialog's `date`. */
    function Payload(date: string): (p: TaskInput)
      reads this
      ensures p.title == Some(title) && p.description == Some(description) && p.date == Some(date)
      ensures p.startTime == Some(startTime) && p.endTime == Some(endTime)
      ensures p.status == Some(status) && p.kind == Some(kind)
    {
      TaskInput(Some(title), Some(description), Some(date), Some(startTime), Some(endTime),
                Some(status), Some(kind))
    }

    /** `handleSave`: a title that is blank after trimming is refused; an
        edit is sent as a PUT to the edited task, anything else as a POST. */
    function Save(date: string, editTask: Option<Task>): (a: SaveAction)
      reads this
      ensures a.Rejected? <==> IsBlank(title)
      ensures !a.Rejected? ==> a.payload == Payload(date)
      ensures a.Put? <==> !IsBlank(title) && editTask.Some?
      ensures a.Put? ==> a.id == editTask.value.id
    {
      TrimEmptyIffBlank(title);
      if Trim(title) == "" then Rejected
      else if editTask.Some? then Put(editTask.value.id, Payload(date))
      else Post(Payload(date))
    }

    /** The times are filled in and the drop-downs hold listed values. */
    predicate Complete()
      reads this
    {
      startTime != "" && endTime != "" && status in Statuses && kind in Kinds
    }

    /** A form that is not refused creates a task, provided its times are
        filled in and the date is not empty; the task stores the form's
        fields and the dialog's date. */
    lemma PostAccepted(date: string, id: nat, now: int)
      requires Complete() && date != "" && Save(date, None).Post?
      ensures var c := Cast(Save(date, None).payload, id, now);
        c.Success?
        && c.value.title == title && c.value.description == description && c.value.date == date
        && c.value.startTime == startTime && c.value.endTime == endTime
        && c.value.status == status && c.value.kind == kind
    {
    }
  }

  /** Saving a loaded edit sends the dialog's date, not the task's own: an
      unchanged complete task is written back as it was only when the two
      agree. */
  lemma EditWritesSelectedDate(form: TaskForm, e: Task, date: string, now: int)
    requires ValidTask(e) && !IsBlank(e.title)
    requires form.title == e.title && form.description == e.description
    requires form.startTime == Or(e.startTime, DefaultStartTime) && form.endTime == Or(e.endTime, DefaultEndTime)
    requires form.status == Or(e.status, DefaultStatus) && form.kind == Or(e.kind, DefaultKind)
    ensures var a := form.Save(date, Some(e));
      a.Put? && a.id == e.id
      && ApplyPatch(e, a.payload, now) == e.(date := date, updatedAt := now)
  {
  }

  /** `handleDelete`: the id to delete, only for an edited task and a
      confirmed prompt. */
  function DeleteTarget(editTask: Option<Task>, confirmed: bool): (r: Option<nat>)
    ensures r.Some? <==> editTask.Some? && confirmed
    ensures r.Some? ==> r.value == editTask.value.id
  {
    if editTask.None? || !confirmed then None else Some(editTask.value.id)
  }
}
