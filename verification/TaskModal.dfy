/**
 * The task editor dialog (src/components/TaskModal.js): editing one field
 * of the task, validating the form with its error messages, and building
 * the payload handed to the saver.
 */
module TaskModal {

  import opened Wrappers
  import opened JsString
  import opened JsDate
  import IsoDate
  import opened LoadEditor

  /**
   * A task id: a number, `null` (a task not saved yet), or some other
   * value that is not a finite number.
   */
  datatype TaskId = NullId | Numeric(n: int) | NonNumeric(tag: string)

  /** A task as the dialog edits it and the list stores it. */
  datatype Task = Task(
    id: TaskId,
    taskName: string,
    description: string,
    startDate: string,
    endDate: string,
    requestedBy: string,
    assignedTo: string,
    status: string,
    project: string,
    workloads: seq<Workload>)

  // ---------------------------------------------------------------------
  // The dialog's own copy of the date check

  /**
   * parseISODate of the dialog: the same pattern match and `Date.UTC`
   * round trip as the workload editor's, returning only the time value.
   */
  function ParseISODate(d: Option<string>): (utc: Option<int>)
  {
    if d.None? then None
    else match IsoDate.ExecDatePattern(d.value)
      case None => None
      case Some(g) =>
        var y := DecimalValue(g.year);
        var mo := DecimalValue(g.month);
        var da := DecimalValue(g.date);
        var utc := DateUTC(y, mo - 1, da);
        var dt := FieldsOfTime(utc);
        if dt.year != y || dt.month != mo - 1 || dt.date != da then None
        else Some(utc)
  }

  /** isValidDate of the dialog. */
  predicate IsValidDate(d: Option<string>)
  {
    ParseISODate(d).Some?
  }

  /** Both copies accept the same strings and agree on the time value. */
  lemma SameAsEditorCheck(d: Option<string>)
    ensures IsValidDate(d) <==> IsoDate.IsValidDate(d)
    ensures IsValidDate(d) ==> ParseISODate(d).value == IsoDate.ParseISODate(d).value.utc
  {
  }

  /**
   * The comparisons `validate` makes on two valid dates (`>` and `<` on
   * the strings) agree with the order of their time values.
   */
  lemma StringOrderIsTimeOrder(a: string, b: string)
    requires IsValidDate(Some(a)) && IsValidDate(Some(b))
    ensures Less(a, b) <==> ParseISODate(Some(a)).value < ParseISODate(Some(b)).value
    ensures a == b <==> ParseISODate(Some(a)).value == ParseISODate(Some(b)).value
  {
    SameAsEditorCheck(Some(a));
    SameAsEditorCheck(Some(b));
    IsoDate.StringOrderIsDayOrder(a, b);
    IsoDate.UtcIsWholeDays(a);
    IsoDate.UtcIsWholeDays(b);
  }

  // ---------------------------------------------------------------------
  // Opening the dialog

  /** The blank task the dialog starts from when it creates a task. */
  function NewTask(): (t: Task)
    ensures t.id == NullId && t.workloads == []
    ensures t.taskName == "" && t.startDate == "" && t.endDate == ""
    ensures t.status == "In Progress"
  {
    Task(NullId, "", "", "", "", "", "", "In Progress", "", [])
  }

  // ---------------------------------------------------------------------
  // setField

  /** The text fields the dialog's inputs edit. */
  datatype TaskField =
    | TaskName | Description | RequestedBy | AssignedTo | Status | Project | StartDate | EndDate

  /** The current value of a text field. */
  function FieldValue(t: Task, f: TaskField): (v: string)
  {
    match f
    case TaskName => t.taskName
    case Description => t.description
    case RequestedBy => t.requestedBy
    case AssignedTo => t.assignedTo
    case Status => t.status
    case Project => t.project
    case StartDate => t.startDate
    case EndDate => t.endDate
  }

  /** The task updater of setField(field, value): `{ ...prev, [field]: value }`. */
  function SetField(t: Task, f: TaskField, value: string): (r: Task)
    ensures FieldValue(r, f) == value
    ensures forall g :: g != f ==> FieldValue(r, g) == FieldValue(t, g)
    ensures r.id == t.id && r.workloads == t.workloads
  {
    match f
    case TaskName => t.(taskName := value)
    case Description => t.(description := value)
    case RequestedBy => t.(requestedBy := value)
    case AssignedTo => t.(assignedTo := value)
    case Status => t.(status := value)
    case Project => t.(project := value)
    case StartDate => t.(startDate := value)
    case EndDate => t.(endDate := value)
  }

  // ---------------------------------------------------------------------
  // validate

  /** The keys of the task error map. */
  datatype TaskErrorKey = TaskNameKey | StartDateKey | EndDateKey | RangeKey

  const TaskNameRequired := "Task name required"
  const StartDateRequired := "Valid start date required"
  const EndDateRequired := "Valid end date required"
  const StartBeforeEnd := "Task start must be before end"
  const BothDatesRequired := "Both dates required (valid date)"
  const WorkloadStartBeforeEnd := "Workload start must be before end"
  const WorkloadInsideTask := "Workload must be inside task range"

  /** The message stored under each task error key. */
  function TaskMessage(k: TaskErrorKey): (msg: string)
  {
    match k
    case TaskNameKey => TaskNameRequired
    case StartDateKey => StartDateRequired
    case EndDateKey => EndDateRequired
    case RangeKey => StartBeforeEnd
  }

  /** A task error map whose every entry holds its own key's message. */
  lemma MessagesByKey(e: map<TaskErrorKey, string>)
    requires TaskNameKey in e ==> e[TaskNameKey] == TaskNameRequired
    requires StartDateKey in e ==> e[StartDateKey] == StartDateRequired
    requires EndDateKey in e ==> e[EndDateKey] == EndDateRequired
    requires RangeKey in e ==> e[RangeKey] == StartBeforeEnd
    ensures forall k :: k in e ==> e[k] == TaskMessage(k)
  {
  }

  /**
   * The one error a workload gets, checked in this order: a missing or
   * invalid date, then an end before the start, then (only when both task
   * dates are valid) a date outside the task range.
   */
  function WorkloadError(w: Workload, task: Task): (msg: Option<string>)
  {
    RowError(w.startDate, w.endDate, task.startDate, task.endDate)
  }

  /**
   * The checks of WorkloadError, on the four dates they read: a row's
   * error depends on nothing else.
   */
  function RowError(start: Option<string>, end: Option<string>, taskStart: string, taskEnd: string): (msg: Option<string>)
  {
    if !IsValidDate(start) || !IsValidDate(end) then Some(BothDatesRequired)
    else if Less(end.value, start.value) then Some(WorkloadStartBeforeEnd)
    else if IsValidDate(Some(taskStart)) && IsValidDate(Some(taskEnd)) &&
      (Less(start.value, taskStart) || Less(taskEnd, end.value))
    then Some(WorkloadInsideTask)
    else None
  }

  /** Whether the form passes: no task error and no workload error. */
  predicate Passes(task: Task, workloads: seq<Workload>)
  {
    !IsBlank(task.taskName) &&
    IsValidDate(Some(task.startDate)) && IsValidDate(Some(task.endDate)) &&
    !Less(task.endDate, task.startDate) &&
    forall i :: 0 <= i < |workloads| ==> WorkloadError(workloads[i], task).None?
  }

  /**
   * validate(): fills the task error map `e` and the workload error map
   * `we` (keyed by position) and reports whether both stayed empty.
   */
  method Validate(task: Task, workloads: seq<Workload>)
    returns (e: map<TaskErrorKey, string>, we: map<int, string>, ok: bool)
    ensures TaskNameKey in e <==> IsBlank(task.taskName)
    ensures StartDateKey in e <==> !IsValidDate(Some(task.startDate))
    ensures EndDateKey in e <==> !IsValidDate(Some(task.endDate))
    ensures RangeKey in e <==>
      IsValidDate(Some(task.startDate)) && IsValidDate(Some(task.endDate)) &&
      Less(task.endDate, task.startDate)
    ensures forall k :: k in e ==> e[k] == TaskMessage(k)
    ensures forall i :: i in we ==> 0 <= i < |workloads|
    ensures forall i :: 0 <= i < |workloads| ==>
      (i in we <==> WorkloadError(workloads[i], task).Some?) &&
      (i in we ==> we[i] == WorkloadError(workloads[i], task).value)
    ensures ok <==> e == map[] && we == map[]
    ensures ok <==> Passes(task, workloads)
  {
    e := CheckTask(task);
    we := CheckWorkloads(task, workloads);

    ok := |e| == 0 && |we| == 0;
    PassesIffNoErrors(task, workloads, e, we);
  }

  /** The form passes exactly when both error maps come out empty. */
  lemma PassesIffNoErrors(task: Task, workloads: seq<Workload>, e: map<TaskErrorKey, string>, we: map<int, string>)
    requires TaskNameKey in e <==> IsBlank(task.taskName)
    requires StartDateKey in e <==> !IsValidDate(Some(task.startDate))
    requires EndDateKey in e <==> !IsValidDate(Some(task.endDate))
    requires RangeKey in e <==>
      IsValidDate(Some(task.startDate)) && IsValidDate(Some(task.endDate)) &&
      Less(task.endDate, task.startDate)
    requires forall i :: i in we ==> 0 <= i < |workloads|
    requires forall i :: 0 <= i < |workloads| ==> (i in we <==> WorkloadError(workloads[i], task).Some?)
    ensures (|e| == 0 && |we| == 0) <==> Passes(task, workloads)
    ensures |e| == 0 <==> e == map[]
    ensures |we| == 0 <==> we == map[]
  {
    TaskChecksPass(task, e);
    RowChecksPass(task, workloads, we);
    if |e| == 0 {
      assert e.Keys == {};
    }
  }

  /** The task-level half of PassesIffNoErrors. */
  lemma TaskChecksPass(task: Task, e: map<TaskErrorKey, string>)
    requires TaskNameKey in e <==> IsBlank(task.taskName)
    requires StartDateKey in e <==> !IsValidDate(Some(task.startDate))
    requires EndDateKey in e <==> !IsValidDate(Some(task.endDate))
    requires RangeKey in e <==>
      IsValidDate(Some(task.startDate)) && IsValidDate(Some(task.endDate)) &&
      Less(task.endDate, task.startDate)
    ensures |e| == 0 <==>
      !IsBlank(task.taskName) && IsValidDate(Some(task.startDate)) && IsValidDate(Some(task.endDate)) &&
      !Less(task.endDate, task.startDate)
  {
    NoKeysIsEmpty(e);
  }

  /** The workload half of PassesIffNoErrors. */
  lemma RowChecksPass(task: Task, workloads: seq<Workload>, we: map<int, string>)
    requires forall i :: i in we ==> 0 <= i < |workloads|
    requires forall i :: 0 <= i < |workloads| ==> (i in we <==> WorkloadError(workloads[i], task).Some?)
    ensures |we| == 0 <==> forall i :: 0 <= i < |workloads| ==> WorkloadError(workloads[i], task).None?
  {
    if forall i :: 0 <= i < |workloads| ==> WorkloadError(workloads[i], task).None? {
      assert forall i :: i !in we;
      assert we == map[];
    }
    if |we| == 0 {
      assert we == map[];
    }
  }

  /** A task error map with none of the four keys is empty. */
  lemma NoKeysIsEmpty(e: map<TaskErrorKey, string>)
    ensures |e| == 0 <==> TaskNameKey !in e && StartDateKey !in e && EndDateKey !in e && RangeKey !in e
  {
    if TaskNameKey !in e && StartDateKey !in e && EndDateKey !in e && RangeKey !in e {
      assert e.Keys == {} by {
        forall k | k in e ensures false {
          match k
          case TaskNameKey =>
          case StartDateKey =>
          case EndDateKey =>
          case RangeKey =>
        }
      }
    }
  }

  /** The task-level checks of validate(): name, both dates, then their order. */
  method CheckTask(task: Task) returns (e: map<TaskErrorKey, string>)
    ensures TaskNameKey in e <==> IsBlank(task.taskName)
    ensures StartDateKey in e <==> !IsValidDate(Some(task.startDate))
    ensures EndDateKey in e <==> !IsValidDate(Some(task.endDate))
    ensures RangeKey in e <==>
      IsValidDate(Some(task.startDate)) && IsValidDate(Some(task.endDate)) &&
      Less(task.endDate, task.startDate)
    ensures forall k :: k in e ==> e[k] == TaskMessage(k)
  {
    var nameBlank := Trim(task.taskName) == "";
    var startValid := IsValidDate(Some(task.startDate));
    var endValid := IsValidDate(Some(task.endDate));
    var reversed := startValid && endValid && Less(task.endDate, task.startDate);
    e := RecordTaskErrors(nameBlank, startValid, endValid, reversed);
    TrimEmptyIffBlank(task.taskName);
  }

  /** The `newErrors.x = ...` assignments of validate(), one per failed task check. */
  method RecordTaskErrors(nameBlank: bool, startValid: bool, endValid: bool, reversed: bool)
    returns (e: map<TaskErrorKey, string>)
    ensures TaskNameKey in e <==> nameBlank
    ensures StartDateKey in e <==> !startValid
    ensures EndDateKey in e <==> !endValid
    ensures RangeKey in e <==> reversed
    ensures forall k :: k in e ==> e[k] == TaskMessage(k)
  {
    e := map[];
    if nameBlank {
      e := e[TaskNameKey := TaskNameRequired];
    }
    if !startValid {
      e := e[StartDateKey := StartDateRequired];
    }
    if !endValid {
      e := e[EndDateKey := EndDateRequired];
    }
    if reversed {
      e := e[RangeKey := StartBeforeEnd];
    }
    MessagesByKey(e);
  }

  /** The `forEach` over the workloads in validate(), one entry per failing row. */
  method CheckWorkloads(task: Task, workloads: seq<Workload>) returns (we: map<int, string>)
    ensures forall i :: i in we ==> 0 <= i < |workloads|
    ensures forall i :: 0 <= i < |workloads| ==>
      (i in we <==> WorkloadError(workloads[i], task).Some?) &&
      (i in we ==> we[i] == WorkloadError(workloads[i], task).value)
  {
    we := map[];
    var idx := 0;
    while idx < |workloads|
      invariant 0 <= idx <= |workloads|
      invariant forall i :: i in we ==> 0 <= i < idx
      invariant forall i :: 0 <= i < idx ==>
        (i in we <==> WorkloadError(workloads[i], task).Some?) &&
        (i in we ==> we[i] == WorkloadError(workloads[i], task).value)
    {
      var msg := CheckWorkload(workloads[idx], task);
      if msg.Some? {
        we := we[idx := msg.value];
      }
      idx := idx + 1;
    }
  }

  /** The body of that `forEach`: the first check a workload fails, if any. */
  method CheckWorkload(w: Workload, task: Task) returns (msg: Option<string>)
    ensures msg == WorkloadError(w, task)
  {
    if !IsValidDate(w.startDate) || !IsValidDate(w.endDate) {
      return Some(BothDatesRequired);
    }
    if Less(w.endDate.value, w.startDate.value) {
      return Some(WorkloadStartBeforeEnd);
    }
    if IsValidDate(Some(task.startDate)) && IsValidDate(Some(task.endDate)) {
      if Less(w.startDate.value, task.startDate) || Less(task.endDate, w.endDate.value) {
        return Some(WorkloadInsideTask);
      }
    }
    return None;
  }

  /**
   * Opening the dialog on an existing task: each workload gets a row key
   * (`_cid`), drawn by the caller, and keeps its dates.
   */
  function WithRowKeys(ws: seq<Workload>, keys: seq<string>): (r: seq<Workload>)
    requires |keys| == |ws|
    ensures |r| == |ws|
    ensures forall i :: 0 <= i < |ws| ==>
      r[i].startDate == ws[i].startDate && r[i].endDate == ws[i].endDate && r[i].cid == Some(keys[i])
  {
    seq(|ws|, i requires 0 <= i < |ws| => ws[i].(cid := Some(keys[i])))
  }

  /**
   * Saving a blank new task is refused: its name is blank and neither
   * of its dates is valid.
   */
  lemma NewTaskDoesNotPass(workloads: seq<Workload>)
    ensures !Passes(NewTask(), workloads)
    ensures IsBlank(NewTask().taskName)
    ensures !IsValidDate(Some(NewTask().startDate)) && !IsValidDate(Some(NewTask().endDate))
  {
    assert IsoDate.ExecDatePattern("").None?;
  }

  // ---------------------------------------------------------------------
  // What the checks mean in days

  /**
   * A workload error-free under `validate` is one whose two valid dates are
   * in order and, when the task dates are valid, inside the task's days.
   */
  lemma WorkloadErrorInDays(w: Workload, task: Task)
    ensures WorkloadError(w, task) == Some(BothDatesRequired) <==>
      !IsoDate.IsValidDate(w.startDate) || !IsoDate.IsValidDate(w.endDate)
    ensures WorkloadError(w, task) == Some(WorkloadStartBeforeEnd) <==>
      IsoDate.IsValidDate(w.startDate) && IsoDate.IsValidDate(w.endDate) &&
      IsoDate.DayOf(w.endDate.value) < IsoDate.DayOf(w.startDate.value)
    ensures WorkloadError(w, task) == Some(WorkloadInsideTask) <==>
      IsoDate.IsValidDate(w.startDate) && IsoDate.IsValidDate(w.endDate) &&
      IsoDate.DayOf(w.startDate.value) <= IsoDate.DayOf(w.endDate.value) &&
      IsoDate.IsValidDate(Some(task.startDate)) && IsoDate.IsValidDate(Some(task.endDate)) &&
      (IsoDate.DayOf(w.startDate.value) < IsoDate.DayOf(task.startDate) ||
       IsoDate.DayOf(task.endDate) < IsoDate.DayOf(w.endDate.value))
    ensures WorkloadError(w, task).None? <==>
      IsoDate.IsValidDate(w.startDate) && IsoDate.IsValidDate(w.endDate) &&
      IsoDate.DayOf(w.startDate.value) <= IsoDate.DayOf(w.endDate.value) &&
      (IsoDate.IsValidDate(Some(task.startDate)) && IsoDate.IsValidDate(Some(task.endDate)) ==>
        IsoDate.DayOf(task.startDate) <= IsoDate.DayOf(w.startDate.value) &&
        IsoDate.DayOf(w.endDate.value) <= IsoDate.DayOf(task.endDate))
  {
    SameAsEditorCheck(w.startDate);
    SameAsEditorCheck(w.endDate);
    SameAsEditorCheck(Some(task.startDate));
    SameAsEditorCheck(Some(task.endDate));
    if IsoDate.IsValidDate(w.startDate) && IsoDate.IsValidDate(w.endDate) {
      var s, e := w.startDate.value, w.endDate.value;
      IsoDate.StringOrderIsDayOrder(e, s);
      if IsoDate.IsValidDate(Some(task.startDate)) && IsoDate.IsValidDate(Some(task.endDate)) {
        IsoDate.StringOrderIsDayOrder(s, task.startDate);
        IsoDate.StringOrderIsDayOrder(task.endDate, e);
      }
    }
  }

  /**
   * The task-level checks in days: a range error exactly when both dates
   * are valid and the start day is after the end day; a task that starts
   * and ends on the same day is accepted.
   */
  lemma TaskRangeInDays(task: Task)
    ensures (IsValidDate(Some(task.startDate)) && IsValidDate(Some(task.endDate)) &&
             Less(task.endDate, task.startDate)) <==>
            (IsoDate.IsValidDate(Some(task.startDate)) && IsoDate.IsValidDate(Some(task.endDate)) &&
             IsoDate.DayOf(task.endDate) < IsoDate.DayOf(task.startDate))
    ensures task.startDate == task.endDate ==> !Less(task.endDate, task.startDate)
  {
    SameAsEditorCheck(Some(task.startDate));
    SameAsEditorCheck(Some(task.endDate));
    LessIrreflexive(task.startDate);
    if IsoDate.IsValidDate(Some(task.startDate)) && IsoDate.IsValidDate(Some(task.endDate)) {
      IsoDate.StringOrderIsDayOrder(task.endDate, task.startDate);
    }
  }

  /**
   * The workload editor and the validator agree: a workload with valid
   * dates, once normalized against the task's usable range, gets no
   * workload error.
   */
  lemma NormalizedWorkloadPasses(w: Workload, task: Task)
    requires CanLimitRange(task.startDate, task.endDate)
    requires IsoDate.IsValidDate(w.startDate) && IsoDate.IsValidDate(w.endDate)
    ensures WorkloadError(Normalized(w, task.startDate, task.endDate), task).None?
  {
    NormalizedDaysInsideTask(w, task.startDate, task.endDate);
    WorkloadErrorInDays(Normalized(w, task.startDate, task.endDate), task);
  }

  // ---------------------------------------------------------------------
  // handleSave

  /** `workloads.map(({ startDate, endDate }) => ({ startDate, endDate }))` */
  function CleanWorkloads(ws: seq<Workload>): (r: seq<Workload>)
    ensures |r| == |ws|
    ensures forall i :: 0 <= i < |ws| ==>
      r[i].startDate == ws[i].startDate && r[i].endDate == ws[i].endDate && r[i].cid == None
  {
    seq(|ws|, i requires 0 <= i < |ws| => Workload(ws[i].startDate, ws[i].endDate, None))
  }

  /**
   * handleSave(): when the form passes, the payload is the task with the
   * dialog's workloads stripped of their row keys; otherwise nothing is
   * saved. The error maps are what the dialog shows.
   */
  method HandleSave(task: Task, workloads: seq<Workload>)
    returns (saved: Option<Task>, e: map<TaskErrorKey, string>, we: map<int, string>)
    ensures TaskNameKey in e <==> IsBlank(task.taskName)
    ensures StartDateKey in e <==> !IsValidDate(Some(task.startDate))
    ensures EndDateKey in e <==> !IsValidDate(Some(task.endDate))
    ensures RangeKey in e <==>
      IsValidDate(Some(task.startDate)) && IsValidDate(Some(task.endDate)) &&
      Less(task.endDate, task.startDate)
    ensures forall k :: k in e ==> e[k] == TaskMessage(k)
    ensures forall i :: i in we ==> 0 <= i < |workloads|
    ensures forall i :: 0 <= i < |workloads| ==>
      (i in we <==> WorkloadError(workloads[i], task).Some?) &&
      (i in we ==> we[i] == WorkloadError(workloads[i], task).value)
    ensures saved.Some? <==> e == map[] && we == map[]
    ensures saved.Some? <==> Passes(task, workloads)
    ensures saved.Some? ==> saved.value == task.(workloads := CleanWorkloads(workloads))
  {
    var ok;
    e, we, ok := Validate(task, workloads);
    if !ok {
      return None, e, we;
    }
    saved := Some(task.(workloads := CleanWorkloads(workloads)));
  }

  /**
   * Row keys are for the dialog only: saving a task opened for editing,
   * with its workloads untouched, stores the same workloads whatever the
   * keys were.
   */
  lemma RowKeysAreDropped(ws: seq<Workload>, keys: seq<string>)
    requires |keys| == |ws|
    ensures CleanWorkloads(WithRowKeys(ws, keys)) == CleanWorkloads(ws)
    ensures forall i :: 0 <= i < |ws| && ws[i].cid == None ==> CleanWorkloads(ws)[i] == ws[i]
  {
  }

  /** Stripping the row keys changes nothing the validator looks at. */
  lemma SavedTaskRevalidates(task: Task, workloads: seq<Workload>)
    requires Passes(task, workloads)
    ensures var clean := CleanWorkloads(workloads);
      Passes(task.(workloads := clean), clean)
  {
    var clean := CleanWorkloads(workloads);
    forall i | 0 <= i < |clean|
      ensures WorkloadError(clean[i], task.(workloads := clean)).None?
    {
      assert clean[i].startDate == workloads[i].startDate && clean[i].endDate == workloads[i].endDate;
      assert WorkloadError(workloads[i], task).None?;
    }
  }
}
