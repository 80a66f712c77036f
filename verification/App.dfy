/**
 * The task list of the application shell (src/App.js): the next numeric
 * id, and the list updates made when the dialog saves a task and when a
 * task is deleted.
 */
module App {

  import opened Wrappers
  import opened TaskModal

  // ---------------------------------------------------------------------
  // getNextTaskId

  /**
   * `Number(t.id)` when it is a finite number: a numeric id is itself and
   * `null` converts to 0; any other id is not finite and is skipped.
   */
  function FiniteId(id: TaskId): (n: Option<int>)
  {
    match id
    case Numeric(n) => Some(n)
    case NullId => Some(0)
    case NonNumeric(_) => None
  }

  /** The reducer's step: `Math.max(max, idNum)` for finite ids. */
  function MaxStep(max: int, t: Task): (r: int)
    ensures r >= max
    ensures FiniteId(t.id).Some? ==> r >= FiniteId(t.id).value
    ensures r == max || FiniteId(t.id) == Some(r)
  {
    match FiniteId(t.id)
    case Some(n) => if n > max then n else max
    case None => max
  }

  /**
   * `tasks.reduce(step, 0)`: the largest finite id, or 0 when there is
   * none above 0.
   */
  function MaxId(tasks: seq<Task>): (m: int)
    ensures m >= 0
    ensures forall i :: 0 <= i < |tasks| && FiniteId(tasks[i].id).Some? ==> FiniteId(tasks[i].id).value <= m
    ensures m == 0 || exists i :: 0 <= i < |tasks| && FiniteId(tasks[i].id) == Some(m)
  {
    if |tasks| == 0 then 0
    else MaxStep(MaxId(tasks[..|tasks| - 1]), tasks[|tasks| - 1])
  }

  /** getNextTaskId: one past the largest finite id. */
  function NextTaskId(tasks: seq<Task>): (r: int)
    ensures r >= 1
    ensures forall i :: 0 <= i < |tasks| && FiniteId(tasks[i].id).Some? ==> FiniteId(tasks[i].id).value < r
    ensures r == 1 || exists i :: 0 <= i < |tasks| && FiniteId(tasks[i].id) == Some(r - 1)
  {
    MaxId(tasks) + 1
  }

  /** The next id is not the id of any task in the list. */
  lemma NextTaskIdIsFresh(tasks: seq<Task>)
    ensures forall i :: 0 <= i < |tasks| ==> tasks[i].id != Numeric(NextTaskId(tasks))
  {
  }

  /** Putting a task in front does not change the reduction's maximum but for that task. */
  lemma {:induction false} MaxIdPrepend(t: Task, tasks: seq<Task>)
    ensures MaxId([t] + tasks) == MaxStep(MaxId(tasks), t)
    decreases |tasks|
  {
    if |tasks| == 0 {
      assert ([t] + tasks)[..0] == [];
    } else {
      var init := tasks[..|tasks| - 1];
      assert ([t] + tasks)[..|tasks|] == [t] + init;
      MaxIdPrepend(t, init);
    }
  }

  // ---------------------------------------------------------------------
  // handleSaveTask

  /** `prev.some((t) => t.id === id)` */
  predicate HasId(tasks: seq<Task>, id: TaskId)
  {
    exists i :: 0 <= i < |tasks| && tasks[i].id == id
  }

  /** `prev.map((t) => (t.id === payload.id ? payload : t))` */
  function ReplaceById(tasks: seq<Task>, payload: Task): (r: seq<Task>)
    ensures |r| == |tasks|
    ensures forall i :: 0 <= i < |tasks| ==> r[i].id == tasks[i].id
    ensures forall i :: 0 <= i < |tasks| && tasks[i].id != payload.id ==> r[i] == tasks[i]
    ensures forall i :: 0 <= i < |tasks| && tasks[i].id == payload.id ==> r[i] == payload
  {
    seq(|tasks|, i requires 0 <= i < |tasks| => if tasks[i].id == payload.id then payload else tasks[i])
  }

  /**
   * The updater of handleSaveTask: a payload whose id is in the list
   * replaces the tasks with that id; any other payload is put first with
   * the next numeric id.
   */
  function SaveUpdate(prev: seq<Task>, payload: Task): (next: seq<Task>)
    ensures |next| == if HasId(prev, payload.id) then |prev| else |prev| + 1
  {
    if !HasId(prev, payload.id) then [payload.(id := Numeric(NextTaskId(prev)))] + prev
    else ReplaceById(prev, payload)
  }

  /** No two tasks of the list share an id. */
  predicate UniqueIds(tasks: seq<Task>)
  {
    forall i, j :: 0 <= i < j < |tasks| ==> tasks[i].id != tasks[j].id
  }

  /**
   * Creating: the payload becomes the first task, under a fresh numeric id
   * one past the largest finite id, and the earlier tasks follow unchanged.
   */
  lemma SaveCreates(prev: seq<Task>, payload: Task)
    requires !HasId(prev, payload.id)
    ensures var r := SaveUpdate(prev, payload);
      |r| == |prev| + 1 && r[1..] == prev &&
      r[0] == payload.(id := r[0].id) && r[0].id == Numeric(NextTaskId(prev)) &&
      !HasId(prev, r[0].id)
  {
    NextTaskIdIsFresh(prev);
  }

  /**
   * Editing: the list keeps its length, order and ids; the tasks with the
   * payload's id become the payload and no other task changes.
   */
  lemma SaveEdits(prev: seq<Task>, payload: Task)
    requires HasId(prev, payload.id)
    ensures var r := SaveUpdate(prev, payload);
      |r| == |prev| &&
      (forall i :: 0 <= i < |prev| ==> r[i].id == prev[i].id) &&
      (forall i :: 0 <= i < |prev| ==> r[i] == if prev[i].id == payload.id then payload else prev[i])
  {
  }

  /** Either way the saved content is in the list afterwards. */
  lemma SaveStoresPayload(prev: seq<Task>, payload: Task)
    ensures var r := SaveUpdate(prev, payload);
      exists j :: 0 <= j < |r| && r[j] == payload.(id := r[j].id)
  {
    var r := SaveUpdate(prev, payload);
    if HasId(prev, payload.id) {
      var j :| 0 <= j < |prev| && prev[j].id == payload.id;
      assert r[j] == payload.(id := r[j].id);
    } else {
      assert r[0] == payload.(id := r[0].id);
    }
  }

  /** Saving keeps the ids of the list distinct. */
  lemma SaveKeepsIdsUnique(prev: seq<Task>, payload: Task)
    requires UniqueIds(prev)
    ensures UniqueIds(SaveUpdate(prev, payload))
  {
    var r := SaveUpdate(prev, payload);
    if !HasId(prev, payload.id) {
      NextTaskIdIsFresh(prev);
      forall i, j | 0 <= i < j < |r|
        ensures r[i].id != r[j].id
      {
        if i > 0 {
          assert r[i] == prev[i - 1] && r[j] == prev[j - 1];
        } else {
          assert r[j] == prev[j - 1];
        }
      }
    }
  }

  /**
   * Each creation takes the next number: after a task is created, the next
   * id is one more than the id it was given.
   */
  lemma CreatedIdsAreConsecutive(prev: seq<Task>, payload: Task)
    requires !HasId(prev, payload.id)
    ensures NextTaskId(SaveUpdate(prev, payload)) == NextTaskId(prev) + 1
  {
    var t := payload.(id := Numeric(NextTaskId(prev)));
    MaxIdPrepend(t, prev);
  }

  // ---------------------------------------------------------------------
  // Ids as JavaScript numbers

  /** `Number.MAX_SAFE_INTEGER`, 2^53 - 1: up to 2^53 every integer is a double. */
  const MaxSafeInteger: int := 9007199254740991

  /** Every finite id is at most `Number.MAX_SAFE_INTEGER`. */
  predicate SafeIds(tasks: seq<Task>)
  {
    forall i :: 0 <= i < |tasks| && FiniteId(tasks[i].id).Some? ==> FiniteId(tasks[i].id).value <= MaxSafeInteger
  }

  /**
   * With safe ids, `maxId + 1` is at most 2^53, an integer a double holds
   * exactly, so JavaScript's floating-point sum is the exact one the model
   * computes.
   */
  lemma NextTaskIdIsExact(tasks: seq<Task>)
    requires SafeIds(tasks)
    ensures NextTaskId(tasks) <= MaxSafeInteger + 1
  {
    var m := MaxId(tasks);
    if m != 0 {
      var i :| 0 <= i < |tasks| && FiniteId(tasks[i].id) == Some(m);
    }
  }

  /**
   * Ids stay safe across a save as long as the largest id is below
   * `Number.MAX_SAFE_INTEGER`: an edit keeps the ids, and a creation adds
   * one more than the largest.
   */
  lemma SaveKeepsIdsSafe(prev: seq<Task>, payload: Task)
    requires SafeIds(prev) && MaxId(prev) < MaxSafeInteger
    ensures SafeIds(SaveUpdate(prev, payload))
  {
    var r := SaveUpdate(prev, payload);
    if HasId(prev, payload.id) {
      var k :| 0 <= k < |prev| && prev[k].id == payload.id;
      forall i | 0 <= i < |r| && FiniteId(r[i].id).Some?
        ensures FiniteId(r[i].id).value <= MaxSafeInteger
      {
        assert r[i].id == prev[i].id;
      }
    } else {
      forall i | 0 <= i < |r| && FiniteId(r[i].id).Some?
        ensures FiniteId(r[i].id).value <= MaxSafeInteger
      {
        if i > 0 {
          assert r[i] == prev[i - 1];
        }
      }
    }
  }

  /**
   * The step of one is exact in doubles only while the largest id is below
   * `Number.MAX_SAFE_INTEGER`: then the created id and the next id after it
   * are both at most 2^53, so neither sum rounds.
   */
  lemma CreatedIdsStayExact(prev: seq<Task>, payload: Task)
    requires !HasId(prev, payload.id)
    requires SafeIds(prev) && MaxId(prev) < MaxSafeInteger
    ensures NextTaskId(prev) <= MaxSafeInteger
    ensures NextTaskId(SaveUpdate(prev, payload)) == NextTaskId(prev) + 1 <= MaxSafeInteger + 1
  {
    CreatedIdsAreConsecutive(prev, payload);
    SaveKeepsIdsSafe(prev, payload);
    NextTaskIdIsExact(SaveUpdate(prev, payload));
  }

  // ---------------------------------------------------------------------
  // handleDeleteTask

  /** The updater of handleDeleteTask: `prev.filter((t) => t.id !== id)`. */
  function DeleteUpdate(prev: seq<Task>, id: TaskId): (r: seq<Task>)
    ensures |r| <= |prev|
    ensures forall i :: 0 <= i < |r| ==> r[i].id != id
    ensures forall t :: t in r <==> t in prev && t.id != id
  {
    if |prev| == 0 then []
    else if prev[0].id != id then [prev[0]] + DeleteUpdate(prev[1..], id)
    else DeleteUpdate(prev[1..], id)
  }

  /** Deleting an id no task has leaves the list as it was. */
  lemma {:induction false} DeleteAbsentIsNoOp(prev: seq<Task>, id: TaskId)
    requires !HasId(prev, id)
    ensures DeleteUpdate(prev, id) == prev
  {
    if |prev| > 0 {
      assert !HasId(prev[1..], id) by {
        forall i | 0 <= i < |prev[1..]|
          ensures prev[1..][i].id != id
        {
          assert prev[1..][i] == prev[i + 1];
        }
      }
      DeleteAbsentIsNoOp(prev[1..], id);
    }
  }

  /** Deleting works list piece by list piece, so the survivors keep their order. */
  lemma {:induction false} DeleteDistributes(a: seq<Task>, b: seq<Task>, id: TaskId)
    ensures DeleteUpdate(a + b, id) == DeleteUpdate(a, id) + DeleteUpdate(b, id)
  {
    if |a| > 0 {
      assert (a + b)[1..] == a[1..] + b;
      DeleteDistributes(a[1..], b, id);
    } else {
      assert a + b == b;
    }
  }

  /** With distinct ids, deleting an id that is present removes exactly one task. */
  lemma {:induction false} DeleteRemovesOne(prev: seq<Task>, id: TaskId)
    requires UniqueIds(prev) && HasId(prev, id)
    ensures |DeleteUpdate(prev, id)| == |prev| - 1
  {
    if prev[0].id == id {
      assert !HasId(prev[1..], id) by {
        forall i | 0 <= i < |prev[1..]|
          ensures prev[1..][i].id != id
        {
          assert prev[1..][i] == prev[i + 1];
        }
      }
      DeleteAbsentIsNoOp(prev[1..], id);
    } else {
      var j :| 0 <= j < |prev| && prev[j].id == id;
      assert prev[1..][j - 1].id == id;
      assert UniqueIds(prev[1..]) by {
        forall i, k | 0 <= i < k < |prev[1..]|
          ensures prev[1..][i].id != prev[1..][k].id
        {
          assert prev[1..][i] == prev[i + 1] && prev[1..][k] == prev[k + 1];
        }
      }
      DeleteRemovesOne(prev[1..], id);
    }
  }

  /** Deleting keeps the ids of the list distinct. */
  lemma {:induction false} DeleteKeepsIdsUnique(prev: seq<Task>, id: TaskId)
    requires UniqueIds(prev)
    ensures UniqueIds(DeleteUpdate(prev, id))
  {
    if |prev| > 0 {
      var rest := prev[1..];
      assert UniqueIds(rest) by {
        forall i, k | 0 <= i < k < |rest|
          ensures rest[i].id != rest[k].id
        {
          assert rest[i] == prev[i + 1] && rest[k] == prev[k + 1];
        }
      }
      DeleteKeepsIdsUnique(rest, id);
      if prev[0].id != id {
        var tail := DeleteUpdate(rest, id);
        assert forall t :: t in rest ==> t.id != prev[0].id by {
          forall t | t in rest
            ensures t.id != prev[0].id
          {
            var m :| 0 <= m < |rest| && rest[m] == t;
            assert rest[m] == prev[m + 1];
          }
        }
        PrependKeepsUnique(prev[0], tail);
      }
    }
  }

  /** A task whose id no task of a distinct-id list has can go in front. */
  lemma PrependKeepsUnique(t: Task, tasks: seq<Task>)
    requires UniqueIds(tasks)
    requires forall u :: u in tasks ==> u.id != t.id
    ensures UniqueIds([t] + tasks)
  {
    var r := [t] + tasks;
    forall i, k | 0 <= i < k < |r|
      ensures r[i].id != r[k].id
    {
      assert r[k] == tasks[k - 1];
      if i > 0 {
        assert r[i] == tasks[i - 1];
      }
    }
  }

  // ---------------------------------------------------------------------
  // The list held by the application

  const CreatedMessage := "Task created successfully."
  const UpdatedMessage := "Task updated successfully."
  const DeletedMessage := "Task deleted."

  /** The task list state of the application and its toast line. */
  class TaskStore {
    var tasks: seq<Task>
    var toast: string

    /** Starts from the loaded list with no toast shown. */
    constructor (initial: seq<Task>)
      ensures tasks == initial && toast == ""
    {
      tasks := initial;
      toast := "";
    }

    /**
     * handleSaveTask: applies the save updater and shows which of
     * creation or edit happened.
     */
    method SaveTask(payload: Task)
      modifies this
      ensures tasks == SaveUpdate(old(tasks), payload)
      ensures toast == if HasId(old(tasks), payload.id) then UpdatedMessage else CreatedMessage
      ensures UniqueIds(old(tasks)) ==> UniqueIds(tasks)
      ensures exists j :: 0 <= j < |tasks| && tasks[j] == payload.(id := tasks[j].id)
    {
      var prev := tasks;
      var found := exists i :: 0 <= i < |prev| && prev[i].id == payload.id;
      if !found {
        var newTask := payload.(id := Numeric(NextTaskId(prev)));
        toast := CreatedMessage;
        tasks := [newTask] + prev;
      } else {
        toast := UpdatedMessage;
        tasks := ReplaceById(prev, payload);
      }
      SaveStoresPayload(prev, payload);
      if UniqueIds(prev) {
        SaveKeepsIdsUnique(prev, payload);
      }
    }

    /**
     * handleDeleteTask: when the user confirms, removes every task with
     * the id and shows the deletion toast; otherwise nothing changes.
     */
    method DeleteTask(id: TaskId, confirmed: bool)
      modifies this
      ensures !confirmed ==> tasks == old(tasks) && toast == old(toast)
      ensures confirmed ==> tasks == DeleteUpdate(old(tasks), id) && toast == DeletedMessage
      ensures confirmed ==> !HasId(tasks, id)
      ensures UniqueIds(old(tasks)) ==> UniqueIds(tasks)
    {
      if !confirmed {
        return;
      }
      if UniqueIds(tasks) {
        DeleteKeepsIdsUnique(tasks, id);
      }
      tasks := DeleteUpdate(tasks, id);
      toast := DeletedMessage;
    }
  }
}
