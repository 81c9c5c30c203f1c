/** The playbook executor: each job invocation claims a run, completes at most one
    dependency-ready task and writes a checkpoint. */
module PlaybookExecutor {
  import opened Collections
  import opened Graphs
  import opened DependencyCheck
  import opened TaskRows

  datatype RunStatus = RunQueued | RunRunning | RunPaused | RunFailed | RunCompleted | RunCancelled

  datatype TaskStatus = Queued | Running | Blocked | Paused | Failed | Retrying | Completed | Cancelled

  /** What the task's inputs say about its adapter. */
  datatype Adapter = NoAdapter | Registered | Unregistered

  datatype Task = Task(workspace: int, id: int, status: TaskStatus, priority: int, passiveType: bool, adapter: Adapter)

  datatype DependencyRow = DependencyRow(workspace: int, row: Dependency)

  datatype Checkpoint = Checkpoint(completed: seq<int>, failed: seq<int>, blocked: seq<int>, nextIndex: nat)

  datatype Reason = NoReason | MissingTask | ExternalDependency | DependencyCycle | NothingReady | AdapterRequired | RunTaken | TaskTaken

  /** `taskIds` and `checkpoint` are None when the stored JSON text does not parse. */
  datatype Run = Run(
    workspace: int, status: RunStatus, taskIds: Option<seq<int>>, checkpoint: Option<Checkpoint>, lastError: Reason)

  datatype Store = Store(runs: map<int, Run>, tasks: map<int, Task>, rows: seq<DependencyRow>)

  datatype Result =
    | Done(task: Option<int>)
    | PausedRun(task: Option<int>, pauseReason: Reason)
    | FailedRun(failReason: Reason)
    | NotExecutable(status: RunStatus)
    | InvalidPayload
    | RunNotFound
    | InvalidStoredText
    | UnsafeTaskType
    | UnregisteredAdapter
    | CountUnavailable(update: Update)

  /** The updates whose row count is asserted. Some drivers do not report it on the result itself;
      then the assertion throws, after the update has taken effect. */
  datatype Update = RunClaim | TaskCompletion | Completion

  // ---------- Selection ----------

  /** The checkpointed ids that belong to the run, without repetitions. */
  function Reconcile(ids: seq<int>, checkpointIds: seq<int>): (r: seq<int>)
    ensures forall id :: id in r <==> id in ids && id in checkpointIds
    ensures forall i, j :: 0 <= i < j < |r| ==> r[i] != r[j]
  {
    if checkpointIds == [] then []
    else
      var n := |checkpointIds| - 1;
      assert checkpointIds == checkpointIds[..n] + [checkpointIds[n]];
      var front := Reconcile(ids, checkpointIds[..n]);
      if checkpointIds[n] in ids && checkpointIds[n] !in front then front + [checkpointIds[n]] else front
  }

  predicate IsReady(task: Task, rows: seq<Dependency>, completed: seq<int>) {
    task.status == Queued && forall row :: row in rows && row.taskId == task.id ==> row.dependsOn in completed
  }

  /** Higher priority first, then the smaller id. */
  predicate Precedes(a: Task, b: Task) {
    a.priority > b.priority || (a.priority == b.priority && a.id <= b.id)
  }

  /** The first ready task in the sort order; none exactly when no task is ready. */
  function SelectDependencyReadyTask(tasks: seq<Task>, rows: seq<Dependency>, completed: seq<int>): (r: Option<Task>)
    ensures r.Some? ==> r.value in tasks && IsReady(r.value, rows, completed)
    ensures r.Some? ==> forall t :: t in tasks && IsReady(t, rows, completed) ==> Precedes(r.value, t)
    ensures r.None? ==> forall t :: t in tasks ==> !IsReady(t, rows, completed)
  {
    if tasks == [] then None
    else
      var n := |tasks| - 1;
      assert tasks == tasks[..n] + [tasks[n]];
      var best := SelectDependencyReadyTask(tasks[..n], rows, completed);
      if !IsReady(tasks[n], rows, completed) then best
      else if best.None? || !Precedes(best.value, tasks[n]) then Some(tasks[n])
      else best
  }

  predicate Present(s: Store, workspace: int, id: int) {
    id in s.tasks && s.tasks[id].workspace == workspace
  }

  /** The task rows of the run: those that exist in its workspace. */
  function TasksOf(s: Store, workspace: int, ids: seq<int>): (r: seq<Task>)
    ensures |r| <= |ids|
    ensures |r| == |ids| ==> forall id :: id in ids ==> Present(s, workspace, id)
    ensures (forall id :: id in ids ==> Present(s, workspace, id)) ==> |r| == |ids|
    ensures forall id :: id in ids && Present(s, workspace, id) ==> s.tasks[id] in r
  {
    if ids == [] then []
    else
      var n := |ids| - 1;
      assert ids == ids[..n] + [ids[n]];
      var front := TasksOf(s, workspace, ids[..n]);
      assert Present(s, workspace, ids[n]) || !Present(s, workspace, ids[n]);
      if Present(s, workspace, ids[n]) then front + [s.tasks[ids[n]]] else front
  }

  lemma {:induction false} FoundTask(s: Store, workspace: int, ids: seq<int>, task: Task) returns (id: int)
    requires task in TasksOf(s, workspace, ids)
    ensures id in ids && Present(s, workspace, id) && s.tasks[id] == task
  {
    var n := |ids| - 1;
    if task in TasksOf(s, workspace, ids[..n]) {
      id := FoundTask(s, workspace, ids[..n], task);
    } else {
      id := ids[n];
    }
  }

  function RowsOf(rows: seq<DependencyRow>, workspace: int, ids: seq<int>): (r: seq<Dependency>)
    ensures forall row :: row in r <==> DependencyRow(workspace, row) in rows && row.taskId in ids
  {
    if rows == [] then []
    else
      var n := |rows| - 1;
      assert rows == rows[..n] + [rows[n]];
      var front := RowsOf(rows[..n], workspace, ids);
      if rows[n].workspace == workspace && rows[n].row.taskId in ids then front + [rows[n].row] else front
  }

  function Except(ids: seq<int>, removed: seq<int>): (r: seq<int>)
    ensures forall id :: id in r <==> id in ids && id !in removed
    ensures |r| <= |ids|
  {
    if ids == [] then []
    else
      var n := |ids| - 1;
      assert ids == ids[..n] + [ids[n]];
      var front := Except(ids[..n], removed);
      if ids[n] in removed then front else front + [ids[n]]
  }

  // ---------- One invocation ----------

  function WithRun(s: Store, runId: int, run: Run): Store {
    s.(runs := s.runs[runId := run])
  }

  function WithTask(s: Store, task: Task, status: TaskStatus): Store {
    s.(tasks := s.tasks[task.id := task.(status := status)])
  }

  datatype Guard = Pass | Refused(reason: Reason)

  /** The three fail-closed guards, in order. */
  ghost function Guards(s: Store, workspace: int, ids: seq<int>): Guard {
    if |TasksOf(s, workspace, ids)| != |ids| then Refused(MissingTask)
    else if exists row :: row in RowsOf(s.rows, workspace, ids) && row.dependsOn !in ids then Refused(ExternalDependency)
    else if CycleAmong(ids, RowsOf(s.rows, workspace, ids)) then Refused(DependencyCycle)
    else Pass
  }

  function Selected(s: Store, workspace: int, ids: seq<int>, completed: seq<int>): Option<Task> {
    SelectDependencyReadyTask(TasksOf(s, workspace, ids), RowsOf(s.rows, workspace, ids), completed)
  }

  function Asserted(rowsReported: bool, update: Update, result: Result): Result {
    if rowsReported then result else CountUnavailable(update)
  }

  /** The branches after the claim; `s` already holds the run as running. */
  ghost function AfterClaim(s: Store, runId: int, run: Run, ids: seq<int>, cp: Checkpoint, rowsReported: bool): (Store, Result) {
    var completed := Reconcile(ids, cp.completed);
    var guard := Guards(s, run.workspace, ids);
    var selected := Selected(s, run.workspace, ids, completed);
    if ids == [] || |completed| >= |ids| then
      (WithRun(s, runId, run.(status := RunCompleted, checkpoint := Some(cp.(completed := ids, nextIndex := |ids|)), lastError := NoReason)),
       Asserted(rowsReported, Completion, Done(None)))
    else if guard.Refused? then
      (WithRun(s, runId, run.(status := RunFailed, lastError := guard.reason)), FailedRun(guard.reason))
    else if selected.None? then
      (WithRun(s, runId, run.(status := RunPaused, checkpoint := Some(cp.(blocked := Except(ids, completed))), lastError := NothingReady)),
       PausedRun(None, NothingReady))
    else
      AfterSelection(s, runId, run, ids, cp, completed, selected.value, rowsReported)
  }

  function AfterSelection(s: Store, runId: int, run: Run, ids: seq<int>, cp: Checkpoint, completed: seq<int>, task: Task,
                          rowsReported: bool): (Store, Result) {
    if !task.passiveType then (s, UnsafeTaskType)
    else
      match task.adapter
      case Unregistered => (s, UnregisteredAdapter)
      case NoAdapter =>
        (WithRun(WithTask(s, task, Blocked), runId,
                 run.(status := RunPaused, checkpoint := Some(cp.(blocked := cp.blocked + [task.id])), lastError := AdapterRequired)),
         PausedRun(Some(task.id), AdapterRequired))
      case Registered =>
        if !rowsReported then (WithTask(s, task, Completed), CountUnavailable(TaskCompletion))
        else
          var completed' := Distinct(completed + [task.id]);
          (WithRun(WithTask(s, task, Completed), runId,
                   run.(status := if |completed'| >= |ids| then RunCompleted else RunQueued,
                        checkpoint := Some(cp.(completed := completed', nextIndex := cp.nextIndex + 1, blocked := Except(cp.blocked, [task.id]))),
                        lastError := NoReason)),
           Done(Some(task.id)))
  }

  /** A run that is already running is not claimed again. */
  ghost function Invoke(s: Store, runId: int, rowsReported: bool): (Store, Result) {
    if runId <= 0 then (s, InvalidPayload)
    else if runId !in s.runs then (s, RunNotFound)
    else
      var run := s.runs[runId];
      if run.status == RunCompleted then (s, Done(None))
      else if run.status in {RunCancelled, RunFailed} then (s, NotExecutable(run.status))
      else if run.taskIds.None? || run.checkpoint.None? then (s, InvalidStoredText)
      else
        var claimed := run.(status := RunRunning);
        if run.status != RunRunning && !rowsReported then (WithRun(s, runId, claimed), CountUnavailable(RunClaim))
        else AfterClaim(WithRun(s, runId, claimed), runId, claimed, Distinct(run.taskIds.value), run.checkpoint.value, rowsReported)
  }

  /** The three tables, updated in place. */
  class PlaybookStore {
    var runs: map<int, Run>
    var tasks: map<int, Task>
    var rows: seq<DependencyRow>

    function State(): Store
      reads this
    {
      Store(runs, tasks, rows)
    }

    method ExecutePlaybookRunJob(runId: int, rowsReported: bool) returns (result: Result)
      modifies this
      ensures (State(), result) == Invoke(old(State()), runId, rowsReported)
    {
      if runId <= 0 {
        return InvalidPayload;
      }
      if runId !in runs {
        return RunNotFound;
      }
      var run := runs[runId];
      if run.status == RunCompleted {
        return Done(None);
      }
      if run.status in {RunCancelled, RunFailed} {
        return NotExecutable(run.status);
      }
      if run.taskIds.None? || run.checkpoint.None? {
        return InvalidStoredText;
      }
      var ids, cp := Distinct(run.taskIds.value), run.checkpoint.value;
      if run.status != RunRunning {
        run := run.(status := RunRunning);
        runs := runs[runId := run];
        if !rowsReported {
          return CountUnavailable(RunClaim);
        }
      }
      assert runs[runId := run] == runs;
      result := ExecuteClaimed(runId, run, ids, cp, rowsReported);
    }

    method ExecuteClaimed(runId: int, run: Run, ids: seq<int>, cp: Checkpoint, rowsReported: bool) returns (result: Result)
      modifies this
      ensures (State(), result) == AfterClaim(old(State()), runId, run, ids, cp, rowsReported)
    {
      var completed := Reconcile(ids, cp.completed);
      var found := TasksOf(State(), run.workspace, ids);
      var internal := RowsOf(rows, run.workspace, ids);
      if ids == [] || |completed| >= |ids| {
        SaveRun(runId, run.(status := RunCompleted, checkpoint := Some(cp.(completed := ids, nextIndex := |ids|)), lastError := NoReason));
        return Asserted(rowsReported, Completion, Done(None));
      }
      if |found| != |ids| {
        SaveRun(runId, run.(status := RunFailed, lastError := MissingTask));
        return FailedRun(MissingTask);
      }
      if exists row :: row in internal && row.dependsOn !in ids {
        SaveRun(runId, run.(status := RunFailed, lastError := ExternalDependency));
        return FailedRun(ExternalDependency);
      }
      var cyclic := HasDependencyCycle(ids, internal);
      if cyclic {
        SaveRun(runId, run.(status := RunFailed, lastError := DependencyCycle));
        return FailedRun(DependencyCycle);
      }
      var selected := SelectDependencyReadyTask(found, internal, completed);
      if selected.None? {
        SaveRun(runId, run.(status := RunPaused, checkpoint := Some(cp.(blocked := Except(ids, completed))), lastError := NothingReady));
        return PausedRun(None, NothingReady);
      }
      result := ExecuteTask(runId, run, ids, cp, completed, selected.value, rowsReported);
    }

    method ExecuteTask(runId: int, run: Run, ids: seq<int>, cp: Checkpoint, completed: seq<int>, task: Task, rowsReported: bool)
      returns (result: Result)
      modifies this
      ensures (State(), result) == AfterSelection(old(State()), runId, run, ids, cp, completed, task, rowsReported)
    {
      if !task.passiveType {
        return UnsafeTaskType;
      }
      match task.adapter {
        case Unregistered =>
          return UnregisteredAdapter;
        case NoAdapter =>
          tasks := tasks[task.id := task.(status := Blocked)];
          SaveRun(runId, run.(status := RunPaused, checkpoint := Some(cp.(blocked := cp.blocked + [task.id])), lastError := AdapterRequired));
          return PausedRun(Some(task.id), AdapterRequired);
        case Registered =>
          var completed' := Distinct(completed + [task.id]);
          tasks := tasks[task.id := task.(status := Completed)];
          if !rowsReported {
            return CountUnavailable(TaskCompletion);
          }
          SaveRun(runId, run.(status := if |completed'| >= |ids| then RunCompleted else RunQueued,
                              checkpoint := Some(cp.(completed := completed', nextIndex := cp.nextIndex + 1, blocked := Except(cp.blocked, [task.id]))),
                              lastError := NoReason));
          return Done(Some(task.id));
      }
    }

    method SaveRun(runId: int, run: Run)
      modifies this`runs
      ensures runs == old(runs)[runId := run]
    {
      runs := runs[runId := run];
    }
  }

  // ---------- Progress ----------

  function RunIds(run: Run): seq<int>
    requires run.taskIds.Some?
  {
    Distinct(run.taskIds.value)
  }

  function CompletedIds(run: Run): seq<int>
    requires run.taskIds.Some? && run.checkpoint.Some?
  {
    Reconcile(RunIds(run), run.checkpoint.value.completed)
  }

  /** A run that only needs its job to be invoked: its dependencies are internal and acyclic, a task
      is queued exactly when the checkpoint does not list it, and every task has an adapter. */
  ghost predicate Executable(s: Store, runId: int) {
    && runId > 0 && runId in s.runs
    && var run := s.runs[runId];
    && run.status in {RunQueued, RunRunning, RunPaused} && run.taskIds.Some? && run.checkpoint.Some?
    && (forall id :: id in RunIds(run) ==> TaskExecutable(s, run, id))
    && (forall row :: row in RowsOf(s.rows, run.workspace, RunIds(run)) ==> row.dependsOn in RunIds(run))
    && !CycleAmong(RunIds(run), RowsOf(s.rows, run.workspace, RunIds(run)))
  }

  predicate TaskExecutable(s: Store, run: Run, id: int)
    requires run.taskIds.Some? && run.checkpoint.Some?
  {
    && id in s.tasks
    && s.tasks[id].id == id && s.tasks[id].workspace == run.workspace
    && s.tasks[id].passiveType && s.tasks[id].adapter == Registered
    && (s.tasks[id].status == Queued <==> id !in CompletedIds(run))
  }

  lemma {:induction false} ShorterHasRest(short: seq<int>, ids: seq<int>) returns (id: int)
    requires |short| < |ids|
    requires forall i, j :: 0 <= i < j < |ids| ==> ids[i] != ids[j]
    ensures id in ids && id !in short
  {
    if forall i :: 0 <= i < |ids| ==> ids[i] in short {
      var i, j := Pigeonhole(ids, Range(short)) by {
        RangeSize(short);
      }
      assert false;
    }
    var i :| 0 <= i < |ids| && ids[i] !in short;
    id := ids[i];
  }

  lemma {:induction false} RangeSize(s: seq<int>)
    ensures |Range(s)| <= |s|
  {
    if s == [] {
      assert Range(s) == {};
    } else {
      var n := |s| - 1;
      RangeSize(s[..n]);
      assert Range(s) == Range(s[..n]) + {s[n]};
    }
  }

  /** In an acyclic run that is not finished, some unfinished task has all its dependencies finished. */
  lemma {:induction false} UnfinishedTaskReady(ids: seq<int>, rows: seq<Dependency>, completed: seq<int>) returns (id: int)
    requires |completed| < |ids| && forall i, j :: 0 <= i < j < |ids| ==> ids[i] != ids[j]
    requires forall row :: row in rows ==> row.taskId in ids && row.dependsOn in ids
    requires !CycleAmong(ids, rows)
    ensures id in ids && id !in completed
    ensures forall row :: row in rows && row.taskId == id ==> row.dependsOn in completed
  {
    var g := map v | v in ids :: TargetsOf(rows, v);
    assert RepresentsAmong(g, ids, rows) by {
      forall v, u
        ensures u in Succ(g, v) <==> EdgeAmong(ids, rows, v, u)
      {
        assert u in TargetsOf(rows, v) <==> Dependency(v, u) in rows;
      }
    }
    CyclesRepresentedAmong(g, ids, rows);
    var some := ShorterHasRest(completed, ids);
    var unfinished := set v | v in ids && v !in completed;
    assert some in unfinished;
    id := SinkOf(g, unfinished);
    forall row | row in rows && row.taskId == id
      ensures row.dependsOn in completed
    {
      assert row == Dependency(id, row.dependsOn);
      assert row.dependsOn in Succ(g, id);
    }
  }

  lemma {:induction false} ReconcileIsIdentity(ids: seq<int>, s: seq<int>)
    requires forall i, j :: 0 <= i < j < |s| ==> s[i] != s[j]
    requires forall i :: 0 <= i < |s| ==> s[i] in ids
    ensures Reconcile(ids, s) == s
  {
    if s != [] {
      ReconcileIsIdentity(ids, s[..|s| - 1]);
    }
  }

  lemma {:induction false} GuardsPass(s: Store, runId: int)
    requires Executable(s, runId)
    ensures var run := s.runs[runId];
      Guards(WithRun(s, runId, run.(status := RunRunning)), run.workspace, RunIds(run)) == Pass
  {
    var run := s.runs[runId];
    var s1 := WithRun(s, runId, run.(status := RunRunning));
    forall id | id in RunIds(run)
      ensures Present(s1, run.workspace, id)
    {
      assert TaskExecutable(s, run, id);
    }
  }

  lemma {:induction false} SelectionFinds(s: Store, runId: int) returns (task: Task)
    requires Executable(s, runId)
    requires |CompletedIds(s.runs[runId])| < |RunIds(s.runs[runId])|
    ensures var run := s.runs[runId];
      && Selected(WithRun(s, runId, run.(status := RunRunning)), run.workspace, RunIds(run), CompletedIds(run)) == Some(task)
      && task.id in RunIds(run) && task.id !in CompletedIds(run)
      && task.id in s.tasks && s.tasks[task.id] == task && TaskExecutable(s, run, task.id)
      && IsReady(task, RowsOf(s.rows, run.workspace, RunIds(run)), CompletedIds(run))
  {
    var run := s.runs[runId];
    var ids, completed := RunIds(run), CompletedIds(run);
    var s1 := WithRun(s, runId, run.(status := RunRunning));
    var rows := RowsOf(s1.rows, run.workspace, ids);
    var tasks := TasksOf(s1, run.workspace, ids);
    DistinctElements(run.taskIds.value);
    var ready := UnfinishedTaskReady(ids, rows, completed);
    assert TaskExecutable(s, run, ready);
    assert Present(s1, run.workspace, ready);
    assert s1.tasks[ready] in tasks && IsReady(s1.tasks[ready], rows, completed);
    task := Selected(s1, run.workspace, ids, completed).value;
    var id := FoundTask(s1, run.workspace, ids, task);
    assert TaskExecutable(s, run, id);
  }

  /** An unfinished executable run gets past every guard and selects a ready task of its own. */
  lemma {:induction false} SelectionSucceeds(s: Store, runId: int) returns (task: Task)
    requires Executable(s, runId)
    requires |CompletedIds(s.runs[runId])| < |RunIds(s.runs[runId])|
    ensures var run := s.runs[runId];
      var claimed := run.(status := RunRunning);
      && task.id in RunIds(run) && task.id !in CompletedIds(run)
      && task.id in s.tasks && s.tasks[task.id] == task && TaskExecutable(s, run, task.id)
      && IsReady(task, RowsOf(s.rows, run.workspace, RunIds(run)), CompletedIds(run))
      && Invoke(s, runId, true)
         == AfterSelection(WithRun(s, runId, claimed), runId, claimed, RunIds(run), run.checkpoint.value, CompletedIds(run), task, true)
  {
    GuardsPass(s, runId);
    task := SelectionFinds(s, runId);
  }

  /** What one successful invocation does to the run and its task. */
  ghost predicate Advances(s: Store, s': Store, runId: int, id: int)
    requires Executable(s, runId)
  {
    var run := s.runs[runId];
    && s'.rows == s.rows && runId in s'.runs
    && var run' := s'.runs[runId];
    && run'.taskIds == run.taskIds && run'.workspace == run.workspace && run'.checkpoint.Some?
    && CompletedIds(run') == CompletedIds(run) + [id]
    && if |CompletedIds(run')| >= |RunIds(run)| then run'.status == RunCompleted
       else run'.status == RunQueued && Executable(s', runId)
  }

  lemma {:induction false} SelectedTaskAdvances(s: Store, runId: int, task: Task)
    requires Executable(s, runId)
    requires var run := s.runs[runId];
      task.id in RunIds(run) && task.id !in CompletedIds(run) && task.id in s.tasks && s.tasks[task.id] == task && TaskExecutable(s, run, task.id)
    ensures var run := s.runs[runId].(status := RunRunning);
      var (s', result) := AfterSelection(WithRun(s, runId, run), runId, run, RunIds(run), run.checkpoint.value, CompletedIds(run), task, true);
      result == Done(Some(task.id)) && Advances(s, s', runId, task.id)
  {
    var run := s.runs[runId].(status := RunRunning);
    var ids, completed := RunIds(run), CompletedIds(run);
    DistinctIsIdentity(completed + [task.id]);
    ReconcileIsIdentity(ids, completed + [task.id]);
    var s' := AfterSelection(WithRun(s, runId, run), runId, run, ids, run.checkpoint.value, completed, task, true).0;
    var run' := s'.runs[runId];
    assert CompletedIds(run') == completed + [task.id];
    forall other | other in ids
      ensures TaskExecutable(s', run', other)
    {
      assert TaskExecutable(s, s.runs[runId], other);
    }
  }

  /** The progress lemma: an unfinished executable run completes one more task, never pauses, and is
      either finished or executable again. */
  lemma {:induction false} InvocationProgresses(s: Store, runId: int) returns (id: int)
    requires Executable(s, runId)
    requires |CompletedIds(s.runs[runId])| < |RunIds(s.runs[runId])|
    ensures var run := s.runs[runId];
      && Invoke(s, runId, true).1 == Done(Some(id))
      && id in RunIds(run) && id !in CompletedIds(run)
      && (forall row :: row in RowsOf(s.rows, run.workspace, RunIds(run)) && row.taskId == id ==> row.dependsOn in CompletedIds(run))
      && Advances(s, Invoke(s, runId, true).0, runId, id)
  {
    var task := SelectionSucceeds(s, runId);
    SelectedTaskAdvances(s, runId, task);
    id := task.id;
  }

  /** Invoking the job again and again completes the listed tasks, one per invocation and in that
      order, and the run is completed after the last of them and not before. */
  ghost predicate PlaysOut(s: Store, runId: int, order: seq<int>)
    decreases |order|
  {
    && runId in s.runs
    && (order == [] <==> s.runs[runId].status == RunCompleted)
    && (order != [] ==>
          Invoke(s, runId, true).1 == Done(Some(order[0])) && PlaysOut(Invoke(s, runId, true).0, runId, order[1..]))
  }

  ghost predicate RespectsDependencies(rows: seq<Dependency>, finished: seq<int>, order: seq<int>) {
    forall i, row :: 0 <= i < |order| && row in rows && row.taskId == order[i] ==> row.dependsOn in finished + order[..i]
  }

  /** An executable run with `n` unfinished tasks needs exactly `n` invocations, never pauses, and
      completes the tasks in a topological order. */
  lemma {:induction false} RunCompletes(s: Store, runId: int) returns (order: seq<int>)
    requires Executable(s, runId)
    requires |CompletedIds(s.runs[runId])| < |RunIds(s.runs[runId])|
    ensures var run := s.runs[runId];
      && PlaysOut(s, runId, order)
      && |order| == |RunIds(run)| - |CompletedIds(run)|
      && FreshTasks(RunIds(run), CompletedIds(run), order)
      && RespectsDependencies(RowsOf(s.rows, run.workspace, RunIds(run)), CompletedIds(run), order)
    decreases |RunIds(s.runs[runId])| - |CompletedIds(s.runs[runId])|
  {
    var run := s.runs[runId];
    var completed := CompletedIds(run);
    var rows := RowsOf(s.rows, run.workspace, RunIds(run));
    var id := InvocationProgresses(s, runId);
    var s' := Invoke(s, runId, true).0;
    if |completed| + 1 == |RunIds(run)| {
      order := [id];
      assert order[1..] == [];
    } else {
      var rest := RunCompletes(s', runId);
      order := [id] + rest;
      assert order[1..] == rest;
      OrderExtends(rows, RunIds(run), completed, id, rest);
    }
  }

  ghost predicate FreshTasks(ids: seq<int>, finished: seq<int>, order: seq<int>) {
    forall i :: 0 <= i < |order| ==> order[i] in ids && order[i] !in finished + order[..i]
  }

  lemma {:induction false} OrderExtends(rows: seq<Dependency>, ids: seq<int>, finished: seq<int>, id: int, rest: seq<int>)
    requires RespectsDependencies(rows, finished + [id], rest) && FreshTasks(ids, finished + [id], rest)
    requires id in ids && id !in finished && forall row :: row in rows && row.taskId == id ==> row.dependsOn in finished
    ensures RespectsDependencies(rows, finished, [id] + rest) && FreshTasks(ids, finished, [id] + rest)
  {
    var order := [id] + rest;
    forall i | 0 < i < |order|
      ensures (finished + [id]) + rest[..i - 1] == finished + order[..i] && order[i] == rest[i - 1]
    {
      assert order[..i] == [id] + rest[..i - 1];
    }
    forall i, row | 0 <= i < |order| && row in rows && row.taskId == order[i]
      ensures row.dependsOn in finished + order[..i]
    {
      if i > 0 {
        assert row.dependsOn in (finished + [id]) + rest[..i - 1];
      }
    }
    forall i | 0 <= i < |order|
      ensures order[i] in ids && order[i] !in finished + order[..i]
    {
      if i > 0 {
        assert rest[i - 1] !in (finished + [id]) + rest[..i - 1];
      }
    }
  }

  /** A run whose tasks are all checkpointed is closed by one invocation, once it is claimed or its claim
      can be confirmed. */
  lemma {:induction false} FinishedRunCloses(s: Store, runId: int, rowsReported: bool)
    requires Executable(s, runId) && (rowsReported || s.runs[runId].status == RunRunning)
    requires |CompletedIds(s.runs[runId])| >= |RunIds(s.runs[runId])|
    ensures var (s', result) := Invoke(s, runId, rowsReported);
      result == Asserted(rowsReported, Completion, Done(None)) && IsClosed(s', runId) && s'.tasks == s.tasks
  {
  }

  // ---------- Which runs are completed, and when ----------

  predicate IsClosed(s: Store, runId: int) {
    runId in s.runs && s.runs[runId].status == RunCompleted
  }

  ghost function Invocation(runId: int, rowsReported: bool): Store -> Store {
    s => Invoke(s, runId, rowsReported).0
  }

  ghost function InvokeTimes(s: Store, runId: int, rowsReported: bool, n: nat): Store {
    Iterate(Invocation(runId, rowsReported), s, n)
  }

  lemma {:induction false} ClosedLater(s: Store, runId: int, rowsReported: bool, k: nat, n: nat)
    requires IsClosed(InvokeTimes(s, runId, rowsReported, k), runId) && k <= n
    ensures IsClosed(InvokeTimes(s, runId, rowsReported, n), runId)
  {
    EndsForGood(Invocation(runId, rowsReported), x => IsClosed(x, runId), s, k, n);
  }

  lemma {:induction false} PlaysOutTail(s: Store, runId: int, order: seq<int>)
    requires PlaysOut(s, runId, order)
    ensures IsClosed(s, runId) <==> order == []
    ensures order != [] ==> PlaysOut(Invoke(s, runId, true).0, runId, order[1..])
  {
  }

  lemma {:induction false} PlaysOutBehind(s: Store, runId: int, order: seq<int>, i: nat)
    requires PlaysOut(s, runId, order) && i <= |order|
    ensures PlaysOut(InvokeTimes(s, runId, true, i), runId, order[i..])
  {
    if i == 0 {
      assert order[0..] == order;
    } else {
      PlaysOutBehind(s, runId, order, i - 1);
      PlaysOutTail(InvokeTimes(s, runId, true, i - 1), runId, order[i - 1..]);
      IterateLast(Invocation(runId, true), s, i - 1);
      assert order[i - 1..][1..] == order[i..];
    }
  }

  lemma {:induction false} CountedInvocations(s: Store, runId: int, n: nat)
    requires Executable(s, runId) && |CompletedIds(s.runs[runId])| < |RunIds(s.runs[runId])|
    ensures IsClosed(InvokeTimes(s, runId, true, n), runId) <==> n >= |RunIds(s.runs[runId])| - |CompletedIds(s.runs[runId])|
  {
    var order := RunCompletes(s, runId);
    PlayedOutFrom(s, runId, order, n);
  }

  lemma {:induction false} PlayedOutFrom(s: Store, runId: int, order: seq<int>, n: nat)
    requires PlaysOut(s, runId, order)
    ensures IsClosed(InvokeTimes(s, runId, true, n), runId) <==> n >= |order|
  {
    if n <= |order| {
      PlayedOutAt(s, runId, order, n);
    } else {
      PlayedOutAt(s, runId, order, |order|);
      ClosedLater(s, runId, true, |order|, n);
    }
  }

  lemma {:induction false} PlayedOutAt(s: Store, runId: int, order: seq<int>, i: nat)
    requires PlaysOut(s, runId, order) && i <= |order|
    ensures IsClosed(InvokeTimes(s, runId, true, i), runId) <==> i == |order|
  {
    PlaysOutBehind(s, runId, order, i);
    PlaysOutTail(InvokeTimes(s, runId, true, i), runId, order[i..]);
  }

  /** Some task of the run is not checkpointed. */
  predicate HasWork(s: Store, runId: int) {
    && runId in s.runs && s.runs[runId].taskIds.Some? && s.runs[runId].checkpoint.Some?
    && |CompletedIds(s.runs[runId])| < |RunIds(s.runs[runId])|
  }

  /** What an invocation leaves of a run that it neither records in nor closes. */
  predicate Unrecorded(run: Run, run': Run) {
    && run'.taskIds == run.taskIds && run'.status != RunCompleted
    && run.taskIds.Some? && run.checkpoint.Some? && run'.checkpoint.Some? && CompletedIds(run') == CompletedIds(run)
  }

  lemma {:induction false} UncountedSelection(s: Store, runId: int, run: Run, task: Task)
    requires runId in s.runs && s.runs[runId] == run && run.taskIds.Some? && run.checkpoint.Some? && run.status == RunRunning
    ensures var s' := AfterSelection(s, runId, run, RunIds(run), run.checkpoint.value, CompletedIds(run), task, false).0;
      runId in s'.runs && Unrecorded(run, s'.runs[runId])
  {
  }

  lemma {:induction false} UncountedClaim(s: Store, runId: int, run: Run)
    requires runId in s.runs && s.runs[runId] == run && run.taskIds.Some? && run.checkpoint.Some? && run.status == RunRunning
    requires |CompletedIds(run)| < |RunIds(run)|
    ensures var s' := AfterClaim(s, runId, run, RunIds(run), run.checkpoint.value, false).0;
      runId in s'.runs && Unrecorded(run, s'.runs[runId])
  {
    var selected := Selected(s, run.workspace, RunIds(run), CompletedIds(run));
    if selected.Some? {
      UncountedSelection(s, runId, run, selected.value);
    }
  }

  /** Without reported counts an invocation records nothing and closes no run with work left. */
  lemma {:induction false} UncountedInvocation(s: Store, runId: int)
    requires HasWork(s, runId) && !IsClosed(s, runId)
    ensures var s' := Invoke(s, runId, false).0;
      HasWork(s', runId) && !IsClosed(s', runId) && Unrecorded(s.runs[runId], s'.runs[runId])
  {
    var run := s.runs[runId].(status := RunRunning);
    UncountedClaim(WithRun(s, runId, run), runId, run);
  }

  /** Nor does any number of them. */
  lemma {:induction false} UncountedInvocations(s: Store, runId: int, n: nat)
    requires HasWork(s, runId) && !IsClosed(s, runId)
    ensures var s' := InvokeTimes(s, runId, false, n);
      && HasWork(s', runId) && !IsClosed(s', runId)
      && RunIds(s'.runs[runId]) == RunIds(s.runs[runId]) && CompletedIds(s'.runs[runId]) == CompletedIds(s.runs[runId])
  {
    var run := s.runs[runId];
    var keeps := (x: Store) => HasWork(x, runId) && !IsClosed(x, runId) && Unrecorded(run, x.runs[runId]);
    forall x | keeps(x)
      ensures keeps(Invocation(runId, false)(x))
    {
      UncountedInvocation(x, runId);
    }
    IterateKeeps(Invocation(runId, false), keeps, s, n);
  }

  /** The run once it is running. */
  function AsRunning(s: Store, runId: int): Store
    requires runId in s.runs
  {
    WithRun(s, runId, s.runs[runId].(status := RunRunning))
  }

  lemma {:induction false} ClaimedStaysExecutable(s: Store, runId: int)
    requires Executable(s, runId)
    ensures Executable(AsRunning(s, runId), runId)
  {
    forall id | id in RunIds(s.runs[runId])
      ensures TaskExecutable(AsRunning(s, runId), AsRunning(s, runId).runs[runId], id)
    {
      assert TaskExecutable(s, s.runs[runId], id);
    }
  }

  lemma {:induction false} FirstInvocations(s: Store, runId: int, rowsReported: bool)
    ensures InvokeTimes(s, runId, rowsReported, 0) == s
    ensures InvokeTimes(s, runId, rowsReported, 1) == Invoke(s, runId, rowsReported).0
    ensures InvokeTimes(s, runId, rowsReported, 2) == Invoke(Invoke(s, runId, rowsReported).0, runId, rowsReported).0
  {
    var step := Invocation(runId, rowsReported);
    IterateLast(step, s, 0);
    IterateLast(step, s, 1);
  }

  lemma {:induction false} FinishedInvocations(s: Store, runId: int, rowsReported: bool, n: nat)
    requires Executable(s, runId) && |CompletedIds(s.runs[runId])| >= |RunIds(s.runs[runId])|
    ensures IsClosed(InvokeTimes(s, runId, rowsReported, n), runId)
      <==> n >= if rowsReported || s.runs[runId].status == RunRunning then 1 else 2
  {
    FirstInvocations(s, runId, rowsReported);
    if rowsReported || s.runs[runId].status == RunRunning {
      FinishedRunCloses(s, runId, rowsReported);
      if n > 0 {
        ClosedLater(s, runId, rowsReported, 1, n);
      }
    } else {
      UnclaimedInvocation(s, runId);
      ClaimedStaysExecutable(s, runId);
      FinishedRunCloses(AsRunning(s, runId), runId, rowsReported);
      if n > 1 {
        ClosedLater(s, runId, rowsReported, 2, n);
      }
    }
  }

  lemma {:induction false} UnclaimedInvocation(s: Store, runId: int)
    requires Executable(s, runId) && s.runs[runId].status != RunRunning
    ensures Invoke(s, runId, false) == (AsRunning(s, runId), CountUnavailable(RunClaim))
  {
  }

  /** The number of invocations that close an executable run; None if none do. */
  function InvocationsNeeded(run: Run, rowsReported: bool): Option<nat>
    requires run.taskIds.Some? && run.checkpoint.Some?
  {
    var left := |RunIds(run)| - |CompletedIds(run)|;
    if left > 0 then (if rowsReported then Some(left) else None)
    else if rowsReported || run.status == RunRunning then Some(1)
    else Some(2)
  }

  /** An executable run is completed after exactly that many invocations and not before. So one with
      work left is ever completed if and only if the driver reports the counts. */
  lemma {:induction false} RunCompletesIff(s: Store, runId: int, rowsReported: bool, n: nat)
    requires Executable(s, runId)
    ensures var needed := InvocationsNeeded(s.runs[runId], rowsReported);
      IsClosed(InvokeTimes(s, runId, rowsReported, n), runId) <==> needed.Some? && n >= needed.value
  {
    if |CompletedIds(s.runs[runId])| >= |RunIds(s.runs[runId])| {
      FinishedInvocations(s, runId, rowsReported, n);
    } else if rowsReported {
      CountedInvocations(s, runId, n);
    } else {
      UncountedInvocations(s, runId, n);
    }
  }

  /** Without reported counts: the first invocation of an executable run with work left claims it and
      throws; the next one completes a task and throws before recording it. */
  lemma {:induction false} UncountedTaskIsLost(s: Store, runId: int) returns (task: Task)
    requires Executable(s, runId) && HasWork(s, runId)
    ensures s.runs[runId].status != RunRunning ==> Invoke(s, runId, false) == (AsRunning(s, runId), CountUnavailable(RunClaim))
    ensures var (s', result) := Invoke(AsRunning(s, runId), runId, false);
      && result == CountUnavailable(TaskCompletion) && s'.runs == AsRunning(s, runId).runs
      && task.id in RunIds(s.runs[runId]) && task.id !in CompletedIds(s'.runs[runId])
      && task.id in s'.tasks && s'.tasks[task.id].status == Completed
  {
    var s1 := AsRunning(s, runId);
    GuardsPass(s, runId);
    task := SelectionFinds(s, runId);
    assert s1.runs[runId := s1.runs[runId]] == s1.runs;
    assert WithRun(s1, runId, s1.runs[runId]) == s1;
  }

  // ---------- What holds for every store ----------

  ghost predicate KeyedById(s: Store) {
    forall id :: id in s.tasks ==> s.tasks[id].id == id
  }

  ghost predicate ClosedUnder(rows: seq<Dependency>, ids: seq<int>, completed: seq<int>) {
    forall row :: row in rows && row.taskId in completed && row.dependsOn in ids ==> row.dependsOn in completed
  }

  /** No checkpointed task of the run waits for a task of the run that is not checkpointed. */
  ghost predicate DependencyClosed(s: Store, runId: int) {
    runId in s.runs && s.runs[runId].taskIds.Some? && s.runs[runId].checkpoint.Some? ==>
      var run := s.runs[runId];
      ClosedUnder(RowsOf(s.rows, run.workspace, RunIds(run)), RunIds(run), CompletedIds(run))
  }

  /** Whatever state the tables are in and whatever the driver reports, an invocation keeps the checkpoint
      dependency-closed, touches no other run, and moves at most one task, a queued one, to completed or
      blocked. */
  lemma {:induction false} InvocationIsSafe(s: Store, runId: int, rowsReported: bool)
    requires KeyedById(s) && DependencyClosed(s, runId)
    ensures var (s', result) := Invoke(s, runId, rowsReported);
      SafeStep(s, runId, s', result) && DependencyClosed(s', runId)
  {
    if runId > 0 && runId in s.runs && s.runs[runId].status in {RunQueued, RunRunning, RunPaused}
       && s.runs[runId].taskIds.Some? && s.runs[runId].checkpoint.Some? {
      if s.runs[runId].status != RunRunning && !rowsReported {
        ClaimOnlyIsSafe(s, runId);
      } else {
        ClaimedIsSafe(s, runId, rowsReported);
      }
    } else {
      RefusedInvocation(s, runId, rowsReported);
    }
  }

  lemma {:induction false} RefusedInvocation(s: Store, runId: int, rowsReported: bool)
    requires KeyedById(s)
    requires !(runId > 0 && runId in s.runs && s.runs[runId].status in {RunQueued, RunRunning, RunPaused}
               && s.runs[runId].taskIds.Some? && s.runs[runId].checkpoint.Some?)
    ensures Invoke(s, runId, rowsReported).0 == s && SafeStep(s, runId, s, Invoke(s, runId, rowsReported).1)
  {
  }

  lemma {:induction false} ClaimOnlyIsSafe(s: Store, runId: int)
    requires KeyedById(s) && DependencyClosed(s, runId) && runId in s.runs
    ensures SafeStep(s, runId, AsRunning(s, runId), CountUnavailable(RunClaim)) && DependencyClosed(AsRunning(s, runId), runId)
  {
  }

  ghost predicate SafeStep(s: Store, runId: int, s': Store, result: Result) {
    && KeyedById(s')
    && s'.rows == s.rows && s'.tasks.Keys == s.tasks.Keys && s'.runs.Keys == s.runs.Keys
    && (forall other :: other in s.runs && other != runId ==> s'.runs[other] == s.runs[other])
    && (forall id :: id in s.tasks && s'.tasks[id] != s.tasks[id] ==>
          && s.tasks[id].status == Queued && s'.tasks[id].status in {Completed, Blocked}
          && (s'.tasks[id].status == Completed <==> result in {Done(Some(id)), CountUnavailable(TaskCompletion)})
          && (s'.tasks[id].status == Blocked <==> result == PausedRun(Some(id), AdapterRequired)))
    && (forall id, other :: id in s.tasks && other in s.tasks && s'.tasks[id] != s.tasks[id] && s'.tasks[other] != s.tasks[other] ==> id == other)
  }

  lemma {:induction false} ClaimedIsSafe(s: Store, runId: int, rowsReported: bool)
    requires KeyedById(s) && DependencyClosed(s, runId)
    requires runId in s.runs && s.runs[runId].taskIds.Some? && s.runs[runId].checkpoint.Some?
    ensures var run := s.runs[runId].(status := RunRunning);
      var (s', result) := AfterClaim(WithRun(s, runId, run), runId, run, RunIds(run), run.checkpoint.value, rowsReported);
      SafeStep(s, runId, s', result) && DependencyClosed(s', runId)
  {
    var run := s.runs[runId].(status := RunRunning);
    var s1 := WithRun(s, runId, run);
    if Selected(s1, run.workspace, RunIds(run), CompletedIds(run)).Some? {
      SelectedIsSafe(s, runId, rowsReported);
    } else {
      UnselectedIsSafe(s, runId, rowsReported);
    }
  }

  lemma {:induction false} SelectedIsSafe(s: Store, runId: int, rowsReported: bool)
    requires KeyedById(s) && DependencyClosed(s, runId)
    requires runId in s.runs && s.runs[runId].taskIds.Some? && s.runs[runId].checkpoint.Some?
    requires var run := s.runs[runId].(status := RunRunning);
      Selected(WithRun(s, runId, run), run.workspace, RunIds(run), CompletedIds(run)).Some?
    ensures var run := s.runs[runId].(status := RunRunning);
      var (s', result) := AfterClaim(WithRun(s, runId, run), runId, run, RunIds(run), run.checkpoint.value, rowsReported);
      SafeStep(s, runId, s', result) && DependencyClosed(s', runId)
  {
    var run := s.runs[runId].(status := RunRunning);
    var s1 := WithRun(s, runId, run);
    var selected := Selected(s1, run.workspace, RunIds(run), CompletedIds(run)).value;
    var id := FoundTask(s1, run.workspace, RunIds(run), selected);
    SelectionIsSafe(s, runId, selected, rowsReported);
  }

  /** The branches that run no task change only the run. */
  lemma {:induction false} UnselectedIsSafe(s: Store, runId: int, rowsReported: bool)
    requires KeyedById(s) && DependencyClosed(s, runId)
    requires runId in s.runs && s.runs[runId].taskIds.Some? && s.runs[runId].checkpoint.Some?
    requires var run := s.runs[runId].(status := RunRunning);
      Selected(WithRun(s, runId, run), run.workspace, RunIds(run), CompletedIds(run)).None?
    ensures var run := s.runs[runId].(status := RunRunning);
      var (s', result) := AfterClaim(WithRun(s, runId, run), runId, run, RunIds(run), run.checkpoint.value, rowsReported);
      SafeStep(s, runId, s', result) && DependencyClosed(s', runId)
  {
    var run := s.runs[runId].(status := RunRunning);
    var s' := AfterClaim(WithRun(s, runId, run), runId, run, RunIds(run), run.checkpoint.value, rowsReported).0;
    assert s'.tasks == s.tasks && s'.rows == s.rows;
  }

  lemma {:induction false} CompletedAfterTask(ids: seq<int>, completed: seq<int>, id: int)
    ensures forall x :: x in Reconcile(ids, Distinct(completed + [id])) <==> x in ids && (x in completed || x == id)
  {
    var longer := completed + [id];
    var distinct := Distinct(longer);
    DistinctElements(longer);
    forall x
      ensures x in distinct <==> x in longer
    {
      if x in longer {
        var i :| 0 <= i < |longer| && longer[i] == x;
        assert longer[i] in distinct;
      }
      if x in distinct {
        var i :| 0 <= i < |distinct| && distinct[i] == x;
        assert distinct[i] in longer;
      }
    }
  }

  lemma {:induction false} ClosedAfterTask(rows: seq<Dependency>, ids: seq<int>, completed: seq<int>, id: int)
    requires ClosedUnder(rows, ids, completed)
    requires forall row :: row in rows && row.taskId == id ==> row.dependsOn in completed
    ensures ClosedUnder(rows, ids, Reconcile(ids, Distinct(completed + [id])))
  {
    CompletedAfterTask(ids, completed, id);
  }

  lemma {:induction false} SelectionKeepsClosed(s: Store, runId: int, run: Run, task: Task, rowsReported: bool)
    requires run.taskIds.Some? && run.checkpoint.Some?
    requires ClosedUnder(RowsOf(s.rows, run.workspace, RunIds(run)), RunIds(run), CompletedIds(run))
    requires IsReady(task, RowsOf(s.rows, run.workspace, RunIds(run)), CompletedIds(run))
    requires runId in s.runs && s.runs[runId] == run
    ensures DependencyClosed(AfterSelection(s, runId, run, RunIds(run), run.checkpoint.value, CompletedIds(run), task, rowsReported).0, runId)
  {
    if task.passiveType && task.adapter == Registered {
      ClosedAfterTask(RowsOf(s.rows, run.workspace, RunIds(run)), RunIds(run), CompletedIds(run), task.id);
    }
  }

  lemma {:induction false} SelectionIsSafe(s: Store, runId: int, task: Task, rowsReported: bool)
    requires KeyedById(s) && DependencyClosed(s, runId)
    requires runId in s.runs && s.runs[runId].taskIds.Some? && s.runs[runId].checkpoint.Some?
    requires var run := s.runs[runId];
      && task.id in RunIds(run) && task.id in s.tasks && s.tasks[task.id] == task
      && IsReady(task, RowsOf(s.rows, run.workspace, RunIds(run)), CompletedIds(run))
    ensures var run := s.runs[runId].(status := RunRunning);
      var (s', result) := AfterSelection(WithRun(s, runId, run), runId, run, RunIds(run), run.checkpoint.value, CompletedIds(run), task, rowsReported);
      SafeStep(s, runId, s', result) && DependencyClosed(s', runId)
  {
    var run := s.runs[runId].(status := RunRunning);
    SelectionKeepsClosed(WithRun(s, runId, run), runId, run, task, rowsReported);
    SelectionIsLocal(s, runId, run, RunIds(run), run.checkpoint.value, CompletedIds(run), task, rowsReported);
  }

  lemma {:induction false} SelectionIsLocal(s: Store, runId: int, run: Run, ids: seq<int>, cp: Checkpoint, completed: seq<int>, task: Task, rowsReported: bool)
    requires KeyedById(s) && runId in s.runs
    requires task.id in s.tasks && s.tasks[task.id] == task && task.status == Queued
    ensures var (s', result) := AfterSelection(WithRun(s, runId, run), runId, run, ids, cp, completed, task, rowsReported);
      SafeStep(s, runId, s', result)
  {
  }
}
