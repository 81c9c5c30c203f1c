/** What one invocation of the playbook executor answers and writes, said of the stored tables alone:
    a case for every input. */
module PlaybookAnswers {
  import opened Collections
  import opened DependencyCheck
  import opened Graphs
  import opened PlaybookExecutor

  // ---------- The stored run ----------

  predicate Listed(run: Run, id: int) {
    run.taskIds.Some? && id in run.taskIds.value
  }

  predicate Recorded(run: Run, id: int) {
    run.checkpoint.Some? && id in run.checkpoint.value.completed
  }

  /** A listed task is not recorded. */
  ghost predicate Unfinished(run: Run) {
    exists id :: Listed(run, id) && !Recorded(run, id)
  }

  predicate DependsOn(s: Store, run: Run, v: int, u: int) {
    DependencyRow(run.workspace, Dependency(v, u)) in s.rows
  }

  ghost predicate ListsMissingTask(s: Store, run: Run) {
    exists id :: Listed(run, id) && (id !in s.tasks || s.tasks[id].workspace != run.workspace)
  }

  ghost predicate DependsOutside(s: Store, run: Run) {
    exists v, u :: Listed(run, v) && !Listed(run, u) && DependsOn(s, run, v, u)
  }

  ghost predicate Circle(s: Store, run: Run, p: seq<int>) {
    && |p| >= 2 && p[0] == p[|p| - 1]
    && (forall i :: 0 <= i < |p| ==> Listed(run, p[i]))
    && (forall i :: 0 <= i < |p| - 1 ==> DependsOn(s, run, p[i], p[i + 1]))
  }

  ghost predicate DependsInCircle(s: Store, run: Run) {
    exists p :: Circle(s, run, p)
  }

  /** The invocation gets past the claim of an open run. */
  predicate GoesOn(s: Store, runId: int, rowsReported: bool) {
    && runId > 0 && runId in s.runs
    && s.runs[runId].status in {RunQueued, RunRunning, RunPaused}
    && s.runs[runId].taskIds.Some? && s.runs[runId].checkpoint.Some?
    && (s.runs[runId].status == RunRunning || rowsReported)
  }

  ghost predicate IsReadyIn(s: Store, run: Run, id: int) {
    && Listed(run, id) && id in s.tasks && s.tasks[id].status == Queued
    && forall u :: DependsOn(s, run, id, u) ==> Listed(run, u) && Recorded(run, u)
  }

  ghost predicate IsFirstReady(s: Store, run: Run, id: int) {
    && IsReadyIn(s, run, id)
    && forall other :: IsReadyIn(s, run, other) ==>
         s.tasks[id].priority > s.tasks[other].priority || (s.tasks[id].priority == s.tasks[other].priority && id <= other)
  }

  lemma {:induction false} SavedTwice(s: Store, runId: int)
    requires runId in s.runs
    ensures forall run :: WithRun(AsRunning(s, runId), runId, run) == WithRun(s, runId, run)
  {
    forall run
      ensures WithRun(AsRunning(s, runId), runId, run) == WithRun(s, runId, run)
    {
      assert AsRunning(s, runId).runs[runId := run] == s.runs[runId := run];
    }
  }

  // ---------- Before the work ----------

  /** What an invocation answers that does not get past the claim; it leaves every table alone, except
      that an unconfirmed claim has taken effect. */
  lemma {:induction false} RefusedAnswers(s: Store, runId: int, rowsReported: bool)
    requires !GoesOn(s, runId, rowsReported)
    ensures runId <= 0 ==> Invoke(s, runId, rowsReported) == (s, InvalidPayload)
    ensures runId > 0 && runId !in s.runs ==> Invoke(s, runId, rowsReported) == (s, RunNotFound)
    ensures runId > 0 && runId in s.runs ==>
      var run := s.runs[runId];
      && (run.status == RunCompleted ==> Invoke(s, runId, rowsReported) == (s, Done(None)))
      && (run.status == RunCancelled ==> Invoke(s, runId, rowsReported) == (s, NotExecutable(RunCancelled)))
      && (run.status == RunFailed ==> Invoke(s, runId, rowsReported) == (s, NotExecutable(RunFailed)))
      && (run.status in {RunQueued, RunRunning, RunPaused} ==>
            Invoke(s, runId, rowsReported)
            == if run.taskIds.None? || run.checkpoint.None? then (s, InvalidStoredText)
               else (s.(runs := s.runs[runId := run.(status := RunRunning)]), CountUnavailable(RunClaim)))
  {
  }

  /** Whether work is left shows in the counts that the executor compares. */
  lemma {:induction false} UnfinishedIff(run: Run)
    requires run.taskIds.Some? && run.checkpoint.Some?
    ensures Unfinished(run) <==> |CompletedIds(run)| < |RunIds(run)|
    ensures forall id :: id in RunIds(run) <==> Listed(run, id)
    ensures forall id :: id in CompletedIds(run) <==> Listed(run, id) && Recorded(run, id)
  {
    SameElements(run.taskIds.value);
    DistinctElements(run.taskIds.value);
    if |CompletedIds(run)| < |RunIds(run)| {
      var id := ShorterHasRest(CompletedIds(run), RunIds(run));
      assert Listed(run, id) && !Recorded(run, id);
    } else if Unfinished(run) {
      var id :| Listed(run, id) && !Recorded(run, id);
      LongerHasAll(RunIds(run), CompletedIds(run), id);
    }
  }

  lemma {:induction false} LongerHasAll(ids: seq<int>, some: seq<int>, id: int)
    requires id in ids && |some| >= |ids| && forall x :: x in some ==> x in ids
    requires forall i, j :: 0 <= i < j < |some| ==> some[i] != some[j]
    ensures id in some
  {
    RangeSize(ids);
    if id !in some {
      var i, j := Pigeonhole(some + [id], Range(ids));
      assert false;
    }
  }

  /** The run row that is completed with its whole list. */
  ghost predicate IsClosedRow(run: Run, run': Run) {
    && run.checkpoint.Some? && run'.checkpoint.Some?
    && var cp, cp' := run.checkpoint.value, run'.checkpoint.value;
    && run' == run.(status := RunCompleted, lastError := NoReason, checkpoint := Some(cp'))
    && cp' == cp.(completed := cp'.completed, nextIndex := |cp'.completed|)
    && (forall id :: id in cp'.completed <==> Listed(run, id))
    && (forall i, j :: 0 <= i < j < |cp'.completed| ==> cp'.completed[i] != cp'.completed[j])
  }

  /** A run without work left is completed, whatever the other tables hold. */
  lemma {:induction false} FinishedAnswers(s: Store, runId: int, rowsReported: bool)
    requires GoesOn(s, runId, rowsReported) && !Unfinished(s.runs[runId])
    ensures var (s', result) := Invoke(s, runId, rowsReported);
      && result == (if rowsReported then Done(None) else CountUnavailable(Completion))
      && runId in s'.runs && IsClosedRow(s.runs[runId], s'.runs[runId])
      && s' == s.(runs := s.runs[runId := s'.runs[runId]])
  {
    UnfinishedIff(s.runs[runId]);
    DistinctElements(s.runs[runId].taskIds.value);
    SavedTwice(s, runId);
  }

  // ---------- The three guards ----------

  lemma {:induction false} MissingTaskIff(s: Store, run: Run)
    requires run.taskIds.Some?
    ensures |TasksOf(s, run.workspace, RunIds(run))| != |RunIds(run)| <==> ListsMissingTask(s, run)
  {
    SameElements(run.taskIds.value);
    assert forall id :: Present(s, run.workspace, id) <==> id in s.tasks && s.tasks[id].workspace == run.workspace;
  }

  lemma {:induction false} OutsideIff(s: Store, run: Run)
    requires run.taskIds.Some?
    ensures (exists row :: row in RowsOf(s.rows, run.workspace, RunIds(run)) && row.dependsOn !in RunIds(run)) <==> DependsOutside(s, run)
  {
    SameElements(run.taskIds.value);
    var rows := RowsOf(s.rows, run.workspace, RunIds(run));
    if DependsOutside(s, run) {
      var v, u :| Listed(run, v) && !Listed(run, u) && DependsOn(s, run, v, u);
      assert Dependency(v, u) in rows;
    }
    if row :| row in rows && row.dependsOn !in RunIds(run) {
      assert row == Dependency(row.taskId, row.dependsOn);
      assert Listed(run, row.taskId) && !Listed(run, row.dependsOn) && DependsOn(s, run, row.taskId, row.dependsOn);
    }
  }

  lemma {:induction false} CircleIff(s: Store, run: Run)
    requires run.taskIds.Some?
    ensures CycleAmong(RunIds(run), RowsOf(s.rows, run.workspace, RunIds(run))) <==> DependsInCircle(s, run)
  {
    SameElements(run.taskIds.value);
    var ids := RunIds(run);
    var rows := RowsOf(s.rows, run.workspace, ids);
    forall v, u
      ensures EdgeAmong(ids, rows, v, u) <==> Listed(run, v) && Listed(run, u) && DependsOn(s, run, v, u)
    {
    }
    if CycleAmong(ids, rows) {
      var p :| ClosedChainAmong(ids, rows, p);
      forall i | 0 <= i < |p|
        ensures Listed(run, p[i])
      {
        var k := if i < |p| - 1 then i else 0;
        assert EdgeAmong(ids, rows, p[k], p[k + 1]);
      }
      assert Circle(s, run, p);
    }
    if DependsInCircle(s, run) {
      var p :| Circle(s, run, p);
      assert ClosedChainAmong(ids, rows, p);
    }
  }

  /** The run is failed for the reason, and no task or dependency is touched. */
  ghost predicate IsFailed(s: Store, runId: int, rowsReported: bool, reason: Reason)
    requires runId in s.runs
  {
    Invoke(s, runId, rowsReported)
    == (s.(runs := s.runs[runId := s.runs[runId].(status := RunFailed, lastError := reason)]), FailedRun(reason))
  }

  /** An unfinished run that lists a missing task, depends on a task outside it, or depends on itself in a
      circle is failed for the first of these reasons; no other is. */
  lemma {:induction false} BrokenRunFails(s: Store, runId: int, rowsReported: bool)
    requires GoesOn(s, runId, rowsReported) && Unfinished(s.runs[runId])
    ensures var run := s.runs[runId];
      if ListsMissingTask(s, run) then IsFailed(s, runId, rowsReported, MissingTask)
      else if DependsOutside(s, run) then IsFailed(s, runId, rowsReported, ExternalDependency)
      else if DependsInCircle(s, run) then IsFailed(s, runId, rowsReported, DependencyCycle)
      else !Invoke(s, runId, rowsReported).1.FailedRun?
  {
    GuardedInvocation(s, runId, rowsReported);
    var run := s.runs[runId].(status := RunRunning);
    SameGuards(s, runId);
    MissingTaskIff(s, s.runs[runId]);
    OutsideIff(s, s.runs[runId]);
    CircleIff(s, s.runs[runId]);
  }

  lemma {:induction false} GuardedInvocation(s: Store, runId: int, rowsReported: bool)
    requires GoesOn(s, runId, rowsReported) && Unfinished(s.runs[runId])
    ensures var run := s.runs[runId];
      var guard := Guards(AsRunning(s, runId), run.workspace, RunIds(run));
      if guard.Refused? then IsFailed(s, runId, rowsReported, guard.reason) else !Invoke(s, runId, rowsReported).1.FailedRun?
  {
    UnfinishedIff(s.runs[runId]);
    SavedTwice(s, runId);
  }

  lemma {:induction false} SameGuards(s: Store, runId: int)
    requires runId in s.runs && s.runs[runId].taskIds.Some?
    ensures var run := s.runs[runId];
      Guards(AsRunning(s, runId), run.workspace, RunIds(run)) == Guards(s, run.workspace, RunIds(run))
  {
    var run := s.runs[runId];
    MissingTaskIff(s, run);
    MissingTaskIff(AsRunning(s, runId), run);
  }

  /** The invocation gets past the claim and the guards, with work left. */
  ghost predicate Works(s: Store, runId: int, rowsReported: bool) {
    && GoesOn(s, runId, rowsReported) && Unfinished(s.runs[runId])
    && !ListsMissingTask(s, s.runs[runId]) && !DependsOutside(s, s.runs[runId]) && !DependsInCircle(s, s.runs[runId])
  }

  // ---------- The work ----------

  lemma {:induction false} ReadyIff(s: Store, runId: int, task: Task)
    requires KeyedById(s) && runId in s.runs
    requires var run := s.runs[runId]; run.taskIds.Some? && run.checkpoint.Some? && !DependsOutside(s, run)
    requires task in TasksOf(AsRunning(s, runId), s.runs[runId].workspace, RunIds(s.runs[runId]))
    ensures var run := s.runs[runId];
      && task.id in s.tasks && s.tasks[task.id] == task
      && (IsReady(task, RowsOf(s.rows, run.workspace, RunIds(run)), CompletedIds(run)) <==> IsReadyIn(s, run, task.id))
  {
    var run := s.runs[runId];
    UnfinishedIff(run);
    var id := FoundTask(AsRunning(s, runId), run.workspace, RunIds(run), task);
    var rows := RowsOf(s.rows, run.workspace, RunIds(run));
    forall u
      ensures Dependency(id, u) in rows <==> DependsOn(s, run, id, u)
    {
    }
    if forall row :: row in rows && row.taskId == id ==> row.dependsOn in CompletedIds(run) {
      forall u | DependsOn(s, run, id, u)
        ensures Listed(run, u) && Recorded(run, u)
      {
        assert Dependency(id, u) in rows;
      }
    }
    if forall u :: DependsOn(s, run, id, u) ==> Listed(run, u) && Recorded(run, u) {
      forall row | row in rows && row.taskId == id
        ensures row.dependsOn in CompletedIds(run)
      {
        assert row == Dependency(id, row.dependsOn);
        assert DependsOn(s, run, id, row.dependsOn);
      }
    }
  }

  /** The selection finds the first ready task, if there is one. */
  lemma {:induction false} SelectedIff(s: Store, runId: int)
    requires KeyedById(s) && runId in s.runs
    requires var run := s.runs[runId];
      run.taskIds.Some? && run.checkpoint.Some? && !ListsMissingTask(s, run) && !DependsOutside(s, run)
    ensures var run := s.runs[runId];
      var selected := Selected(AsRunning(s, runId), run.workspace, RunIds(run), CompletedIds(run));
      && (selected.None? ==> forall id :: !IsReadyIn(s, run, id))
      && (selected.Some? ==>
            selected.value.id in s.tasks && s.tasks[selected.value.id] == selected.value && IsFirstReady(s, run, selected.value.id))
  {
    var run := s.runs[runId];
    var s1 := AsRunning(s, runId);
    var tasks := TasksOf(s1, run.workspace, RunIds(run));
    var selected := Selected(s1, run.workspace, RunIds(run), CompletedIds(run));
    UnfinishedIff(run);
    forall id | IsReadyIn(s, run, id)
      ensures s.tasks[id] in tasks && IsReady(s.tasks[id], RowsOf(s.rows, run.workspace, RunIds(run)), CompletedIds(run))
    {
      assert Present(s1, run.workspace, id);
      ReadyIff(s, runId, s.tasks[id]);
    }
    if selected.Some? {
      ReadyIff(s, runId, selected.value);
    }
  }

  /** The run row after no task was ready. */
  ghost predicate IsPausedUnready(run: Run, run': Run) {
    && run.checkpoint.Some? && run'.checkpoint.Some?
    && var cp, cp' := run.checkpoint.value, run'.checkpoint.value;
    && run' == run.(status := RunPaused, lastError := NothingReady, checkpoint := Some(cp'))
    && cp' == cp.(blocked := cp'.blocked)
    && forall id :: id in cp'.blocked <==> Listed(run, id) && !Recorded(run, id)
  }

  /** With no task ready the run is paused and lists what is not recorded as blocked. */
  lemma {:induction false} NothingReadyAnswers(s: Store, runId: int, rowsReported: bool)
    requires KeyedById(s) && Works(s, runId, rowsReported) && forall id :: !IsReadyIn(s, s.runs[runId], id)
    ensures var (s', result) := Invoke(s, runId, rowsReported);
      && result == PausedRun(None, NothingReady)
      && runId in s'.runs && IsPausedUnready(s.runs[runId], s'.runs[runId])
      && s' == s.(runs := s.runs[runId := s'.runs[runId]])
  {
    WorkingInvocation(s, runId, rowsReported);
    SelectedIff(s, runId);
    UnfinishedIff(s.runs[runId]);
    SavedTwice(s, runId);
  }

  /** Past the guards the invocation pauses or goes on with the selected task. */
  lemma {:induction false} WorkingInvocation(s: Store, runId: int, rowsReported: bool)
    requires Works(s, runId, rowsReported)
    ensures var run := s.runs[runId].(status := RunRunning);
      var cp, s1 := run.checkpoint.value, AsRunning(s, runId);
      var selected := Selected(s1, run.workspace, RunIds(run), CompletedIds(run));
      Invoke(s, runId, rowsReported)
      == if selected.None? then
           (WithRun(s1, runId, run.(status := RunPaused, checkpoint := Some(cp.(blocked := Except(RunIds(run), CompletedIds(run)))), lastError := NothingReady)),
            PausedRun(None, NothingReady))
         else AfterSelection(s1, runId, run, RunIds(run), cp, CompletedIds(run), selected.value, rowsReported)
  {
    UnfinishedIff(s.runs[runId]);
    GuardsLetThrough(s, runId, rowsReported);
  }

  lemma {:induction false} GuardsLetThrough(s: Store, runId: int, rowsReported: bool)
    requires Works(s, runId, rowsReported)
    ensures var run := s.runs[runId]; Guards(AsRunning(s, runId), run.workspace, RunIds(run)) == Pass
  {
    SameGuards(s, runId);
    MissingTaskIff(s, s.runs[runId]);
    OutsideIff(s, s.runs[runId]);
    CircleIff(s, s.runs[runId]);
  }

  /** The run row after its task `id` was completed. */
  ghost predicate IsAdvanced(run: Run, id: int, run': Run) {
    && run.checkpoint.Some? && run'.checkpoint.Some?
    && var cp, cp' := run.checkpoint.value, run'.checkpoint.value;
    && run' == run.(status := run'.status, lastError := NoReason, checkpoint := Some(cp'))
    && cp' == cp.(completed := cp'.completed, blocked := cp'.blocked, nextIndex := cp.nextIndex + 1)
    && (forall x :: x in cp'.completed <==> x == id || (Listed(run, x) && Recorded(run, x)))
    && (forall x :: x in cp'.blocked <==> x != id && x in cp.blocked)
    && run'.status == if forall x :: Listed(run, x) ==> x == id || Recorded(run, x) then RunCompleted else RunQueued
  }

  /** The row that the executor computes after completing a listed task. */
  lemma {:induction false} AdvancedRow(run: Run, id: int)
    requires run.taskIds.Some? && run.checkpoint.Some? && Listed(run, id)
    ensures var cp := run.checkpoint.value;
      var completed' := Distinct(CompletedIds(run) + [id]);
      IsAdvanced(run, id, run.(status := if |completed'| >= |RunIds(run)| then RunCompleted else RunQueued,
                               checkpoint := Some(cp.(completed := completed', nextIndex := cp.nextIndex + 1, blocked := Except(cp.blocked, [id]))),
                               lastError := NoReason))
  {
    var completed' := Distinct(CompletedIds(run) + [id]);
    UnfinishedIff(run);
    SameElements(CompletedIds(run) + [id]);
    DistinctElements(CompletedIds(run) + [id]);
    DistinctElements(run.taskIds.value);
    if |completed'| >= |RunIds(run)| {
      forall x | Listed(run, x)
        ensures x == id || Recorded(run, x)
      {
        LongerHasAll(RunIds(run), completed', x);
      }
    } else {
      var x := ShorterHasRest(completed', RunIds(run));
      assert Listed(run, x) && x != id && !Recorded(run, x);
    }
  }

  /** What the invocation does with the task it takes. */
  ghost predicate IsTaken(s: Store, runId: int, rowsReported: bool, id: int, s': Store, result: Result)
    requires runId in s.runs && s.runs[runId].checkpoint.Some? && id in s.tasks
  {
    var run, task, cp := s.runs[runId], s.tasks[id], s.runs[runId].checkpoint.value;
    var claimed := s.(runs := s.runs[runId := run.(status := RunRunning)]);
    if !task.passiveType then s' == claimed && result == UnsafeTaskType
    else if task.adapter == Unregistered then s' == claimed && result == UnregisteredAdapter
    else if task.adapter == NoAdapter then
      && s' == Store(s.runs[runId := run.(status := RunPaused, lastError := AdapterRequired, checkpoint := Some(cp.(blocked := cp.blocked + [id])))],
                     s.tasks[id := task.(status := Blocked)], s.rows)
      && result == PausedRun(Some(id), AdapterRequired)
    else if !rowsReported then
      s' == claimed.(tasks := s.tasks[id := task.(status := Completed)]) && result == CountUnavailable(TaskCompletion)
    else
      && result == Done(Some(id))
      && runId in s'.runs && IsAdvanced(run, id, s'.runs[runId])
      && s' == Store(s.runs[runId := s'.runs[runId]], s.tasks[id := task.(status := Completed)], s.rows)
  }

  lemma {:induction false} SelectionAnswers(s: Store, runId: int, rowsReported: bool, task: Task)
    requires runId in s.runs && s.runs[runId].taskIds.Some? && s.runs[runId].checkpoint.Some?
    requires task.id in s.tasks && s.tasks[task.id] == task && Listed(s.runs[runId], task.id)
    ensures var run := s.runs[runId].(status := RunRunning);
      var (s', result) := AfterSelection(AsRunning(s, runId), runId, run, RunIds(run), run.checkpoint.value, CompletedIds(run), task, rowsReported);
      IsTaken(s, runId, rowsReported, task.id, s', result)
  {
    forall status
      ensures WithTask(AsRunning(s, runId), task, status) == AsRunning(s, runId).(tasks := s.tasks[task.id := task.(status := status)])
    {
    }
    SavedTwice(s, runId);
    if task.passiveType && task.adapter == Registered && rowsReported {
      AdvancedRow(s.runs[runId], task.id);
    }
  }

  /** Otherwise the first ready task is taken: completed if its adapter is registered, blocked if it names
      none, and left alone if its type or its adapter is not allowed. */
  lemma {:induction false} FirstReadyAnswers(s: Store, runId: int, rowsReported: bool) returns (id: int)
    requires KeyedById(s) && Works(s, runId, rowsReported) && exists other :: IsReadyIn(s, s.runs[runId], other)
    ensures IsFirstReady(s, s.runs[runId], id)
    ensures var (s', result) := Invoke(s, runId, rowsReported); IsTaken(s, runId, rowsReported, id, s', result)
  {
    WorkingInvocation(s, runId, rowsReported);
    SelectedIff(s, runId);
    var run := s.runs[runId].(status := RunRunning);
    var task := Selected(AsRunning(s, runId), run.workspace, RunIds(run), CompletedIds(run)).value;
    id := task.id;
    SelectionAnswers(s, runId, rowsReported, task);
  }

  /** A task is reported done only by an invocation that passes every guard, whose task is the first ready
      one, of a passive type and with a registered adapter. */
  lemma {:induction false} DoneIff(s: Store, runId: int, rowsReported: bool, id: int)
    requires KeyedById(s)
    ensures Invoke(s, runId, rowsReported).1 == Done(Some(id))
      <==> rowsReported && Works(s, runId, rowsReported) && IsFirstReady(s, s.runs[runId], id)
           && s.tasks[id].passiveType && s.tasks[id].adapter == Registered
  {
    if !GoesOn(s, runId, rowsReported) {
      RefusedAnswers(s, runId, rowsReported);
    } else if !Unfinished(s.runs[runId]) {
      FinishedAnswers(s, runId, rowsReported);
    } else if !Works(s, runId, rowsReported) {
      BrokenRunFails(s, runId, rowsReported);
    } else if forall other :: !IsReadyIn(s, s.runs[runId], other) {
      NothingReadyAnswers(s, runId, rowsReported);
    } else {
      var first := FirstReadyAnswers(s, runId, rowsReported);
    }
  }
}
