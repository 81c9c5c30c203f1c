/** Invocations of the playbook executor that overlap: each query is one step, a run that is already
    running is not claimed again, and the last query overwrites the whole checkpoint. */
module PlaybookRaces {
  import opened Collections
  import opened DependencyCheck
  import opened Graphs
  import opened PlaybookExecutor

  /** The run row as an invocation read it. */
  type Snapshot = run: Run | run.taskIds.Some? && run.checkpoint.Some?
    witness Run(1, RunQueued, Some([]), Some(Checkpoint([], [], [], 0)), NoReason)

  datatype Plan = Close | Fail(reason: Reason) | Pause | Block(task: Task) | Finish(task: Task)

  datatype Call =
    | Begun(runId: int, run: Snapshot)
    | Claimed(runId: int, run: Snapshot)
    | Chosen(runId: int, run: Snapshot, task: Task)
    | Settled(runId: int, run: Snapshot, plan: Plan)
    | Ended(result: Result)
    | Crashed

  /** `rowsReported`: the driver reports the row count of an update on its result. */
  datatype State = State(db: Store, calls: map<int, Call>, rowsReported: bool)

  datatype Event =
    | Begin(call: int, runId: int)
    | Claim(call: int)
    | Decide(call: int)
    | WriteTask(call: int)
    | WriteRun(call: int)
    | Stop(call: int)

  predicate Active(c: Call) {
    !c.Ended? && !c.Crashed?
  }

  // ---------- The queries ----------

  function Began(db: Store, runId: int): Call {
    if runId <= 0 then Ended(InvalidPayload)
    else if runId !in db.runs then Ended(RunNotFound)
    else
      var run := db.runs[runId];
      if run.status == RunCompleted then Ended(Done(None))
      else if run.status in {RunCancelled, RunFailed} then Ended(NotExecutable(run.status))
      else if run.taskIds.None? || run.checkpoint.None? then Ended(InvalidStoredText)
      else if run.status == RunRunning then Claimed(runId, run)
      else Begun(runId, run)
  }

  /** What the rows of tasks and dependencies say about the next thing to do. */
  ghost function Decided(db: Store, runId: int, run: Snapshot): Call {
    var ids, completed := RunIds(run), CompletedIds(run);
    var guard := Guards(db, run.workspace, ids);
    var selected := Selected(db, run.workspace, ids, completed);
    if ids == [] || |completed| >= |ids| then Settled(runId, run, Close)
    else if guard.Refused? then Settled(runId, run, Fail(guard.reason))
    else if selected.None? then Settled(runId, run, Pause)
    else if !selected.value.passiveType then Ended(UnsafeTaskType)
    else if selected.value.adapter == Unregistered then Ended(UnregisteredAdapter)
    else Chosen(runId, run, selected.value)
  }

  predicate IsQueued(db: Store, task: Task) {
    Present(db, task.workspace, task.id) && db.tasks[task.id].status == Queued
  }

  /** The conditional update of a task. */
  function TaskWritten(db: Store, task: Task): Store {
    if IsQueued(db, task)
    then db.(tasks := db.tasks[task.id := db.tasks[task.id].(status := if task.adapter == Registered then Completed else Blocked)])
    else db
  }

  function AfterTask(db: Store, runId: int, run: Snapshot, task: Task, rowsReported: bool): Call {
    if task.adapter != Registered then Settled(runId, run, Block(task))
    else if !rowsReported then Ended(CountUnavailable(TaskCompletion))
    else if IsQueued(db, task) then Settled(runId, run, Finish(task))
    else Ended(PausedRun(Some(task.id), TaskTaken))
  }

  /** The unconditional update of the run: everything but a failure overwrites the checkpoint with one
      built from the snapshot. */
  function RunWritten(row: Run, run: Snapshot, plan: Plan): Run {
    var ids, completed, cp := RunIds(run), CompletedIds(run), run.checkpoint.value;
    match plan
    case Close => row.(status := RunCompleted, checkpoint := Some(cp.(completed := ids, nextIndex := |ids|)), lastError := NoReason)
    case Fail(reason) => row.(status := RunFailed, lastError := reason)
    case Pause => row.(status := RunPaused, checkpoint := Some(cp.(blocked := Except(ids, completed))), lastError := NothingReady)
    case Block(task) =>
      row.(status := RunPaused, checkpoint := Some(cp.(blocked := cp.blocked + [task.id])), lastError := AdapterRequired)
    case Finish(task) =>
      var completed' := Distinct(completed + [task.id]);
      row.(status := if |completed'| >= |ids| then RunCompleted else RunQueued,
           checkpoint := Some(cp.(completed := completed', nextIndex := cp.nextIndex + 1, blocked := Except(cp.blocked, [task.id]))),
           lastError := NoReason)
  }

  function Outcome(plan: Plan, rowsReported: bool): Result {
    match plan
    case Close => Asserted(rowsReported, Completion, Done(None))
    case Fail(reason) => FailedRun(reason)
    case Pause => PausedRun(None, NothingReady)
    case Block(task) => PausedRun(Some(task.id), AdapterRequired)
    case Finish(task) => Done(Some(task.id))
  }

  // ---------- The interleaving ----------

  function Progress(s: State, db: Store, call: int, c: Call): State {
    State(db, s.calls[call := c], s.rowsReported)
  }

  function AfterRunClaim(s: State, call: int, runId: int, run: Snapshot): State {
    var won := runId in s.db.runs && s.db.runs[runId].status in {RunQueued, RunPaused};
    var db := if won then WithRun(s.db, runId, s.db.runs[runId].(status := RunRunning)) else s.db;
    Progress(s, db, call,
             if !s.rowsReported then Ended(CountUnavailable(RunClaim))
             else if won then Claimed(runId, run)
             else Ended(PausedRun(None, RunTaken)))
  }

  ghost function Step(s: State, e: Event): State {
    match e
    case Begin(call, runId) => if call in s.calls then s else Progress(s, s.db, call, Began(s.db, runId))
    case _ => if e.call in s.calls && Active(s.calls[e.call]) then Advance(s, e, s.calls[e.call]) else s
  }

  ghost function Advance(s: State, e: Event, c: Call): State
    requires Active(c)
  {
    match (e, c)
    case (Claim(call), Begun(runId, run)) => AfterRunClaim(s, call, runId, run)
    case (Decide(call), Claimed(runId, run)) => Progress(s, s.db, call, Decided(s.db, runId, run))
    case (WriteTask(call), Chosen(runId, run, task)) => Progress(s, TaskWritten(s.db, task), call, AfterTask(s.db, runId, run, task, s.rowsReported))
    case (WriteRun(call), Settled(runId, run, plan)) =>
      if runId !in s.db.runs then s
      else Progress(s, WithRun(s.db, runId, RunWritten(s.db.runs[runId], run, plan)), call, Ended(Outcome(plan, s.rowsReported)))
    case (Stop(call), _) => Progress(s, s.db, call, Crashed)
    case _ => s
  }

  ghost function After(s: State, events: seq<Event>): State
    decreases |events|
  {
    if events == [] then s else After(Step(s, events[0]), events[1..])
  }

  /** An invocation that finds the run claimed by another one leaves it alone and reports that. */
  lemma {:induction false} LostClaim(s: State, call: int)
    requires call in s.calls && s.calls[call].Begun?
    requires s.calls[call].runId in s.db.runs ==> s.db.runs[s.calls[call].runId].status !in {RunQueued, RunPaused}
    ensures Step(s, Claim(call))
      == s.(calls := s.calls[call := Ended(if s.rowsReported then PausedRun(None, RunTaken) else CountUnavailable(RunClaim))])
  {
  }

  /** An invocation whose task is no longer queued leaves it alone and reports that; if the task has no
      adapter, it pauses the run as if it had blocked the task. */
  lemma {:induction false} LostTask(s: State, call: int)
    requires call in s.calls && s.calls[call].Chosen?
    requires var task := s.calls[call].task;
      task.id in s.db.tasks ==> s.db.tasks[task.id].workspace != task.workspace || s.db.tasks[task.id].status != Queued
    ensures var c := s.calls[call];
      Step(s, WriteTask(call))
      == s.(calls := s.calls[call := if c.task.adapter != Registered then Settled(c.runId, c.run, Block(c.task))
                                     else if s.rowsReported then Ended(PausedRun(Some(c.task.id), TaskTaken))
                                     else Ended(CountUnavailable(TaskCompletion))])
  {
  }

  // ---------- What every interleaving keeps ----------

  predicate IsCompleted(db: Store, id: int) {
    id in db.tasks && db.tasks[id].status == Completed
  }

  predicate Records(run: Run, id: int) {
    run.taskIds.Some? && run.checkpoint.Some? && id in CompletedIds(run)
  }

  /** Recorded tasks are completed, and a completed run has recorded all of its tasks. */
  ghost predicate RunSound(db: Store, run: Run) {
    && (forall id :: Records(run, id) ==> IsCompleted(db, id))
    && (run.taskIds.Some? && run.checkpoint.Some? && run.status == RunCompleted ==> forall id :: id in RunIds(run) ==> Records(run, id))
  }

  ghost predicate PlanSound(db: Store, run: Snapshot, plan: Plan) {
    && (plan.Close? ==> forall id :: id in RunIds(run) ==> Records(run, id))
    && (plan.Finish? ==> plan.task.id in RunIds(run) && IsCompleted(db, plan.task.id))
  }

  ghost predicate CallSound(db: Store, c: Call) {
    Active(c) ==>
      && c.runId in db.runs && db.runs[c.runId].taskIds == c.run.taskIds && db.runs[c.runId].checkpoint.Some?
      && (forall id :: Records(c.run, id) ==> IsCompleted(db, id))
      && (c.Chosen? ==> c.task.id in RunIds(c.run))
      && (c.Settled? ==> PlanSound(db, c.run, c.plan))
  }

  ghost predicate Sound(s: State) {
    && KeyedById(s.db)
    && (forall runId :: runId in s.db.runs ==> RunSound(s.db, s.db.runs[runId]))
    && (forall call :: call in s.calls ==> CallSound(s.db, s.calls[call]))
  }

  /** From one store to a later one: tasks stay completed and runs keep their lists. */
  ghost predicate Grows(db: Store, db': Store) {
    && KeyedById(db') && db'.runs.Keys == db.runs.Keys
    && (forall id :: IsCompleted(db, id) ==> IsCompleted(db', id))
    && (forall runId :: runId in db.runs ==>
          db'.runs[runId].taskIds == db.runs[runId].taskIds && (db.runs[runId].checkpoint.Some? ==> db'.runs[runId].checkpoint.Some?))
  }

  lemma {:induction false} CallStaysSound(db: Store, db': Store, c: Call)
    requires CallSound(db, c) && Grows(db, db')
    ensures CallSound(db', c)
  {
  }

  lemma {:induction false} StepGrows(s: State, e: Event)
    requires KeyedById(s.db)
    ensures Grows(s.db, Step(s, e).db)
  {
  }

  lemma {:induction false} DecisionIsSound(db: Store, runId: int, run: Snapshot)
    requires KeyedById(db) && CallSound(db, Claimed(runId, run))
    ensures CallSound(db, Decided(db, runId, run))
  {
    var ids, completed := RunIds(run), CompletedIds(run);
    if ids == [] || |completed| >= |ids| {
      EverythingIsRecorded(run);
    } else if Decided(db, runId, run).Chosen? {
      var id := FoundTask(db, run.workspace, ids, Selected(db, run.workspace, ids, completed).value);
    }
  }

  lemma {:induction false} EverythingIsRecorded(run: Snapshot)
    requires |CompletedIds(run)| >= |RunIds(run)|
    ensures forall id :: id in RunIds(run) ==> Records(run, id)
  {
    DistinctElements(run.taskIds.value);
    forall id | id in RunIds(run)
      ensures Records(run, id)
    {
      if id !in CompletedIds(run) {
        TooFewRecorded(RunIds(run), CompletedIds(run), id);
      }
    }
  }

  /** Distinct ids of a list that leave one of them out are fewer than the list. */
  lemma {:induction false} TooFewRecorded(ids: seq<int>, completed: seq<int>, id: int)
    requires id in ids && id !in completed && forall x :: x in completed ==> x in ids
    requires forall i, j :: 0 <= i < j < |completed| ==> completed[i] != completed[j]
    ensures |completed| < |ids|
  {
    RangeSize(ids);
    if |completed| >= |ids| {
      var more := completed + [id];
      var i, j := Pigeonhole(more, Range(ids));
      assert false;
    }
  }

  lemma {:induction false} OwnCallIsSound(s: State, e: Event)
    requires Sound(s) && e.call in Step(s, e).calls
    ensures CallSound(Step(s, e).db, Step(s, e).calls[e.call])
  {
    StepGrows(s, e);
    if e.call in s.calls {
      var c := s.calls[e.call];
      CallStaysSound(s.db, Step(s, e).db, c);
      if e.Decide? && c.Claimed? {
        DecisionIsSound(s.db, c.runId, c.run);
      }
    }
  }

  lemma {:induction false} WrittenRunIsSound(db: Store, row: Run, run: Snapshot, plan: Plan)
    requires RunSound(db, row) && row.taskIds == run.taskIds && PlanSound(db, run, plan)
    requires forall id :: Records(run, id) ==> IsCompleted(db, id)
    ensures RunSound(db, RunWritten(row, run, plan))
  {
    var row' := RunWritten(row, run, plan);
    if plan.Finish? {
      CompletedAfterTask(RunIds(run), CompletedIds(run), plan.task.id);
      DistinctElements(CompletedIds(run) + [plan.task.id]);
      if row'.status == RunCompleted {
        forall id | id in RunIds(run)
          ensures Records(row', id)
        {
          if id !in row'.checkpoint.value.completed {
            TooFewRecorded(RunIds(run), row'.checkpoint.value.completed, id);
          }
        }
      }
    }
  }

  lemma {:induction false} RunStaysSound(s: State, e: Event, runId: int)
    requires Sound(s) && runId in Step(s, e).db.runs
    ensures RunSound(Step(s, e).db, Step(s, e).db.runs[runId])
  {
    StepGrows(s, e);
    assert RunSound(s.db, s.db.runs[runId]);
    if e.WriteRun? && e.call in s.calls && s.calls[e.call].Settled? {
      var c := s.calls[e.call];
      assert CallSound(s.db, c) && RunSound(s.db, s.db.runs[c.runId]);
      WrittenRunIsSound(s.db, s.db.runs[c.runId], c.run, c.plan);
    }
  }

  lemma {:induction false} StepIsSound(s: State, e: Event)
    requires Sound(s)
    ensures Sound(Step(s, e))
  {
    StepGrows(s, e);
    forall runId | runId in Step(s, e).db.runs
      ensures RunSound(Step(s, e).db, Step(s, e).db.runs[runId])
    {
      RunStaysSound(s, e, runId);
    }
    forall call | call in Step(s, e).calls
      ensures CallSound(Step(s, e).db, Step(s, e).calls[call])
    {
      if call == e.call {
        OwnCallIsSound(s, e);
      } else {
        CallStaysSound(s.db, Step(s, e).db, s.calls[call]);
      }
    }
  }

  /** In every interleaving the checkpoints record completed tasks only, and a run is completed only
      with all of its tasks. */
  lemma {:induction false} RecordedTasksAreCompleted(s: State, events: seq<Event>)
    requires Sound(s)
    ensures Sound(After(s, events))
    ensures var db := After(s, events).db;
      forall runId, id :: runId in db.runs && Records(db.runs[runId], id) ==> IsCompleted(db, id)
    decreases |events|
  {
    if events != [] {
      StepIsSound(s, events[0]);
      RecordedTasksAreCompleted(Step(s, events[0]), events[1..]);
    }
  }

  // ---------- A task is completed once ----------

  /** The invocation that completed the task. */
  predicate Finisher(c: Call, id: int) {
    (c.Settled? && c.plan.Finish? && c.plan.task.id == id) || c == Ended(Done(Some(id)))
  }

  ghost predicate FinishedOnce(s: State) {
    && (forall call, id :: call in s.calls && Finisher(s.calls[call], id) ==> IsCompleted(s.db, id))
    && (forall call, other, id :: call in s.calls && other in s.calls && Finisher(s.calls[call], id) && Finisher(s.calls[other], id) ==> call == other)
  }

  lemma {:induction false} NewFinisher(s: State, e: Event, id: int)
    requires KeyedById(s.db) && e.call in Step(s, e).calls && Finisher(Step(s, e).calls[e.call], id)
    ensures (e.call in s.calls && Finisher(s.calls[e.call], id))
      || (s.rowsReported && !IsCompleted(s.db, id) && IsCompleted(Step(s, e).db, id))
  {
  }

  lemma {:induction false} StepFinishesOnce(s: State, e: Event)
    requires Sound(s) && FinishedOnce(s)
    ensures FinishedOnce(Step(s, e))
  {
    var s' := Step(s, e);
    StepGrows(s, e);
    forall call, id | call in s'.calls && Finisher(s'.calls[call], id)
      ensures IsCompleted(s'.db, id)
    {
      if call == e.call {
        NewFinisher(s, e, id);
      }
    }
    forall call, other, id | call in s'.calls && other in s'.calls && Finisher(s'.calls[call], id) && Finisher(s'.calls[other], id)
      ensures call == other
    {
      if call == e.call || other == e.call {
        NewFinisher(s, e, id);
      }
    }
  }

  /** Two invocations never both complete the same task, however they overlap. */
  lemma {:induction false} TaskIsCompletedOnce(s: State, events: seq<Event>, call: int, other: int, id: int)
    requires Sound(s) && FinishedOnce(s)
    requires var s' := After(s, events);
      call in s'.calls && other in s'.calls && Finisher(s'.calls[call], id) && Finisher(s'.calls[other], id)
    ensures call == other && IsCompleted(After(s, events).db, id)
    decreases |events|
  {
    if events != [] {
      StepIsSound(s, events[0]);
      StepFinishesOnce(s, events[0]);
      TaskIsCompletedOnce(Step(s, events[0]), events[1..], call, other, id);
    }
  }

  predicate CompletesTask(s: State, s': State, id: int) {
    !IsCompleted(s.db, id) && IsCompleted(s'.db, id)
  }

  ghost function NumCompletions(s: State, events: seq<Event>, id: int): nat
    decreases |events|
  {
    if events == [] then 0
    else (if CompletesTask(s, Step(s, events[0]), id) then 1 else 0) + NumCompletions(Step(s, events[0]), events[1..], id)
  }

  /** Nor does any invocation complete it again, whether or not it gets to report that. */
  lemma {:induction false} TaskIsMovedOnce(s: State, events: seq<Event>, id: int)
    requires KeyedById(s.db)
    ensures NumCompletions(s, events, id) <= if IsCompleted(s.db, id) then 0 else 1
    decreases |events|
  {
    if events != [] {
      StepGrows(s, events[0]);
      TaskIsMovedOnce(Step(s, events[0]), events[1..], id);
    }
  }

  // ---------- Lost entries ----------

  predicate SameSnapshot(c: Call, c': Call)
    requires Active(c)
  {
    Active(c') ==> c'.runId == c.runId && c'.run == c.run
  }

  lemma {:induction false} BegunKeepsSnapshot(s: State, e: Event)
    requires e.call in s.calls && s.calls[e.call].Begun?
    ensures e.call in Step(s, e).calls && SameSnapshot(s.calls[e.call], Step(s, e).calls[e.call])
  {
  }

  lemma {:induction false} ClaimedKeepsSnapshot(s: State, e: Event)
    requires e.call in s.calls && s.calls[e.call].Claimed?
    ensures e.call in Step(s, e).calls && SameSnapshot(s.calls[e.call], Step(s, e).calls[e.call])
  {
  }

  lemma {:induction false} ChosenKeepsSnapshot(s: State, e: Event)
    requires e.call in s.calls && s.calls[e.call].Chosen?
    ensures e.call in Step(s, e).calls && SameSnapshot(s.calls[e.call], Step(s, e).calls[e.call])
  {
  }

  lemma {:induction false} SettledKeepsSnapshot(s: State, e: Event)
    requires e.call in s.calls && s.calls[e.call].Settled?
    ensures e.call in Step(s, e).calls && SameSnapshot(s.calls[e.call], Step(s, e).calls[e.call])
  {
  }

  lemma {:induction false} StepKeepsSnapshot(s: State, e: Event, call: int)
    requires call in s.calls && Active(s.calls[call])
    ensures call in Step(s, e).calls && SameSnapshot(s.calls[call], Step(s, e).calls[call])
  {
    if e.call == call {
      match s.calls[call]
      case Begun(_, _) => BegunKeepsSnapshot(s, e);
      case Claimed(_, _) => ClaimedKeepsSnapshot(s, e);
      case Chosen(_, _, _) => ChosenKeepsSnapshot(s, e);
      case Settled(_, _, _) => SettledKeepsSnapshot(s, e);
    }
  }

  lemma {:induction false} SnapshotIsKept(s: State, call: int, events: seq<Event>)
    requires call in s.calls && Active(s.calls[call])
    ensures call in After(s, events).calls
    ensures var c := After(s, events).calls[call];
      Active(c) ==> c.runId == s.calls[call].runId && c.run == s.calls[call].run
    decreases |events|
  {
    if events != [] {
      var s1 := Step(s, events[0]);
      StepKeepsSnapshot(s, events[0], call);
      if Active(s1.calls[call]) {
        SnapshotIsKept(s1, call, events[1..]);
      } else {
        EndedStays(s1, call, events[1..]);
      }
    }
  }

  lemma {:induction false} EndedStays(s: State, call: int, events: seq<Event>)
    requires call in s.calls && !Active(s.calls[call])
    ensures call in After(s, events).calls && After(s, events).calls[call] == s.calls[call]
    decreases |events|
  {
    if events != [] {
      EndedStays(Step(s, events[0]), call, events[1..]);
    }
  }

  /** The last query of an invocation erases exactly the entries recorded since its first query, other
      than its own; a run that it fails loses none. */
  lemma {:induction false} WriteErasesWhatItMissed(s: State, call: int, runId: int, events: seq<Event>, id: int)
    requires Sound(s) && call !in s.calls
    requires var s' := After(Step(s, Begin(call, runId)), events);
      call in s'.calls && s'.calls[call].Settled?
    ensures runId in s.db.runs
    ensures var s' := After(Step(s, Begin(call, runId)), events);
      && runId in s'.db.runs && runId in Step(s', WriteRun(call)).db.runs
      && (Records(s'.db.runs[runId], id) && !Records(Step(s', WriteRun(call)).db.runs[runId], id)
          <==> && Records(s'.db.runs[runId], id) && !Records(s.db.runs[runId], id)
               && !s'.calls[call].plan.Fail? && !Finisher(s'.calls[call], id))
  {
    var s1 := Step(s, Begin(call, runId));
    var s' := After(s1, events);
    StepIsSound(s, Begin(call, runId));
    RecordedTasksAreCompleted(s1, events);
    if !Active(s1.calls[call]) {
      EndedStays(s1, call, events);
      assert false;
    }
    SnapshotIsKept(s1, call, events);
    var c := s'.calls[call];
    assert CallSound(s'.db, c);
    assert c.run == s.db.runs[runId];
    WriteReplacesRecord(s'.db.runs[runId], c.run, c.plan, id);
  }

  lemma {:induction false} WriteReplacesRecord(row: Run, run: Snapshot, plan: Plan, id: int)
    requires row.taskIds == run.taskIds && row.checkpoint.Some?
    ensures Records(RunWritten(row, run, plan), id)
      <==> if plan.Fail? then Records(row, id)
           else if plan.Close? then id in RunIds(run)
           else Records(run, id) || (plan.Finish? && plan.task.id == id && id in RunIds(run))
  {
    if plan.Finish? {
      CompletedAfterTask(RunIds(run), CompletedIds(run), plan.task.id);
    }
  }

  predicate Holds(c: Call, runId: int, id: int) {
    Active(c) && c.runId == runId && (Records(c.run, id) || Finisher(c, id))
  }

  /** The run has not recorded the task, and no invocation is left that will. */
  ghost predicate Unknown(s: State, runId: int, id: int) {
    && runId in s.db.runs
    && var run := s.db.runs[runId];
    && run.taskIds.Some? && run.checkpoint.Some? && id in RunIds(run) && !Records(run, id)
    && forall call :: call in s.calls ==> !Holds(s.calls[call], runId, id)
  }

  /** And yet the task is completed. */
  ghost predicate Stranded(s: State, runId: int, id: int) {
    Unknown(s, runId, id) && IsCompleted(s.db, id)
  }

  lemma {:induction false} RunStaysUnknown(s: State, e: Event, runId: int, id: int)
    requires Sound(s) && Unknown(s, runId, id)
    ensures runId in Step(s, e).db.runs
    ensures var run := Step(s, e).db.runs[runId];
      run.taskIds.Some? && run.checkpoint.Some? && id in RunIds(run) && !Records(run, id)
  {
    StepGrows(s, e);
    if e.WriteRun? && e.call in s.calls && s.calls[e.call].Settled? {
      var c := s.calls[e.call];
      assert CallSound(s.db, c) && !Holds(c, runId, id);
      if c.runId == runId {
        WriteReplacesRecord(s.db.runs[runId], c.run, c.plan, id);
      }
    }
  }

  lemma {:induction false} NothingHolds(s: State, e: Event, runId: int, id: int)
    requires KeyedById(s.db) && (IsCompleted(s.db, id) || !s.rowsReported) && e.call in Step(s, e).calls
    requires runId in s.db.runs && !Records(s.db.runs[runId], id)
    requires e.call in s.calls ==> !Holds(s.calls[e.call], runId, id)
    ensures !Holds(Step(s, e).calls[e.call], runId, id)
  {
    if Finisher(Step(s, e).calls[e.call], id) {
      NewFinisher(s, e, id);
    }
  }

  /** A task that is completed, or that cannot be recorded because counts are not reported, stays
      unknown to the run. */
  lemma {:induction false} StepKeepsUnknown(s: State, e: Event, runId: int, id: int)
    requires Sound(s) && Unknown(s, runId, id) && (IsCompleted(s.db, id) || !s.rowsReported)
    ensures Unknown(Step(s, e), runId, id) && (IsCompleted(Step(s, e).db, id) || !Step(s, e).rowsReported)
  {
    StepGrows(s, e);
    RunStaysUnknown(s, e, runId, id);
    forall call | call in Step(s, e).calls
      ensures !Holds(Step(s, e).calls[call], runId, id)
    {
      if call == e.call {
        NothingHolds(s, e, runId, id);
      } else {
        assert call in s.calls && Step(s, e).calls[call] == s.calls[call];
      }
    }
  }

  lemma {:induction false} UnknownRunNeverCompletes(s: State, runId: int, id: int, events: seq<Event>)
    requires Sound(s) && Unknown(s, runId, id) && (IsCompleted(s.db, id) || !s.rowsReported)
    ensures Unknown(After(s, events), runId, id) && !IsClosed(After(s, events).db, runId)
    ensures IsCompleted(s.db, id) ==> IsCompleted(After(s, events).db, id)
    decreases |events|
  {
    assert RunSound(s.db, s.db.runs[runId]);
    if events != [] {
      StepGrows(s, events[0]);
      StepIsSound(s, events[0]);
      StepKeepsUnknown(s, events[0], runId, id);
      UnknownRunNeverCompletes(Step(s, events[0]), runId, id, events[1..]);
    }
  }

  /** A stranded task keeps the run from ever being completed, whatever invocations follow. */
  lemma {:induction false} StrandedRunNeverCompletes(s: State, runId: int, id: int, events: seq<Event>)
    requires Sound(s) && Stranded(s, runId, id)
    ensures Stranded(After(s, events), runId, id)
    ensures After(s, events).db.runs[runId].status != RunCompleted
  {
    UnknownRunNeverCompletes(s, runId, id, events);
  }

  // ---------- Invocations that do not overlap, and two that do ----------

  function Solo(call: int, runId: int): seq<Event> {
    [Begin(call, runId), Claim(call), Decide(call), WriteTask(call), WriteRun(call)]
  }

  lemma {:induction false} AfterFrom(s: State, events: seq<Event>, i: nat)
    requires i < |events|
    ensures After(s, events[i..]) == After(Step(s, events[i]), events[i + 1..])
  {
    assert events[i..][1..] == events[i + 1..];
  }

  lemma {:induction false} FiveSteps(s: State, e: seq<Event>)
    requires |e| == 5
    ensures After(s, e) == Step(Step(Step(Step(Step(s, e[0]), e[1]), e[2]), e[3]), e[4])
  {
    var s1 := Step(s, e[0]);
    var s2 := Step(s1, e[1]);
    var s3 := Step(s2, e[2]);
    var s4 := Step(s3, e[3]);
    assert e[0..] == e && e[5..] == [];
    AfterFrom(s, e, 0);
    AfterFrom(s1, e, 1);
    AfterFrom(s2, e, 2);
    AfterFrom(s3, e, 3);
    AfterFrom(s4, e, 4);
  }

  /** The steps behind the decision. */
  ghost function Rest(s: State, call: int): State {
    Step(Step(Step(s, Decide(call)), WriteTask(call)), WriteRun(call))
  }

  lemma {:induction false} SettledSteps(s: State, call: int, runId: int, run: Snapshot, plan: Plan)
    requires call in s.calls && s.calls[call] == Settled(runId, run, plan) && runId in s.db.runs
    ensures Step(s, WriteTask(call)) == s
    ensures Step(s, WriteRun(call))
      == Progress(s, WithRun(s.db, runId, RunWritten(s.db.runs[runId], run, plan)), call, Ended(Outcome(plan, s.rowsReported)))
  {
  }

  /** What the two updates of a selected task come to. */
  ghost function Executed(s: State, call: int, runId: int, run: Snapshot, task: Task): State
    requires runId in s.db.runs
  {
    var plan := if task.adapter == Registered then Finish(task) else Block(task);
    if task.adapter == Registered && !s.rowsReported then Progress(s, TaskWritten(s.db, task), call, Ended(CountUnavailable(TaskCompletion)))
    else Progress(s, WithRun(TaskWritten(s.db, task), runId, RunWritten(s.db.runs[runId], run, plan)), call, Ended(Outcome(plan, s.rowsReported)))
  }

  lemma {:induction false} ChosenSteps(s: State, call: int, runId: int, run: Snapshot, task: Task)
    requires call in s.calls && s.calls[call] == Chosen(runId, run, task) && runId in s.db.runs && IsQueued(s.db, task)
    ensures Step(Step(s, WriteTask(call)), WriteRun(call)) == Executed(s, call, runId, run, task)
  {
    var s1 := Step(s, WriteTask(call));
    assert s1 == Progress(s, TaskWritten(s.db, task), call, AfterTask(s.db, runId, run, task, s.rowsReported));
    if task.adapter != Registered || s.rowsReported {
      var plan := if task.adapter == Registered then Finish(task) else Block(task);
      SettledSteps(s1, call, runId, run, plan);
      ProgressAgain(s, s1.db, call, s1.calls[call], WithRun(s1.db, runId, RunWritten(s.db.runs[runId], run, plan)),
                    Ended(Outcome(plan, s.rowsReported)));
    }
  }

  lemma {:induction false} RestOfDecision(s: State, call: int, runId: int, run: Snapshot)
    requires call in s.calls && s.calls[call] == Claimed(runId, run) && runId in s.db.runs
    ensures var decided := Decided(s.db, runId, run);
      && (decided.Ended? ==> Rest(s, call) == Progress(s, s.db, call, decided))
      && (decided.Settled? ==>
            Rest(s, call)
            == Progress(s, WithRun(s.db, runId, RunWritten(s.db.runs[runId], run, decided.plan)), call, Ended(Outcome(decided.plan, s.rowsReported))))
      && (decided.Chosen? && IsQueued(s.db, decided.task) ==> Rest(s, call) == Executed(s, call, runId, run, decided.task))
  {
    var decided := Decided(s.db, runId, run);
    var s1 := Step(s, Decide(call));
    assert s1 == Progress(s, s.db, call, decided);
    if decided.Settled? {
      SettledSteps(s1, call, runId, run, decided.plan);
      ProgressAgain(s, s.db, call, decided, WithRun(s.db, runId, RunWritten(s.db.runs[runId], run, decided.plan)),
                    Ended(Outcome(decided.plan, s.rowsReported)));
    } else if decided.Chosen? && IsQueued(s.db, decided.task) {
      ChosenSteps(s1, call, runId, run, decided.task);
      ExecutedAgain(s, call, runId, run, decided.task, decided);
    }
  }

  lemma {:induction false} ProgressAgain(s: State, db: Store, call: int, c: Call, db': Store, c': Call)
    ensures Progress(Progress(s, db, call, c), db', call, c') == Progress(s, db', call, c')
  {
    assert s.calls[call := c][call := c'] == s.calls[call := c'];
  }

  lemma {:induction false} ExecutedAgain(s: State, call: int, runId: int, run: Snapshot, task: Task, c: Call)
    requires runId in s.db.runs
    ensures Executed(Progress(s, s.db, call, c), call, runId, run, task) == Executed(s, call, runId, run, task)
  {
    assert forall c' {:trigger s.calls[call := c']} :: s.calls[call := c][call := c'] == s.calls[call := c'];
  }

  lemma {:induction false} ChosenIsSelected(db: Store, runId: int, run: Snapshot) returns (task: Task)
    requires KeyedById(db) && Decided(db, runId, run).Chosen?
    ensures Decided(db, runId, run) == Chosen(runId, run, task)
    ensures Selected(db, run.workspace, RunIds(run), CompletedIds(run)) == Some(task)
    ensures task.id in RunIds(run) && task.id in db.tasks && db.tasks[task.id] == task && IsQueued(db, task)
    ensures task.passiveType && task.adapter != Unregistered
  {
    task := Decided(db, runId, run).task;
    var id := FoundTask(db, run.workspace, RunIds(run), task);
  }

  lemma {:induction false} RestIsAfterClaim(s: State, call: int, runId: int, run: Snapshot)
    requires KeyedById(s.db) && call in s.calls && s.calls[call] == Claimed(runId, run)
    requires runId in s.db.runs && s.db.runs[runId] == run.(status := RunRunning)
    ensures var (db, result) := AfterClaim(s.db, runId, run.(status := RunRunning), RunIds(run), run.checkpoint.value, s.rowsReported);
      Rest(s, call) == Progress(s, db, call, Ended(result))
  {
    RestOfDecision(s, call, runId, run);
    if Decided(s.db, runId, run).Chosen? {
      var task := ChosenIsSelected(s.db, runId, run);
      ChosenIsAfterSelection(s, call, runId, run, task);
    }
  }

  lemma {:induction false} ChosenIsAfterSelection(s: State, call: int, runId: int, run: Snapshot, task: Task)
    requires runId in s.db.runs && s.db.runs[runId] == run.(status := RunRunning)
    requires task.id in s.db.tasks && s.db.tasks[task.id] == task && IsQueued(s.db, task)
    requires task.passiveType && task.adapter != Unregistered
    ensures var (db, result) :=
        AfterSelection(s.db, runId, run.(status := RunRunning), RunIds(run), run.checkpoint.value, CompletedIds(run), task, s.rowsReported);
      Executed(s, call, runId, run, task) == Progress(s, db, call, Ended(result))
  {
  }

  ghost function ClaimedState(s: State, call: int, runId: int): State {
    Step(Step(s, Begin(call, runId)), Claim(call))
  }

  lemma {:induction false} BeginClaims(s: State, call: int, runId: int)
    requires call !in s.calls && !Began(s.db, runId).Ended?
    ensures var run := s.db.runs[runId];
      ClaimedState(s, call, runId)
      == Progress(s, WithRun(s.db, runId, run.(status := RunRunning)), call,
                  if run.status == RunRunning || s.rowsReported then Claimed(runId, run) else Ended(CountUnavailable(RunClaim)))
  {
    var run := s.db.runs[runId];
    if run.status == RunRunning {
      assert s.db.runs[runId := run.(status := RunRunning)] == s.db.runs;
    }
  }

  lemma {:induction false} EndedRests(s: State, call: int)
    requires call in s.calls && !Active(s.calls[call])
    ensures Rest(s, call) == s
  {
  }

  lemma {:induction false} RefusedAtOnce(s: State, call: int, runId: int)
    requires call !in s.calls && Began(s.db, runId).Ended?
    ensures Rest(ClaimedState(s, call, runId), call) == Progress(s, s.db, call, Began(s.db, runId))
  {
    EndedRests(ClaimedState(s, call, runId), call);
  }

  lemma {:induction false} ClaimedRest(s: State, call: int, runId: int, run: Snapshot)
    requires KeyedById(s.db) && runId in s.db.runs
    ensures var claimed := run.(status := RunRunning);
      var db1 := WithRun(s.db, runId, claimed);
      var (db, result) := AfterClaim(db1, runId, claimed, RunIds(run), run.checkpoint.value, s.rowsReported);
      Rest(Progress(s, db1, call, Claimed(runId, run)), call) == Progress(s, db, call, Ended(result))
  {
    var claimed := run.(status := RunRunning);
    var db1 := WithRun(s.db, runId, claimed);
    var (db, result) := AfterClaim(db1, runId, claimed, RunIds(run), run.checkpoint.value, s.rowsReported);
    RestIsAfterClaim(Progress(s, db1, call, Claimed(runId, run)), call, runId, run);
    ProgressAgain(s, db1, call, Claimed(runId, run), db, Ended(result));
  }

  lemma {:induction false} InvokeUnfold(db: Store, runId: int, run: Snapshot, rowsReported: bool)
    requires Startable(db, runId, run)
    ensures var claimed := run.(status := RunRunning);
      Invoke(db, runId, rowsReported)
      == if run.status == RunRunning || rowsReported
         then AfterClaim(WithRun(db, runId, claimed), runId, claimed, RunIds(run), run.checkpoint.value, rowsReported)
         else (WithRun(db, runId, claimed), CountUnavailable(RunClaim))
  {
  }

  lemma {:induction false} ClaimedInvocation(s: State, call: int, runId: int, run: Snapshot)
    requires KeyedById(s.db) && call !in s.calls && Startable(s.db, runId, run)
    ensures var (db, result) := Invoke(s.db, runId, s.rowsReported);
      Rest(ClaimedState(s, call, runId), call) == Progress(s, db, call, Ended(result))
  {
    InvokeUnfold(s.db, runId, run, s.rowsReported);
    BeginClaims(s, call, runId);
    if run.status == RunRunning || s.rowsReported {
      ClaimedRest(s, call, runId, run);
    } else {
      EndedRests(ClaimedState(s, call, runId), call);
    }
  }

  /** An invocation that nothing interrupts is the sequential function, whatever the driver reports. */
  lemma {:induction false} InvocationIsOneInterleaving(s: State, call: int, runId: int)
    requires KeyedById(s.db) && call !in s.calls
    ensures var (db, result) := Invoke(s.db, runId, s.rowsReported);
      After(s, Solo(call, runId)) == Progress(s, db, call, Ended(result))
  {
    FiveSteps(s, Solo(call, runId));
    if Began(s.db, runId).Ended? {
      RefusedAtOnce(s, call, runId);
    } else {
      ClaimedInvocation(s, call, runId, s.db.runs[runId]);
    }
  }

  /** Two invocations of one run: the second reads it after the first has claimed it, and goes on when
      the first is through. */
  function Overlap(runId: int): seq<Event> {
    [Begin(0, runId), Claim(0), Begin(1, runId), Decide(0), WriteTask(0), WriteRun(0), Decide(1), WriteTask(1), WriteRun(1)]
  }

  lemma {:induction false} OverlapSteps(s: State, runId: int)
    ensures After(s, Overlap(runId)) == Rest(Rest(Step(ClaimedState(s, 0, runId), Begin(1, runId)), 0), 1)
  {
    var e := Overlap(runId);
    var s1 := Step(s, e[0]);
    var s2 := Step(s1, e[1]);
    var s3 := Step(s2, e[2]);
    var s4 := Step(s3, e[3]);
    assert e[0..] == e;
    AfterFrom(s, e, 0);
    AfterFrom(s1, e, 1);
    AfterFrom(s2, e, 2);
    AfterFrom(s3, e, 3);
    FiveSteps(s4, e[4..]);
  }

  /** An invocation whose snapshot lacks a task that is completed by now, while all tasks of the run are
      in order. */
  ghost predicate Late(db: Store, runId: int, run: Snapshot, id: int) {
    && KeyedById(db) && runId in db.runs && db.runs[runId].taskIds == run.taskIds && db.runs[runId].checkpoint.Some?
    && id in RunIds(run) && !Records(run, id) && IsCompleted(db, id)
    && Guards(db, run.workspace, RunIds(run)) == Pass
    && forall other :: other in RunIds(run) && other in db.tasks ==> db.tasks[other].passiveType && db.tasks[other].adapter == Registered
  }

  lemma {:induction false} LateDecision(db: Store, runId: int, run: Snapshot, id: int)
    requires Late(db, runId, run, id)
    ensures var decided := Decided(db, runId, run);
      decided == Settled(runId, run, Pause)
      || (decided.Chosen? && decided.task.id != id && decided.task.adapter == Registered && IsQueued(db, decided.task))
  {
    TooFewRecorded(RunIds(run), CompletedIds(run), id);
    var selected := Selected(db, run.workspace, RunIds(run), CompletedIds(run));
    if selected.Some? {
      var other := FoundTask(db, run.workspace, RunIds(run), selected.value);
      assert db.tasks[other].adapter == Registered;
    }
  }

  lemma {:induction false} LateInvocationStrands(s: State, call: int, runId: int, run: Snapshot, id: int)
    requires Late(s.db, runId, run, id) && s.rowsReported
    requires call in s.calls && s.calls[call] == Claimed(runId, run)
    requires forall other :: other in s.calls && other != call ==> !Active(s.calls[other])
    ensures Stranded(Rest(s, call), runId, id)
  {
    LateDecision(s.db, runId, run, id);
    RestOfDecision(s, call, runId, run);
    var decided := Decided(s.db, runId, run);
    var plan := if decided.Settled? then Pause else Finish(decided.task);
    WriteReplacesRecord(s.db.runs[runId], run, plan, id);
    var s' := Rest(s, call);
    assert s'.db.runs[runId] == RunWritten(s.db.runs[runId], run, plan);
    assert forall other :: other in s'.calls ==> !Active(s'.calls[other]);
  }

  /** What a successful invocation leaves behind for one that read the run before. */
  lemma {:induction false} ProgressMakesLate(db: Store, runId: int, task: Task)
    requires Executable(db, runId) && KeyedById(db)
    requires var run := db.runs[runId];
      task.id in RunIds(run) && task.id !in CompletedIds(run) && task.id in db.tasks && db.tasks[task.id] == task && TaskExecutable(db, run, task.id)
    ensures var run := db.runs[runId].(status := RunRunning);
      var db' := AfterSelection(WithRun(db, runId, run), runId, run, RunIds(run), run.checkpoint.value, CompletedIds(run), task, true).0;
      Late(db', runId, run, task.id)
  {
    var run := db.runs[runId].(status := RunRunning);
    var db' := AfterSelection(WithRun(db, runId, run), runId, run, RunIds(run), run.checkpoint.value, CompletedIds(run), task, true).0;
    assert db'.tasks == db.tasks[task.id := task.(status := Completed)] && db'.rows == db.rows;
    GuardsPass(db, runId);
    forall other | other in RunIds(run)
      ensures Present(db', run.workspace, other) && db'.tasks[other].passiveType && db'.tasks[other].adapter == Registered
    {
      assert TaskExecutable(db, db.runs[runId], other);
    }
    SameGuards(WithRun(db, runId, run), db', run.workspace, RunIds(run));
  }

  lemma {:induction false} SameGuards(db: Store, db': Store, workspace: int, ids: seq<int>)
    requires db.rows == db'.rows && forall id :: id in ids ==> Present(db', workspace, id)
    requires Guards(db, workspace, ids) == Pass
    ensures Guards(db', workspace, ids) == Pass
  {
  }

  /** The task that an invocation completes next. */
  lemma {:induction false} NextTask(db: Store, runId: int) returns (task: Task)
    requires Executable(db, runId) && KeyedById(db)
    requires |CompletedIds(db.runs[runId])| < |RunIds(db.runs[runId])|
    ensures Late(Invoke(db, runId, true).0, runId, db.runs[runId].(status := RunRunning), task.id)
    ensures var run := db.runs[runId];
      && Decided(WithRun(db, runId, run.(status := RunRunning)), runId, run) == Chosen(runId, run, task)
      && task.id in RunIds(run) && !Records(run, task.id) && IsQueued(db, task) && task.adapter == Registered
  {
    task := SelectionSucceeds(db, runId);
    ProgressMakesLate(db, runId, task);
    TaskIsChosen(db, runId, task);
  }

  lemma {:induction false} TaskIsChosen(db: Store, runId: int, task: Task)
    requires Executable(db, runId) && |CompletedIds(db.runs[runId])| < |RunIds(db.runs[runId])|
    requires task.id in db.tasks && db.tasks[task.id] == task && task.passiveType && task.adapter == Registered
    requires Invoke(db, runId, true)
      == AfterSelection(WithRun(db, runId, db.runs[runId].(status := RunRunning)), runId, db.runs[runId].(status := RunRunning),
                        RunIds(db.runs[runId]), db.runs[runId].checkpoint.value, CompletedIds(db.runs[runId]), task, true)
    ensures var run := db.runs[runId];
      Decided(WithRun(db, runId, run.(status := RunRunning)), runId, run) == Chosen(runId, run, task)
  {
    GuardsPass(db, runId);
    var found := SelectionFinds(db, runId);
    assert found.passiveType && found.adapter == Registered;
    assert Invoke(db, runId, true).1 == Done(Some(found.id));
  }

  /** So two overlapping invocations leave a task completed that the run never records, and the run can
      never be completed, although one invocation after the other would complete it. */
  lemma {:induction false} OverlapStrandsTask(db: Store, runId: int) returns (id: int)
    requires Executable(db, runId) && KeyedById(db)
    requires |CompletedIds(db.runs[runId])| < |RunIds(db.runs[runId])|
    ensures Stranded(After(State(db, map[], true), Overlap(runId)), runId, id)
  {
    var task := NextTask(db, runId);
    id := task.id;
    OverlapStrands(db, runId, db.runs[runId], id);
  }

  /** After the two, no further invocations can complete the run. */
  lemma {:induction false} OverlappedRunNeverCompletes(db: Store, runId: int, events: seq<Event>)
    requires Executable(db, runId) && Sound(State(db, map[], true))
    requires |CompletedIds(db.runs[runId])| < |RunIds(db.runs[runId])|
    ensures var s := After(After(State(db, map[], true), Overlap(runId)), events);
      runId in s.db.runs && s.db.runs[runId].status != RunCompleted
  {
    var id := OverlapStrandsTask(db, runId);
    RecordedTasksAreCompleted(State(db, map[], true), Overlap(runId));
    StrandedRunNeverCompletes(After(State(db, map[], true), Overlap(runId)), runId, id, events);
  }

  predicate Startable(db: Store, runId: int, run: Snapshot) {
    runId > 0 && runId in db.runs && db.runs[runId] == run && run.status in {RunQueued, RunRunning, RunPaused}
  }

  lemma {:induction false} OverlapStrands(db: Store, runId: int, run: Snapshot, id: int)
    requires KeyedById(db) && Startable(db, runId, run) && Late(Invoke(db, runId, true).0, runId, run.(status := RunRunning), id)
    ensures Stranded(After(State(db, map[], true), Overlap(runId)), runId, id)
  {
    var s := State(db, map[], true);
    OverlapSteps(s, runId);
    SecondBegins(s, runId, run);
    FirstIsThrough(db, runId, run);
    LateInvocationStrands(Rest(Step(ClaimedState(s, 0, runId), Begin(1, runId)), 0), 1, runId, run.(status := RunRunning), id);
  }

  lemma {:induction false} SecondBegins(s: State, runId: int, run: Snapshot)
    requires s.calls == map[] && s.rowsReported && Startable(s.db, runId, run)
    ensures var running := run.(status := RunRunning);
      Step(ClaimedState(s, 0, runId), Begin(1, runId))
        == State(WithRun(s.db, runId, running), map[0 := Claimed(runId, run), 1 := Claimed(runId, running)], true)
  {
    BeginClaims(s, 0, runId);
  }

  lemma {:induction false} FirstIsThrough(db: Store, runId: int, run: Snapshot)
    requires KeyedById(db) && Startable(db, runId, run)
    ensures var running := run.(status := RunRunning);
      Rest(State(WithRun(db, runId, running), map[0 := Claimed(runId, run), 1 := Claimed(runId, running)], true), 0)
        == State(Invoke(db, runId, true).0, map[0 := Ended(Invoke(db, runId, true).1), 1 := Claimed(runId, running)], true)
  {
    var running := run.(status := RunRunning);
    RestIsAfterClaim(State(WithRun(db, runId, running), map[0 := Claimed(runId, run), 1 := Claimed(runId, running)], true), 0, runId, run);
  }

  /** A crash between the last two queries does the same. */
  lemma {:induction false} CrashStrandsTask(db: Store, runId: int) returns (id: int)
    requires Executable(db, runId) && KeyedById(db)
    requires |CompletedIds(db.runs[runId])| < |RunIds(db.runs[runId])|
    ensures Stranded(After(State(db, map[], true), Solo(0, runId)[4 := Stop(0)]), runId, id)
  {
    var task := NextTask(db, runId);
    id := task.id;
    CrashStrands(db, runId, db.runs[runId], task);
  }

  lemma {:induction false} CrashStrands(db: Store, runId: int, run: Snapshot, task: Task)
    requires Startable(db, runId, run) && Decided(WithRun(db, runId, run.(status := RunRunning)), runId, run) == Chosen(runId, run, task)
    requires task.id in RunIds(run) && !Records(run, task.id) && IsQueued(db, task) && task.adapter == Registered
    ensures Stranded(After(State(db, map[], true), Solo(0, runId)[4 := Stop(0)]), runId, task.id)
  {
    var s := State(db, map[], true);
    FiveSteps(s, Solo(0, runId)[4 := Stop(0)]);
    BeginClaims(s, 0, runId);
    CrashedSteps(ClaimedState(s, 0, runId), runId, run, task);
  }

  lemma {:induction false} CrashedSteps(s: State, runId: int, run: Snapshot, task: Task)
    requires s.rowsReported && s.calls == map[0 := Claimed(runId, run)] && runId in s.db.runs && s.db.runs[runId] == run.(status := RunRunning)
    requires Decided(s.db, runId, run) == Chosen(runId, run, task) && task.adapter == Registered
    requires IsQueued(s.db, task) && task.id in RunIds(run) && !Records(run, task.id)
    ensures Stranded(Step(Step(Step(s, Decide(0)), WriteTask(0)), Stop(0)), runId, task.id)
  {
    var s1 := Step(s, Decide(0));
    assert s1 == State(s.db, map[0 := Chosen(runId, run, task)], true);
    CrashBeforeLastQuery(s1, runId, run, task);
    var s' := State(TaskWritten(s.db, task), map[0 := Crashed], true);
    assert IsCompleted(s'.db, task.id) && s'.db.runs == s.db.runs;
  }

  lemma {:induction false} CrashBeforeLastQuery(s: State, runId: int, run: Snapshot, task: Task)
    requires s.rowsReported && s.calls == map[0 := Chosen(runId, run, task)]
    requires IsQueued(s.db, task)
    ensures Step(Step(s, WriteTask(0)), Stop(0)) == State(TaskWritten(s.db, task), map[0 := Crashed], true)
  {
    var s2 := Step(s, WriteTask(0));
    assert s2 == State(TaskWritten(s.db, task), map[0 := AfterTask(s.db, runId, run, task, true)], true);
  }

  // ---------- When a run can still be completed ----------

  predicate Quiet(s: State) {
    forall call :: call in s.calls ==> !Active(s.calls[call])
  }

  /** A task that is queued or completed and that the executor can run. */
  predicate Workable(db: Store, run: Run, id: int) {
    && id in db.tasks && db.tasks[id].workspace == run.workspace
    && db.tasks[id].passiveType && db.tasks[id].adapter == Registered && db.tasks[id].status in {Queued, Completed}
  }

  /** A run that is not over, with workable tasks and internal, acyclic dependencies. */
  ghost predicate OpenRun(db: Store, runId: int) {
    && runId > 0 && runId in db.runs
    && var run := db.runs[runId];
    && run.status in {RunQueued, RunRunning, RunPaused} && run.taskIds.Some? && run.checkpoint.Some?
    && (forall id :: id in RunIds(run) ==> Workable(db, run, id))
    && (forall row :: row in RowsOf(db.rows, run.workspace, RunIds(run)) ==> row.dependsOn in RunIds(run))
    && !CycleAmong(RunIds(run), RowsOf(db.rows, run.workspace, RunIds(run)))
  }

  /** Such a run is executable exactly when overlaps and crashes have stranded nothing. */
  lemma {:induction false} ExecutableIff(s: State, runId: int)
    requires Sound(s) && Quiet(s) && OpenRun(s.db, runId)
    ensures Executable(s.db, runId) <==> !exists id :: Stranded(s, runId, id)
  {
    var run := s.db.runs[runId];
    assert RunSound(s.db, run);
    forall id | id in RunIds(run)
      ensures TaskExecutable(s.db, run, id) <==> !Stranded(s, runId, id)
    {
      assert Workable(s.db, run, id);
    }
    if id :| Stranded(s, runId, id) {
      assert !TaskExecutable(s.db, run, id);
    }
  }

  lemma {:induction false} AfterJoin(s: State, first: seq<Event>, second: seq<Event>)
    ensures After(s, first + second) == After(After(s, first), second)
    decreases |first|
  {
    if first == [] {
      assert first + second == second;
    } else {
      assert (first + second)[1..] == first[1..] + second;
      AfterJoin(Step(s, first[0]), first[1..], second);
    }
  }

  lemma {:induction false} FreshCall(used: set<int>) returns (call: int)
    ensures call !in used
  {
    if used == {} {
      call := 0;
    } else {
      var greatest := GreatestExists(used, x => x);
      call := greatest + 1;
      assert call in used ==> call <= greatest;
    }
  }

  /** One more invocation, from its first query to its last. */
  lemma {:induction false} OneMore(s: State, runId: int) returns (events: seq<Event>)
    requires KeyedById(s.db)
    ensures var s' := After(s, events);
      s'.db == Invoke(s.db, runId, s.rowsReported).0 && s'.rowsReported == s.rowsReported && KeyedById(s'.db)
  {
    var call := FreshCall(s.calls.Keys);
    events := Solo(call, runId);
    InvocationIsOneInterleaving(s, call, runId);
    AfterIsKeyed(s, events);
  }

  lemma {:induction false} AfterIsKeyed(s: State, events: seq<Event>)
    requires KeyedById(s.db)
    ensures KeyedById(After(s, events).db)
    decreases |events|
  {
    if events != [] {
      StepGrows(s, events[0]);
      AfterIsKeyed(Step(s, events[0]), events[1..]);
    }
  }

  /** Some further interleaving of invocations completes the run. */
  ghost predicate CanComplete(s: State, runId: int) {
    exists events :: IsClosed(After(s, events).db, runId)
  }

  lemma {:induction false} CanCompleteLater(s: State, runId: int, events: seq<Event>)
    requires CanComplete(After(s, events), runId)
    ensures CanComplete(s, runId)
  {
    var rest :| IsClosed(After(After(s, events), rest).db, runId);
    AfterJoin(s, events, rest);
    assert IsClosed(After(s, events + rest).db, runId);
  }

  /** Invocations that play a run out complete it. */
  lemma {:induction false} PlayedOutCanComplete(s: State, runId: int, order: seq<int>)
    requires KeyedById(s.db) && s.rowsReported && PlaysOut(s.db, runId, order)
    ensures CanComplete(s, runId)
    decreases |order|
  {
    if order == [] {
      assert IsClosed(After(s, []).db, runId);
    } else {
      var events := OneMore(s, runId);
      PlayedOutCanComplete(After(s, events), runId, order[1..]);
      CanCompleteLater(s, runId, events);
    }
  }

  lemma {:induction false} FinishedCanComplete(s: State, runId: int)
    requires KeyedById(s.db) && Executable(s.db, runId) && !HasWork(s.db, runId)
    ensures CanComplete(s, runId)
    decreases s.db.runs[runId].status != RunRunning
  {
    var events := OneMore(s, runId);
    if s.rowsReported || s.db.runs[runId].status == RunRunning {
      FinishedRunCloses(s.db, runId, s.rowsReported);
      assert IsClosed(After(s, events).db, runId);
    } else {
      UnclaimedInvocation(s.db, runId);
      ClaimedStaysExecutable(s.db, runId);
      FinishedCanComplete(After(s, events), runId);
      CanCompleteLater(s, runId, events);
    }
  }

  lemma {:induction false} ExecutableCanComplete(s: State, runId: int)
    requires KeyedById(s.db) && Executable(s.db, runId) && (s.rowsReported || !HasWork(s.db, runId))
    ensures CanComplete(s, runId)
  {
    if HasWork(s.db, runId) {
      var order := RunCompletes(s.db, runId);
      PlayedOutCanComplete(s, runId, order);
    } else {
      FinishedCanComplete(s, runId);
    }
  }

  lemma {:induction false} UncountedCannotComplete(s: State, runId: int)
    requires Sound(s) && Quiet(s) && !s.rowsReported && HasWork(s.db, runId)
    ensures !CanComplete(s, runId)
  {
    var run := s.db.runs[runId];
    DistinctElements(run.taskIds.value);
    var id := ShorterHasRest(CompletedIds(run), RunIds(run));
    forall events
      ensures !IsClosed(After(s, events).db, runId)
    {
      UnknownRunNeverCompletes(s, runId, id, events);
    }
  }

  /** Whatever overlaps and crashes there were: when no invocation is under way, further ones can
      complete the run if and only if no task is stranded, and the driver reports the counts or there
      is nothing left to record. */
  lemma {:induction false} RunCanCompleteIff(s: State, runId: int)
    requires Sound(s) && Quiet(s) && OpenRun(s.db, runId)
    ensures CanComplete(s, runId) <==> (!exists id :: Stranded(s, runId, id)) && (s.rowsReported || !HasWork(s.db, runId))
  {
    ExecutableIff(s, runId);
    if id :| Stranded(s, runId, id) {
      forall events
        ensures !IsClosed(After(s, events).db, runId)
      {
        StrandedRunNeverCompletes(s, runId, id, events);
      }
    } else if s.rowsReported || !HasWork(s.db, runId) {
      ExecutableCanComplete(s, runId);
    } else {
      UncountedCannotComplete(s, runId);
    }
  }

  /** Without reported counts, the invocations of every executable run with work left strand a task: the
      first once the run is running. */
  lemma {:induction false} UncountedInvocationStrands(s: State, runId: int, call: int) returns (id: int)
    requires KeyedById(s.db) && Quiet(s) && !s.rowsReported && call !in s.calls
    requires Executable(s.db, runId) && HasWork(s.db, runId) && s.db.runs[runId].status == RunRunning
    ensures Stranded(After(s, Solo(call, runId)), runId, id)
  {
    var task := UncountedTaskIsLost(s.db, runId);
    id := task.id;
    InvocationIsOneInterleaving(s, call, runId);
    assert s.db.runs[runId := s.db.runs[runId]] == s.db.runs;
    assert AsRunning(s.db, runId) == s.db;
  }
}
