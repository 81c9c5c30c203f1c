/** Research tasks under concurrent callers: every call reads a row, checks it, and writes it back
    only if the revision is still the one it read. */
module ResearchTasks {
  import opened Collections
  import opened DependencyCheck
  import opened TaskRows

  const MAX_REVISION: int := 2_147_483_647

  datatype Status = Queued | Running | Blocked | Paused | Failed | Retrying | Completed | Cancelled
  datatype Approval = Pending | Approved | Rejected | Expired
  datatype Risk = Low | Medium | High | Critical

  /** `declared` is the dependency list stored in the task row itself. Titles are as the database
      compares them, creation times as it stores them. */
  datatype Task = Task(
    session: int, title: string, createdAt: int, status: Status, approval: Approval, risk: Risk, revision: nat, creator: int,
    declared: seq<int>)

  /** The task table, the relational dependency table and the auto-increment counter. */
  datatype Db = Db(tasks: map<int, Task>, rows: seq<Dependency>, nextId: int)

  function Allowed(from: Status): set<Status> {
    match from
    case Queued => {Running, Blocked, Cancelled}
    case Running => {Paused, Failed, Retrying, Completed, Cancelled}
    case Blocked => {Queued, Cancelled}
    case Paused => {Queued, Cancelled}
    case Failed => {Retrying, Cancelled}
    case Retrying => {Queued, Running, Failed, Cancelled}
    case Completed => {}
    case Cancelled => {}
  }

  predicate NeedsApproval(risk: Risk) {
    risk == High || risk == Critical
  }

  // ---------- Calls in progress ----------

  datatype Call =
    | Transition(id: int, seen: Task, next: Status, dependencies: Option<seq<int>>, cleared: bool)
    | Approve(id: int, seen: Task, reviewer: int)
    | Check(row: Task)
    | Create(row: Task, inserted: Option<int>, found: Option<int>)
    | Finished(success: bool)

  datatype State = State(db: Db, calls: map<int, Call>)

  datatype Event =
    | BeginTransition(call: int, id: int, next: Status, expected: Option<int>)
    | ReadDependencies(call: int)
    | ReadStatuses(call: int)
    | CommitTransition(call: int)
    | BeginApprove(call: int, id: int, reviewer: int, expected: Option<int>)
    | CommitApprove(call: int)
    | BeginCreate(call: int, session: int, title: string, risk: Risk, creator: int, dependencies: seq<int>)
    | CheckGraph(call: int)
    | InsertTask(call: int, now: int)
    | LookUp(call: int, found: int)
    | InsertRows(call: int)

  predicate ExpectationMet(expected: Option<int>, revision: int) {
    expected.None? || expected.value == revision
  }

  function BeganTransition(db: Db, id: int, next: Status, expected: Option<int>): Call {
    if id !in db.tasks then Finished(false)
    else
      var seen := db.tasks[id];
      if next !in Allowed(seen.status) || !ExpectationMet(expected, seen.revision) then Finished(false)
      else if next == Running && seen.approval == Pending then Finished(false)
      else Transition(id, seen, next, None, next != Running)
  }

  /** Relational rows win; without any, the list in the task row is used. */
  function DependenciesRead(db: Db, id: int, seen: Task): seq<int> {
    if RowsAt(db, id) != [] then RowsAt(db, id) else seen.declared
  }

  predicate IsDone(db: Db, session: int, dependency: int) {
    dependency in db.tasks && db.tasks[dependency].session == session && db.tasks[dependency].status == Completed
  }

  predicate AllDone(db: Db, session: int, dependencies: seq<int>) {
    forall d :: d in dependencies ==> IsDone(db, session, d)
  }

  function Moved(seen: Task, next: Status): Task {
    seen.(status := next, revision := seen.revision + 1)
  }

  predicate RevisionMatches(db: Db, id: int, seen: Task) {
    id in db.tasks && db.tasks[id].revision == seen.revision && seen.revision < MAX_REVISION
  }

  function Write(db: Db, id: int, task: Task): Db {
    db.(tasks := db.tasks[id := task])
  }

  function BeganApprove(db: Db, id: int, reviewer: int, expected: Option<int>): Call {
    if id !in db.tasks then Finished(false)
    else
      var seen := db.tasks[id];
      if seen.creator == reviewer || !NeedsApproval(seen.risk) || seen.approval != Pending || !ExpectationMet(expected, seen.revision)
      then Finished(false)
      else Approve(id, seen, reviewer)
  }

  /** The update repeats the approval test on the row itself. */
  function CommittedApprove(db: Db, id: int, seen: Task): Db {
    if RevisionMatches(db, id, seen) && db.tasks[id].approval == Pending
    then Write(db, id, db.tasks[id].(approval := Approved, status := Queued, revision := seen.revision + 1))
    else db
  }

  function CommittedTransition(db: Db, id: int, seen: Task, next: Status): Db {
    if RevisionMatches(db, id, seen) then Write(db, id, db.tasks[id].(status := next, revision := seen.revision + 1)) else db
  }

  /** The row to be inserted; its creation time is set by the insert. */
  function NewTask(session: int, title: string, risk: Risk, creator: int, dependencies: seq<int>): Task {
    Task(session, title, 0, if NeedsApproval(risk) then Blocked else Queued,
         if NeedsApproval(risk) then Pending else Approved, risk, 0, creator, dependencies)
  }

  function BeganCreate(db: Db, session: int, title: string, risk: Risk, creator: int, dependencies: seq<int>): Call {
    var wanted := Distinct(dependencies);
    if !TitleFits(title) || exists d :: d in dependencies && d < 1 then Finished(false)
    else if exists d :: d in wanted && (d !in db.tasks || db.tasks[d].session != session) then Finished(false)
    else Check(NewTask(session, title, risk, creator, wanted))
  }

  function RowOf(t: Task): TaskRow {
    TaskRow(t.session, t.title, t.createdAt)
  }

  /** The columns that the look-up by title compares. */
  function LookedUp(db: Db): map<int, TaskRow> {
    map id | id in db.tasks :: RowOf(db.tasks[id])
  }

  function RowsAt(db: Db, id: int): seq<int> {
    TargetsOf(db.rows, id)
  }

  /** The unique index over pairs refuses the whole insert if one pair is stored already. */
  predicate RowsFit(db: Db, id: int, dependencies: seq<int>) {
    forall d :: d in dependencies ==> Dependency(id, d) !in db.rows
  }

  function InsertedRows(db: Db, id: int, dependencies: seq<int>): Db {
    if RowsFit(db, id, dependencies) then db.(rows := db.rows + RowsFrom(id, dependencies)) else db
  }

  function Progress(s: State, call: int, c: Call): State {
    s.(calls := s.calls[call := c])
  }

  ghost function Step(s: State, e: Event): State {
    match e
    case BeginTransition(call, id, next, expected) =>
      if call in s.calls then s else Progress(s, call, BeganTransition(s.db, id, next, expected))
    case BeginApprove(call, id, reviewer, expected) =>
      if call in s.calls then s else Progress(s, call, BeganApprove(s.db, id, reviewer, expected))
    case BeginCreate(call, session, title, risk, creator, dependencies) =>
      if call in s.calls then s else Progress(s, call, BeganCreate(s.db, session, title, risk, creator, dependencies))
    case _ =>
      if e.call in s.calls then Advance(s, e, s.calls[e.call]) else s
  }

  ghost function Advance(s: State, e: Event, c: Call): State {
    match (e, c)
    case (ReadDependencies(call), Transition(id, seen, next, None, false)) =>
      Progress(s, call, c.(dependencies := Some(DependenciesRead(s.db, id, seen))))
    case (ReadStatuses(call), Transition(id, seen, next, Some(dependencies), false)) =>
      Progress(s, call, if AllDone(s.db, seen.session, dependencies) then c.(cleared := true) else Finished(false))
    case (CommitTransition(call), Transition(id, seen, next, _, true)) =>
      Progress(s.(db := CommittedTransition(s.db, id, seen, next)), call, Finished(RevisionMatches(s.db, id, seen)))
    case (CommitApprove(call), Approve(id, seen, _)) =>
      Progress(s.(db := CommittedApprove(s.db, id, seen)), call, Finished(seen.revision < MAX_REVISION))
    case (CheckGraph(call), Check(row)) =>
      Progress(s, call, if RowsRefused(s.db.rows) then Finished(false) else Create(row, None, None))
    case (InsertTask(call, now), Create(row, None, None)) =>
      Progress(s.(db := Db(s.db.tasks[s.db.nextId := row.(createdAt := now)], s.db.rows, s.db.nextId + 1)), call,
               Create(row, Some(s.db.nextId), None))
    case (LookUp(call, found), Create(row, Some(id), None)) =>
      if IsNewest(LookedUp(s.db), row.session, row.title, found) then Progress(s, call, Create(row, Some(id), Some(found))) else s
    case (InsertRows(call), Create(row, Some(id), Some(found))) =>
      Progress(s.(db := InsertedRows(s.db, found, row.declared)), call, Finished(RowsFit(s.db, found, row.declared)))
    case _ => s
  }

  ghost function Run(s: State, events: seq<Event>): State
    decreases |events|
  {
    if events == [] then s else Run(Step(s, events[0]), events[1..])
  }

  // ---------- What every interleaving keeps ----------

  /** The states a task can only be in after it was started. */
  predicate HasStarted(status: Status) {
    status in {Running, Paused, Failed, Retrying, Completed}
  }

  predicate RowSound(t: Task) {
    && (HasStarted(t.status) ==> t.approval != Pending)
    && (t.approval == Pending ==> NeedsApproval(t.risk))
  }

  ghost predicate DbSound(db: Db) {
    && (forall id :: id in db.tasks ==> id < db.nextId && RowSound(db.tasks[id]))
    && (forall v, u :: Dependency(v, u) in db.rows ==> v in db.tasks)
  }

  /** What a call remembers is an old or the current version of its row. */
  ghost predicate SeenBefore(db: Db, id: int, seen: Task) {
    id in db.tasks && RowGrows(seen, db.tasks[id])
  }

  ghost predicate SameTask(db: Db, id: int, row: Task) {
    id in db.tasks && db.tasks[id].declared == row.declared && db.tasks[id].session == row.session && db.tasks[id].title == row.title
  }

  ghost predicate CallSound(db: Db, c: Call) {
    match c
    case Transition(id, seen, next, _, _) =>
      SeenBefore(db, id, seen) && next in Allowed(seen.status) && (next == Running ==> seen.approval != Pending)
    case Approve(id, seen, reviewer) =>
      SeenBefore(db, id, seen) && seen.approval == Pending && NeedsApproval(seen.risk) && seen.creator != reviewer
    case Check(row) => !HasStarted(row.status) && (row.approval == Pending <==> NeedsApproval(row.risk))
    case Create(row, id, found) =>
      && !HasStarted(row.status) && (row.approval == Pending <==> NeedsApproval(row.risk))
      && (id.Some? ==> SameTask(db, id.value, row))
      && (found.Some? ==> id.Some? && found.value in db.tasks)
    case Finished(_) => true
  }

  ghost predicate Sound(s: State) {
    DbSound(s.db) && forall call :: call in s.calls ==> CallSound(s.db, s.calls[call])
  }

  /** Rows only move on to higher revisions, keep their fixed columns, and stay once completed. */
  ghost predicate Grows(db: Db, db': Db) {
    forall id :: id in db.tasks ==> id in db'.tasks && RowGrows(db.tasks[id], db'.tasks[id])
  }

  ghost predicate RowGrows(t: Task, t': Task) {
    && t'.session == t.session && t'.title == t.title && t'.createdAt == t.createdAt
    && t'.declared == t.declared && t'.risk == t.risk && t'.creator == t.creator
    && (t' == t || t'.revision > t.revision)
    && (t.status == Completed ==> t' == t)
  }

  lemma {:induction false} GrowthKeepsCall(db: Db, db': Db, c: Call)
    requires Grows(db, db') && CallSound(db, c)
    ensures CallSound(db', c)
  {
    if c.Transition? || c.Approve? {
      assert RowGrows(db.tasks[c.id], db'.tasks[c.id]);
    } else if c.Create? {
      if c.inserted.Some? {
        var id: int := c.inserted.value;
        assert id in db.tasks;
        assert id in db'.tasks && RowGrows(db.tasks[id], db'.tasks[id]);
      }
      if c.found.Some? {
        var id: int := c.found.value;
        assert id in db.tasks;
        assert id in db'.tasks && RowGrows(db.tasks[id], db'.tasks[id]);
      }
    }
  }

  lemma {:induction false} WriteIsSound(db: Db, id: int, task: Task)
    requires DbSound(db) && id in db.tasks && RowGrows(db.tasks[id], task) && RowSound(task)
    ensures Grows(db, Write(db, id, task)) && DbSound(Write(db, id, task))
  {
    assert forall other :: other in db.tasks ==> RowGrows(db.tasks[other], db.tasks[other]);
  }

  lemma {:induction false} DbStepIsSound(s: State, e: Event)
    requires Sound(s)
    ensures Grows(s.db, Step(s, e).db) && DbSound(Step(s, e).db)
  {
    assert forall id :: id in s.db.tasks ==> RowGrows(s.db.tasks[id], s.db.tasks[id]);
    if e.call in s.calls {
      assert CallSound(s.db, s.calls[e.call]);
      match (e, s.calls[e.call])
      case (CommitTransition(_), Transition(id, seen, next, _, true)) =>
        if RevisionMatches(s.db, id, seen) {
          WriteIsSound(s.db, id, s.db.tasks[id].(status := next, revision := seen.revision + 1));
        }
      case (CommitApprove(_), Approve(id, seen, reviewer)) =>
        if RevisionMatches(s.db, id, seen) {
          WriteIsSound(s.db, id, s.db.tasks[id].(approval := Approved, status := Queued, revision := seen.revision + 1));
        }
      case _ =>
    }
  }

  lemma {:induction false} OwnCallIsSound(s: State, e: Event)
    requires Sound(s) && Grows(s.db, Step(s, e).db)
    ensures e.call in Step(s, e).calls ==> CallSound(Step(s, e).db, Step(s, e).calls[e.call])
  {
    if e.call in s.calls {
      var c := s.calls[e.call];
      GrowthKeepsCall(s.db, Step(s, e).db, c);
      if c.Check? || c.Create? {
        CreationIsSound(s, e);
      }
    } else {
      BegunCallIsSound(s, e);
    }
  }

  lemma {:induction false} CreationIsSound(s: State, e: Event)
    requires Sound(s) && Grows(s.db, Step(s, e).db) && e.call in s.calls && (s.calls[e.call].Check? || s.calls[e.call].Create?)
    ensures e.call in Step(s, e).calls && CallSound(Step(s, e).db, Step(s, e).calls[e.call])
  {
    GrowthKeepsCall(s.db, Step(s, e).db, s.calls[e.call]);
  }

  lemma {:induction false} BegunCallIsSound(s: State, e: Event)
    requires Sound(s) && e.call !in s.calls
    ensures e.call in Step(s, e).calls ==> CallSound(Step(s, e).db, Step(s, e).calls[e.call])
  {
  }

  /** Every step of every call keeps the tables sound, whatever look-ups by title return. */
  lemma {:induction false} StepIsSound(s: State, e: Event)
    requires Sound(s)
    ensures Sound(Step(s, e)) && Grows(s.db, Step(s, e).db)
  {
    DbStepIsSound(s, e);
    OwnCallIsSound(s, e);
    var s' := Step(s, e);
    forall call | call in s'.calls
      ensures CallSound(s'.db, s'.calls[call])
    {
      if call != e.call {
        assert s'.calls[call] == s.calls[call];
        GrowthKeepsCall(s.db, s'.db, s.calls[call]);
      }
    }
  }

  lemma {:induction false} RunGrows(s: State, events: seq<Event>)
    requires Sound(s)
    ensures Sound(Run(s, events)) && Grows(s.db, Run(s, events).db)
    decreases |events|
  {
    if events == [] {
      assert forall id :: id in s.db.tasks ==> RowGrows(s.db.tasks[id], s.db.tasks[id]);
    } else {
      var s1 := Step(s, events[0]);
      StepIsSound(s, events[0]);
      RunGrows(s1, events[1..]);
      var s2 := Run(s, events);
      forall id | id in s.db.tasks
        ensures id in s2.db.tasks && RowGrows(s.db.tasks[id], s2.db.tasks[id])
      {
        assert id in s1.db.tasks && RowGrows(s.db.tasks[id], s1.db.tasks[id]);
        assert id in s2.db.tasks && RowGrows(s1.db.tasks[id], s2.db.tasks[id]);
      }
    }
  }

  // ---------- Dependencies of started tasks ----------

  /** The stored dependency rows of a task, if it has any, include its declared dependencies. */
  predicate Covered(db: Db, id: int)
    requires id in db.tasks
  {
    RowsAt(db, id) != [] ==> forall d :: d in db.tasks[id].declared ==> d in RowsAt(db, id)
  }

  predicate StartedIsClear(db: Db, id: int)
    requires id in db.tasks
  {
    HasStarted(db.tasks[id].status) ==> AllDone(db, db.tasks[id].session, db.tasks[id].declared)
  }

  ghost predicate CallClear(db: Db, c: Call) {
    c.Transition? ==>
      && (c.dependencies.Some? ==> forall d :: d in c.seen.declared ==> d in c.dependencies.value)
      && (c.next == Running && c.cleared ==> AllDone(db, c.seen.session, c.seen.declared))
  }

  ghost predicate Clear(s: State) {
    && (forall id :: id in s.db.tasks ==> StartedIsClear(s.db, id) && Covered(s.db, id))
    && (forall call :: call in s.calls ==> CallClear(s.db, s.calls[call]))
  }

  /** The condition on creations: dependency rows are not attached to a task some of whose declared
      dependencies are missing from them. */
  predicate KeepsCovered(s: State, e: Event) {
    e.InsertRows? && e.call in s.calls && s.calls[e.call].Create? && s.calls[e.call].found.Some? ==>
      var c := s.calls[e.call];
      c.found.value in s.db.tasks ==> Covered(InsertedRows(s.db, c.found.value, c.row.declared), c.found.value)
  }

  lemma {:induction false} GrowthKeepsDone(db: Db, db': Db, session: int, dependencies: seq<int>)
    requires Grows(db, db') && AllDone(db, session, dependencies)
    ensures AllDone(db', session, dependencies)
  {
    forall d | d in dependencies
      ensures IsDone(db', session, d)
    {
      assert IsDone(db, session, d);
      assert RowGrows(db.tasks[d], db'.tasks[d]);
    }
  }

  /** A row that was started, or is being started, has its dependencies done. */
  lemma {:induction false} StepStartsClear(s: State, e: Event, id: int)
    requires Sound(s) && Clear(s) && Grows(s.db, Step(s, e).db) && id in Step(s, e).db.tasks
    ensures StartedIsClear(Step(s, e).db, id)
  {
    var db' := Step(s, e).db;
    var t' := db'.tasks[id];
    if HasStarted(t'.status) {
      if id in s.db.tasks && HasStarted(s.db.tasks[id].status) {
        assert StartedIsClear(s.db, id) && RowGrows(s.db.tasks[id], t');
        GrowthKeepsDone(s.db, db', t'.session, t'.declared);
      } else {
        var c := s.calls[e.call];
        assert CallSound(s.db, c) && CallClear(s.db, c);
        if c.Transition? {
          assert RowGrows(c.seen, s.db.tasks[c.id]);
          GrowthKeepsDone(s.db, db', c.seen.session, c.seen.declared);
        }
      }
    }
  }

  lemma {:induction false} StepKeepsCovered(s: State, e: Event, id: int)
    requires Sound(s) && Clear(s) && KeepsCovered(s, e) && id in Step(s, e).db.tasks
    ensures Covered(Step(s, e).db, id)
  {
    if id in s.db.tasks {
      assert Covered(s.db, id);
      StepIsSound(s, e);
      assert RowGrows(s.db.tasks[id], Step(s, e).db.tasks[id]);
    }
  }

  lemma {:induction false} StepKeepsCallClear(s: State, e: Event, call: int)
    requires Sound(s) && Clear(s) && Grows(s.db, Step(s, e).db) && call in Step(s, e).calls
    ensures CallClear(Step(s, e).db, Step(s, e).calls[call])
  {
    var db', c' := Step(s, e).db, Step(s, e).calls[call];
    if call in s.calls && c'.Transition? {
      var c := s.calls[call];
      assert CallSound(s.db, c) && CallClear(s.db, c);
      if c.Transition? && c.next == Running {
        assert c.id in s.db.tasks && Covered(s.db, c.id) && RowGrows(c.seen, s.db.tasks[c.id]);
        if c'.cleared {
          assert AllDone(s.db, c.seen.session, c.seen.declared);
          GrowthKeepsDone(s.db, db', c.seen.session, c.seen.declared);
        }
      }
    }
  }

  lemma {:induction false} StepIsClear(s: State, e: Event)
    requires Sound(s) && Clear(s) && KeepsCovered(s, e)
    ensures Clear(Step(s, e))
  {
    StepIsSound(s, e);
    forall id | id in Step(s, e).db.tasks
      ensures StartedIsClear(Step(s, e).db, id) && Covered(Step(s, e).db, id)
    {
      StepStartsClear(s, e, id);
      StepKeepsCovered(s, e, id);
    }
    forall call | call in Step(s, e).calls
      ensures CallClear(Step(s, e).db, Step(s, e).calls[call])
    {
      StepKeepsCallClear(s, e, call);
    }
  }

  ghost predicate CoveredRun(s: State, events: seq<Event>)
    decreases |events|
  {
    events == [] || (KeepsCovered(s, events[0]) && CoveredRun(Step(s, events[0]), events[1..]))
  }

  lemma {:induction false} ClearNeedsCovered(s: State, e: Event)
    requires Sound(s) && Clear(s) && Clear(Step(s, e))
    ensures KeepsCovered(s, e)
  {
    if e.InsertRows? && e.call in s.calls && s.calls[e.call].Create? && s.calls[e.call].found.Some? {
      var c := s.calls[e.call];
      assert CallSound(s.db, c);
      assert Covered(Step(s, e).db, c.found.value);
    }
  }

  ghost predicate AlwaysClear(s: State, events: seq<Event>)
    decreases |events|
  {
    Clear(s) && (events == [] || AlwaysClear(Step(s, events[0]), events[1..]))
  }

  /** A step keeps started tasks clear exactly when it attaches dependency rows to no wrong task. */
  lemma {:induction false} StepIsClearIff(s: State, e: Event)
    requires Sound(s) && Clear(s)
    ensures Clear(Step(s, e)) <==> KeepsCovered(s, e)
  {
    if KeepsCovered(s, e) {
      StepIsClear(s, e);
    }
    if Clear(Step(s, e)) {
      ClearNeedsCovered(s, e);
    }
  }

  // ---------- Main results ----------

  /** Before any call: no tasks. */
  ghost predicate Initial(s: State) {
    s.db.tasks == map[] && s.db.rows == [] && s.calls == map[]
  }

  /** In every interleaving in which dependency rows are attached to the right tasks, a task that was
      started and is not yet re-queued is approved and all its dependencies are completed. */
  lemma {:induction false} StartedTasksAreClear(s: State, events: seq<Event>)
    requires Initial(s) || (Sound(s) && Clear(s))
    requires CoveredRun(s, events)
    ensures Sound(Run(s, events)) && Clear(Run(s, events))
    ensures var db := Run(s, events).db;
      forall id :: id in db.tasks && db.tasks[id].status in {Running, Completed} ==>
        db.tasks[id].approval != Pending && AllDone(db, db.tasks[id].session, db.tasks[id].declared)
    decreases |events|
  {
    assert Initial(s) ==> Sound(s) && Clear(s);
    if events == [] {
      forall id | id in s.db.tasks
        ensures RowSound(s.db.tasks[id]) && StartedIsClear(s.db, id)
      {
      }
    } else {
      StepIsSound(s, events[0]);
      StepIsClear(s, events[0]);
      StartedTasksAreClear(Step(s, events[0]), events[1..]);
    }
  }

  /** An interleaving keeps tasks clear throughout if and only if all its dependency rows go to the right
      tasks. */
  lemma {:induction false} AlwaysClearIff(s: State, events: seq<Event>)
    requires Sound(s) && Clear(s)
    ensures AlwaysClear(s, events) <==> CoveredRun(s, events)
    decreases |events|
  {
    if events != [] {
      StepIsClearIff(s, events[0]);
      if Clear(Step(s, events[0])) {
        StepIsSound(s, events[0]);
        AlwaysClearIff(Step(s, events[0]), events[1..]);
      }
    }
  }

  /** A completed task never changes again, in spite of approvals, which re-queue tasks. */
  lemma {:induction false} CompletedIsAbsorbing(s: State, events: seq<Event>, id: int)
    requires Sound(s) && id in s.db.tasks && s.db.tasks[id].status == Completed
    ensures id in Run(s, events).db.tasks && Run(s, events).db.tasks[id] == s.db.tasks[id]
  {
    RunGrows(s, events);
    assert RowGrows(s.db.tasks[id], Run(s, events).db.tasks[id]);
  }

  /** The step wrote the row of an existing task. */
  ghost predicate WritesTo(s: State, e: Event, id: int) {
    id in s.db.tasks && id in Step(s, e).db.tasks && Step(s, e).db.tasks[id] != s.db.tasks[id]
  }

  ghost function Writes(s: State, events: seq<Event>, id: int): nat
    decreases |events|
  {
    if events == [] then 0
    else (if WritesTo(s, events[0], id) then 1 else 0) + Writes(Step(s, events[0]), events[1..], id)
  }

  lemma {:induction false} WriteRaisesRevisionByOne(s: State, e: Event, id: int)
    requires Sound(s) && id in s.db.tasks
    ensures id in Step(s, e).db.tasks
    ensures Step(s, e).db.tasks[id].revision == s.db.tasks[id].revision + (if WritesTo(s, e, id) then 1 else 0)
  {
    StepIsSound(s, e);
    assert RowGrows(s.db.tasks[id], Step(s, e).db.tasks[id]);
  }

  /** The revision counts the successful writes, so at most one write succeeds per revision. */
  lemma {:induction false} OneWritePerRevision(s: State, events: seq<Event>, id: int)
    requires Sound(s) && id in s.db.tasks
    ensures id in Run(s, events).db.tasks
    ensures Run(s, events).db.tasks[id].revision == s.db.tasks[id].revision + Writes(s, events, id)
    decreases |events|
  {
    if events != [] {
      WriteRaisesRevisionByOne(s, events[0], id);
      StepIsSound(s, events[0]);
      OneWritePerRevision(Step(s, events[0]), events[1..], id);
    }
  }

  /** A call that read an older version changes nothing when it commits. */
  lemma {:induction false} StaleCommitChangesNothing(s: State, call: int)
    requires Sound(s) && call in s.calls
    requires (s.calls[call].Transition? || s.calls[call].Approve?)
      && s.db.tasks[s.calls[call].id].revision != s.calls[call].seen.revision
    ensures Step(s, CommitTransition(call)).db == s.db && Step(s, CommitApprove(call)).db == s.db
  {
  }

  /** The transition table read backwards: where each status can be entered from. */
  predicate MayMove(from: Status, to: Status) {
    match to
    case Queued => from in {Blocked, Paused, Retrying}
    case Running => from in {Queued, Retrying}
    case Blocked => from == Queued
    case Paused => from == Running
    case Failed => from in {Running, Retrying}
    case Retrying => from in {Running, Failed}
    case Completed => from == Running
    case Cancelled => from !in {Completed, Cancelled}
  }

  lemma {:induction false} AllowedIff(from: Status, to: Status)
    ensures to in Allowed(from) <==> MayMove(from, to)
  {
    match from
    case Queued =>
    case Running =>
    case Blocked =>
    case Paused =>
    case Failed =>
    case Retrying =>
    case Completed =>
    case Cancelled =>
  }

  /** Every change of a row follows the transition table, or is an approval by somebody other than
      the creator of a pending high-risk task. */
  lemma {:induction false} WritesFollowTheRules(s: State, e: Event, id: int)
    requires Sound(s) && WritesTo(s, e, id)
    ensures var t, t' := s.db.tasks[id], Step(s, e).db.tasks[id];
      || (t'.approval == t.approval && MayMove(t.status, t'.status))
      || (t.approval == Pending && t'.approval == Approved && t'.status == Queued && t.risk in {High, Critical}
          && e.CommitApprove? && e.call in s.calls && s.calls[e.call].Approve? && s.calls[e.call].reviewer != t.creator)
  {
    AllowedIff(s.db.tasks[id].status, Step(s, e).db.tasks[id].status);
    assert CallSound(s.db, s.calls[e.call]);
  }

  /** Cancelled is left only by approving a task that is still pending. */
  lemma {:induction false} CancelledLeavesOnlyByApproval(s: State, e: Event, id: int)
    requires Sound(s) && id in s.db.tasks && s.db.tasks[id].status == Cancelled && WritesTo(s, e, id)
    ensures s.db.tasks[id].approval == Pending && Step(s, e).db.tasks[id].status == Queued && e.CommitApprove?
  {
    WritesFollowTheRules(s, e, id);
  }

  /** So a cancelled task that is not pending never changes again. */
  lemma {:induction false} CancelledIsAbsorbingUnlessPending(s: State, events: seq<Event>, id: int)
    requires Sound(s) && id in s.db.tasks && s.db.tasks[id].status == Cancelled && s.db.tasks[id].approval != Pending
    ensures id in Run(s, events).db.tasks && Run(s, events).db.tasks[id] == s.db.tasks[id]
    decreases |events|
  {
    if events != [] {
      StepIsSound(s, events[0]);
      if WritesTo(s, events[0], id) {
        CancelledLeavesOnlyByApproval(s, events[0], id);
      }
      CancelledIsAbsorbingUnlessPending(Step(s, events[0]), events[1..], id);
    }
  }

  /** And that does happen: cancelling a pending task and then approving it queues it again. */
  lemma {:induction false} ApprovalRevivesCancelledTask(db: Db, id: int, reviewer: int)
    requires id in db.tasks && db.tasks[id].status == Cancelled && db.tasks[id].approval == Pending
    requires db.tasks[id].risk in {High, Critical} && db.tasks[id].creator != reviewer && db.tasks[id].revision < MAX_REVISION
    ensures var s := Step(Step(State(db, map[]), BeginApprove(0, id, reviewer, None)), CommitApprove(0));
      id in s.db.tasks && s.db.tasks[id].status == Queued && s.db.tasks[id].approval == Approved
  {
    var s1 := Step(State(db, map[]), BeginApprove(0, id, reviewer, None));
    assert s1.calls[0] == Approve(id, db.tasks[id], reviewer);
  }

  /** The step is a successful approval by somebody other than the creator. */
  ghost predicate ApprovedBy(s: State, e: Event, id: int) {
    && WritesTo(s, e, id) && e.CommitApprove? && e.call in s.calls
    && s.calls[e.call].Approve? && s.calls[e.call].reviewer != s.db.tasks[id].creator
  }

  ghost predicate ApprovedDuring(s: State, events: seq<Event>, id: int)
    decreases |events|
  {
    events != [] && (ApprovedBy(s, events[0], id) || ApprovedDuring(Step(s, events[0]), events[1..], id))
  }

  lemma {:induction false} NewTaskIsPending(s: State, e: Event, id: int)
    requires Sound(s) && id !in s.db.tasks && id in Step(s, e).db.tasks && Step(s, e).db.tasks[id].risk in {High, Critical}
    ensures Step(s, e).db.tasks[id].approval == Pending
  {
    assert CallSound(s.db, s.calls[e.call]);
  }

  /** No high-risk task is started without a human: in every run, a high-risk task that was pending or
      not yet created at its beginning and has been started at its end was approved on the way, by
      somebody other than its creator. */
  lemma {:induction false} HighRiskTasksAreApproved(s: State, events: seq<Event>, id: int)
    requires Sound(s) && (id in s.db.tasks ==> s.db.tasks[id].approval == Pending)
    requires id in Run(s, events).db.tasks
    requires var t := Run(s, events).db.tasks[id];
      t.risk in {High, Critical} && (t.status in {Running, Paused, Failed, Retrying, Completed} || t.approval != Pending)
    ensures ApprovedDuring(s, events, id)
    decreases |events|
  {
    if id in s.db.tasks {
      assert RowSound(s.db.tasks[id]);
    }
    if events != [] {
      var s1 := Step(s, events[0]);
      StepIsSound(s, events[0]);
      RunGrows(s1, events[1..]);
      if id in s1.db.tasks {
        assert RowGrows(s1.db.tasks[id], Run(s1, events[1..]).db.tasks[id]);
      }
      if id in s1.db.tasks && s1.db.tasks[id].approval != Pending {
        if id in s.db.tasks {
          WritesFollowTheRules(s, events[0], id);
        } else {
          NewTaskIsPending(s, events[0], id);
        }
      } else {
        HighRiskTasksAreApproved(s1, events[1..], id);
      }
    }
  }

  /** A transition reports success exactly when it wrote. An approval reports success
      also when the row had moved on and nothing was written. */
  lemma {:induction false} ReportedSuccess(s: State, call: int)
    requires Sound(s) && call in s.calls
    ensures s.calls[call].Transition? && s.calls[call].cleared ==>
      var s' := Step(s, CommitTransition(call));
      s'.calls[call] == Finished(WritesTo(s, CommitTransition(call), s.calls[call].id))
    ensures s.calls[call].Approve? ==>
      var s' := Step(s, CommitApprove(call));
      && s'.calls[call] == Finished(s.calls[call].seen.revision < MAX_REVISION)
      && (WritesTo(s, CommitApprove(call), s.calls[call].id)
          <==> s.db.tasks[s.calls[call].id].revision == s.calls[call].seen.revision < MAX_REVISION)
  {
    assert CallSound(s.db, s.calls[call]);
  }

  // ---------- One caller at a time ----------

  /** A whole transition without interference. */
  function AfterTransition(db: Db, id: int, next: Status, expected: Option<int>): (Db, bool) {
    var c := BeganTransition(db, id, next, expected);
    if c.Finished? then (db, false)
    else if next == Running && !AllDone(db, c.seen.session, DependenciesRead(db, id, c.seen)) then (db, false)
    else (CommittedTransition(db, id, c.seen, next), c.seen.revision < MAX_REVISION)
  }

  function AfterApprove(db: Db, id: int, reviewer: int, expected: Option<int>): (Db, bool) {
    var c := BeganApprove(db, id, reviewer, expected);
    if c.Finished? then (db, false) else (CommittedApprove(db, id, c.seen), c.seen.revision < MAX_REVISION)
  }

  /** The dependencies that count for a task: its stored rows, and its declared list if it has none. */
  predicate CountsFor(db: Db, id: int, dependency: int)
    requires id in db.tasks
  {
    if exists row :: row in db.rows && row.taskId == id then Dependency(id, dependency) in db.rows else dependency in db.tasks[id].declared
  }

  lemma {:induction false} ReadIff(db: Db, id: int, dependency: int)
    requires id in db.tasks
    ensures dependency in DependenciesRead(db, id, db.tasks[id]) <==> CountsFor(db, id, dependency)
  {
    if row :| row in db.rows && row.taskId == id {
      assert row == Dependency(id, row.dependsOn);
    }
    if RowsAt(db, id) != [] {
      assert Dependency(id, RowsAt(db, id)[0]) in db.rows by {
        assert RowsAt(db, id)[0] in RowsAt(db, id);
      }
    }
  }

  /** A transition succeeds exactly if the table allows it, the revision is the expected one and below the
      limit, and, for a start, the task is not pending and all its dependencies are completed tasks of its
      session. Then it sets the status and counts the revision up; otherwise nothing changes. */
  lemma {:induction false} TransitionAnswers(db: Db, id: int, next: Status, expected: Option<int>)
    ensures var (db', ok) := AfterTransition(db, id, next, expected);
      && (ok <==>
            && id in db.tasks && MayMove(db.tasks[id].status, next)
            && expected in {None, Some(db.tasks[id].revision as int)} && db.tasks[id].revision < 2_147_483_647
            && (next == Running ==>
                  && db.tasks[id].approval != Pending
                  && forall d :: CountsFor(db, id, d) ==> IsCompletedIn(db, db.tasks[id].session, d)))
      && (ok ==> db' == db.(tasks := db.tasks[id := db.tasks[id].(status := next, revision := db.tasks[id].revision + 1)]))
      && (!ok ==> db' == db)
  {
    if id in db.tasks {
      AllowedIff(db.tasks[id].status, next);
      forall d {
        ReadIff(db, id, d);
      }
      assert forall d :: IsCompletedIn(db, db.tasks[id].session, d) <==> IsDone(db, db.tasks[id].session, d);
    }
  }

  predicate IsCompletedIn(db: Db, session: int, id: int) {
    id in db.tasks && db.tasks[id].session == session && db.tasks[id].status == Completed
  }

  /** An approval succeeds exactly for a pending task of high or critical risk, by somebody other than its
      creator, with the expected revision below the limit. Then the task is approved and queued. */
  lemma {:induction false} ApprovalAnswers(db: Db, id: int, reviewer: int, expected: Option<int>)
    ensures var (db', ok) := AfterApprove(db, id, reviewer, expected);
      && (ok <==>
            && id in db.tasks && db.tasks[id].creator != reviewer && db.tasks[id].risk in {High, Critical}
            && db.tasks[id].approval == Pending
            && expected in {None, Some(db.tasks[id].revision as int)} && db.tasks[id].revision < 2_147_483_647)
      && (ok ==> db' == db.(tasks := db.tasks[id := db.tasks[id].(approval := Approved, status := Queued, revision := db.tasks[id].revision + 1)]))
      && (!ok ==> db' == db)
  {
  }

  /** A creation goes on to the graph check exactly with a fitting title and dependencies that are positive
      ids of tasks of the session; a task of high or critical risk will be blocked until it is approved. */
  lemma {:induction false} CreationAnswers(db: Db, session: int, title: string, risk: Risk, creator: int, dependencies: seq<int>)
    ensures var c := BeganCreate(db, session, title, risk, creator, dependencies);
      if 3 <= |title| <= 240 && forall d :: d in dependencies ==> d >= 1 && d in db.tasks && db.tasks[d].session == session then
        && c.Check?
        && c.row == Task(session, title, 0, if risk in {High, Critical} then Blocked else Queued,
                         if risk in {High, Critical} then Pending else Approved, risk, 0, creator, c.row.declared)
        && (forall d :: d in c.row.declared <==> d in dependencies)
        && forall i, j :: 0 <= i < j < |c.row.declared| ==> c.row.declared[i] != c.row.declared[j]
      else c == Finished(false)
  {
    SameElements(dependencies);
    DistinctElements(dependencies);
  }

  lemma {:induction false} RunCons(s: State, e: Event, rest: seq<Event>)
    ensures Run(s, [e] + rest) == Run(Step(s, e), rest)
  {
    assert ([e] + rest)[1..] == rest;
  }

  /** The sequential reading of a transition is one of the interleavings. */
  lemma {:induction false} TransitionIsOneInterleaving(db: Db, id: int, next: Status, expected: Option<int>)
    ensures var events := [BeginTransition(0, id, next, expected)] + ([ReadDependencies(0)] + ([ReadStatuses(0)] + ([CommitTransition(0)] + [])));
      var (db', ok) := AfterTransition(db, id, next, expected);
      Run(State(db, map[]), events) == State(db', map[0 := Finished(ok)])
  {
    var s := State(db, map[]);
    var s1 := Step(s, BeginTransition(0, id, next, expected));
    var s2 := Step(s1, ReadDependencies(0));
    var s3 := Step(s2, ReadStatuses(0));
    RunCons(s, BeginTransition(0, id, next, expected), [ReadDependencies(0)] + ([ReadStatuses(0)] + ([CommitTransition(0)] + [])));
    RunCons(s1, ReadDependencies(0), [ReadStatuses(0)] + ([CommitTransition(0)] + []));
    RunCons(s2, ReadStatuses(0), [CommitTransition(0)] + []);
    RunCons(s3, CommitTransition(0), []);
  }

  /** And so is that of an approval. */
  lemma {:induction false} ApprovalIsOneInterleaving(db: Db, id: int, reviewer: int, expected: Option<int>)
    ensures var (db', ok) := AfterApprove(db, id, reviewer, expected);
      Step(Step(State(db, map[]), BeginApprove(0, id, reviewer, expected)), CommitApprove(0)) == State(db', map[0 := Finished(ok)])
  {
  }

  class TaskTable {
    var tasks: map<int, Task>
    var rows: seq<Dependency>
    var nextId: int

    function Contents(): Db
      reads this
    {
      Db(tasks, rows, nextId)
    }

    method TransitionResearchTask(id: int, next: Status, expected: Option<int>) returns (ok: bool)
      modifies this
      ensures (Contents(), ok) == AfterTransition(old(Contents()), id, next, expected)
    {
      if id !in tasks {
        return false;
      }
      var task := tasks[id];
      if next !in Allowed(task.status) || !ExpectationMet(expected, task.revision) {
        return false;
      }
      if next == Running {
        if task.approval == Pending {
          return false;
        }
        var stored := TargetsOf(rows, id);
        var dependencies := if stored != [] then stored else task.declared;
        if !AllDone(Contents(), task.session, dependencies) {
          return false;
        }
      }
      if task.revision >= MAX_REVISION {
        return false;
      }
      tasks := tasks[id := Moved(task, next)];
      return true;
    }

    method ApproveResearchTask(id: int, reviewer: int, expected: Option<int>) returns (ok: bool)
      modifies this
      ensures (Contents(), ok) == AfterApprove(old(Contents()), id, reviewer, expected)
    {
      if id !in tasks {
        return false;
      }
      var task := tasks[id];
      if task.creator == reviewer || !NeedsApproval(task.risk) || task.approval != Pending || !ExpectationMet(expected, task.revision) {
        return false;
      }
      if task.revision >= MAX_REVISION {
        return false;
      }
      tasks := tasks[id := Moved(task, Queued).(approval := Approved)];
      return true;
    }
  }
}
