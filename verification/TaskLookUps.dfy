/** Creating a task looks the new row up again by session and title. When that finds the right task, and
    what happens when it does not. */
module TaskLookUps {
  import opened Collections
  import opened DependencyCheck
  import opened ResearchTasks
  import opened TaskRows
  import Growth = TaskGraphGrowth

  // ---------- Which look-ups find the right task ----------

  /** Every other task of the session with the same title is older. */
  predicate IsNewlyTitled(db: Db, id: int)
    requires id in db.tasks
  {
    forall other :: other in db.tasks && other != id && SameTitle(RowOf(db.tasks[other]), RowOf(db.tasks[id])) ==>
      db.tasks[other].createdAt < db.tasks[id].createdAt
  }

  /** The look-up is certain to return the inserted task if and only if every other task of the session
      with its title is older. */
  lemma {:induction false} LookUpFindsOwnIff(db: Db, id: int)
    requires id in db.tasks
    ensures (forall found :: IsNewest(LookedUp(db), db.tasks[id].session, db.tasks[id].title, found) ==> found == id) <==> IsNewlyTitled(db, id)
  {
    var tasks := LookedUp(db);
    OnlyNewestIff(tasks, id);
    assert forall k :: k in db.tasks ==> tasks[k] == RowOf(db.tasks[k]);
    assert IsAlone(tasks, id) <==> IsNewlyTitled(db, id);
  }

  /** What a creation can check, or a lock can enforce, when it inserts: every task of the session with
      the title is older, and no other creation with them is between its insert and its look-up. */
  predicate ClashFree(s: State, e: Event) {
    e.InsertTask? && e.call in s.calls && s.calls[e.call].Create? ==>
      var row := s.calls[e.call].row;
      && (forall id :: id in s.db.tasks && SameTitle(RowOf(s.db.tasks[id]), RowOf(row)) ==> s.db.tasks[id].createdAt < e.now)
      && (forall other :: other in s.calls && IsWaiting(s.calls[other]) ==> !SameTitle(RowOf(s.calls[other].row), RowOf(row)))
  }

  predicate IsWaiting(c: Call) {
    c.Create? && c.inserted.Some? && c.found.None?
  }

  ghost predicate ClashFreeRun(s: State, events: seq<Event>)
    decreases |events|
  {
    events == [] || (ClashFree(s, events[0]) && ClashFreeRun(Step(s, events[0]), events[1..]))
  }

  ghost predicate CallFindsOwn(db: Db, c: Call) {
    c.Create? && c.inserted.Some? && c.inserted.value in db.tasks ==>
      if c.found.Some? then c.found == c.inserted else IsNewlyTitled(db, c.inserted.value)
  }

  ghost predicate FindsOwn(s: State) {
    forall call :: call in s.calls ==> CallFindsOwn(s.db, s.calls[call])
  }

  lemma {:induction false} OwnRowsCover(s: State, e: Event)
    requires Sound(s) && Clear(s) && FindsOwn(s)
    ensures KeepsCovered(s, e)
  {
    if e.InsertRows? && e.call in s.calls && s.calls[e.call].Create? && s.calls[e.call].found.Some? {
      var c := s.calls[e.call];
      assert CallSound(s.db, c) && CallFindsOwn(s.db, c);
      assert Covered(s.db, c.found.value);
    }
  }

  /** A step that inserts no task keeps a task alone. */
  lemma {:induction false} AloneStays(db: Db, db': Db, id: int)
    requires Grows(db, db') && db'.tasks.Keys == db.tasks.Keys && id in db.tasks && IsNewlyTitled(db, id)
    ensures IsNewlyTitled(db', id)
  {
    forall other | other in db'.tasks && other != id && SameTitle(RowOf(db'.tasks[other]), RowOf(db'.tasks[id]))
      ensures db'.tasks[other].createdAt < db'.tasks[id].createdAt
    {
      assert RowGrows(db.tasks[other], db'.tasks[other]) && RowGrows(db.tasks[id], db'.tasks[id]);
      assert SameTitle(RowOf(db.tasks[other]), RowOf(db.tasks[id]));
    }
  }

  lemma {:induction false} InsertFindsOwn(s: State, e: Event, call: int)
    requires Sound(s) && FindsOwn(s) && ClashFree(s, e) && e.InsertTask? && e.call in s.calls
    requires s.calls[e.call].Create? && s.calls[e.call].inserted.None? && s.calls[e.call].found.None?
    requires call in s.calls
    ensures call in Step(s, e).calls && CallFindsOwn(Step(s, e).db, Step(s, e).calls[call])
  {
    var row := s.calls[e.call].row;
    if call != e.call {
      assert CallSound(s.db, s.calls[call]) && CallFindsOwn(s.db, s.calls[call]);
    }
  }

  lemma {:induction false} OwnStepFindsOwn(s: State, e: Event)
    requires Sound(s) && FindsOwn(s) && Step(s, e).db.tasks.Keys == s.db.tasks.Keys && Grows(s.db, Step(s, e).db)
    requires e.call in s.calls
    ensures CallFindsOwn(Step(s, e).db, Step(s, e).calls[e.call])
  {
    var c := s.calls[e.call];
    assert CallSound(s.db, c) && CallFindsOwn(s.db, c);
    if IsWaiting(c) {
      WaitingStepFindsOwn(s, e);
    }
  }

  lemma {:induction false} WaitingStepFindsOwn(s: State, e: Event)
    requires Step(s, e).db.tasks.Keys == s.db.tasks.Keys && Grows(s.db, Step(s, e).db)
    requires e.call in s.calls && IsWaiting(s.calls[e.call]) && CallSound(s.db, s.calls[e.call]) && CallFindsOwn(s.db, s.calls[e.call])
    ensures CallFindsOwn(Step(s, e).db, Step(s, e).calls[e.call])
  {
    var c := s.calls[e.call];
    LookUpFindsOwnIff(s.db, c.inserted.value);
    AloneStays(s.db, Step(s, e).db, c.inserted.value);
  }

  lemma {:induction false} OtherCallFindsOwn(s: State, s': State, call: int)
    requires Sound(s) && FindsOwn(s) && s'.db.tasks.Keys == s.db.tasks.Keys && Grows(s.db, s'.db)
    requires call in s.calls && call in s'.calls && s'.calls[call] == s.calls[call]
    ensures CallFindsOwn(s'.db, s'.calls[call])
  {
    var c := s.calls[call];
    assert CallSound(s.db, c) && CallFindsOwn(s.db, c);
    if IsWaiting(c) {
      AloneStays(s.db, s'.db, c.inserted.value);
    }
  }

  lemma {:induction false} OtherStepFindsOwn(s: State, e: Event, call: int)
    requires Sound(s) && FindsOwn(s) && Step(s, e).db.tasks.Keys == s.db.tasks.Keys
    requires call in Step(s, e).calls
    ensures CallFindsOwn(Step(s, e).db, Step(s, e).calls[call])
  {
    StepIsSound(s, e);
    if call in s.calls {
      if call == e.call {
        OwnStepFindsOwn(s, e);
      } else {
        OtherCallFindsOwn(s, Step(s, e), call);
      }
    }
  }

  lemma {:induction false} StepFindsOwn(s: State, e: Event)
    requires Sound(s) && FindsOwn(s) && ClashFree(s, e)
    ensures FindsOwn(Step(s, e))
  {
    forall call | call in Step(s, e).calls
      ensures CallFindsOwn(Step(s, e).db, Step(s, e).calls[call])
    {
      if e.InsertTask? && e.call in s.calls && s.calls[e.call].Create? && s.calls[e.call].inserted.None? && s.calls[e.call].found.None? {
        InsertFindsOwn(s, e, call);
      } else {
        OtherStepFindsOwn(s, e, call);
      }
    }
  }

  /** So without clashes every look-up finds the right task, and started tasks are clear. */
  lemma {:induction false} ClashFreeRunsAreClear(s: State, events: seq<Event>)
    requires Initial(s) || (Sound(s) && Clear(s) && FindsOwn(s))
    requires ClashFreeRun(s, events)
    ensures CoveredRun(s, events) && Clear(Run(s, events)) && FindsOwn(Run(s, events))
    decreases |events|
  {
    assert Initial(s) ==> Sound(s) && Clear(s) && FindsOwn(s);
    if events != [] {
      OwnRowsCover(s, events[0]);
      StepIsSound(s, events[0]);
      StepIsClear(s, events[0]);
      StepFindsOwn(s, events[0]);
      ClashFreeRunsAreClear(Step(s, events[0]), events[1..]);
    }
  }

  // ---------- The graph stays acyclic in every such interleaving ----------

  /** What a creation will insert points to smaller ids than its own. */
  ghost predicate CallRanked(db: Db, c: Call) {
    c.Check? || c.Create? ==>
      forall d :: d in c.row.declared ==> 1 <= d < db.nextId && (c.Create? && c.inserted.Some? ==> d < c.inserted.value)
  }

  ghost predicate AllRanked(s: State) {
    Growth.Ranked(StoreOf(s.db)) && forall call :: call in s.calls ==> CallRanked(s.db, s.calls[call])
  }

  lemma {:induction false} InsertedRowsRanked(db: Db, id: int, dependencies: seq<int>)
    requires Growth.Ranked(StoreOf(db)) && id < db.nextId && forall d :: d in dependencies ==> 1 <= d < id
    ensures Growth.Ranked(StoreOf(InsertedRows(db, id, dependencies)))
  {
  }

  lemma {:induction false} StepKeepsRows(s: State, e: Event)
    requires Sound(s) && FindsOwn(s) && AllRanked(s)
    ensures Growth.Ranked(StoreOf(Step(s, e).db))
  {
    if e.call in s.calls {
      var c := s.calls[e.call];
      assert CallSound(s.db, c) && CallFindsOwn(s.db, c) && CallRanked(s.db, c);
      if e.InsertRows? && c.Create? && c.inserted.Some? && c.found.Some? {
        InsertedRowsRanked(s.db, c.found.value, c.row.declared);
      } else {
        StepIsSound(s, e);
        OtherStepKeepsRows(s, e);
      }
    }
  }

  lemma {:induction false} OtherStepKeepsRows(s: State, e: Event)
    requires Growth.Ranked(StoreOf(s.db))
    requires !(e.InsertRows? && e.call in s.calls && s.calls[e.call].Create? && s.calls[e.call].inserted.Some? && s.calls[e.call].found.Some?)
    requires Sound(s)
    ensures Growth.Ranked(StoreOf(Step(s, e).db))
  {
    if e.call in s.calls {
      assert CallSound(s.db, s.calls[e.call]);
    }
    assert Step(s, e).db.rows == s.db.rows && Step(s, e).db.nextId >= s.db.nextId;
    forall id | id in Step(s, e).db.tasks
      ensures 1 <= id < Step(s, e).db.nextId
    {
      assert id in s.db.tasks ==> id in StoreOf(s.db).tasks;
    }
  }

  lemma {:induction false} BegunCallRanked(db: Db, session: int, title: string, risk: Risk, creator: int, dependencies: seq<int>)
    requires Growth.Ranked(StoreOf(db))
    ensures CallRanked(db, BeganCreate(db, session, title, risk, creator, dependencies))
  {
    SameElements(dependencies);
    assert forall id :: id in db.tasks ==> id in StoreOf(db).tasks;
  }

  lemma {:induction false} StepKeepsCallRanked(s: State, e: Event, call: int)
    requires AllRanked(s) && call in Step(s, e).calls
    ensures CallRanked(Step(s, e).db, Step(s, e).calls[call])
  {
    if call in s.calls {
      assert CallRanked(s.db, s.calls[call]);
    } else if e.BeginCreate? {
      BegunCallRanked(s.db, e.session, e.title, e.risk, e.creator, e.dependencies);
    }
  }

  lemma {:induction false} StepIsRanked(s: State, e: Event)
    requires Sound(s) && FindsOwn(s) && AllRanked(s)
    ensures AllRanked(Step(s, e))
  {
    StepKeepsRows(s, e);
    forall call | call in Step(s, e).calls
      ensures CallRanked(Step(s, e).db, Step(s, e).calls[call])
    {
      StepKeepsCallRanked(s, e, call);
    }
  }

  /** In every interleaving without clashes all dependency rows point from younger to older tasks, so the
      graph stays acyclic and no creation is refused for its sake. */
  lemma {:induction false} ClashFreeRunsStayAcyclic(s: State, events: seq<Event>)
    requires (Initial(s) && s.db.nextId >= 1) || (Sound(s) && FindsOwn(s) && AllRanked(s))
    requires ClashFreeRun(s, events)
    ensures var s' := Run(s, events);
      && AllRanked(s') && !RowsRefused(s'.db.rows)
      && forall call :: call in s'.calls && s'.calls[call].Check? ==> Step(s', CheckGraph(call)).calls[call].Create?
    decreases |events|
  {
    assert Initial(s) ==> Sound(s) && FindsOwn(s) && Growth.Ranked(StoreOf(s.db));
    if events == [] {
      Growth.RankedIsAccepted(StoreOf(s.db));
    } else {
      StepIsSound(s, events[0]);
      StepFindsOwn(s, events[0]);
      StepIsRanked(s, events[0]);
      ClashFreeRunsStayAcyclic(Step(s, events[0]), events[1..]);
    }
  }

  // ---------- When a look-up finds another task ----------

  /** The four steps of a transition to running, without interference. */
  ghost function Started(s: State, call: int, id: int): State {
    Step(Step(Step(Step(s, BeginTransition(call, id, Running, None)), ReadDependencies(call)), ReadStatuses(call)), CommitTransition(call))
  }

  /** They start a task although one of its declared dependencies is open if and only if the task may
      start, and dependency rows that are all completed hide the open one. */
  lemma {:induction false} TaskStartsEarlyIff(s: State, call: int, id: int)
    requires call !in s.calls && id in s.db.tasks && Running in Allowed(s.db.tasks[id].status)
    ensures var t := s.db.tasks[id];
      var s' := Started(s, call, id);
      id in s'.db.tasks && s'.db.tasks[id].status == Running && !AllDone(s.db, t.session, t.declared)
      <==> && t.approval != Pending && t.revision < MAX_REVISION
           && RowsAt(s.db, id) != [] && AllDone(s.db, t.session, RowsAt(s.db, id)) && !AllDone(s.db, t.session, t.declared)
  {
    var t := s.db.tasks[id];
    var s1 := Step(s, BeginTransition(call, id, Running, None));
    if t.approval != Pending {
      assert s1.calls[call] == Transition(id, t, Running, None, false);
      var s2 := Step(s1, ReadDependencies(call));
      var s3 := Step(s2, ReadStatuses(call));
      assert s3.db == s.db;
    }
  }

  function NewRow(session: int, title: string, createdAt: int, creator: int, dependency: int): Task {
    NewTask(session, title, Low, creator, [dependency]).(createdAt := createdAt)
  }

  function ClashChecks(session: int, title: string, creator: int, x: int, y: int): seq<Event> {
    [BeginCreate(0, session, title, Low, creator, [x]), CheckGraph(0), BeginCreate(1, session, title, Low, creator, [y]), CheckGraph(1)]
  }

  function ClashWrites(now: int, later: int, found: int): seq<Event> {
    [InsertTask(0, now), InsertTask(1, later), LookUp(0, found), InsertRows(0)]
  }

  /** Two creations of one session and title: the second inserts before the first looks up, and the
      first attaches its rows to the task `found`. */
  function ClashEvents(session: int, title: string, creator: int, x: int, y: int, now: int, later: int, found: int): seq<Event> {
    ClashChecks(session, title, creator, x, y) + ClashWrites(now, later, found)
  }

  function Clashed(db: Db, session: int, title: string, creator: int, x: int, y: int, now: int, later: int): State {
    var a, b := db.nextId, db.nextId + 1;
    State(Db(db.tasks[a := NewRow(session, title, now, creator, x)][b := NewRow(session, title, later, creator, y)],
             db.rows + [Dependency(b, x)], b + 1),
          map[0 := Finished(true), 1 := Create(NewRow(session, title, 0, creator, y), Some(b), None)])
  }

  lemma {:induction false} RunFrom(s: State, events: seq<Event>, i: nat)
    requires i < |events|
    ensures Run(s, events[i..]) == Run(Step(s, events[i]), events[i + 1..])
  {
    assert events[i..][1..] == events[i + 1..];
  }

  /** A table that accepts both creations, with a title that the session does not have yet. */
  ghost predicate ClashSetting(db: Db, session: int, title: string, x: int, y: int) {
    && (forall id :: id in db.tasks ==> 1 <= id < db.nextId)
    && (forall v, u :: Dependency(v, u) in db.rows ==> v in db.tasks)
    && TitleFits(title) && !RowsRefused(db.rows)
    && x in db.tasks && db.tasks[x].session == session && y in db.tasks && db.tasks[y].session == session
    && (forall id :: id in db.tasks && db.tasks[id].session == session ==> db.tasks[id].title != title)
  }

  /** The first two steps of a creation that is not refused. */
  lemma {:induction false} CreationBegins(s: State, call: int, session: int, title: string, risk: Risk, creator: int, dependencies: seq<int>)
    requires call !in s.calls && TitleFits(title) && !RowsRefused(s.db.rows)
    requires forall d :: d in dependencies ==> 1 <= d && d in s.db.tasks && s.db.tasks[d].session == session
    ensures Step(Step(s, BeginCreate(call, session, title, risk, creator, dependencies)), CheckGraph(call))
      == State(s.db, s.calls[call := Create(NewTask(session, title, risk, creator, Distinct(dependencies)), None, None)])
  {
    SameElements(dependencies);
    var row := NewTask(session, title, risk, creator, Distinct(dependencies));
    var s1 := Step(s, BeginCreate(call, session, title, risk, creator, dependencies));
    assert s1 == State(s.db, s.calls[call := Check(row)]);
    assert s1.calls[call := Create(row, None, None)] == s.calls[call := Create(row, None, None)];
  }

  function BothChecked(db: Db, rowA: Task, rowB: Task): State {
    State(db, map[0 := Create(rowA, None, None), 1 := Create(rowB, None, None)])
  }

  lemma {:induction false} ClashBegins(db: Db, session: int, title: string, creator: int, x: int, y: int)
    requires ClashSetting(db, session, title, x, y)
    ensures Run(State(db, map[]), ClashChecks(session, title, creator, x, y))
      == BothChecked(db, NewRow(session, title, 0, creator, x), NewRow(session, title, 0, creator, y))
  {
    DistinctIsIdentity([x]);
    DistinctIsIdentity([y]);
    CreationBegins(State(db, map[]), 0, session, title, Low, creator, [x]);
    CreationBegins(State(db, map[0 := Create(NewRow(session, title, 0, creator, x), None, None)]), 1, session, title, Low, creator, [y]);
    RunFour(State(db, map[]), ClashChecks(session, title, creator, x, y));
  }

  lemma {:induction false} ClashInserts(db: Db, rowA: Task, rowB: Task, now: int, later: int)
    ensures var s := BothChecked(db, rowA, rowB);
      var a, b := db.nextId, db.nextId + 1;
      Step(Step(s, InsertTask(0, now)), InsertTask(1, later))
        == State(Db(db.tasks[a := rowA.(createdAt := now)][b := rowB.(createdAt := later)], db.rows, b + 1),
                 map[0 := Create(rowA, Some(a), None), 1 := Create(rowB, Some(b), None)])
  {
  }

  lemma {:induction false} ClashAttaches(db: Db, rowA: Task, a: int, rowB: Task, b: int, x: int)
    requires rowA.declared == [x] && Dependency(b, x) !in db.rows && IsNewest(LookedUp(db), rowA.session, rowA.title, b)
    ensures var s := State(db, map[0 := Create(rowA, Some(a), None), 1 := Create(rowB, Some(b), None)]);
      Step(Step(s, LookUp(0, b)), InsertRows(0))
        == State(db.(rows := db.rows + [Dependency(b, x)]), map[0 := Finished(true), 1 := Create(rowB, Some(b), None)])
  {
    assert RowsFrom(b, [x]) == [Dependency(b, x)];
  }

  lemma {:induction false} ClashIsFound(db: Db, session: int, title: string, creator: int, x: int, y: int, now: int, later: int)
    requires ClashSetting(db, session, title, x, y) && now <= later
    ensures var a, b := db.nextId, db.nextId + 1;
      var after := Db(db.tasks[a := NewRow(session, title, now, creator, x)][b := NewRow(session, title, later, creator, y)], db.rows, b + 1);
      IsNewest(LookedUp(after), session, title, b) && Dependency(b, x) !in after.rows
  {
  }

  lemma {:induction false} ClashGoesOn(db: Db, rowA: Task, rowB: Task, x: int, now: int, later: int)
    requires rowA.declared == [x]
    requires var a, b := db.nextId, db.nextId + 1;
      var after := Db(db.tasks[a := rowA.(createdAt := now)][b := rowB.(createdAt := later)], db.rows, b + 1);
      IsNewest(LookedUp(after), rowA.session, rowA.title, b) && Dependency(b, x) !in after.rows
    ensures var a, b := db.nextId, db.nextId + 1;
      Run(BothChecked(db, rowA, rowB), ClashWrites(now, later, b))
        == State(Db(db.tasks[a := rowA.(createdAt := now)][b := rowB.(createdAt := later)], db.rows + [Dependency(b, x)], b + 1),
                 map[0 := Finished(true), 1 := Create(rowB, Some(b), None)])
  {
    var a, b := db.nextId, db.nextId + 1;
    RunFour(BothChecked(db, rowA, rowB), ClashWrites(now, later, b));
    ClashInserts(db, rowA, rowB, now, later);
    ClashAttaches(Db(db.tasks[a := rowA.(createdAt := now)][b := rowB.(createdAt := later)], db.rows, b + 1), rowA, a, rowB, b, x);
  }

  /** The first creation attaches its dependencies to the second task. */
  lemma {:induction false} ClashMisplacesRows(db: Db, session: int, title: string, creator: int, x: int, y: int, now: int, later: int)
    requires ClashSetting(db, session, title, x, y) && now <= later
    ensures Run(State(db, map[]), ClashEvents(session, title, creator, x, y, now, later, db.nextId + 1))
      == Clashed(db, session, title, creator, x, y, now, later)
  {
    RunJoin(State(db, map[]), ClashChecks(session, title, creator, x, y), ClashWrites(now, later, db.nextId + 1));
    ClashBegins(db, session, title, creator, x, y);
    ClashIsFound(db, session, title, creator, x, y, now, later);
    ClashGoesOn(db, NewRow(session, title, 0, creator, x), NewRow(session, title, 0, creator, y), x, now, later);
  }

  lemma {:induction false} RunJoin(s: State, first: seq<Event>, second: seq<Event>)
    ensures Run(s, first + second) == Run(Run(s, first), second)
    decreases |first|
  {
    if first == [] {
      assert first + second == second;
    } else {
      assert (first + second)[1..] == first[1..] + second;
      RunJoin(Step(s, first[0]), first[1..], second);
    }
  }

  lemma {:induction false} FourSteps(s: State, e: seq<Event>, i: nat)
    requires i + 4 <= |e|
    ensures Run(s, e[i..]) == Run(Step(Step(Step(Step(s, e[i]), e[i + 1]), e[i + 2]), e[i + 3]), e[i + 4..])
  {
    var s1 := Step(s, e[i]);
    var s2 := Step(s1, e[i + 1]);
    var s3 := Step(s2, e[i + 2]);
    RunFrom(s, e, i);
    RunFrom(s1, e, i + 1);
    RunFrom(s2, e, i + 2);
    RunFrom(s3, e, i + 3);
  }

  lemma {:induction false} RunFour(s: State, e: seq<Event>)
    requires |e| == 4
    ensures Run(s, e) == Step(Step(Step(Step(s, e[0]), e[1]), e[2]), e[3])
  {
    assert e[0..] == e && e[4..] == [];
    FourSteps(s, e, 0);
  }

  /** Then that task can be started while its own dependency is open. */
  lemma {:induction false} ClashStartsTaskEarly(db: Db, session: int, title: string, creator: int, x: int, y: int, now: int, later: int)
    requires ClashSetting(db, session, title, x, y) && now <= later
    requires db.tasks[x].status == Completed && db.tasks[y].status != Completed
    ensures var b := db.nextId + 1;
      var s := Run(State(db, map[]), ClashEvents(session, title, creator, x, y, now, later, b));
      && 2 !in s.calls && b in s.db.tasks
      && b in Started(s, 2, b).db.tasks && Started(s, 2, b).db.tasks[b].status == Running
      && s.db.tasks[b].declared == [y] && !IsDone(s.db, session, y)
  {
    ClashMisplacesRows(db, session, title, creator, x, y, now, later);
    ClashedStarts(db, session, title, creator, x, y, now, later);
  }

  lemma {:induction false} ClashedStarts(db: Db, session: int, title: string, creator: int, x: int, y: int, now: int, later: int)
    requires ClashSetting(db, session, title, x, y)
    requires db.tasks[x].status == Completed && db.tasks[y].status != Completed
    ensures var s, b := Clashed(db, session, title, creator, x, y, now, later), db.nextId + 1;
      && 2 !in s.calls && b in s.db.tasks
      && b in Started(s, 2, b).db.tasks && Started(s, 2, b).db.tasks[b].status == Running
      && s.db.tasks[b].declared == [y] && !IsDone(s.db, session, y)
  {
    var s, b := Clashed(db, session, title, creator, x, y, now, later), db.nextId + 1;
    assert s.db.tasks[x] == db.tasks[x] && s.db.tasks[y] == db.tasks[y];
    assert y in s.db.tasks[b].declared && forall u :: u in RowsAt(s.db, b) <==> u == x;
    assert Dependency(b, x) in s.db.rows;
    TaskStartsEarlyIff(s, 2, b);
  }

  // ---------- One caller at a time ----------

  /** The columns and rows that decide the shape of the graph. */
  function StoreOf(db: Db): Growth.Store {
    Growth.Store(db.nextId, LookedUp(db), db.rows)
  }

  function Creation(session: int, title: string, risk: Risk, creator: int, dependencies: seq<int>, now: int, found: int): seq<Event> {
    [BeginCreate(0, session, title, risk, creator, dependencies), CheckGraph(0), InsertTask(0, now), LookUp(0, found), InsertRows(0)]
  }

  lemma {:induction false} FiveSteps(s: State, e: seq<Event>)
    requires |e| == 5
    ensures Run(s, e) == Step(Step(Step(Step(Step(s, e[0]), e[1]), e[2]), e[3]), e[4])
  {
    assert e[0..] == e && e[5..] == [];
    FourSteps(s, e, 0);
    RunFrom(Step(Step(Step(Step(s, e[0]), e[1]), e[2]), e[3]), e, 4);
  }

  /** The steps behind the checks. */
  lemma {:induction false} CreationEnds(db: Db, row: Task, now: int, found: int)
    requires var db1 := Db(db.tasks[db.nextId := row.(createdAt := now)], db.rows, db.nextId + 1);
      IsNewest(LookedUp(db1), row.session, row.title, found)
    ensures var db1 := Db(db.tasks[db.nextId := row.(createdAt := now)], db.rows, db.nextId + 1);
      Step(Step(Step(State(db, map[0 := Create(row, None, None)]), InsertTask(0, now)), LookUp(0, found)), InsertRows(0))
        == State(InsertedRows(db1, found, row.declared), map[0 := Finished(RowsFit(db1, found, row.declared))])
  {
    var id := db.nextId;
    var db1 := Db(db.tasks[id := row.(createdAt := now)], db.rows, id + 1);
    assert Step(State(db, map[0 := Create(row, None, None)]), InsertTask(0, now)) == State(db1, map[0 := Create(row, Some(id), None)]);
    assert Step(State(db1, map[0 := Create(row, Some(id), None)]), LookUp(0, found)) == State(db1, map[0 := Create(row, Some(id), Some(found))]);
  }

  lemma {:induction false} RowsFitIff(db: Db, id: int, dependencies: seq<int>)
    requires !HasDuplicates(db.rows) && forall i, j :: 0 <= i < j < |dependencies| ==> dependencies[i] != dependencies[j]
    ensures RowsFit(db, id, dependencies) <==> !HasDuplicates(db.rows + RowsFrom(id, dependencies))
  {
    RowsFromDistinct(id, dependencies);
    DuplicatesIff(db.rows, RowsFrom(id, dependencies));
    if row :| row in db.rows && row in RowsFrom(id, dependencies) {
      assert row == Dependency(id, row.dependsOn);
    }
  }

  lemma {:induction false} RefusedAtOnce(db: Db, session: int, title: string, risk: Risk, creator: int, dependencies: seq<int>, now: int, found: int)
    requires var s1 := Step(State(db, map[]), BeginCreate(0, session, title, risk, creator, dependencies));
      s1.calls[0].Finished? || RowsRefused(db.rows)
    ensures Run(State(db, map[]), Creation(session, title, risk, creator, dependencies, now, found)) == State(db, map[0 := Finished(false)])
  {
    var e := Creation(session, title, risk, creator, dependencies, now, found);
    FiveSteps(State(db, map[]), e);
    var s2 := Step(Step(State(db, map[]), e[0]), e[1]);
    assert s2 == State(db, map[0 := Finished(false)]);
    assert Step(s2, e[2]) == s2 && Step(s2, e[3]) == s2 && Step(s2, e[4]) == s2;
  }

  /** The steps of a creation without interference are the sequential call, whatever newest task the
      look-up returns. */
  lemma {:induction false} CreationIsOneInterleaving(db: Db, session: int, title: string, risk: Risk, creator: int, dependencies: seq<int>,
                                                     now: int, found: int)
    requires !HasDuplicates(db.rows) && Growth.Possible(StoreOf(db), Growth.CreateTask(session, title, dependencies, now, found))
    ensures var s := Run(State(db, map[]), Creation(session, title, risk, creator, dependencies, now, found));
      var (store, outcome) := Growth.After(StoreOf(db), Growth.CreateTask(session, title, dependencies, now, found));
      StoreOf(s.db) == store && s.calls == map[0 := Finished(outcome == Growth.Created)]
  {
    var wanted := Distinct(dependencies);
    SameElements(dependencies);
    if TitleFits(title) && (forall d :: d in dependencies ==> 1 <= d && d in db.tasks && db.tasks[d].session == session) && !RowsRefused(db.rows) {
      AcceptedCreation(db, session, title, risk, creator, dependencies, now, found);
    } else {
      RefusedAtOnce(db, session, title, risk, creator, dependencies, now, found);
    }
  }

  lemma {:induction false} AcceptedCreation(db: Db, session: int, title: string, risk: Risk, creator: int, dependencies: seq<int>, now: int, found: int)
    requires !HasDuplicates(db.rows) && Growth.Possible(StoreOf(db), Growth.CreateTask(session, title, dependencies, now, found))
    requires TitleFits(title) && !RowsRefused(db.rows)
    requires forall d :: d in dependencies ==> 1 <= d && d in db.tasks && db.tasks[d].session == session
    ensures var s := Run(State(db, map[]), Creation(session, title, risk, creator, dependencies, now, found));
      var (store, outcome) := Growth.After(StoreOf(db), Growth.CreateTask(session, title, dependencies, now, found));
      StoreOf(s.db) == store && s.calls == map[0 := Finished(outcome == Growth.Created)]
  {
    var wanted := Distinct(dependencies);
    var row := NewTask(session, title, risk, creator, wanted);
    var db1 := Db(db.tasks[db.nextId := row.(createdAt := now)], db.rows, db.nextId + 1);
    assert LookedUp(db1) == LookedUp(db)[db.nextId := TaskRow(session, title, now)];
    DistinctElements(dependencies);
    RowsFitIff(db1, found, wanted);
    AcceptedSteps(db, session, title, risk, creator, dependencies, now, found);
    AcceptedCall(StoreOf(db), session, title, dependencies, now, found);
  }

  lemma {:induction false} AcceptedSteps(db: Db, session: int, title: string, risk: Risk, creator: int, dependencies: seq<int>, now: int, found: int)
    requires TitleFits(title) && !RowsRefused(db.rows)
    requires forall d :: d in dependencies ==> 1 <= d && d in db.tasks && db.tasks[d].session == session
    requires var db1 := Db(db.tasks[db.nextId := NewTask(session, title, risk, creator, Distinct(dependencies)).(createdAt := now)], db.rows, db.nextId + 1);
      IsNewest(LookedUp(db1), session, title, found)
    ensures var row := NewTask(session, title, risk, creator, Distinct(dependencies));
      var db1 := Db(db.tasks[db.nextId := row.(createdAt := now)], db.rows, db.nextId + 1);
      Run(State(db, map[]), Creation(session, title, risk, creator, dependencies, now, found))
        == State(InsertedRows(db1, found, row.declared), map[0 := Finished(RowsFit(db1, found, row.declared))])
  {
    FiveSteps(State(db, map[]), Creation(session, title, risk, creator, dependencies, now, found));
    CreationBegins(State(db, map[]), 0, session, title, risk, creator, dependencies);
    CreationEnds(db, NewTask(session, title, risk, creator, Distinct(dependencies)), now, found);
  }

  lemma {:induction false} AcceptedCall(store: Growth.Store, session: int, title: string, dependencies: seq<int>, now: int, found: int)
    requires TitleFits(title) && !RowsRefused(store.rows) && !HasDuplicates(store.rows)
    requires forall d :: d in dependencies ==> 1 <= d && d in store.tasks && store.tasks[d].session == session
    ensures Growth.AfterCreate(store, session, title, dependencies, now, found)
      == Growth.InsertRows(Growth.InsertTask(store, TaskRow(session, title, now)), RowsFrom(found, Distinct(dependencies)))
  {
    SameElements(dependencies);
    if Distinct(dependencies) == [] {
      assert store.rows + RowsFrom(found, Distinct(dependencies)) == store.rows;
    }
  }
}
