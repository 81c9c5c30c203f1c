/** How the stored dependency graph of a workspace grows: `createResearchTask` adds one task with
    its dependency rows, `runPlaybook` adds a whole template list. Task ids come from an
    auto-increment column. */
module TaskGraphGrowth {
  import opened Collections
  import opened DependencyCheck
  import opened TaskRows

  /** The columns of the task and dependency tables that decide the shape of the graph. */
  datatype Store = Store(nextId: int, tasks: map<int, TaskRow>, rows: seq<Dependency>)

  datatype Outcome = Created | InvalidDefinition | ForeignDependency | CycleRefused | InvalidTemplates | DuplicateRow

  /** A template with the indexes it depends on, and the time at which its task is inserted. */
  datatype Template = Template(title: string, typeAllowed: bool, dependsOn: seq<int>, insertedAt: int)

  /** One request. `readBack` is the id found by the query that looks the new task up again. */
  datatype Request =
    | CreateTask(sessionId: int, title: string, dependencies: seq<int>, now: int, readBack: int)
    | RunPlaybook(sessionId: int, templates: seq<Template>)

  /** The insert statement is refused as a whole when a pair is already stored. */
  function InsertRows(s: Store, rows: seq<Dependency>): (Store, Outcome) {
    if HasDuplicates(s.rows + rows) then (s, DuplicateRow) else (s.(rows := s.rows + rows), Created)
  }

  function InsertTask(s: Store, row: TaskRow): Store {
    Store(s.nextId + 1, s.tasks[s.nextId := row], s.rows)
  }

  ghost function AfterCreate(s: Store, sessionId: int, title: string, dependencies: seq<int>, now: int, readBack: int): (Store, Outcome) {
    var wanted := Distinct(dependencies);
    var inserted := InsertTask(s, TaskRow(sessionId, title, now));
    if !TitleFits(title) || exists d :: d in dependencies && d < 1 then (s, InvalidDefinition)
    else if exists d :: d in wanted && (d !in s.tasks || s.tasks[d].session != sessionId) then (s, ForeignDependency)
    else if RowsRefused(s.rows) then (s, CycleRefused)
    else if wanted == [] then (inserted, Created)
    else InsertRows(inserted, RowsFrom(readBack, wanted))
  }

  /** The tasks of the first `n` templates, inserted one by one. */
  function InsertTasks(s: Store, sessionId: int, templates: seq<Template>, n: nat): (r: Store)
    requires n <= |templates|
    ensures r.nextId == s.nextId + n && r.rows == s.rows
  {
    if n == 0 then s
    else InsertTask(InsertTasks(s, sessionId, templates, n - 1), TaskRow(sessionId, templates[n - 1].title, templates[n - 1].insertedAt))
  }

  predicate PointsBack(indexes: seq<int>, index: nat) {
    forall k :: 0 <= k < |indexes| ==> 0 <= indexes[k] < index
  }

  predicate Accepted(t: Template, index: nat) {
    t.typeAllowed && 2 <= |t.title| <= 240 && PointsBack(t.dependsOn, index)
  }

  /** The number of leading templates that are accepted. */
  function GoodPrefix(templates: seq<Template>): (n: nat)
    ensures n <= |templates| && forall i :: 0 <= i < n ==> Accepted(templates[i], i)
    ensures n < |templates| ==> !Accepted(templates[n], n)
  {
    if templates == [] then 0
    else
      var last := |templates| - 1;
      var n := GoodPrefix(templates[..last]);
      if n == last && Accepted(templates[last], last) then n + 1 else n
  }

  function Shift(indexes: seq<int>, first: int): (ids: seq<int>)
    ensures forall d :: d in ids <==> d - first in indexes
  {
    if indexes == [] then [] else [first + indexes[0]] + Shift(indexes[1..], first)
  }

  /** Template `i` becomes task `first + i`. */
  function TemplateRows(first: int, templates: seq<Template>): (r: seq<Dependency>)
    ensures forall v, u ::
      Dependency(v, u) in r <==> 0 <= v - first < |templates| && u - first in templates[v - first].dependsOn
  {
    if templates == [] then []
    else
      var n := |templates| - 1;
      TemplateRows(first, templates[..n]) + RowsFrom(first + n, Shift(templates[n].dependsOn, first))
  }

  /** Templates are inserted one by one, so a bad one leaves the earlier tasks behind without rows. */
  function AfterPlaybook(s: Store, sessionId: int, templates: seq<Template>): (Store, Outcome) {
    if templates == [] || |templates| > 200 then (s, InvalidTemplates)
    else
      var n := GoodPrefix(templates);
      var inserted := InsertTasks(s, sessionId, templates, n);
      if n < |templates| then (inserted, InvalidTemplates)
      else InsertRows(inserted, TemplateRows(s.nextId, templates))
  }

  class TaskStore {
    var nextId: int
    var tasks: map<int, TaskRow>
    var rows: seq<Dependency>

    constructor ()
      ensures Valid() && State() == Store(1, map[], [])
    {
      nextId, tasks, rows := 1, map[], [];
    }

    function State(): Store
      reads this
    {
      Store(nextId, tasks, rows)
    }

    ghost predicate Valid()
      reads this
    {
      nextId >= 1 && forall id :: id in tasks ==> 1 <= id < nextId
    }

    method InsertOne(row: TaskRow) returns (id: int)
      requires Valid()
      modifies this
      ensures Valid() && id == old(nextId) && State() == InsertTask(old(State()), row)
    {
      id := nextId;
      tasks := tasks[id := row];
      nextId := nextId + 1;
    }

    method InsertMany(added: seq<Dependency>) returns (outcome: Outcome)
      requires Valid()
      modifies this
      ensures Valid() && (State(), outcome) == InsertRows(old(State()), added)
    {
      if HasDuplicates(rows + added) {
        return DuplicateRow;
      }
      rows := rows + added;
      return Created;
    }

    /** The look-up by session and title, newest first; a tie is broken in any way. */
    method LookUpNewest(sessionId: int, title: string) returns (id: int)
      requires exists some :: some in tasks && tasks[some].session == sessionId && tasks[some].title == title
      ensures IsNewest(tasks, sessionId, title, id)
    {
      ghost var some :| some in tasks && tasks[some].session == sessionId && tasks[some].title == title;
      ghost var newest := NewestExists(tasks, sessionId, title, some);
      id :| id in tasks && IsNewest(tasks, sessionId, title, id);
    }

    /** The look-up by session and title, highest id first. */
    method LookUpLast(sessionId: int, title: string) returns (id: int)
      requires Valid() && exists some :: some in tasks && tasks[some].session == sessionId && tasks[some].title == title
      ensures id in tasks && tasks[id].session == sessionId && tasks[id].title == title
      ensures forall other :: other in tasks && tasks[other].session == sessionId && tasks[other].title == title ==> other <= id
    {
      ghost var some :| some in tasks && tasks[some].session == sessionId && tasks[some].title == title;
      id := nextId - 1;
      while id !in tasks || tasks[id].session != sessionId || tasks[id].title != title
        invariant some <= id
        decreases id - some
        invariant forall other :: other in tasks && tasks[other].session == sessionId && tasks[other].title == title ==> other <= id
      {
        id := id - 1;
      }
    }

    method CreateResearchTask(sessionId: int, title: string, dependencies: seq<int>, now: int) returns (outcome: Outcome, readBack: int)
      requires Valid()
      modifies this
      ensures Valid() && (State(), outcome) == AfterCreate(old(State()), sessionId, title, dependencies, now, readBack)
      ensures outcome in {Created, DuplicateRow} ==> Possible(old(State()), CreateTask(sessionId, title, dependencies, now, readBack))
    {
      readBack := 0;
      if !TitleFits(title) || exists d :: d in dependencies && d < 1 {
        return InvalidDefinition, readBack;
      }
      var wanted := Distinct(dependencies);
      if exists d :: d in wanted && (d !in tasks || tasks[d].session != sessionId) {
        return ForeignDependency, readBack;
      }
      var check := AssertDependencyGraphAcyclic(rows);
      if check != Acyclic {
        return CycleRefused, readBack;
      }
      var id := InsertOne(TaskRow(sessionId, title, now));
      assert id in tasks && tasks[id] == TaskRow(sessionId, title, now);
      readBack := LookUpNewest(sessionId, title);
      if wanted == [] {
        return Created, readBack;
      }
      outcome := InsertMany(RowsFrom(readBack, wanted));
    }

    /** Inserts the task of one template and looks its id up. */
    method InsertTemplate(sessionId: int, template: Template) returns (id: int)
      requires Valid()
      modifies this
      ensures Valid() && id == old(nextId)
      ensures State() == InsertTask(old(State()), TaskRow(sessionId, template.title, template.insertedAt))
    {
      var inserted := InsertOne(TaskRow(sessionId, template.title, template.insertedAt));
      assert inserted in tasks && tasks[inserted].session == sessionId && tasks[inserted].title == template.title;
      id := LookUpLast(sessionId, template.title);
    }

    method RunPlaybook(sessionId: int, templates: seq<Template>) returns (outcome: Outcome)
      requires Valid()
      modifies this
      ensures Valid() && (State(), outcome) == AfterPlaybook(old(State()), sessionId, templates)
    {
      if templates == [] || |templates| > 200 {
        return InvalidTemplates;
      }
      var created: seq<int> := [];
      var byTask: seq<seq<int>> := [];
      for index := 0 to |templates|
        invariant Valid() && index <= GoodPrefix(templates)
        invariant State() == InsertTasks(old(State()), sessionId, templates, index)
        invariant |created| == |byTask| == index
        invariant forall i :: 0 <= i < index ==> created[i] == old(nextId) + i
        invariant forall i :: 0 <= i < index ==> byTask[i] == Shift(templates[i].dependsOn, old(nextId))
      {
        var template := templates[index];
        if !template.typeAllowed || |template.title| < 2 || |template.title| > 240 || !PointsBack(template.dependsOn, index) {
          return InvalidTemplates;
        }
        var id := InsertTemplate(sessionId, template);
        created := created + [id];
        MappedIds(template.dependsOn, created, old(nextId));
        byTask := byTask + [Mapped(template.dependsOn, created)];
      }
      var added := DependencyRows(created, byTask, old(nextId), templates);
      outcome := InsertMany(added);
    }
  }

  /** The rows of all created tasks, flattened. */
  method DependencyRows(created: seq<int>, byTask: seq<seq<int>>, ghost first: int, ghost templates: seq<Template>)
    returns (added: seq<Dependency>)
    requires |created| == |byTask| == |templates|
    requires forall i :: 0 <= i < |created| ==> created[i] == first + i && byTask[i] == Shift(templates[i].dependsOn, first)
    ensures added == TemplateRows(first, templates)
  {
    added := [];
    for index := 0 to |created|
      invariant added == TemplateRows(first, templates[..index])
    {
      assert templates[..index + 1][..index] == templates[..index];
      added := added + RowsFrom(created[index], byTask[index]);
    }
    assert templates[..|templates|] == templates;
  }

  function Mapped(indexes: seq<int>, created: seq<int>): seq<int>
    requires PointsBack(indexes, |created|)
  {
    if indexes == [] then [] else [created[indexes[0]]] + Mapped(indexes[1..], created)
  }

  lemma {:induction false} MappedIds(indexes: seq<int>, created: seq<int>, first: int)
    requires PointsBack(indexes, |created|)
    requires forall i :: 0 <= i < |created| ==> created[i] == first + i
    ensures Mapped(indexes, created) == Shift(indexes, first)
  {
    if indexes != [] {
      MappedIds(indexes[1..], created, first);
    }
  }

  // ---------- What a request writes ----------

  /** A creation is refused for its title or an id below 1, then for a dependency outside the session, then
      for the stored rows. Otherwise its task gets the next id, and one row for each different dependency is
      attached to the task that was read back, unless a pair is stored already. */
  lemma {:induction false} CreationAnswers(s: Store, sessionId: int, title: string, dependencies: seq<int>, now: int, readBack: int)
    requires !HasDuplicates(s.rows)
    ensures var (s', outcome) := AfterCreate(s, sessionId, title, dependencies, now, readBack);
      if !(3 <= |title| <= 240 && forall d :: d in dependencies ==> d >= 1) then s' == s && outcome == InvalidDefinition
      else if exists d :: d in dependencies && (d !in s.tasks || s.tasks[d].session != sessionId) then s' == s && outcome == ForeignDependency
      else if RowsRefused(s.rows) then s' == s && outcome == CycleRefused
      else
        && s'.nextId == s.nextId + 1 && s'.tasks == s.tasks[s.nextId := TaskRow(sessionId, title, now)]
        && RowsWritten(s.rows, s'.rows, outcome, readBack, dependencies)
  {
    SameElements(dependencies);
    InsertAnswers(InsertTask(s, TaskRow(sessionId, title, now)), readBack, dependencies);
  }

  lemma {:induction false} InsertAnswers(s: Store, task: int, dependencies: seq<int>)
    requires !HasDuplicates(s.rows)
    ensures var wanted := Distinct(dependencies);
      var (s', outcome) := if wanted == [] then (s, Created) else InsertRows(s, RowsFrom(task, wanted));
      s'.nextId == s.nextId && s'.tasks == s.tasks && RowsWritten(s.rows, s'.rows, outcome, task, dependencies)
  {
    var wanted := Distinct(dependencies);
    SameElements(dependencies);
    DistinctElements(dependencies);
    RowsFromDistinct(task, wanted);
    DuplicatesIff(s.rows, RowsFrom(task, wanted));
    if d :| d in dependencies && Dependency(task, d) in s.rows {
      assert Dependency(task, d) in RowsFrom(task, wanted);
    }
    if row :| row in s.rows && row in RowsFrom(task, wanted) {
      assert row == Dependency(row.taskId, row.dependsOn);
      assert row.dependsOn in dependencies;
    }
    AddedRows(s.rows, task, wanted, dependencies);
    assert wanted == [] ==> s.rows + RowsFrom(task, wanted) == s.rows;
  }

  /** A pair that is stored already refuses all of them. */
  ghost predicate RowsWritten(rows: seq<Dependency>, rows': seq<Dependency>, outcome: Outcome, task: int, dependencies: seq<int>) {
    if exists d :: d in dependencies && Dependency(task, d) in rows then outcome == DuplicateRow && rows' == rows
    else outcome == Created && AddsRows(rows, rows', task, dependencies)
  }

  /** One row per dependency of the task follows the stored rows. */
  ghost predicate AddsRows(rows: seq<Dependency>, rows': seq<Dependency>, task: int, dependencies: seq<int>) {
    && rows <= rows'
    && (forall v, u :: Dependency(v, u) in rows'[|rows|..] <==> v == task && u in dependencies)
    && !HasDuplicates(rows'[|rows|..])
  }

  lemma {:induction false} AddedRows(rows: seq<Dependency>, task: int, wanted: seq<int>, dependencies: seq<int>)
    requires forall d :: d in wanted <==> d in dependencies
    requires !HasDuplicates(RowsFrom(task, wanted))
    ensures AddsRows(rows, rows + RowsFrom(task, wanted), task, dependencies)
  {
    var rows' := rows + RowsFrom(task, wanted);
    assert rows'[|rows|..] == RowsFrom(task, wanted);
  }

  /** The template may be inserted at its place: an allowed type, a title of 2 to 240 characters, and
      dependencies on earlier templates only. */
  predicate MayStandAt(t: Template, index: nat) {
    t.typeAllowed && 2 <= |t.title| <= 240 && forall k :: k in t.dependsOn ==> 0 <= k < index
  }

  lemma {:induction false} AcceptedIff(t: Template, index: nat)
    ensures Accepted(t, index) <==> MayStandAt(t, index)
  {
    assert forall k :: 0 <= k < |t.dependsOn| ==> t.dependsOn[k] in t.dependsOn;
  }

  /** The tasks of `n` templates have the next ids in template order; nothing else changes. */
  ghost predicate InsertsTasks(s: Store, s': Store, sessionId: int, templates: seq<Template>, n: nat)
    requires n <= |templates|
  {
    && s'.nextId == s.nextId + n
    && (forall id :: id in s'.tasks <==> id in s.tasks || s.nextId <= id < s.nextId + n)
    && (forall i :: 0 <= i < n ==> s'.tasks[s.nextId + i] == TaskRow(sessionId, templates[i].title, templates[i].insertedAt))
    && (forall id :: id in s.tasks && !(s.nextId <= id < s.nextId + n) ==> s'.tasks[id] == s.tasks[id])
  }

  lemma {:induction false} TasksInserted(s: Store, sessionId: int, templates: seq<Template>, n: nat)
    requires n <= |templates|
    ensures InsertsTasks(s, InsertTasks(s, sessionId, templates, n), sessionId, templates, n)
  {
    if n > 0 {
      TasksInserted(s, sessionId, templates, n - 1);
    }
  }

  /** A playbook without templates, or with more than 200, changes nothing. Otherwise the templates before the
      first bad one become tasks, and only if there is none do their rows follow. */
  lemma {:induction false} PlaybookAnswers(s: Store, sessionId: int, templates: seq<Template>) returns (n: nat)
    requires !HasDuplicates(s.rows)
    ensures n <= |templates| && (forall i :: 0 <= i < n ==> MayStandAt(templates[i], i)) && (n < |templates| ==> !MayStandAt(templates[n], n))
    ensures var (s', outcome) := AfterPlaybook(s, sessionId, templates);
      if templates == [] || |templates| > 200 then s' == s && outcome == InvalidTemplates
      else
        && InsertsTasks(s, s', sessionId, templates, n)
        && if n < |templates| then outcome == InvalidTemplates && s'.rows == s.rows
           else if outcome == DuplicateRow then s'.rows == s.rows
           else
             && outcome == Created && s.rows <= s'.rows && !HasDuplicates(s'.rows)
             && forall v, u :: Dependency(v, u) in s'.rows[|s.rows|..] <==>
                  s.nextId <= v < s.nextId + n && u - s.nextId in templates[v - s.nextId].dependsOn
  {
    n := GoodPrefix(templates);
    forall i | 0 <= i <= n && i < |templates| {
      AcceptedIff(templates[i], i);
    }
    TasksInserted(s, sessionId, templates, n);
    var added := TemplateRows(s.nextId, templates);
    assert (s.rows + added)[|s.rows|..] == added;
  }

  // ---------- The graph stays acyclic while the read-back finds the new row ----------

  /** Every stored row points from a younger task to an older one. */
  ghost predicate Ranked(s: Store) {
    && s.nextId >= 1
    && (forall id :: id in s.tasks ==> 1 <= id < s.nextId)
    && (forall v, u :: Dependency(v, u) in s.rows ==> 1 <= u < v < s.nextId)
  }

  lemma {:induction false} ChainDescends(rows: seq<Dependency>, p: seq<int>)
    requires |p| >= 2 && forall i :: 0 <= i < |p| - 1 ==> Dependency(p[i], p[i + 1]) in rows
    requires forall v, u :: Dependency(v, u) in rows ==> u < v
    ensures p[|p| - 1] < p[0]
  {
    assert Dependency(p[|p| - 2], p[|p| - 1]) in rows;
    if |p| > 2 {
      ChainDescends(rows, p[..|p| - 1]);
    }
  }

  lemma {:induction false} RankedIsAccepted(s: Store)
    requires Ranked(s)
    ensures !RowsRefused(s.rows)
  {
    forall p | ClosedChain(s.rows, p)
      ensures false
    {
      ChainDescends(s.rows, p);
    }
    forall row | row in s.rows
      ensures row.taskId >= 1 && row.dependsOn >= 1
    {
      assert Dependency(row.taskId, row.dependsOn) in s.rows;
    }
  }

  lemma {:induction false} InsertTasksRanked(s: Store, sessionId: int, templates: seq<Template>, n: nat)
    requires Ranked(s) && n <= |templates|
    ensures Ranked(InsertTasks(s, sessionId, templates, n))
  {
    if n > 0 {
      InsertTasksRanked(s, sessionId, templates, n - 1);
    }
  }

  ghost function After(s: Store, request: Request): (Store, Outcome) {
    match request
    case CreateTask(sessionId, title, dependencies, now, readBack) => AfterCreate(s, sessionId, title, dependencies, now, readBack)
    case RunPlaybook(sessionId, templates) => AfterPlaybook(s, sessionId, templates)
  }

  /** The look-up returned some newest row with the session and title of the new task. */
  predicate Possible(s: Store, request: Request) {
    request.CreateTask? ==>
      IsNewest(InsertTask(s, TaskRow(request.sessionId, request.title, request.now)).tasks, request.sessionId, request.title, request.readBack)
  }

  /** The look-up by title returned the row that was just inserted. */
  ghost predicate FaithfulReadBack(s: Store, request: Request) {
    request.CreateTask? ==> request.readBack == s.nextId
  }

  /** Every stored task of the session with the title is older than `now`. */
  predicate TitleIsNew(s: Store, sessionId: int, title: string, now: int) {
    forall id :: id in s.tasks && s.tasks[id].session == sessionId && s.tasks[id].title == title ==> s.tasks[id].createdAt < now
  }

  /** The read-back is certain to be faithful exactly for a new title. */
  lemma {:induction false} ReadBackIsFaithfulIff(s: Store, sessionId: int, title: string, dependencies: seq<int>, now: int)
    requires forall id :: id in s.tasks ==> id < s.nextId
    ensures TitleIsNew(s, sessionId, title, now)
      <==> forall id {:trigger CreateTask(sessionId, title, dependencies, now, id)} ::
             Possible(s, CreateTask(sessionId, title, dependencies, now, id)) ==> FaithfulReadBack(s, CreateTask(sessionId, title, dependencies, now, id))
  {
    var inserted := InsertTask(s, TaskRow(sessionId, title, now)).tasks;
    assert inserted[s.nextId] == TaskRow(sessionId, title, now);
    assert forall k :: k in s.tasks ==> inserted[k] == s.tasks[k];
    OnlyNewestIff(inserted, s.nextId);
    assert IsAlone(inserted, s.nextId) <==> TitleIsNew(s, sessionId, title, now) by {
      forall k | k in s.tasks
        ensures SameTitle(inserted[k], inserted[s.nextId]) <==> s.tasks[k].session == sessionId && s.tasks[k].title == title
      {
      }
    }
    if !TitleIsNew(s, sessionId, title, now) {
      var found :| IsNewest(inserted, sessionId, title, found) && found != s.nextId;
      assert Possible(s, CreateTask(sessionId, title, dependencies, now, found));
    }
  }

  lemma {:induction false} RequestKeepsRanked(s: Store, request: Request)
    requires Ranked(s) && FaithfulReadBack(s, request)
    ensures Ranked(After(s, request).0)
    ensures After(s, request).1 != CycleRefused
  {
    RankedIsAccepted(s);
    if request.RunPlaybook? {
      var templates := request.templates;
      InsertTasksRanked(s, request.sessionId, templates, GoodPrefix(templates));
      if GoodPrefix(templates) == |templates| {
        forall v, u | Dependency(v, u) in TemplateRows(s.nextId, templates)
          ensures 1 <= u < v < s.nextId + |templates|
        {
          assert Accepted(templates[v - s.nextId], v - s.nextId);
        }
      }
    }
  }

  // ---------- Acyclic tables ----------

  /** What an accepted table looks like: ids below the counter, no pair twice and no cycle. Rows may
      point to younger tasks. */
  ghost predicate AcyclicTable(s: Store) {
    && s.nextId >= 1
    && (forall id :: id in s.tasks ==> 1 <= id < s.nextId)
    && (forall v, u :: Dependency(v, u) in s.rows ==> 1 <= v < s.nextId && 1 <= u < s.nextId)
    && !Cyclic(s.rows) && !HasDuplicates(s.rows)
  }

  lemma {:induction false} AcyclicIsAccepted(s: Store)
    requires AcyclicTable(s)
    ensures !RowsRefused(s.rows)
  {
    forall row | row in s.rows
      ensures row.taskId >= 1 && row.dependsOn >= 1
    {
      assert Dependency(row.taskId, row.dependsOn) in s.rows;
    }
  }

  /** Rows below `n`, and added rows that lead from `n` or above to something smaller. */
  ghost predicate Stacked(rows: seq<Dependency>, added: seq<Dependency>, n: int) {
    && (forall v, u :: Dependency(v, u) in rows ==> v < n && u < n)
    && (forall v, u :: Dependency(v, u) in added ==> u < v && v >= n)
  }

  /** A chain that starts below `n` uses old rows only, and one that starts above ends lower. */
  lemma {:induction false} StackedChain(rows: seq<Dependency>, added: seq<Dependency>, n: int, p: seq<int>)
    requires Stacked(rows, added, n)
    requires |p| >= 2 && forall i :: 0 <= i < |p| - 1 ==> Dependency(p[i], p[i + 1]) in rows + added
    ensures p[0] >= n ==> p[|p| - 1] < p[0]
    ensures p[0] < n ==> p[|p| - 1] < n && forall i :: 0 <= i < |p| - 1 ==> Dependency(p[i], p[i + 1]) in rows
  {
    var front := p[..|p| - 1];
    assert Dependency(p[|p| - 2], p[|p| - 2 + 1]) in rows + added;
    if |p| > 2 {
      StackedChain(rows, added, n, front);
      assert p[0] < n ==> forall i :: 0 <= i < |p| - 2 ==> Dependency(front[i], front[i + 1]) in rows;
    }
  }

  lemma {:induction false} StackedStaysAcyclic(rows: seq<Dependency>, added: seq<Dependency>, n: int)
    requires Stacked(rows, added, n) && !Cyclic(rows)
    ensures !Cyclic(rows + added)
  {
    forall c | ClosedChain(rows + added, c)
      ensures false
    {
      assert !ClosedChain(rows, c);
      StackedChain(rows, added, n, c);
    }
  }

  lemma {:induction false} InsertTasksKeys(s: Store, sessionId: int, templates: seq<Template>, n: nat)
    requires s.nextId >= 1 && (forall id :: id in s.tasks ==> 1 <= id < s.nextId) && n <= |templates|
    ensures forall id :: id in InsertTasks(s, sessionId, templates, n).tasks ==> 1 <= id < s.nextId + n
  {
    if n > 0 {
      InsertTasksKeys(s, sessionId, templates, n - 1);
    }
  }

  lemma {:induction false} PlaybookKeepsAcyclic(s: Store, sessionId: int, templates: seq<Template>)
    requires AcyclicTable(s)
    ensures AcyclicTable(AfterPlaybook(s, sessionId, templates).0)
  {
    InsertTasksKeys(s, sessionId, templates, GoodPrefix(templates));
    if GoodPrefix(templates) == |templates| {
      forall v, u | Dependency(v, u) in TemplateRows(s.nextId, templates)
        ensures s.nextId <= u < v < s.nextId + |templates|
      {
        assert Accepted(templates[v - s.nextId], v - s.nextId);
      }
      StackedStaysAcyclic(s.rows, TemplateRows(s.nextId, templates), s.nextId);
    }
  }

  lemma {:induction false} FaithfulCreationKeepsAcyclic(s: Store, r: Request)
    requires AcyclicTable(s) && r.CreateTask? && FaithfulReadBack(s, r)
    ensures AcyclicTable(After(s, r).0)
  {
    var wanted := Distinct(r.dependencies);
    SameElements(r.dependencies);
    if forall d :: d in wanted ==> d in s.tasks {
      StackedStaysAcyclic(s.rows, RowsFrom(s.nextId, wanted), s.nextId);
    }
  }

  /** One playbook run, or one creation with a faithful read-back, keeps the table acyclic. */
  lemma {:induction false} RequestKeepsAcyclic(s: Store, request: Request)
    requires AcyclicTable(s) && FaithfulReadBack(s, request)
    ensures AcyclicTable(After(s, request).0) && After(s, request).1 != CycleRefused
  {
    AcyclicIsAccepted(s);
    if request.RunPlaybook? {
      PlaybookKeepsAcyclic(s, request.sessionId, request.templates);
    } else {
      FaithfulCreationKeepsAcyclic(s, request);
    }
  }

  ghost function StoreAfter(s: Store, requests: seq<Request>): Store
    decreases |requests|
  {
    if requests == [] then s else StoreAfter(After(s, requests[0]).0, requests[1..])
  }

  ghost predicate FaithfulRun(s: Store, requests: seq<Request>)
    decreases |requests|
  {
    requests == [] || (FaithfulReadBack(s, requests[0]) && FaithfulRun(After(s, requests[0]).0, requests[1..]))
  }

  ghost predicate PossibleRun(s: Store, requests: seq<Request>)
    decreases |requests|
  {
    requests == [] || (Possible(s, requests[0]) && PossibleRun(After(s, requests[0]).0, requests[1..]))
  }

  /** Every creation uses a title that is new in its session at its time. */
  ghost predicate NewTitles(s: Store, requests: seq<Request>)
    decreases |requests|
  {
    requests == []
    || ((requests[0].CreateTask? ==> TitleIsNew(s, requests[0].sessionId, requests[0].title, requests[0].now))
        && NewTitles(After(s, requests[0]).0, requests[1..]))
  }

  ghost predicate NeverRefusedForCycle(s: Store, requests: seq<Request>)
    decreases |requests|
  {
    requests == []
    || (After(s, requests[0]).1 != CycleRefused && NeverRefusedForCycle(After(s, requests[0]).0, requests[1..]))
  }

  /** Over every sequence of requests with faithful read-backs the stored graph stays acyclic, no request
      is ever refused because of a cycle, and rows that all point to older tasks go on doing so. */
  lemma {:induction false} GraphStaysAcyclic(s: Store, requests: seq<Request>)
    requires AcyclicTable(s) && FaithfulRun(s, requests)
    ensures AcyclicTable(StoreAfter(s, requests)) && NeverRefusedForCycle(s, requests)
    ensures Ranked(s) ==> Ranked(StoreAfter(s, requests))
    decreases |requests|
  {
    if requests != [] {
      RequestKeepsAcyclic(s, requests[0]);
      if Ranked(s) {
        RequestKeepsRanked(s, requests[0]);
      }
      GraphStaysAcyclic(After(s, requests[0]).0, requests[1..]);
    }
  }

  /** New titles are enough, whatever the look-ups may return. */
  lemma {:induction false} NewTitlesKeepAcyclic(s: Store, requests: seq<Request>)
    requires AcyclicTable(s) && PossibleRun(s, requests) && NewTitles(s, requests)
    ensures FaithfulRun(s, requests)
    ensures AcyclicTable(StoreAfter(s, requests)) && NeverRefusedForCycle(s, requests)
    decreases |requests|
  {
    if requests != [] {
      var r := requests[0];
      if r.CreateTask? {
        ReadBackIsFaithfulIff(s, r.sessionId, r.title, r.dependencies, r.now);
        assert CreateTask(r.sessionId, r.title, r.dependencies, r.now, r.readBack) == r;
      }
      RequestKeepsAcyclic(s, r);
      NewTitlesKeepAcyclic(After(s, r).0, requests[1..]);
    }
  }

  // ---------- When the read-back finds another row ----------

  ghost predicate ChainBetween(rows: seq<Dependency>, p: seq<int>, v: int, u: int) {
    && |p| >= 1 && p[0] == v && p[|p| - 1] == u
    && forall i :: 0 <= i < |p| - 1 ==> Dependency(p[i], p[i + 1]) in rows
  }

  /** `v` depends on `u` directly or indirectly, or is `u`. */
  ghost predicate LeadsTo(rows: seq<Dependency>, v: int, u: int) {
    exists p :: ChainBetween(rows, p, v, u)
  }

  lemma {:induction false} FirstVisitAvoidsNewRows(rows: seq<Dependency>, task: int, deps: seq<int>, p: seq<int>, v: int)
    requires ChainBetween(rows + RowsFrom(task, deps), p, v, task)
    ensures LeadsTo(rows, v, task)
  {
    if v == task {
      assert ChainBetween(rows, [v], v, task);
    } else {
      assert Dependency(p[0], p[1]) in rows;
      var rest := p[1..];
      assert forall i :: 0 <= i < |rest| ==> rest[i] == p[i + 1];
      FirstVisitAvoidsNewRows(rows, task, deps, rest, p[1]);
      var q :| ChainBetween(rows, q, p[1], task);
      var r := [v] + q;
      assert forall i :: 0 <= i < |r| - 1 ==> r[i + 1] == q[i] && (i > 0 ==> r[i] == q[i - 1]);
      assert ChainBetween(rows, r, v, task);
    }
  }

  lemma {:induction false} NewRowsCloseCycle(rows: seq<Dependency>, task: int, deps: seq<int>, d: int, p: seq<int>)
    requires d in deps && ChainBetween(rows, p, d, task)
    ensures ClosedChain(rows + RowsFrom(task, deps), [task] + p)
  {
    var c := [task] + p;
    forall i | 0 <= i < |c| - 1
      ensures Dependency(c[i], c[i + 1]) in rows + RowsFrom(task, deps)
    {
      if i > 0 {
        assert Dependency(p[i - 1], p[i - 1 + 1]) in rows;
      }
    }
  }

  /** A closed chain can be entered behind any of its steps. */
  lemma {:induction false} ChainRotates(rows: seq<Dependency>, c: seq<int>, i: nat) returns (p: seq<int>)
    requires ClosedChain(rows, c) && i < |c| - 1
    ensures ChainBetween(rows, p, c[i + 1], c[i])
  {
    p := c[i + 1..] + c[1..i + 1];
    forall k | 0 <= k < |p| - 1
      ensures Dependency(p[k], p[k + 1]) in rows
    {
      var m := if k < |c| - i - 1 then k + i + 1 else k - (|c| - i - 1) + 1;
      if m < |c| - 1 {
        assert Dependency(c[m], c[m + 1]) in rows;
      } else {
        assert Dependency(c[0], c[0 + 1]) in rows;
      }
    }
  }

  /** Adding the rows of one task to an acyclic table closes a cycle exactly when the task they are
      attached to is one of the dependencies or something they already depend on. */
  lemma {:induction false} RowsCloseCycleIff(rows: seq<Dependency>, task: int, deps: seq<int>)
    requires !Cyclic(rows)
    ensures Cyclic(rows + RowsFrom(task, deps)) <==> exists d :: d in deps && LeadsTo(rows, d, task)
  {
    var longer := rows + RowsFrom(task, deps);
    if d :| d in deps && LeadsTo(rows, d, task) {
      var p :| ChainBetween(rows, p, d, task);
      NewRowsCloseCycle(rows, task, deps, d, p);
    }
    if Cyclic(longer) {
      var c :| ClosedChain(longer, c);
      assert !ClosedChain(rows, c);
      var i :| 0 <= i < |c| - 1 && Dependency(c[i], c[i + 1]) !in rows;
      assert Dependency(c[i], c[i + 1]) in longer;
      assert c[i] == task && c[i + 1] in deps;
      var p := ChainRotates(longer, c, i);
      FirstVisitAvoidsNewRows(rows, task, deps, p, c[i + 1]);
    }
  }

  lemma {:induction false} RowsOnlyGrow(s: Store, requests: seq<Request>)
    ensures forall row :: row in s.rows ==> row in StoreAfter(s, requests).rows
    decreases |requests|
  {
    if requests != [] {
      RowsOnlyGrow(After(s, requests[0]).0, requests[1..]);
    }
  }

  /** A cycle is never repaired: from then on the workspace accepts no well-formed task again. */
  lemma {:induction false} CycleBlocksCreationForGood(s: Store, requests: seq<Request>, r: Request)
    requires Cyclic(s.rows) && r.CreateTask?
    ensures var later := StoreAfter(s, requests);
      After(later, r).0 == later && After(later, r).1 in {InvalidDefinition, ForeignDependency, CycleRefused}
  {
    CyclesStay(s, requests);
  }

  /** A task to whose rows the creation can attach its dependencies instead: one of the session with the
      title that is at least as new and the newest, and that stores none of them yet. */
  ghost predicate Catches(s: Store, r: Request, t: int)
    requires r.CreateTask?
  {
    && IsNewest(s.tasks, r.sessionId, r.title, t) && s.tasks[t].createdAt >= r.now
    && forall d :: d in r.dependencies ==> Dependency(t, d) !in s.rows
  }

  ghost predicate WellFormed(s: Store, r: Request)
    requires r.CreateTask?
  {
    && TitleFits(r.title) && r.dependencies != []
    && forall d :: d in r.dependencies ==> d in s.tasks && s.tasks[d].session == r.sessionId
  }

  lemma {:induction false} CreationRows(s: Store, r: Request)
    requires AcyclicTable(s) && r.CreateTask? && WellFormed(s, r)
    ensures After(s, r).0.rows ==
      if exists d :: d in r.dependencies && Dependency(r.readBack, d) in s.rows then s.rows
      else s.rows + RowsFrom(r.readBack, Distinct(r.dependencies))
    ensures After(s, r).0.nextId == s.nextId + 1 && After(s, r).0.tasks == s.tasks[s.nextId := TaskRow(r.sessionId, r.title, r.now)]
    ensures !HasDuplicates(After(s, r).0.rows)
  {
    var wanted := Distinct(r.dependencies);
    AcyclicIsAccepted(s);
    SameElements(r.dependencies);
    DistinctElements(r.dependencies);
    RowsFromDistinct(r.readBack, wanted);
    DuplicatesIff(s.rows, RowsFrom(r.readBack, wanted));
    if row :| row in s.rows && row in RowsFrom(r.readBack, wanted) {
      assert row == Dependency(r.readBack, row.dependsOn) && row.dependsOn in r.dependencies;
    }
  }

  /** The request is a creation whose rows go to another task, and one of its dependencies is that task
      or leads to it. */
  ghost predicate Closes(s: Store, r: Request) {
    && r.CreateTask? && WellFormed(s, r) && Catches(s, r, r.readBack)
    && exists d :: d in r.dependencies && LeadsTo(s.rows, d, r.readBack)
  }

  lemma {:induction false} ClosingRequestClosesCycle(s: Store, r: Request)
    requires AcyclicTable(s) && Closes(s, r)
    ensures Cyclic(After(s, r).0.rows) && Possible(s, r)
  {
    CreationRows(s, r);
    SameElements(r.dependencies);
    RowsCloseCycleIff(s.rows, r.readBack, Distinct(r.dependencies));
  }

  lemma {:induction false} CycleWasCaught(s: Store, r: Request)
    requires AcyclicTable(s) && r.CreateTask? && WellFormed(s, r)
    requires Possible(s, r) && Cyclic(After(s, r).0.rows)
    ensures Closes(s, r)
  {
    CreationRows(s, r);
    SameElements(r.dependencies);
    RowsCloseCycleIff(s.rows, r.readBack, Distinct(r.dependencies));
    if r.readBack == s.nextId {
      RequestKeepsAcyclic(s, r);
    }
    var inserted := InsertTask(s, TaskRow(r.sessionId, r.title, r.now)).tasks;
    assert inserted[s.nextId] == TaskRow(r.sessionId, r.title, r.now);
    assert forall k :: k in s.tasks ==> inserted[k] == s.tasks[k];
  }

  /** A creation that is refused, or has no dependencies, adds no row. */
  lemma {:induction false} OtherCreationAddsNoRow(s: Store, r: Request)
    requires AcyclicTable(s) && r.CreateTask? && !WellFormed(s, r)
    ensures After(s, r).0.rows == s.rows && AcyclicTable(After(s, r).0)
  {
    SameElements(r.dependencies);
  }

  lemma {:induction false} OpenCreationKeepsAcyclic(s: Store, r: Request)
    requires AcyclicTable(s) && r.CreateTask? && WellFormed(s, r) && Possible(s, r) && !Cyclic(After(s, r).0.rows)
    ensures AcyclicTable(After(s, r).0)
  {
    CreationRows(s, r);
    SameElements(r.dependencies);
  }

  /** Exactly the closing requests close a cycle, and every other possible request keeps the table
      acyclic. */
  lemma {:induction false} RequestClosesCycleIff(s: Store, r: Request)
    requires AcyclicTable(s) && Possible(s, r)
    ensures Cyclic(After(s, r).0.rows) <==> Closes(s, r)
    ensures !Closes(s, r) ==> AcyclicTable(After(s, r).0)
  {
    if r.RunPlaybook? {
      PlaybookKeepsAcyclic(s, r.sessionId, r.templates);
    } else if !WellFormed(s, r) {
      OtherCreationAddsNoRow(s, r);
    } else if Cyclic(After(s, r).0.rows) {
      CycleWasCaught(s, r);
    } else {
      if Closes(s, r) {
        ClosingRequestClosesCycle(s, r);
      }
      OpenCreationKeepsAcyclic(s, r);
    }
  }

  /** In a table with an acyclic graph, a creation can close a cycle if and only if another task can
      catch its rows and a dependency is that task or leads to it. The caller can check this before
      the call. */
  lemma {:induction false} CreationCanCloseCycleIff(s: Store, r: Request)
    requires AcyclicTable(s) && r.CreateTask? && WellFormed(s, r)
    ensures (exists id :: Possible(s, r.(readBack := id)) && Cyclic(After(s, r.(readBack := id)).0.rows))
      <==> exists t, d :: Catches(s, r, t) && d in r.dependencies && LeadsTo(s.rows, d, t)
  {
    if t, d :| Catches(s, r, t) && d in r.dependencies && LeadsTo(s.rows, d, t) {
      assert Closes(s, r.(readBack := t));
      ClosingRequestClosesCycle(s, r.(readBack := t));
    }
    if id :| Possible(s, r.(readBack := id)) && Cyclic(After(s, r.(readBack := id)).0.rows) {
      CycleWasCaught(s, r.(readBack := id));
      assert Catches(s, r, id);
    }
  }

  ghost predicate NeverCloses(s: Store, requests: seq<Request>)
    decreases |requests|
  {
    requests == [] || (!Closes(s, requests[0]) && NeverCloses(After(s, requests[0]).0, requests[1..]))
  }

  /** Over every possible sequence of requests the graph stays acyclic if and only if none of them is a
      closing one. */
  lemma {:induction false} GraphStaysAcyclicIff(s: Store, requests: seq<Request>)
    requires AcyclicTable(s) && PossibleRun(s, requests)
    ensures !Cyclic(StoreAfter(s, requests).rows) <==> NeverCloses(s, requests)
    ensures NeverCloses(s, requests) ==> NeverRefusedForCycle(s, requests)
    decreases |requests|
  {
    if requests != [] {
      var s1 := After(s, requests[0]).0;
      RequestClosesCycleIff(s, requests[0]);
      AcyclicIsAccepted(s);
      if Closes(s, requests[0]) {
        CyclesStay(s1, requests[1..]);
      } else {
        GraphStaysAcyclicIff(s1, requests[1..]);
      }
    }
  }

  lemma {:induction false} CyclesStay(s: Store, requests: seq<Request>)
    requires Cyclic(s.rows)
    ensures Cyclic(StoreAfter(s, requests).rows)
  {
    RowsOnlyGrow(s, requests);
    var p :| ClosedChain(s.rows, p);
    assert ClosedChain(StoreAfter(s, requests).rows, p);
  }

  /** The smallest case: a task that depends on the newest one of its own title, created in the same
      second. The look-up may return that one, which then depends on itself. */
  lemma {:induction false} TitleClashClosesCycle(s: Store, task: int, now: int)
    requires AcyclicTable(s) && task in s.tasks && TitleFits(s.tasks[task].title)
    requires IsNewest(s.tasks, s.tasks[task].session, s.tasks[task].title, task) && now <= s.tasks[task].createdAt
    ensures var r := CreateTask(s.tasks[task].session, s.tasks[task].title, [task], now, task);
      Possible(s, r) && After(s, r).1 == Created && Cyclic(After(s, r).0.rows)
  {
    var r := CreateTask(s.tasks[task].session, s.tasks[task].title, [task], now, task);
    assert !ClosedChain(s.rows, [task, task]);
    assert ChainBetween(s.rows, [task], task, task) && task in r.dependencies;
    ClosingRequestClosesCycle(s, r);
  }
}
