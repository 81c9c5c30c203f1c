/** The columns of the task table and the rows of the dependency table that creating a task looks at. */
module TaskRows {
  import opened Collections
  import opened DependencyCheck

  /** What the look-ups compare. Titles are trimmed and as the database compares them. */
  datatype TaskRow = TaskRow(session: int, title: string, createdAt: int)

  predicate TitleFits(title: string) {
    3 <= |title| <= 240
  }

  // ---------- The look-up by title ----------

  /** What the look-up by session and title may return: any newest row with them. */
  predicate IsNewest(tasks: map<int, TaskRow>, sessionId: int, title: string, id: int) {
    && id in tasks && tasks[id].session == sessionId && tasks[id].title == title
    && forall other :: other in tasks && tasks[other].session == sessionId && tasks[other].title == title ==>
         tasks[other].createdAt <= tasks[id].createdAt
  }

  lemma {:induction false} NewestExists(tasks: map<int, TaskRow>, sessionId: int, title: string, some: int) returns (newest: int)
    requires some in tasks && tasks[some].session == sessionId && tasks[some].title == title
    ensures IsNewest(tasks, sessionId, title, newest) && tasks[newest].createdAt >= tasks[some].createdAt
  {
    var alike := set k | k in tasks && tasks[k].session == sessionId && tasks[k].title == title;
    assert some in alike;
    newest := GreatestExists(alike, k => if k in tasks then tasks[k].createdAt else 0);
    assert forall k :: k in tasks && tasks[k].session == sessionId && tasks[k].title == title ==> k in alike;
  }

  predicate SameTitle(a: TaskRow, b: TaskRow) {
    a.session == b.session && a.title == b.title
  }

  /** Every other row of the session with the same title is older. */
  predicate IsAlone(tasks: map<int, TaskRow>, id: int)
    requires id in tasks
  {
    forall other :: other in tasks && other != id && SameTitle(tasks[other], tasks[id]) ==> tasks[other].createdAt < tasks[id].createdAt
  }

  /** The look-up is certain to return a row if and only if every other row of its session with its
      title is older. */
  lemma {:induction false} OnlyNewestIff(tasks: map<int, TaskRow>, id: int)
    requires id in tasks
    ensures (forall found :: IsNewest(tasks, tasks[id].session, tasks[id].title, found) ==> found == id) <==> IsAlone(tasks, id)
  {
    var t := tasks[id];
    if IsAlone(tasks, id) {
      forall found | IsNewest(tasks, t.session, t.title, found)
        ensures found == id
      {
        assert SameTitle(tasks[found], t);
      }
    } else {
      var other :| other in tasks && other != id && SameTitle(tasks[other], t) && tasks[other].createdAt >= t.createdAt;
      var newest := NewestExists(tasks, t.session, t.title, other);
      if newest == id {
        assert IsNewest(tasks, t.session, t.title, other);
      }
    }
  }

  // ---------- Dependency rows ----------

  function RowsFrom(task: int, dependencies: seq<int>): (r: seq<Dependency>)
    ensures forall v, u :: Dependency(v, u) in r <==> v == task && u in dependencies
  {
    if dependencies == [] then []
    else [Dependency(task, dependencies[0])] + RowsFrom(task, dependencies[1..])
  }

  /** What a task depends on, in row order. */
  function TargetsOf(rows: seq<Dependency>, v: int): (r: seq<int>)
    ensures forall u :: u in r <==> Dependency(v, u) in rows
    ensures r == [] <==> forall u :: Dependency(v, u) !in rows
  {
    if rows == [] then []
    else
      var n := |rows| - 1;
      assert rows == rows[..n] + [rows[n]];
      var front := TargetsOf(rows[..n], v);
      assert rows[n].taskId == v ==> Dependency(v, rows[n].dependsOn) in rows;
      if rows[n].taskId == v then front + [rows[n].dependsOn] else front
  }

  predicate HasDuplicates(rows: seq<Dependency>) {
    exists i, j :: 0 <= i < j < |rows| && rows[i] == rows[j]
  }

  /** The assertion over the stored rows throws. */
  ghost predicate RowsRefused(rows: seq<Dependency>) {
    Cyclic(rows) || exists row :: row in rows && (row.taskId < 1 || row.dependsOn < 1)
  }

  lemma {:induction false} RowsFromDistinct(task: int, dependencies: seq<int>)
    requires forall i, j :: 0 <= i < j < |dependencies| ==> dependencies[i] != dependencies[j]
    ensures !HasDuplicates(RowsFrom(task, dependencies))
  {
    if dependencies != [] {
      RowsFromDistinct(task, dependencies[1..]);
      var rest := RowsFrom(task, dependencies[1..]);
      assert Dependency(task, dependencies[0]) !in rest;
      var all := [Dependency(task, dependencies[0])] + rest;
      forall i, j | 0 <= i < j < |all|
        ensures all[i] != all[j]
      {
        assert all[j] == rest[j - 1];
        assert i > 0 ==> all[i] == rest[i - 1];
      }
    }
  }

  lemma {:induction false} DuplicatesIff(rows: seq<Dependency>, added: seq<Dependency>)
    requires !HasDuplicates(rows) && !HasDuplicates(added)
    ensures HasDuplicates(rows + added) <==> exists row :: row in rows && row in added
  {
    var all := rows + added;
    if row :| row in rows && row in added {
      var i :| 0 <= i < |rows| && rows[i] == row;
      var j :| 0 <= j < |added| && added[j] == row;
      assert all[i] == all[|rows| + j];
    }
    assert forall k :: 0 <= k < |rows| ==> all[k] == rows[k];
    assert forall k :: |rows| <= k < |all| ==> all[k] == added[k - |rows|];
    if HasDuplicates(all) {
      var i, j :| 0 <= i < j < |all| && all[i] == all[j];
      if j < |rows| {
        assert false;
      } else if i >= |rows| {
        assert false;
      } else {
        assert rows[i] in rows && added[j - |rows|] in added && rows[i] == added[j - |rows|];
      }
    }
  }
}
