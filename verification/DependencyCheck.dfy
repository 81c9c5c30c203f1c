/** The two cycle checks over research-task dependency rows: `hasDependencyCycle` in the playbook
    executor, which looks at one run's tasks only, and `assertDependencyGraphAcyclic`, which looks
    at every row it is given. */
module DependencyCheck {
  import opened Graphs
  import opened DepthFirst

  datatype Dependency = Dependency(taskId: int, dependsOn: int)

  datatype AcyclicityCheck = Acyclic | InvalidId | CycleFound

  /** A row between two tasks of the run. */
  predicate EdgeAmong(ids: seq<int>, rows: seq<Dependency>, v: int, u: int) {
    v in ids && u in ids && Dependency(v, u) in rows
  }

  /** A closed chain of rows, each of whose ends belongs to the run. */
  ghost predicate ClosedChainAmong(ids: seq<int>, rows: seq<Dependency>, p: seq<int>) {
    && |p| >= 2 && p[0] == p[|p| - 1]
    && forall i :: 0 <= i < |p| - 1 ==> EdgeAmong(ids, rows, p[i], p[i + 1])
  }

  ghost predicate CycleAmong(ids: seq<int>, rows: seq<Dependency>) {
    exists p :: ClosedChainAmong(ids, rows, p)
  }

  ghost predicate ClosedChain(rows: seq<Dependency>, p: seq<int>) {
    && |p| >= 2 && p[0] == p[|p| - 1]
    && forall i :: 0 <= i < |p| - 1 ==> Dependency(p[i], p[i + 1]) in rows
  }

  ghost predicate Cyclic(rows: seq<Dependency>) {
    exists p :: ClosedChain(rows, p)
  }

  ghost predicate Represents(g: map<int, seq<int>>, rows: seq<Dependency>) {
    forall v, u :: u in Succ(g, v) <==> Dependency(v, u) in rows
  }

  ghost predicate RepresentsAmong(g: map<int, seq<int>>, ids: seq<int>, rows: seq<Dependency>) {
    forall v, u :: u in Succ(g, v) <==> EdgeAmong(ids, rows, v, u)
  }

  lemma {:induction false} CyclesRepresented(g: map<int, seq<int>>, rows: seq<Dependency>)
    requires Represents(g, rows)
    ensures Cyclic(rows) <==> HasCycle(g)
  {
    if Cyclic(rows) {
      var p :| ClosedChain(rows, p);
      assert IsWalkBetween(g, p, p[0], p[0]);
      assert OnCycle(g, p[0]);
    }
    if HasCycle(g) {
      var p := CycleWitness(g);
      assert ClosedChain(rows, p);
    }
  }

  lemma {:induction false} CyclesRepresentedAmong(g: map<int, seq<int>>, ids: seq<int>, rows: seq<Dependency>)
    requires RepresentsAmong(g, ids, rows)
    ensures CycleAmong(ids, rows) <==> HasCycle(g)
  {
    if CycleAmong(ids, rows) {
      var p :| ClosedChainAmong(ids, rows, p);
      assert IsWalkBetween(g, p, p[0], p[0]);
      assert OnCycle(g, p[0]);
    }
    if HasCycle(g) {
      var p := CycleWitness(g);
      assert ClosedChainAmong(ids, rows, p);
    }
  }

  lemma {:induction false} RowAdded(g: map<int, seq<int>>, rows: seq<Dependency>, row: Dependency)
    requires Represents(g, rows)
    ensures Represents(g[row.taskId := Succ(g, row.taskId) + [row.dependsOn]], rows + [row])
  {
    var g' := g[row.taskId := Succ(g, row.taskId) + [row.dependsOn]];
    forall v, u
      ensures u in Succ(g', v) <==> Dependency(v, u) in rows + [row]
    {
      assert u in Succ(g, v) <==> Dependency(v, u) in rows;
    }
  }

  lemma {:induction false} RowAddedAmong(g: map<int, seq<int>>, ids: seq<int>, rows: seq<Dependency>, row: Dependency)
    requires RepresentsAmong(g, ids, rows)
    ensures EdgeAmong(ids, rows + [row], row.taskId, row.dependsOn)
      ==> RepresentsAmong(g[row.taskId := Succ(g, row.taskId) + [row.dependsOn]], ids, rows + [row])
    ensures !EdgeAmong(ids, rows + [row], row.taskId, row.dependsOn) ==> RepresentsAmong(g, ids, rows + [row])
  {
    var g' := g[row.taskId := Succ(g, row.taskId) + [row.dependsOn]];
    forall v, u
      ensures EdgeAmong(ids, rows + [row], v, u)
        <==> EdgeAmong(ids, rows, v, u) || (v in ids && u in ids && v == row.taskId && u == row.dependsOn)
    {
    }
    forall v, u
      ensures u in Succ(g', v) <==> u in Succ(g, v) || (v == row.taskId && u == row.dependsOn)
    {
    }
  }

  /** True exactly when the rows between the given tasks contain a directed cycle. */
  method HasDependencyCycle(taskIds: seq<int>, rows: seq<Dependency>) returns (cyclic: bool)
    ensures cyclic <==> CycleAmong(taskIds, rows)
  {
    var graph: map<int, seq<int>> := map[];
    for i := 0 to |taskIds|
      invariant graph == map id | id in taskIds[..i] :: []
    {
      graph := graph[taskIds[i] := []];
    }
    for i := 0 to |rows|
      invariant graph.Keys == Range(taskIds)
      invariant RepresentsAmong(graph, taskIds, rows[..i])
    {
      var row := rows[i];
      assert rows[..i + 1] == rows[..i] + [row];
      RowAddedAmong(graph, taskIds, rows[..i], row);
      if row.taskId in taskIds && row.dependsOn in taskIds {
        graph := graph[row.taskId := graph[row.taskId] + [row.dependsOn]];
      }
    }
    assert rows[..|rows|] == rows;
    CyclesRepresentedAmong(graph, taskIds, rows);

    var search := new Search(graph);
    for i := 0 to |taskIds|
      invariant fresh(search) && search.graph == graph && search.Valid() && search.visiting == {}
      invariant forall j :: 0 <= j < i ==> !ReachesCycle(graph, taskIds[j])
    {
      var found := search.Visit(taskIds[i], []);
      if found {
        return true;
      }
    }
    NoCycleFromKeys(graph, taskIds);
    return false;
  }

  /** The graph of all rows with its keys in insertion order, or None at the first invalid id. */
  method BuildGraph(rows: seq<Dependency>) returns (valid: bool, graph: map<int, seq<int>>, keys: seq<int>)
    ensures valid <==> forall row :: row in rows ==> row.taskId >= 1 && row.dependsOn >= 1
    ensures valid ==> Represents(graph, rows)
    ensures graph.Keys == Range(keys)
  {
    graph, keys := map[], [];
    for i := 0 to |rows|
      invariant graph.Keys == Range(keys)
      invariant Represents(graph, rows[..i])
      invariant forall row :: row in rows[..i] ==> row.taskId >= 1 && row.dependsOn >= 1
    {
      var row := rows[i];
      assert rows[..i + 1] == rows[..i] + [row];
      if row.taskId < 1 || row.dependsOn < 1 {
        return false, graph, keys;
      }
      if row.taskId !in graph {
        keys := keys + [row.taskId];
      }
      RowAdded(graph, rows[..i], row);
      graph := graph[row.taskId := Succ(graph, row.taskId) + [row.dependsOn]];
    }
    assert rows[..|rows|] == rows;
    valid := true;
  }

  /** The assertion throws for a non-positive id and otherwise exactly when the rows are cyclic. */
  method AssertDependencyGraphAcyclic(rows: seq<Dependency>) returns (check: AcyclicityCheck)
    ensures check == InvalidId <==> exists row :: row in rows && (row.taskId < 1 || row.dependsOn < 1)
    ensures check == CycleFound ==> Cyclic(rows)
    ensures check == Acyclic ==> !Cyclic(rows)
  {
    var valid, graph, keys := BuildGraph(rows);
    if !valid {
      return InvalidId;
    }
    CyclesRepresented(graph, rows);
    var search := new Search(graph);
    for i := 0 to |keys|
      invariant fresh(search) && search.graph == graph && search.Valid() && search.visiting == {}
      invariant forall j :: 0 <= j < i ==> !ReachesCycle(graph, keys[j])
    {
      var found := search.Visit(keys[i], []);
      if found {
        return CycleFound;
      }
    }
    NoCycleFromKeys(graph, keys);
    return Acyclic;
  }

  /** The run-local check never reports more than the global one, and a cycle that only the global
      one reports leaves the run; with internal rows only, the two agree. */
  lemma {:induction false} ChecksAgree(ids: seq<int>, rows: seq<Dependency>)
    ensures CycleAmong(ids, rows) ==> Cyclic(rows)
    ensures (forall row :: row in rows ==> row.taskId in ids && row.dependsOn in ids)
      ==> (CycleAmong(ids, rows) <==> Cyclic(rows))
    ensures Cyclic(rows) && !CycleAmong(ids, rows)
      ==> forall p :: ClosedChain(rows, p) ==> exists x :: x in p && x !in ids
  {
    if CycleAmong(ids, rows) {
      var p :| ClosedChainAmong(ids, rows, p);
      assert ClosedChain(rows, p);
    }
    forall p | ClosedChain(rows, p) && (forall x :: x in p ==> x in ids)
      ensures CycleAmong(ids, rows)
    {
      assert ClosedChainAmong(ids, rows, p);
    }
    if forall row :: row in rows ==> row.taskId in ids && row.dependsOn in ids {
      forall p, x | ClosedChain(rows, p) && x in p
        ensures x in ids
      {
        var i :| 0 <= i < |p| && p[i] == x;
        if i < |p| - 1 {
          assert Dependency(p[i], p[i + 1]) in rows;
        } else {
          assert Dependency(p[0], p[1]) in rows;
        }
      }
    }
  }
}
