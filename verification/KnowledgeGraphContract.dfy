/** The integrity report over the knowledge graph: orphans, nodes that lead to a cycle, and weak edges. */
module KnowledgeGraphContract {
  import opened Collections
  import opened Graphs
  import opened KnowledgeEdges
  import opened Sorting

  datatype Analysis =
    | UnknownEndpoint
    | Report(nodeCount: nat, edgeCount: nat, orphanNodeIds: seq<int>, cycleNodeIds: seq<int>,
             lowConfidenceEdges: nat, integrity: bool)

  class Walker {
    const adjacency: map<int, seq<int>>
    var visiting: set<int>
    var visited: set<int>
    var cycleNodes: set<int>

    constructor (adjacency: map<int, seq<int>>)
      ensures this.adjacency == adjacency && visiting == {} && visited == {} && cycleNodes == {} && Valid()
    {
      this.adjacency := adjacency;
      visiting, visited, cycleNodes := {}, {}, {};
    }

    /** Only nodes that lead to a cycle are marked, and every finished node that does is marked. */
    ghost predicate Valid()
      reads this
    {
      && visiting !! visited
      && (forall v :: v in cycleNodes ==> ReachesCycle(adjacency, v))
      && (forall v :: v in visited && ReachesCycle(adjacency, v) ==> v in cycleNodes)
    }

    method Walk(id: int, ghost branch: seq<int>)
      requires Valid() && visiting == Range(branch)
      requires IsWalk(adjacency, branch + [id])
      modifies this
      ensures Valid() && visiting == old(visiting)
      ensures visited >= old(visited) && cycleNodes >= old(cycleNodes)
      ensures id in visited || id in visiting
      ensures id in cycleNodes <==> ReachesCycle(adjacency, id)
      decreases Nodes(adjacency) + {id} - visiting - visited
    {
      if id in visiting {
        ghost var i :| 0 <= i < |branch| && branch[i] == id;
        WalkSlice(adjacency, branch + [id], i, |branch|);
        assert OnCycle(adjacency, id);
        OnCycleReachesCycle(adjacency, id);
        cycleNodes := cycleNodes + {id};
        return;
      }
      if id in visited {
        return;
      }
      visiting := visiting + {id};
      var targets := Succ(adjacency, id);
      for i := 0 to |targets|
        invariant Valid() && visiting == old(visiting) + {id}
        invariant visited >= old(visited) && cycleNodes >= old(cycleNodes)
        invariant forall j :: 0 <= j < i && ReachesCycle(adjacency, targets[j]) ==> id in cycleNodes
      {
        var next := targets[i];
        SuccInNodes(adjacency, id, next);
        assert id !in Nodes(adjacency) + {next} - visiting - visited && id in Nodes(adjacency) + {id} - old(visiting) - old(visited);
        Walk(next, branch + [id]);
        if next in cycleNodes {
          ReachesCycleUnfold(adjacency, id);
          cycleNodes := cycleNodes + {id};
        }
      }
      ReachesCycleUnfold(adjacency, id);
      visiting := visiting - {id};
      visited := visited + {id};
    }
  }

  predicate StrictlyAscending(s: seq<int>) {
    forall i, j :: 0 <= i < j < |s| ==> s[i] < s[j]
  }

  function Less(): (int, int) -> bool {
    (a: int, b: int) => a < b
  }

  method Sorted(values: set<int>) returns (r: seq<int>)
    ensures StrictlyAscending(r) && Range(r) == values
  {
    r := [];
    var left := values;
    while left != {}
      invariant StrictlyOrdered(Less(), r) && Range(r) == values - left && left <= values
      decreases left
    {
      ghost var some := SomeElement(left);
      var x :| x in left;
      assert x !in Range(r);
      InsertIsStrict(Less(), x, r);
      r := InsertBy(Less(), x, r);
      left := left - {x};
    }
    forall i, j | 0 <= i < j < |r|
      ensures r[i] < r[j]
    {
      assert Less()(r[i], r[j]);
    }
  }

  function Orphans(nodeIds: seq<int>, edges: seq<GraphEdge>): (r: seq<int>)
    ensures forall id :: id in r <==> id in nodeIds && forall e :: e in edges ==> e.source != id && e.target != id
  {
    if nodeIds == [] then []
    else
      var n := |nodeIds| - 1;
      assert nodeIds == nodeIds[..n] + [nodeIds[n]];
      var front := Orphans(nodeIds[..n], edges);
      if nodeIds[n] in Sources(edges) || nodeIds[n] in Ends(edges) then front else front + [nodeIds[n]]
  }

  predicate IsWeak(e: GraphEdge) {
    (if e.confidence.Some? then e.confidence.value else 100) < 60
  }

  function CountWeak(edges: seq<GraphEdge>): nat {
    if edges == [] then 0
    else CountWeak(edges[..|edges| - 1]) + (if IsWeak(edges[|edges| - 1]) then 1 else 0)
  }

  /** Weak are the edges with a confidence below 60; an absent one counts as 100. */
  lemma {:induction false} WeakEdges(edges: seq<GraphEdge>)
    ensures CountWeak(edges) == |set i | 0 <= i < |edges| && edges[i].confidence.Some? && edges[i].confidence.value < 60|
  {
    var weak := set i | 0 <= i < |edges| && edges[i].confidence.Some? && edges[i].confidence.value < 60;
    if edges == [] {
      assert weak == {};
    } else {
      var n := |edges| - 1;
      var front := edges[..n];
      WeakEdges(front);
      var before := set i | 0 <= i < n && front[i].confidence.Some? && front[i].confidence.value < 60;
      assert weak == before + if n in weak then {n} else {};
    }
  }

  method BuildAdjacency(edges: seq<GraphEdge>) returns (adjacency: map<int, seq<int>>)
    ensures adjacency == Adjacency(edges)
  {
    adjacency := map[];
    for i := 0 to |edges|
      invariant adjacency == Adjacency(edges[..i])
    {
      AdjacencyGrows(edges[..i], edges[i]);
      assert edges[..i + 1] == edges[..i] + [edges[i]];
      adjacency := adjacency[edges[i].source := Succ(adjacency, edges[i].source) + [edges[i].target]];
    }
    assert edges[..|edges|] == edges;
  }

  /** Walks every node; the marked nodes are exactly those that lead to a cycle. */
  method FindCycleNodes(nodeIds: seq<int>, adjacency: map<int, seq<int>>) returns (cycleNodes: set<int>)
    requires Nodes(adjacency) <= Range(nodeIds)
    ensures forall id :: id in cycleNodes <==> id in nodeIds && ReachesCycle(adjacency, id)
  {
    var walker := new Walker(adjacency);
    for i := 0 to |nodeIds|
      invariant fresh(walker) && walker.adjacency == adjacency && walker.Valid() && walker.visiting == {}
      invariant forall j :: 0 <= j < i ==> nodeIds[j] in walker.visited
    {
      walker.Walk(nodeIds[i], []);
    }
    cycleNodes := walker.cycleNodes;
    assert forall id :: id in nodeIds && ReachesCycle(adjacency, id) ==> id in cycleNodes;
    forall id | ReachesCycle(adjacency, id)
      ensures id in nodeIds
    {
      ReachesCycleUnfold(adjacency, id);
    }
  }

  /** `cycleNodeIds` lists, in ascending order, exactly the nodes that lead to a cycle, so
      `integrity` holds exactly for acyclic graphs. */
  method AnalyzeKnowledgeGraph(nodeIds: seq<int>, edges: seq<GraphEdge>) returns (analysis: Analysis)
    ensures analysis.UnknownEndpoint? <==> exists e :: e in edges && (e.source !in nodeIds || e.target !in nodeIds)
    ensures analysis.Report? ==>
      && StrictlyAscending(analysis.cycleNodeIds)
      && (forall id :: id in analysis.cycleNodeIds <==> id in nodeIds && ReachesCycle(Adjacency(edges), id))
      && (analysis.integrity <==> !HasCycle(Adjacency(edges)))
      && analysis.orphanNodeIds == Orphans(nodeIds, edges)
      && analysis.nodeCount == |nodeIds| && analysis.edgeCount == |edges|
      && analysis.lowConfidenceEdges == |set i | 0 <= i < |edges| && edges[i].confidence.Some? && edges[i].confidence.value < 60|
  {
    if exists e :: e in edges && (e.source !in nodeIds || e.target !in nodeIds) {
      return UnknownEndpoint;
    }
    var adjacency := BuildAdjacency(edges);
    NodesAreListed(nodeIds, edges);
    var cycleNodes := FindCycleNodes(nodeIds, adjacency);
    var cycleNodeIds := Sorted(cycleNodes);
    assert forall id :: id in cycleNodeIds <==> id in Range(cycleNodeIds);
    CyclePresence(adjacency, nodeIds, cycleNodes);
    WeakEdges(edges);
    analysis := Report(|nodeIds|, |edges|, Orphans(nodeIds, edges), cycleNodeIds, CountWeak(edges), cycleNodes == {});
  }

  lemma {:induction false} AdjacencyGrows(edges: seq<GraphEdge>, e: GraphEdge)
    ensures Adjacency(edges + [e])
      == Adjacency(edges)[e.source := Succ(Adjacency(edges), e.source) + [e.target]]
  {
    var longer := edges + [e];
    assert longer[..|edges|] == edges;
    assert Sources(longer) == Sources(edges) + {e.source};
    AdjacencyExact(edges, e.source);
  }

  lemma {:induction false} NodesAreListed(nodeIds: seq<int>, edges: seq<GraphEdge>)
    requires forall e :: e in edges ==> e.source in nodeIds && e.target in nodeIds
    ensures Nodes(Adjacency(edges)) <= Range(nodeIds)
  {
  }

  lemma {:induction false} CyclePresence(g: map<int, seq<int>>, nodeIds: seq<int>, marked: set<int>)
    requires g.Keys <= Range(nodeIds)
    requires forall id :: id in marked <==> id in nodeIds && ReachesCycle(g, id)
    ensures marked == {} <==> !HasCycle(g)
  {
    if marked == {} {
      forall i | 0 <= i < |nodeIds|
        ensures !ReachesCycle(g, nodeIds[i])
      {
        var id := nodeIds[i];
        assert id in nodeIds && id !in marked;
      }
      NoCycleFromKeys(g, nodeIds);
    } else {
      var id := SomeElement(marked);
      CycleFromReach(g, id);
    }
  }
}
