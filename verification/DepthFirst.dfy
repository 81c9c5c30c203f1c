/** The three-colour depth-first search that the playbook executor, the research-task validator
    and the chain validator share: all three stop at the first cycle they meet and leave the
    `visiting` marks of the abandoned branch behind. */
module DepthFirst {
  import opened Graphs

  class Search<T(==, !new)> {
    const graph: map<T, seq<T>>
    var visiting: set<T>
    var visited: set<T>
    ghost var order: seq<T>  // visited nodes, in the order in which they were finished

    constructor (graph: map<T, seq<T>>)
      ensures this.graph == graph && visiting == {} && visited == {} && Valid()
    {
      this.graph := graph;
      visiting, visited, order := {}, {}, [];
    }

    ghost predicate Valid()
      reads this
    {
      && visiting !! visited
      && visited == Range(order)
      && Ordered(graph, order)
    }

    /** Marks that are still open belong to the current branch or to a node that leads to a cycle. */
    ghost predicate MarksExplained(branch: seq<T>)
      reads this
    {
      forall v :: v in visiting ==> v in branch || ReachesCycle(graph, v)
    }

    /** Reports whether `id` leads to a cycle, whatever earlier calls left behind. */
    method Visit(id: T, ghost branch: seq<T>) returns (cyclic: bool)
      requires Valid() && MarksExplained(branch)
      requires IsWalk(graph, branch + [id]) && id in Nodes(graph)
      modifies this
      ensures Valid()
      ensures forall v :: v in visiting ==> v in old(visiting) || ReachesCycle(graph, v)
      ensures cyclic <==> ReachesCycle(graph, id)
      ensures visited >= old(visited)
      ensures !cyclic ==> visiting == old(visiting) && id in visited
      decreases Nodes(graph) - visiting - visited
    {
      if id in visiting {
        if id in branch {
          var i :| 0 <= i < |branch| && branch[i] == id;
          WalkSlice(graph, branch + [id], i, |branch|);
          assert OnCycle(graph, id);
          OnCycleReachesCycle(graph, id);
        }
        return true;
      }
      if id in visited {
        OrderedReachesNoCycle(graph, order, id);
        return false;
      }
      visiting := visiting + {id};
      var successors := Succ(graph, id);
      for i := 0 to |successors|
        invariant Valid() && visiting == old(visiting) + {id}
        invariant visited >= old(visited)
        invariant forall s :: s in successors[..i] ==> s in visited
      {
        SuccInNodes(graph, id, successors[i]);
        assert id !in Nodes(graph) - visiting - visited && id in Nodes(graph) - old(visiting) - old(visited);
        assert IsWalk(graph, branch + [id] + [successors[i]]);
        var found := Visit(successors[i], branch + [id]);
        if found {
          ReachesCycleUnfold(graph, id);
          return true;
        }
      }
      visiting := visiting - {id};
      visited := visited + {id};
      OrderedAppend(graph, order, id);
      order := order + [id];
      OrderedReachesNoCycle(graph, order, id);
      return false;
    }
  }
}
