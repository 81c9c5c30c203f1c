/** The edges of the knowledge graph and the adjacency they induce. */
module KnowledgeEdges {
  import opened Collections
  import opened Graphs

  datatype GraphEdge = GraphEdge(source: int, target: int, confidence: Option<int>)

  /** The targets of the edges that leave `v`, in edge order. */
  function Targets(edges: seq<GraphEdge>, v: int): (r: seq<int>)
    ensures forall u :: u in r <==> exists e :: e in edges && e.source == v && e.target == u
  {
    if edges == [] then []
    else
      var n := |edges| - 1;
      var front := Targets(edges[..n], v);
      assert edges == edges[..n] + [edges[n]];
      if edges[n].source == v then front + [edges[n].target] else front
  }

  function Sources(edges: seq<GraphEdge>): set<int> {
    set e | e in edges :: e.source
  }

  function Ends(edges: seq<GraphEdge>): set<int> {
    set e | e in edges :: e.target
  }

  /** The graph that an edge list describes. */
  function Adjacency(edges: seq<GraphEdge>): map<int, seq<int>> {
    map v | v in Sources(edges) :: Targets(edges, v)
  }

  lemma {:induction false} AdjacencyExact(edges: seq<GraphEdge>, v: int)
    ensures Succ(Adjacency(edges), v) == Targets(edges, v)
  {
    var targets := Targets(edges, v);
    assert |targets| > 0 ==> targets[0] in targets;
  }
}
