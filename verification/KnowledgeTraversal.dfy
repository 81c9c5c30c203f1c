/** The bounded breadth-first traversal of the knowledge graph. */
module KnowledgeTraversal {
  import opened Collections
  import opened Graphs
  import opened KnowledgeEdges

  datatype Reached = Reached(id: int, depth: nat)

  datatype TraversalResult = StartNotFound | Traversal(nodes: seq<Reached>, edges: seq<GraphEdge>)

  function Clamp(value: int, low: int, high: int): int {
    var raised := if value < low then low else value;
    if raised > high then high else raised
  }

  /** A requested depth from 0 to 12 is taken as it is; the nearest of these otherwise, and 3 if absent. */
  function DepthBound(requested: Option<int>): (bound: nat)
    ensures requested.None? ==> bound == 3
    ensures requested.Some? && requested.value < 0 ==> bound == 0
    ensures requested.Some? && 0 <= requested.value <= 12 ==> bound == requested.value
    ensures requested.Some? && requested.value > 12 ==> bound == 12
  {
    Clamp(if requested.Some? then requested.value else 3, 0, 12)
  }

  /** The same for the number of nodes: 1 to 500, and 100 if absent. */
  function SizeBound(requested: Option<int>): (bound: nat)
    ensures requested.None? ==> bound == 100
    ensures requested.Some? && requested.value < 1 ==> bound == 1
    ensures requested.Some? && 1 <= requested.value <= 500 ==> bound == requested.value
    ensures requested.Some? && requested.value > 500 ==> bound == 500
  {
    Clamp(if requested.Some? then requested.value else 100, 1, 500)
  }

  /** A directed walk with exactly `k` edges. */
  ghost predicate WalkOfLength(g: map<int, seq<int>>, v: int, w: int, k: nat) {
    exists p :: IsWalkBetween(g, p, v, w) && |p| == k + 1
  }

  /** The length of a shortest directed walk. */
  ghost predicate DistanceIs(g: map<int, seq<int>>, v: int, w: int, d: nat) {
    WalkOfLength(g, v, w, d) && forall k: nat :: k < d ==> !WalkOfLength(g, v, w, k)
  }

  lemma {:induction false} WalkExtends(g: map<int, seq<int>>, v: int, w: int, u: int, k: nat)
    requires WalkOfLength(g, v, w, k) && u in Succ(g, w)
    ensures WalkOfLength(g, v, u, k + 1)
  {
    var p :| IsWalkBetween(g, p, v, w) && |p| == k + 1;
    assert IsWalkBetween(g, p + [u], v, u);
  }

  lemma {:induction false} WalkShrinks(g: map<int, seq<int>>, v: int, w: int, k: nat) returns (u: int)
    requires WalkOfLength(g, v, w, k + 1)
    ensures WalkOfLength(g, v, u, k) && w in Succ(g, u)
  {
    var p :| IsWalkBetween(g, p, v, w) && |p| == k + 2;
    u := p[k];
    WalkSlice(g, p, 0, k);
    assert IsWalkBetween(g, p[..k + 1], v, u) by {
      assert p[0..k + 1] == p[..k + 1];
    }
  }

  /** The found nodes: distinct, nearest first, each with its exact distance. */
  ghost predicate FoundExactly(g: map<int, seq<int>>, start: int, found: seq<Reached>, maxDepth: nat) {
    && |found| > 0 && found[0] == Reached(start, 0)
    && (forall i, j :: 0 <= i < j < |found| ==> found[i].id != found[j].id && found[i].depth <= found[j].depth)
    && (forall i :: 0 <= i < |found| ==> found[i].depth <= maxDepth && DistanceIs(g, start, found[i].id, found[i].depth))
  }

  predicate Has(found: seq<Reached>, id: int) {
    exists i :: 0 <= i < |found| && found[i].id == id
  }

  /** The first `head` found nodes were expanded: their successors are found too. */
  ghost predicate Expanded(g: map<int, seq<int>>, found: seq<Reached>, head: nat, maxDepth: nat) {
    forall i, u :: 0 <= i < head && i < |found| && found[i].depth < maxDepth && u in Succ(g, found[i].id) ==> Has(found, u)
  }

  /** Whatever lies within distance `k` was found, as long as all nearer nodes were expanded. */
  lemma {:induction false} NearNodesFound(
      g: map<int, seq<int>>, start: int, found: seq<Reached>, head: nat, maxDepth: nat, w: int, k: nat)
    requires FoundExactly(g, start, found, maxDepth) && head <= |found| && Expanded(g, found, head, maxDepth)
    requires head < |found| ==> k <= found[head].depth
    requires k <= maxDepth && WalkOfLength(g, start, w, k)
    ensures Has(found, w)
    decreases k
  {
    if k == 0 {
      assert found[0].id == start;
    } else {
      var u := WalkShrinks(g, start, w, k - 1);
      NearNodesFound(g, start, found, head, maxDepth, u, k - 1);
      var i :| 0 <= i < |found| && found[i].id == u;
      assert found[i].depth <= k - 1;
    }
  }

  lemma {:induction false} HasMonotone(before: seq<Reached>, after: seq<Reached>)
    requires before <= after
    ensures forall x :: Has(before, x) ==> Has(after, x)
  {
    forall x | Has(before, x)
      ensures Has(after, x)
    {
      var i :| 0 <= i < |before| && before[i].id == x;
      assert after[i].id == x;
    }
  }

  lemma {:induction false} AppendKeepsExpanded(g: map<int, seq<int>>, found: seq<Reached>, head: nat, maxDepth: nat, extra: Reached)
    requires Expanded(g, found, head, maxDepth) && head <= |found|
    ensures Expanded(g, found + [extra], head, maxDepth)
  {
    forall i, u | 0 <= i < head && found[i].depth < maxDepth && u in Succ(g, found[i].id)
      ensures Has(found + [extra], u)
    {
      assert Has(found, u);
      HasMonotone(found, found + [extra]);
    }
  }

  lemma {:induction false} UnseenTargetDistance(
      g: map<int, seq<int>>, start: int, found: seq<Reached>, head: nat, maxDepth: nat, u: int)
    requires FoundExactly(g, start, found, maxDepth) && head < |found| && Expanded(g, found, head, maxDepth)
    requires found[head].depth < maxDepth && u in Succ(g, found[head].id) && !Has(found, u)
    ensures DistanceIs(g, start, u, found[head].depth + 1)
  {
    WalkExtends(g, start, found[head].id, u, found[head].depth);
    forall k: nat | k < found[head].depth + 1
      ensures !WalkOfLength(g, start, u, k)
    {
      if WalkOfLength(g, start, u, k) {
        NearNodesFound(g, start, found, head, maxDepth, u, k);
      }
    }
  }

  lemma {:induction false} AppendFound(g: map<int, seq<int>>, start: int, found: seq<Reached>, maxDepth: nat, extra: Reached)
    requires FoundExactly(g, start, found, maxDepth) && !Has(found, extra.id)
    requires found[|found| - 1].depth <= extra.depth <= maxDepth && DistanceIs(g, start, extra.id, extra.depth)
    ensures FoundExactly(g, start, found + [extra], maxDepth)
  {
    assert forall i :: 0 <= i < |found| ==> found[i].id != extra.id && found[i].depth <= found[|found| - 1].depth;
  }

  /** One node is taken from the queue and its unseen successors are found one level further out. */
  method Expand(ghost g: map<int, seq<int>>, ghost start: int, found: seq<Reached>, head: nat, ghost maxDepth: nat, limit: nat, targets: seq<int>)
    returns (found': seq<Reached>)
    requires FoundExactly(g, start, found, maxDepth) && head < |found| < limit && Expanded(g, found, head, maxDepth)
    requires found[|found| - 1].depth <= found[head].depth + 1
    requires found[head].depth < maxDepth && targets == Succ(g, found[head].id)
    ensures found <= found' && |found'| <= limit && FoundExactly(g, start, found', maxDepth)
    ensures found'[|found'| - 1].depth <= found[head].depth + 1
    ensures |found'| < limit ==> Expanded(g, found', head + 1, maxDepth)
  {
    found' := found;
    for i := 0 to |targets|
      invariant found <= found' && |found'| <= limit && FoundExactly(g, start, found', maxDepth)
      invariant found'[|found'| - 1].depth <= found[head].depth + 1
      invariant Expanded(g, found', head, maxDepth)
      invariant |found'| < limit ==> forall j :: 0 <= j < i ==> Has(found', targets[j])
    {
      var u := targets[i];
      if !Has(found', u) && |found'| < limit {
        var extra := Reached(u, found[head].depth + 1);
        HasMonotone(found, found');
        UnseenTargetDistance(g, start, found, head, maxDepth, u);
        AppendFound(g, start, found', maxDepth, extra);
        AppendKeepsExpanded(g, found', head, maxDepth, extra);
        HasMonotone(found', found' + [extra]);
        found' := found' + [extra];
        assert found'[|found'| - 1].id == u;
      }
    }
  }

  /** Everything within the depth bound was found. */
  ghost predicate CompleteWithin(g: map<int, seq<int>>, start: int, found: seq<Reached>, maxDepth: nat) {
    forall v, k: nat :: k <= maxDepth && WalkOfLength(g, start, v, k) ==> Has(found, v)
  }

  lemma {:induction false} AllExpandedIsComplete(g: map<int, seq<int>>, start: int, found: seq<Reached>, maxDepth: nat)
    requires FoundExactly(g, start, found, maxDepth) && Expanded(g, found, |found|, maxDepth)
    ensures CompleteWithin(g, start, found, maxDepth)
  {
    forall v, k: nat | k <= maxDepth && WalkOfLength(g, start, v, k)
      ensures Has(found, v)
    {
      NearNodesFound(g, start, found, |found|, maxDepth, v, k);
    }
  }

  /** After a cut-off no omitted node is nearer than the last one kept. */
  ghost predicate CutOffFairly(g: map<int, seq<int>>, start: int, found: seq<Reached>, maxDepth: nat, limit: nat) {
    |found| > 0 && (|found| == limit ==>
      forall v, k: nat :: k <= maxDepth && WalkOfLength(g, start, v, k) && !Has(found, v) ==> found[|found| - 1].depth <= k)
  }

  lemma {:induction false} CutOffAfterExpansion(
      g: map<int, seq<int>>, start: int, before: seq<Reached>, head: nat, found: seq<Reached>, maxDepth: nat, limit: nat)
    requires FoundExactly(g, start, before, maxDepth) && head < |before| && Expanded(g, before, head, maxDepth)
    requires before <= found && found[|found| - 1].depth <= before[head].depth + 1
    ensures CutOffFairly(g, start, found, maxDepth, limit)
  {
    forall v, k: nat | k <= maxDepth && WalkOfLength(g, start, v, k) && !Has(found, v)
      ensures found[|found| - 1].depth <= k
    {
      if k <= before[head].depth {
        NearNodesFound(g, start, before, head, maxDepth, v, k);
        HasMonotone(before, found);
      }
    }
  }

  function EdgesWithin(edges: seq<GraphEdge>, found: seq<Reached>): (r: seq<GraphEdge>)
    ensures forall e :: e in r <==> e in edges && Has(found, e.source) && Has(found, e.target)
  {
    if edges == [] then []
    else
      var n := |edges| - 1;
      var front := EdgesWithin(edges[..n], found);
      assert edges == edges[..n] + [edges[n]];
      if Has(found, edges[n].source) && Has(found, edges[n].target) then front + [edges[n]] else front
  }

  lemma {:induction false} OnlyTheStart(g: map<int, seq<int>>, start: int, found: seq<Reached>, maxDepth: nat)
    requires FoundExactly(g, start, found, maxDepth)
    ensures maxDepth == 0 ==> |found| == 1
  {
    forall w | WalkOfLength(g, start, w, 0)
      ensures w == start
    {
      var p :| IsWalkBetween(g, p, start, w) && |p| == 1;
    }
    assert |found| > 1 ==> found[0].id != found[1].id;
  }

  /** Every returned node lies within the depth and carries its exact directed distance from the start.
      Fewer nodes than the size are all nodes within the depth; after a cut-off no omitted node is nearer
      than a returned one. The edges are those between returned nodes. */
  ghost predicate IsTraversal(edges: seq<GraphEdge>, start: int, result: TraversalResult, depth: nat, size: nat) {
    && result.Traversal?
    && FoundExactly(Adjacency(edges), start, result.nodes, depth)
    && |result.nodes| <= size
    && (|result.nodes| < size ==> CompleteWithin(Adjacency(edges), start, result.nodes, depth))
    && CutOffFairly(Adjacency(edges), start, result.nodes, depth, size)
    && result.edges == EdgesWithin(edges, result.nodes)
  }

  lemma {:induction false} TraversalIsAsAsked(edges: seq<GraphEdge>, start: int, result: TraversalResult, maxDepth: Option<int>, limit: Option<int>)
    requires IsTraversal(edges, start, result, DepthBound(maxDepth), SizeBound(limit))
    ensures (maxDepth.Some? && maxDepth.value <= 0) || (limit.Some? && limit.value <= 1) ==> result.nodes == [Reached(start, 0)]
  {
    OnlyTheStart(Adjacency(edges), start, result.nodes, DepthBound(maxDepth));
  }

  /** The traversal keeps to the depth and the size that were asked for, as far as they are allowed. */
  method TraverseGraph(nodeIds: seq<int>, edges: seq<GraphEdge>, start: int, maxDepth: Option<int>, limit: Option<int>)
    returns (result: TraversalResult)
    ensures result.StartNotFound? <==> start !in nodeIds
    ensures result.Traversal? ==> IsTraversal(edges, start, result, DepthBound(maxDepth), SizeBound(limit))
    ensures result.Traversal? && maxDepth.Some? && 0 <= maxDepth.value <= 12 && limit.Some? && 1 <= limit.value <= 500 ==>
      IsTraversal(edges, start, result, maxDepth.value, limit.value)
    ensures result.Traversal? && maxDepth.None? && limit.None? ==> IsTraversal(edges, start, result, 3, 100)
    ensures result.Traversal? && maxDepth.Some? && maxDepth.value > 12 && limit.Some? && limit.value > 500 ==>
      IsTraversal(edges, start, result, 12, 500)
    ensures result.Traversal? && ((maxDepth.Some? && maxDepth.value <= 0) || (limit.Some? && limit.value <= 1)) ==>
      result.nodes == [Reached(start, 0)]
  {
    if start !in nodeIds {
      return StartNotFound;
    }
    ghost var g := Adjacency(edges);
    var depthBound, sizeBound := DepthBound(maxDepth), SizeBound(limit);
    var visited := [Reached(start, 0)];
    var head := 0;
    assert IsWalkBetween(g, [start], start, start);
    assert WalkOfLength(g, start, start, 0);
    assert DistanceIs(g, start, start, 0);
    while head < |visited| && |visited| < sizeBound
      invariant head <= |visited| <= sizeBound
      invariant FoundExactly(g, start, visited, depthBound)
      invariant |visited| < sizeBound ==> Expanded(g, visited, head, depthBound)
      invariant head < |visited| < sizeBound ==> visited[|visited| - 1].depth <= visited[head].depth + 1
      invariant CutOffFairly(g, start, visited, depthBound, sizeBound)
      decreases sizeBound - head
    {
      var current := visited[head];
      if current.depth < depthBound {
        AdjacencyExact(edges, current.id);
        ghost var before := visited;
        visited := Expand(g, start, visited, head, depthBound, sizeBound, Targets(edges, current.id));
        CutOffAfterExpansion(g, start, before, head, visited, depthBound, sizeBound);
      }
      head := head + 1;
    }
    if |visited| < sizeBound {
      AllExpandedIsComplete(g, start, visited, depthBound);
    }
    result := Traversal(visited, EdgesWithin(edges, visited));
    TraversalIsAsAsked(edges, start, result, maxDepth, limit);
  }
}
