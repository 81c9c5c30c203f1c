/** Execution chains: the validator with its cycle report, and the planner that cuts a valid chain
    into waves. */
module ChainEngine {
  import opened Graphs
  import opened DepthFirst

  datatype NodeType = Module | Action | Condition | Foreach | While | Parallel | Merge | Sleep | Subchain

  datatype Iterations = Unset | Bound(limit: real)

  datatype ChainNode = ChainNode(id: string, kind: NodeType, dependsOn: seq<string>, maxIterations: Iterations)

  datatype ChainError =
    | DuplicateOrEmptyNode(id: string)
    | MissingDependency(id: string, dependency: string)
    | BoundedIterationRequired(id: string)
    | CycleDetected(id: string)

  datatype PlanResult =
    | Plan(waves: seq<seq<ChainNode>>)
    | InvalidChain(errors: seq<ChainError>)
    | UnableToPlan

  function Ids(nodes: seq<ChainNode>): (ids: set<string>) {
    set node | node in nodes :: node.id
  }

  /** The `Map` built from the node list: a repeated id keeps its last definition. */
  function ById(nodes: seq<ChainNode>): (g: map<string, seq<string>>)
    ensures g.Keys == Ids(nodes)
  {
    if nodes == [] then map[]
    else
      var n := |nodes| - 1;
      assert nodes == nodes[..n] + [nodes[n]];
      ById(nodes[..n])[nodes[n].id := nodes[n].dependsOn]
  }

  predicate IterationUnbounded(node: ChainNode) {
    && (node.kind == Foreach || node.kind == While)
    && (node.maxIterations == Unset || node.maxIterations.limit < 1.0 || node.maxIterations.limit > 1000.0)
  }

  function MissingErrors(id: string, dependsOn: seq<string>, known: set<string>): seq<ChainError> {
    if dependsOn == [] then []
    else
      var n := |dependsOn| - 1;
      var front := MissingErrors(id, dependsOn[..n], known);
      if dependsOn[n] in known then front else front + [MissingDependency(id, dependsOn[n])]
  }

  function NodeErrors(node: ChainNode, seen: set<string>, known: set<string>): seq<ChainError> {
    (if node.id == "" || node.id in seen then [DuplicateOrEmptyNode(node.id)] else [])
    + MissingErrors(node.id, node.dependsOn, known)
    + (if IterationUnbounded(node) then [BoundedIterationRequired(node.id)] else [])
  }

  function StructuralErrors(nodes: seq<ChainNode>, known: set<string>): seq<ChainError> {
    if nodes == [] then []
    else
      var n := |nodes| - 1;
      StructuralErrors(nodes[..n], known) + NodeErrors(nodes[n], Ids(nodes[..n]), known)
  }

  /** One entry per listed node that leads to a cycle, in list order. */
  ghost function CycleErrors(g: map<string, seq<string>>, nodes: seq<ChainNode>): seq<ChainError> {
    if nodes == [] then []
    else
      var n := |nodes| - 1;
      var front := CycleErrors(g, nodes[..n]);
      if ReachesCycle(g, nodes[n].id) then front + [CycleDetected(nodes[n].id)] else front
  }

  method CheckDependencies(nodes: seq<ChainNode>, node: ChainNode) returns (errors: seq<ChainError>)
    ensures errors == MissingErrors(node.id, node.dependsOn, Ids(nodes))
  {
    errors := [];
    for j := 0 to |node.dependsOn|
      invariant errors == MissingErrors(node.id, node.dependsOn[..j], Ids(nodes))
    {
      assert node.dependsOn[..j + 1][..j] == node.dependsOn[..j];
      if !exists candidate :: candidate in nodes && candidate.id == node.dependsOn[j] {
        errors := errors + [MissingDependency(node.id, node.dependsOn[j])];
      }
    }
    assert node.dependsOn[..|node.dependsOn|] == node.dependsOn;
  }

  method CheckNode(nodes: seq<ChainNode>, node: ChainNode, ids: set<string>) returns (errors: seq<ChainError>)
    ensures errors == NodeErrors(node, ids, Ids(nodes))
  {
    errors := if node.id == "" || node.id in ids then [DuplicateOrEmptyNode(node.id)] else [];
    var missing := CheckDependencies(nodes, node);
    errors := errors + missing;
    if IterationUnbounded(node) {
      errors := errors + [BoundedIterationRequired(node.id)];
    }
  }

  /** The report is exactly the structural errors followed by one `cycle_detected` entry for each
      listed node that leads to a cycle. */
  method ValidateChainDefinition(nodes: seq<ChainNode>) returns (errors: seq<ChainError>)
    ensures errors == StructuralErrors(nodes, Ids(nodes)) + CycleErrors(ById(nodes), nodes)
  {
    var ids: set<string> := {};
    errors := [];
    for i := 0 to |nodes|
      invariant ids == Ids(nodes[..i])
      invariant errors == StructuralErrors(nodes[..i], Ids(nodes))
    {
      assert nodes[..i + 1][..i] == nodes[..i];
      var found := CheckNode(nodes, nodes[i], ids);
      errors := errors + found;
      ids := ids + {nodes[i].id};
      assert nodes[..i + 1] == nodes[..i] + [nodes[i]];
    }
    assert nodes[..|nodes|] == nodes;

    var cycles := ReportCycles(nodes);
    errors := errors + cycles;
  }

  method ReportCycles(nodes: seq<ChainNode>) returns (errors: seq<ChainError>)
    ensures errors == CycleErrors(ById(nodes), nodes)
  {
    errors := [];
    var byId := ById(nodes);
    var search := new Search(byId);
    for i := 0 to |nodes|
      invariant fresh(search) && search.graph == byId && search.Valid() && search.MarksExplained([])
      invariant errors == CycleErrors(byId, nodes[..i])
    {
      assert nodes[..i + 1][..i] == nodes[..i];
      assert nodes[i].id in byId;
      var cyclic := search.Visit(nodes[i].id, []);
      if cyclic {
        errors := errors + [CycleDetected(nodes[i].id)];
      }
    }
    assert nodes[..|nodes|] == nodes;
  }

  predicate NodeWellFormed(node: ChainNode, known: set<string>) {
    && node.id != ""
    && (forall d :: d in node.dependsOn ==> d in known)
    && (node.kind in {Foreach, While} ==> node.maxIterations.Bound? && 1.0 <= node.maxIterations.limit <= 1000.0)
  }

  predicate AllWellFormed(nodes: seq<ChainNode>, known: set<string>) {
    forall i :: 0 <= i < |nodes| ==> NodeWellFormed(nodes[i], known)
  }

  predicate UniqueIds(nodes: seq<ChainNode>) {
    forall i, j :: 0 <= i < j < |nodes| ==> nodes[i].id != nodes[j].id
  }

  /** What a clean report means, said without the validator. */
  ghost predicate WellFormed(nodes: seq<ChainNode>) {
    AllWellFormed(nodes, Ids(nodes)) && UniqueIds(nodes) && !HasCycle(ById(nodes))
  }

  /** A node is reported as `cycle_detected` exactly when it leads to a cycle. */
  lemma {:induction false} CycleErrorsExact(g: map<string, seq<string>>, nodes: seq<ChainNode>)
    ensures forall e ::
      e in CycleErrors(g, nodes) <==> e.CycleDetected? && e.id in Ids(nodes) && ReachesCycle(g, e.id)
  {
    if nodes != [] {
      var n := |nodes| - 1;
      CycleErrorsExact(g, nodes[..n]);
      assert nodes == nodes[..n] + [nodes[n]];
      assert Ids(nodes) == Ids(nodes[..n]) + {nodes[n].id};
    }
  }

  lemma {:induction false} MissingErrorsExact(id: string, dependsOn: seq<string>, known: set<string>)
    ensures MissingErrors(id, dependsOn, known) == [] <==> forall d :: d in dependsOn ==> d in known
  {
    if dependsOn != [] {
      var n := |dependsOn| - 1;
      MissingErrorsExact(id, dependsOn[..n], known);
      assert dependsOn == dependsOn[..n] + [dependsOn[n]];
    }
  }

  lemma {:induction false} NodeErrorsExact(node: ChainNode, seen: set<string>, known: set<string>)
    ensures NodeErrors(node, seen, known) == [] <==> NodeWellFormed(node, known) && node.id !in seen
  {
    MissingErrorsExact(node.id, node.dependsOn, known);
  }

  lemma {:induction false} NodesStep(front: seq<ChainNode>, node: ChainNode, known: set<string>)
    ensures AllWellFormed(front + [node], known) <==> AllWellFormed(front, known) && NodeWellFormed(node, known)
    ensures UniqueIds(front + [node]) <==> UniqueIds(front) && node.id !in Ids(front)
  {
    var nodes := front + [node];
    assert nodes[|front|] == node && forall i :: 0 <= i < |front| ==> nodes[i] == front[i];
  }

  lemma {:induction false} StructuralErrorsStep(front: seq<ChainNode>, node: ChainNode, known: set<string>)
    ensures StructuralErrors(front + [node], known) == StructuralErrors(front, known) + NodeErrors(node, Ids(front), known)
  {
    assert (front + [node])[..|front|] == front;
  }

  lemma {:induction false} StructuralErrorsExact(nodes: seq<ChainNode>, known: set<string>)
    ensures StructuralErrors(nodes, known) == [] <==> AllWellFormed(nodes, known) && UniqueIds(nodes)
  {
    if nodes != [] {
      var front, node := nodes[..|nodes| - 1], nodes[|nodes| - 1];
      assert nodes == front + [node];
      StructuralErrorsExact(front, known);
      NodeErrorsExact(node, Ids(front), known);
      StructuralErrorsStep(front, node, known);
      NodesStep(front, node, known);
    }
  }

  /** The report is empty exactly for well-formed chains. */
  lemma {:induction false} CleanReportIff(nodes: seq<ChainNode>)
    ensures StructuralErrors(nodes, Ids(nodes)) + CycleErrors(ById(nodes), nodes) == [] <==> WellFormed(nodes)
  {
    var g := ById(nodes);
    StructuralErrorsExact(nodes, Ids(nodes));
    CycleErrorsExact(g, nodes);
    var report := CycleErrors(g, nodes);
    if report == [] {
      var keys := seq(|nodes|, i requires 0 <= i < |nodes| => nodes[i].id);
      forall i | 0 <= i < |keys|
        ensures !ReachesCycle(g, keys[i])
      {
        assert CycleDetected(keys[i]) !in report;
      }
      forall id | id in g
        ensures id in keys
      {
        var i :| 0 <= i < |nodes| && nodes[i].id == id;
        assert keys[i] == id;
      }
      NoCycleFromKeys(g, keys);
    } else {
      assert report[0] in report;
      CycleFromReach(g, report[0].id);
    }
  }

  /** Each node on the chain depends on the next one, and the last is the first. */
  ghost predicate DependsInCircle(nodes: seq<ChainNode>, p: seq<string>) {
    && |p| >= 2 && p[0] == p[|p| - 1]
    && forall k :: 0 <= k < |p| - 1 ==> Depends(nodes, p[k], p[k + 1])
  }

  predicate Depends(nodes: seq<ChainNode>, id: string, dependency: string) {
    exists i :: 0 <= i < |nodes| && nodes[i].id == id && dependency in nodes[i].dependsOn
  }

  lemma {:induction false} SuccessorIff(nodes: seq<ChainNode>, id: string, dependency: string)
    requires UniqueIds(nodes)
    ensures dependency in Succ(ById(nodes), id) <==> Depends(nodes, id, dependency)
  {
    var g := ById(nodes);
    if Depends(nodes, id, dependency) {
      var i :| 0 <= i < |nodes| && nodes[i].id == id && dependency in nodes[i].dependsOn;
      DefinitionFound(nodes, i);
    }
    if dependency in Succ(g, id) {
      var node :| node in nodes && node.id == id;
      var i :| 0 <= i < |nodes| && nodes[i] == node;
      DefinitionFound(nodes, i);
    }
  }

  /** What the validator accepts, said of the listed nodes alone: distinct ids that are not empty, known
      dependencies, loops bounded by 1 to 1000, and no circle of dependencies. */
  lemma {:induction false} WellFormedIff(nodes: seq<ChainNode>)
    ensures WellFormed(nodes) <==>
      && (forall i :: 0 <= i < |nodes| ==> nodes[i].id != "")
      && (forall i, j :: 0 <= i < j < |nodes| ==> nodes[i].id != nodes[j].id)
      && (forall i, d :: 0 <= i < |nodes| && d in nodes[i].dependsOn ==> exists j :: 0 <= j < |nodes| && nodes[j].id == d)
      && (forall i :: 0 <= i < |nodes| && nodes[i].kind in {Foreach, While} ==>
            nodes[i].maxIterations.Bound? && 1.0 <= nodes[i].maxIterations.limit <= 1000.0)
      && !exists p :: DependsInCircle(nodes, p)
  {
    var g := ById(nodes);
    assert forall d :: d in Ids(nodes) <==> exists j :: 0 <= j < |nodes| && nodes[j].id == d;
    if UniqueIds(nodes) {
      CirclesAreCycles(nodes);
    }
    assert AllWellFormed(nodes, Ids(nodes)) ==> forall i :: 0 <= i < |nodes| ==> NodeWellFormed(nodes[i], Ids(nodes));
  }

  lemma {:induction false} CirclesAreCycles(nodes: seq<ChainNode>)
    requires UniqueIds(nodes)
    ensures HasCycle(ById(nodes)) <==> exists p :: DependsInCircle(nodes, p)
  {
    var g := ById(nodes);
    forall id, d
      ensures d in Succ(g, id) <==> Depends(nodes, id, d)
    {
      SuccessorIff(nodes, id, d);
    }
    if HasCycle(g) {
      var p := CycleWitness(g);
      assert DependsInCircle(nodes, p);
    }
    if p :| DependsInCircle(nodes, p) {
      assert IsWalkBetween(g, p, p[0], p[0]);
      assert OnCycle(g, p[0]);
    }
  }

  // ---------- Planning ----------

  /** The nodes, in list order, whose longest dependency path has `d` edges. */
  ghost function NodesAtDepth(g: map<string, seq<string>>, nodes: seq<ChainNode>, d: nat): seq<ChainNode> {
    if nodes == [] then []
    else
      var n := |nodes| - 1;
      var front := NodesAtDepth(g, nodes[..n], d);
      if DepthIs(g, nodes[n].id, d) then front + [nodes[n]] else front
  }

  /** The values left in the `Map` after the given keys were deleted. */
  function Without(nodes: seq<ChainNode>, deleted: set<string>): seq<ChainNode> {
    if nodes == [] then []
    else
      var n := |nodes| - 1;
      var front := Without(nodes[..n], deleted);
      if nodes[n].id in deleted then front else front + [nodes[n]]
  }

  predicate IsReady(node: ChainNode, completed: set<string>) {
    forall d :: d in node.dependsOn ==> d in completed
  }

  function Ready(nodes: seq<ChainNode>, completed: set<string>): seq<ChainNode> {
    if nodes == [] then []
    else
      var n := |nodes| - 1;
      var front := Ready(nodes[..n], completed);
      if IsReady(nodes[n], completed) then front + [nodes[n]] else front
  }

  /** The completed ids are those whose dependency paths all have fewer than `k` edges. */
  ghost predicate CompletedBelow(g: map<string, seq<string>>, nodes: seq<ChainNode>, completed: set<string>, k: nat) {
    forall id :: id in completed <==> id in Ids(nodes) && Below(g, id, k)
  }

  lemma {:induction false} DefinitionFound(nodes: seq<ChainNode>, i: nat)
    requires i < |nodes| && forall j, k :: 0 <= j < k < |nodes| ==> nodes[j].id != nodes[k].id
    ensures nodes[i].id in ById(nodes) && ById(nodes)[nodes[i].id] == nodes[i].dependsOn
  {
    var n := |nodes| - 1;
    if i < n {
      DefinitionFound(nodes[..n], i);
    }
  }

  lemma {:induction false} WithoutContents(nodes: seq<ChainNode>, deleted: set<string>)
    ensures forall node :: node in Without(nodes, deleted) <==> node in nodes && node.id !in deleted
  {
    if nodes != [] {
      var n := |nodes| - 1;
      WithoutContents(nodes[..n], deleted);
      assert nodes == nodes[..n] + [nodes[n]];
    }
  }

  lemma {:induction false} WithoutSnoc(front: seq<ChainNode>, node: ChainNode, deleted: set<string>)
    ensures Without(front + [node], deleted)
      == if node.id in deleted then Without(front, deleted) else Without(front, deleted) + [node]
  {
    assert (front + [node])[..|front|] == front;
  }

  lemma {:induction false} WithoutTwice(nodes: seq<ChainNode>, first: set<string>, second: set<string>)
    ensures Without(Without(nodes, first), second) == Without(nodes, first + second)
  {
    if nodes != [] {
      var n := |nodes| - 1;
      WithoutTwice(nodes[..n], first, second);
      WithoutSnoc(Without(nodes[..n], first), nodes[n], second);
    }
  }

  lemma {:induction false} WithoutShorter(nodes: seq<ChainNode>, deleted: set<string>, node: ChainNode)
    requires node in nodes && node.id in deleted
    ensures |Without(nodes, deleted)| < |nodes|
  {
    var n := |nodes| - 1;
    WithoutAtMost(nodes[..n], deleted);
    if node in nodes[..n] {
      WithoutShorter(nodes[..n], deleted, node);
    }
  }

  lemma {:induction false} WithoutAtMost(nodes: seq<ChainNode>, deleted: set<string>)
    ensures |Without(nodes, deleted)| <= |nodes|
  {
    if nodes != [] {
      WithoutAtMost(nodes[..|nodes| - 1], deleted);
    }
  }

  lemma {:induction false} ReadySnoc(front: seq<ChainNode>, node: ChainNode, completed: set<string>)
    ensures Ready(front + [node], completed)
      == if IsReady(node, completed) then Ready(front, completed) + [node] else Ready(front, completed)
  {
    assert (front + [node])[..|front|] == front;
  }

  lemma {:induction false} ReadyContents(nodes: seq<ChainNode>, completed: set<string>)
    ensures forall node :: node in Ready(nodes, completed) <==> node in nodes && IsReady(node, completed)
  {
    if nodes != [] {
      var n := |nodes| - 1;
      ReadyContents(nodes[..n], completed);
      assert nodes == nodes[..n] + [nodes[n]];
    }
  }

  lemma {:induction false} NodesAtDepthContents(g: map<string, seq<string>>, nodes: seq<ChainNode>, d: nat)
    ensures forall node :: node in NodesAtDepth(g, nodes, d) <==> node in nodes && DepthIs(g, node.id, d)
  {
    if nodes != [] {
      var n := |nodes| - 1;
      NodesAtDepthContents(g, nodes[..n], d);
      assert nodes == nodes[..n] + [nodes[n]];
    }
  }

  /** A node that is still there becomes ready exactly in the round of its depth. */
  lemma {:induction false} ReadyAtDepth(all: seq<ChainNode>, node: ChainNode, completed: set<string>, k: nat)
    requires WellFormed(all) && node in all && CompletedBelow(ById(all), all, completed, k)
    ensures node.id !in completed && IsReady(node, completed) <==> DepthIs(ById(all), node.id, k)
  {
    var g := ById(all);
    var i :| 0 <= i < |all| && all[i] == node;
    DefinitionFound(all, i);
    assert NodeWellFormed(all[i], Ids(all));
    BelowUnfold(g, node.id, k);
    DepthIsBetween(g, node.id, k);
    assert IsReady(node, completed) <==> forall d :: d in Succ(g, node.id) ==> Below(g, d, k);
  }

  lemma {:induction false} ReadyIsLayer(all: seq<ChainNode>, nodes: seq<ChainNode>, completed: set<string>, k: nat)
    requires WellFormed(all) && CompletedBelow(ById(all), all, completed, k)
    requires forall node :: node in nodes ==> node in all
    ensures Ready(Without(nodes, completed), completed) == NodesAtDepth(ById(all), nodes, k)
  {
    if nodes != [] {
      var n := |nodes| - 1;
      ReadyIsLayer(all, nodes[..n], completed, k);
      ReadyAtDepth(all, nodes[n], completed, k);
      ReadySnoc(Without(nodes[..n], completed), nodes[n], completed);
    }
  }

  /** While nodes remain, one of them is ready: the planner cannot get stuck. */
  lemma {:induction false} SomeNodeReady(all: seq<ChainNode>, completed: set<string>, k: nat)
    requires WellFormed(all) && CompletedBelow(ById(all), all, completed, k)
    requires Without(all, completed) != []
    ensures Ready(Without(all, completed), completed) != []
  {
    var g := ById(all);
    var remaining := Without(all, completed);
    var left := Ids(remaining);
    WithoutContents(all, completed);
    ReadyContents(remaining, completed);
    assert remaining[0] in remaining && remaining[0].id in left;
    AcyclicHasSink(g, left);
    var id :| id in left && !PointsInto(g, id, left);
    var node :| node in remaining && node.id == id;
    var i :| 0 <= i < |all| && all[i] == node;
    DefinitionFound(all, i);
    assert NodeWellFormed(all[i], Ids(all));
    forall d | d in node.dependsOn
      ensures d in completed
    {
      var target :| target in all && target.id == d;
      assert d in Succ(g, id);
      assert target !in remaining;
    }
    assert IsReady(node, completed);
  }

  ghost predicate LayersOf(waves: seq<seq<ChainNode>>, g: map<string, seq<string>>, nodes: seq<ChainNode>) {
    forall k :: 0 <= k < |waves| ==> waves[k] == NodesAtDepth(g, nodes, k) && waves[k] != []
  }

  method DeleteReady(remaining: seq<ChainNode>, completed: set<string>, ready: seq<ChainNode>)
    returns (remaining': seq<ChainNode>, completed': set<string>)
    ensures completed' == completed + Ids(ready)
    ensures remaining' == Without(remaining, Ids(ready))
  {
    remaining', completed' := remaining, completed;
    WithoutNothing(remaining);
    assert Ids(ready[..0]) == {};
    for i := 0 to |ready|
      invariant completed' == completed + Ids(ready[..i])
      invariant remaining' == Without(remaining, Ids(ready[..i]))
    {
      WithoutTwice(remaining, Ids(ready[..i]), {ready[i].id});
      assert ready[..i + 1] == ready[..i] + [ready[i]];
      assert Ids(ready[..i + 1]) == Ids(ready[..i]) + {ready[i].id};
      remaining' := Without(remaining', {ready[i].id});
      completed' := completed' + {ready[i].id};
    }
    assert ready[..|ready|] == ready;
  }

  lemma {:induction false} WithoutNothing(nodes: seq<ChainNode>)
    ensures Without(nodes, {}) == nodes
  {
    if nodes != [] {
      WithoutNothing(nodes[..|nodes| - 1]);
    }
  }

  /** An invalid chain is refused with its report. For every valid chain the planner succeeds: wave
      `k` lists, in definition order, exactly the nodes whose longest dependency path has `k` edges,
      no wave is empty, and every node is in a wave. */
  method PlanChainExecution(nodes: seq<ChainNode>) returns (result: PlanResult)
    ensures result.InvalidChain? <==> !WellFormed(nodes)
    ensures !result.UnableToPlan?
    ensures result.Plan? ==> LayersOf(result.waves, ById(nodes), nodes)
    ensures result.Plan? ==> forall node :: node in nodes ==> Below(ById(nodes), node.id, |result.waves|)
  {
    var errors := ValidateChainDefinition(nodes);
    CleanReportIff(nodes);
    if errors != [] {
      return InvalidChain(errors);
    }
    ghost var g := ById(nodes);
    var remaining := nodes;
    var completed: set<string> := {};
    var waves: seq<seq<ChainNode>> := [];
    WithoutNothing(nodes);
    NothingCompletedYet(nodes);
    while remaining != []
      invariant remaining == Without(nodes, completed)
      invariant CompletedBelow(g, nodes, completed, |waves|)
      invariant LayersOf(waves, g, nodes)
      decreases |remaining|
    {
      var ready := Ready(remaining, completed);
      PlanRound(nodes, completed, |waves|);
      if ready == [] {
        return UnableToPlan;
      }
      LayerAdded(waves, ready, g, nodes);
      waves := waves + [ready];
      remaining, completed := DeleteReady(remaining, completed, ready);
    }
    WithoutContents(nodes, completed);
    return Plan(waves);
  }

  lemma {:induction false} NothingCompletedYet(nodes: seq<ChainNode>)
    ensures CompletedBelow(ById(nodes), nodes, {}, 0)
  {
    forall id
      ensures !Below(ById(nodes), id, 0)
    {
      NeverBelowZero(ById(nodes), id);
    }
  }

  lemma {:induction false} LayerAdded(waves: seq<seq<ChainNode>>, ready: seq<ChainNode>, g: map<string, seq<string>>, nodes: seq<ChainNode>)
    requires LayersOf(waves, g, nodes) && ready == NodesAtDepth(g, nodes, |waves|) && ready != []
    ensures LayersOf(waves + [ready], g, nodes)
  {
  }

  lemma {:induction false} PlanRound(nodes: seq<ChainNode>, completed: set<string>, k: nat)
    requires WellFormed(nodes) && CompletedBelow(ById(nodes), nodes, completed, k)
    requires Without(nodes, completed) != []
    ensures var remaining := Without(nodes, completed);
      var ready := Ready(remaining, completed);
      && ready != [] && ready == NodesAtDepth(ById(nodes), nodes, k)
      && CompletedBelow(ById(nodes), nodes, completed + Ids(ready), k + 1)
      && Without(remaining, Ids(ready)) == Without(nodes, completed + Ids(ready))
      && |Without(remaining, Ids(ready))| < |remaining|
  {
    var remaining := Without(nodes, completed);
    var ready := Ready(remaining, completed);
    SomeNodeReady(nodes, completed, k);
    ReadyIsLayer(nodes, nodes, completed, k);
    CompletedGrows(nodes, completed, k);
    WithoutTwice(nodes, completed, Ids(ready));
    ReadyContents(remaining, completed);
    assert ready[0] in ready;
    WithoutShorter(remaining, Ids(ready), ready[0]);
  }

  lemma {:induction false} CompletedGrows(all: seq<ChainNode>, completed: set<string>, k: nat)
    requires WellFormed(all) && CompletedBelow(ById(all), all, completed, k)
    ensures CompletedBelow(ById(all), all, completed + Ids(NodesAtDepth(ById(all), all, k)), k + 1)
  {
    var g := ById(all);
    var layer := NodesAtDepth(g, all, k);
    NodesAtDepthContents(g, all, k);
    forall id
      ensures id in completed + Ids(layer) <==> id in Ids(all) && Below(g, id, k + 1)
    {
      DepthIsBetween(g, id, k);
      if id in Ids(all) && Below(g, id, k + 1) && !Below(g, id, k) {
        var node :| node in all && node.id == id;
        assert node in layer;
      }
    }
  }

  ghost predicate IsPlan(nodes: seq<ChainNode>, waves: seq<seq<ChainNode>>) {
    && WellFormed(nodes)
    && LayersOf(waves, ById(nodes), nodes)
    && forall node :: node in nodes ==> Below(ById(nodes), node.id, |waves|)
  }

  lemma {:induction false} LongestWalkWithin(g: map<string, seq<string>>, id: string, k: nat)
    requires Below(g, id, k)
    ensures exists d :: 0 <= d < k && DepthIs(g, id, d)
  {
    NeverBelowZero(g, id);
    if Below(g, id, k - 1) {
      LongestWalkWithin(g, id, k - 1);
      var d :| 0 <= d < k - 1 && DepthIs(g, id, d);
      assert 0 <= d < k && DepthIs(g, id, d);
    } else {
      DepthIsBetween(g, id, k - 1);
    }
  }

  /** The waves partition the nodes, and whatever a node depends on is in a strictly earlier wave. */
  lemma {:induction false} PlanIsSchedule(nodes: seq<ChainNode>, waves: seq<seq<ChainNode>>, node: ChainNode) returns (k: nat)
    requires IsPlan(nodes, waves) && node in nodes
    ensures k < |waves| && node in waves[k]
    ensures forall j :: 0 <= j < |waves| && j != k ==> node !in waves[j]
    ensures forall j, other :: 0 <= j < |waves| && other in waves[j] ==> other in nodes
    ensures forall j, d :: 0 <= j < |waves| && d in waves[j] && d.id in node.dependsOn ==> j < k
  {
    var g := ById(nodes);
    LongestWalkWithin(g, node.id, |waves|);
    k :| 0 <= k < |waves| && DepthIs(g, node.id, k);
    forall j | 0 <= j < |waves|
      ensures forall other :: other in waves[j] <==> other in nodes && DepthIs(g, other.id, j)
    {
      NodesAtDepthContents(g, nodes, j);
    }
    var i :| 0 <= i < |nodes| && nodes[i] == node;
    DefinitionFound(nodes, i);
    forall j, d | 0 <= j < |waves| && d in waves[j] && d.id in node.dependsOn
      ensures j < k
    {
      BelowUnfold(g, node.id, k);
      assert Below(g, d.id, k) && d.id in Succ(g, node.id);
    }
  }

  /** A wave lists its nodes in the order of the definition. */
  lemma {:induction false} LayerKeepsOrder(g: map<string, seq<string>>, nodes: seq<ChainNode>, d: nat, i: nat, j: nat) returns (x: nat, y: nat)
    requires i < j < |NodesAtDepth(g, nodes, d)|
    ensures x < y < |nodes| && nodes[x] == NodesAtDepth(g, nodes, d)[i] && nodes[y] == NodesAtDepth(g, nodes, d)[j]
  {
    var n := |nodes| - 1;
    var front := NodesAtDepth(g, nodes[..n], d);
    if j < |front| {
      x, y := LayerKeepsOrder(g, nodes[..n], d, i, j);
    } else {
      NodesAtDepthContents(g, nodes[..n], d);
      assert front[i] in nodes[..n];
      x :| 0 <= x < n && nodes[..n][x] == front[i];
      y := n;
    }
  }

  /** No schedule uses fewer waves: in every numbering that puts dependencies lower, some node has a
      number of at least |waves| - 1. */
  lemma {:induction false} PlanIsMinimal(nodes: seq<ChainNode>, waves: seq<seq<ChainNode>>, level: map<string, nat>)
    requires IsPlan(nodes, waves) && waves != []
    requires forall node :: node in nodes ==> node.id in level
    requires forall v {:trigger Descends(ById(nodes), level, v)} :: v in level ==> Descends(ById(nodes), level, v)
    ensures exists node :: node in nodes && level[node.id] >= |waves| - 1
  {
    var g := ById(nodes);
    var last := |waves| - 1;
    NodesAtDepthContents(g, nodes, last);
    var node := waves[last][0];
    assert node in waves[last];
    var p :| IsWalk(g, p) && p[0] == node.id && |p| == last + 1;
    DepthIsLeast(g, level, p);
  }

  // ---------- What each report entry means ----------

  lemma {:induction false} MissingErrorsContents(id: string, dependsOn: seq<string>, known: set<string>, e: ChainError)
    ensures e in MissingErrors(id, dependsOn, known)
      <==> e.MissingDependency? && e.id == id && e.dependency in dependsOn && e.dependency !in known
  {
    if dependsOn != [] {
      var n := |dependsOn| - 1;
      MissingErrorsContents(id, dependsOn[..n], known, e);
      assert dependsOn == dependsOn[..n] + [dependsOn[n]];
    }
  }

  /** What a listed node contributes to the report, given the ids listed before it. */
  predicate Reports(node: ChainNode, seen: set<string>, known: set<string>, e: ChainError) {
    && e.id == node.id
    && match e
       case DuplicateOrEmptyNode(id) => id == "" || id in seen
       case MissingDependency(_, dependency) => dependency in node.dependsOn && dependency !in known
       case BoundedIterationRequired(_) =>
         node.kind in {Foreach, While} && (node.maxIterations == Unset || !(1.0 <= node.maxIterations.limit <= 1000.0))
       case CycleDetected(_) => false
  }

  predicate ReportedAt(nodes: seq<ChainNode>, i: nat, known: set<string>, e: ChainError) {
    i < |nodes| && Reports(nodes[i], Ids(nodes[..i]), known, e)
  }

  lemma {:induction false} NodeErrorsContents(node: ChainNode, seen: set<string>, known: set<string>, e: ChainError)
    ensures e in NodeErrors(node, seen, known) <==> Reports(node, seen, known, e)
  {
    MissingErrorsContents(node.id, node.dependsOn, known, e);
  }

  lemma {:induction false} ReportedInFront(nodes: seq<ChainNode>, n: nat, i: nat, known: set<string>, e: ChainError)
    requires i < n <= |nodes|
    ensures ReportedAt(nodes[..n], i, known, e) <==> ReportedAt(nodes, i, known, e)
  {
    assert nodes[..n][..i] == nodes[..i];
  }

  /** Every cause of a structural error is reported. */
  lemma {:induction false} CauseIsReported(nodes: seq<ChainNode>, known: set<string>, i: nat, e: ChainError)
    requires ReportedAt(nodes, i, known, e)
    ensures e in StructuralErrors(nodes, known)
  {
    var n := |nodes| - 1;
    assert nodes == nodes[..n] + [nodes[n]];
    StructuralErrorsStep(nodes[..n], nodes[n], known);
    if i < n {
      ReportedInFront(nodes, n, i, known, e);
      CauseIsReported(nodes[..n], known, i, e);
    } else {
      NodeErrorsContents(nodes[n], Ids(nodes[..n]), known, e);
    }
  }

  /** Every structural error is caused by a listed node. */
  lemma {:induction false} ReportHasCause(nodes: seq<ChainNode>, known: set<string>, e: ChainError) returns (i: nat)
    requires e in StructuralErrors(nodes, known)
    ensures ReportedAt(nodes, i, known, e)
  {
    var n := |nodes| - 1;
    if e in StructuralErrors(nodes[..n], known) {
      i := ReportHasCause(nodes[..n], known, e);
      ReportedInFront(nodes, n, i, known, e);
    } else {
      NodeErrorsContents(nodes[n], Ids(nodes[..n]), known, e);
      i := n;
    }
  }
}
