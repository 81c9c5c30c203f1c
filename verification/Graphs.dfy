/** Finite directed graphs given by successor lists, their walks and their cycles.

    Every graph algorithm of the repository works on such a graph: a `Map` from a node to the
    list of the nodes it points to, where a node that is not a key has no successors. */
module Graphs {

  function Succ<T(==)>(g: map<T, seq<T>>, v: T): seq<T> {
    if v in g then g[v] else []
  }

  /** A nonempty node sequence in which every step follows an edge. */
  ghost predicate IsWalk<T>(g: map<T, seq<T>>, p: seq<T>) {
    && |p| > 0
    && forall i :: 0 <= i < |p| - 1 ==> p[i + 1] in Succ(g, p[i])
  }

  ghost predicate IsWalkBetween<T>(g: map<T, seq<T>>, p: seq<T>, v: T, w: T) {
    IsWalk(g, p) && p[0] == v && p[|p| - 1] == w
  }

  ghost predicate Reaches<T(!new)>(g: map<T, seq<T>>, v: T, w: T) {
    exists p :: IsWalkBetween(g, p, v, w)
  }

  /** A closed walk with at least one edge; a self-loop is one. */
  ghost predicate OnCycle<T(!new)>(g: map<T, seq<T>>, v: T) {
    exists p :: IsWalkBetween(g, p, v, v) && |p| >= 2
  }

  ghost predicate ReachesCycle<T(!new)>(g: map<T, seq<T>>, v: T) {
    exists w :: Reaches(g, v, w) && OnCycle(g, w)
  }

  ghost predicate HasCycle<T(!new)>(g: map<T, seq<T>>) {
    exists v :: OnCycle(g, v)
  }

  /** Every successor of an element comes earlier in the sequence. */
  ghost predicate Ordered<T>(g: map<T, seq<T>>, order: seq<T>) {
    forall i, s :: 0 <= i < |order| && s in Succ(g, order[i]) ==> s in order[..i]
  }

  function Range<T(!new)>(s: seq<T>): (r: set<T>)
    ensures forall x :: x in r <==> x in s
  {
    set x | x in s
  }

  lemma {:induction false} SomeElement<T(!new)>(s: set<T>) returns (x: T)
    requires s != {}
    ensures x in s
  {
    x :| x in s;
  }

  ghost function Nodes<T>(g: map<T, seq<T>>): set<T> {
    g.Keys + set v, s | v in g.Keys && s in g[v] :: s
  }

  lemma {:induction false} SuccInNodes<T>(g: map<T, seq<T>>, v: T, s: T)
    requires s in Succ(g, v)
    ensures s in Nodes(g) && v in Nodes(g)
  {
  }

  lemma {:induction false} OrderedAppend<T>(g: map<T, seq<T>>, order: seq<T>, v: T)
    requires Ordered(g, order) && forall s :: s in Succ(g, v) ==> s in order
    ensures Ordered(g, order + [v])
  {
    var longer := order + [v];
    forall i, s | 0 <= i < |longer| && s in Succ(g, longer[i])
      ensures s in longer[..i]
    {
      assert longer[..i] == order[..i];
    }
  }

  lemma {:induction false} WalkSlice<T>(g: map<T, seq<T>>, p: seq<T>, i: nat, j: nat)
    requires IsWalk(g, p) && i <= j < |p|
    ensures IsWalkBetween(g, p[i..j + 1], p[i], p[j])
  {
    var q := p[i..j + 1];
    forall k | 0 <= k < |q| - 1
      ensures q[k + 1] in Succ(g, q[k])
    {
      assert q[k] == p[i + k] && q[k + 1] == p[i + k + 1];
    }
  }

  lemma {:induction false} ReachesStep<T(!new)>(g: map<T, seq<T>>, v: T, s: T, w: T)
    requires s in Succ(g, v) && Reaches(g, s, w)
    ensures Reaches(g, v, w)
  {
    var p :| IsWalkBetween(g, p, s, w);
    var q := [v] + p;
    assert forall i :: 0 <= i < |q| - 1 ==> q[i + 1] == p[i] && (i > 0 ==> q[i] == p[i - 1]);
    assert IsWalkBetween(g, q, v, w);
  }

  lemma {:induction false} OnCycleReachesCycle<T(!new)>(g: map<T, seq<T>>, v: T)
    requires OnCycle(g, v)
    ensures ReachesCycle(g, v)
  {
    assert IsWalkBetween(g, [v], v, v);
  }

  lemma {:induction false} CycleWitness<T(!new)>(g: map<T, seq<T>>) returns (p: seq<T>)
    requires HasCycle(g)
    ensures |p| >= 2 && IsWalkBetween(g, p, p[0], p[0])
  {
    var v :| OnCycle(g, v);
    p :| IsWalkBetween(g, p, v, v) && |p| >= 2;
  }

  lemma {:induction false} CycleFromReach<T(!new)>(g: map<T, seq<T>>, v: T)
    requires ReachesCycle(g, v)
    ensures HasCycle(g)
  {
  }

  /** A node leads to a cycle exactly when one of its successors does. */
  lemma {:induction false} ReachesCycleUnfold<T(!new)>(g: map<T, seq<T>>, v: T)
    ensures ReachesCycle(g, v) <==> exists s :: s in Succ(g, v) && ReachesCycle(g, s)
  {
    if ReachesCycle(g, v) {
      var w :| Reaches(g, v, w) && OnCycle(g, w);
      var p :| IsWalkBetween(g, p, v, w);
      if |p| >= 2 {
        WalkSlice(g, p, 1, |p| - 1);
        assert Reaches(g, p[1], w);
        assert p[1] in Succ(g, v) && ReachesCycle(g, p[1]);
      } else {
        var c :| IsWalkBetween(g, c, v, v) && |c| >= 2;
        WalkSlice(g, c, 1, |c| - 1);
        assert Reaches(g, c[1], v);
        assert c[1] in Succ(g, v) && ReachesCycle(g, c[1]);
      }
    }
    forall s | s in Succ(g, v) && ReachesCycle(g, s)
      ensures ReachesCycle(g, v)
    {
      var w :| Reaches(g, s, w) && OnCycle(g, w);
      ReachesStep(g, v, s, w);
    }
  }

  /** Nothing listed in a successors-first order leads to a cycle. */
  lemma {:induction false} OrderedReachesNoCycle<T(!new)>(g: map<T, seq<T>>, order: seq<T>, v: T)
    requires Ordered(g, order) && v in order
    ensures !ReachesCycle(g, v)
  {
    var n := |order| - 1;
    assert forall i, s :: 0 <= i < n && s in Succ(g, order[i]) ==> s in order[..n][..i] by {
      assert forall i :: 0 <= i < n ==> order[..n][..i] == order[..i];
    }
    if v in order[..n] {
      OrderedReachesNoCycle(g, order[..n], v);
    } else {
      assert v == order[n];
      forall s | s in Succ(g, v)
        ensures !ReachesCycle(g, s)
      {
        OrderedReachesNoCycle(g, order[..n], s);
      }
      ReachesCycleUnfold(g, v);
    }
  }

  ghost predicate PointsInto<T>(g: map<T, seq<T>>, v: T, S: set<T>) {
    exists s :: s in Succ(g, v) && s in S
  }

  lemma {:induction false} WalkWithin<T(!new)>(g: map<T, seq<T>>, S: set<T>, v: T, n: nat) returns (p: seq<T>)
    requires v in S && forall x {:trigger PointsInto(g, x, S)} :: x in S ==> PointsInto(g, x, S)
    ensures |p| == n + 1 && IsWalk(g, p) && forall x :: x in p ==> x in S
  {
    if n == 0 {
      p := [v];
    } else {
      var q := WalkWithin(g, S, v, n - 1);
      var last := q[n - 1];
      assert PointsInto(g, last, S);
      var s :| s in Succ(g, last) && s in S;
      p := q + [s];
    }
  }

  lemma {:induction false} NoCycleFromKeys<T(!new)>(g: map<T, seq<T>>, keys: seq<T>)
    requires g.Keys <= Range(keys)
    requires forall i :: 0 <= i < |keys| ==> !ReachesCycle(g, keys[i])
    ensures !HasCycle(g)
  {
    if HasCycle(g) {
      var p := CycleWitness(g);
      assert p[1] in Succ(g, p[0]);
      assert p[0] in keys;
      assert OnCycle(g, p[0]);
      OnCycleReachesCycle(g, p[0]);
    }
  }

  lemma {:induction false} Pigeonhole<T(!new)>(p: seq<T>, S: set<T>) returns (i: nat, j: nat)
    requires |p| > |S| && forall x :: x in p ==> x in S
    ensures i < j < |p| && p[i] == p[j]
  {
    var last := p[|p| - 1];
    var q := p[..|p| - 1];
    if last in q {
      i :| 0 <= i < |q| && q[i] == last;
      j := |p| - 1;
    } else {
      i, j := Pigeonhole(q, S - {last});
    }
  }

  /** In a finite set without a cycle, some node points to no node of the set. */
  lemma {:induction false} AcyclicHasSink<T(!new)>(g: map<T, seq<T>>, S: set<T>)
    requires S != {} && forall v :: v in S ==> !OnCycle(g, v)
    ensures exists v :: v in S && !PointsInto(g, v, S)
  {
    if forall v {:trigger PointsInto(g, v, S)} :: v in S ==> PointsInto(g, v, S) {
      var v :| v in S;
      var p := WalkWithin(g, S, v, |S|);
      var i, j := Pigeonhole(p, S);
      WalkSlice(g, p, i, j);
      assert OnCycle(g, p[i]);
      assert false;
    }
  }

  lemma {:induction false} SinkOf<T(!new)>(g: map<T, seq<T>>, S: set<T>) returns (v: T)
    requires S != {} && !HasCycle(g)
    ensures v in S && forall s :: s in Succ(g, v) ==> s !in S
  {
    AcyclicHasSink(g, S);
    v :| v in S && !PointsInto(g, v, S);
  }

  // ---------- Longest walks ----------

  /** Every walk from `v` visits at most `k` nodes. */
  ghost predicate Below<T(!new)>(g: map<T, seq<T>>, v: T, k: nat) {
    forall p :: IsWalk(g, p) && p[0] == v ==> |p| <= k
  }

  /** The longest walk from `v` has exactly `d` edges. */
  ghost predicate DepthIs<T(!new)>(g: map<T, seq<T>>, v: T, d: nat) {
    && (exists p :: IsWalk(g, p) && p[0] == v && |p| == d + 1)
    && Below(g, v, d + 1)
  }

  lemma {:induction false} BelowUnfold<T(!new)>(g: map<T, seq<T>>, v: T, k: nat)
    ensures Below(g, v, k + 1) <==> forall s :: s in Succ(g, v) ==> Below(g, s, k)
  {
    if Below(g, v, k + 1) {
      forall s, p | s in Succ(g, v) && IsWalk(g, p) && p[0] == s
        ensures |p| <= k
      {
        var q := [v] + p;
        assert forall i :: 0 <= i < |q| - 1 ==> q[i + 1] == p[i] && (i > 0 ==> q[i] == p[i - 1]);
        assert IsWalk(g, q);
      }
    }
    if forall s :: s in Succ(g, v) ==> Below(g, s, k) {
      forall p | IsWalk(g, p) && p[0] == v
        ensures |p| <= k + 1
      {
        if |p| >= 2 {
          WalkSlice(g, p, 1, |p| - 1);
          assert p[1..] == p[1..|p| - 1 + 1];
          assert Below(g, p[1], k);
        }
      }
    }
  }

  lemma {:induction false} NeverBelowZero<T(!new)>(g: map<T, seq<T>>, v: T)
    ensures !Below(g, v, 0)
  {
    assert IsWalk(g, [v]);
  }

  lemma {:induction false} DepthIsBetween<T(!new)>(g: map<T, seq<T>>, v: T, d: nat)
    ensures DepthIs(g, v, d) <==> Below(g, v, d + 1) && !Below(g, v, d)
  {
    if Below(g, v, d + 1) && !Below(g, v, d) {
      var p :| IsWalk(g, p) && p[0] == v && |p| > d;
      assert |p| == d + 1;
    }
  }

  ghost predicate Descends<T(!new)>(g: map<T, seq<T>>, level: map<T, nat>, v: T) {
    v in level && forall s :: s in Succ(g, v) ==> s in level && level[s] < level[v]
  }

  /** Any numbering in which every node lies above its successors is at least the depth. */
  lemma {:induction false} DepthIsLeast<T(!new)>(g: map<T, seq<T>>, level: map<T, nat>, p: seq<T>)
    requires IsWalk(g, p) && p[0] in level
    requires forall v {:trigger Descends(g, level, v)} :: v in level ==> Descends(g, level, v)
    ensures level[p[0]] >= |p| - 1
  {
    assert Descends(g, level, p[0]);
    if |p| >= 2 {
      WalkSlice(g, p, 1, |p| - 1);
      assert p[1..] == p[1..|p| - 1 + 1];
      DepthIsLeast(g, level, p[1..]);
    }
  }
}
