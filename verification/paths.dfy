/** The result both solvers return and the predecessor walk-back that builds
    it (route.py:90-97 and 115-122). */
module Paths {
  import opened Graphs

  /** The list of nodes from start to end and its total weight; `([], Inf)`
      when there is no path. */
  datatype PathResult = PathResult(path: seq<nat>, weight: Dist)

  /** What a shortest-path query must answer: no path and infinite weight
      exactly when `t` cannot be reached from `s`, otherwise a walk from `s`
      to `t` whose hops sum to the returned weight and no walk lighter. */
  ghost predicate CorrectResult(g: Graph, s: nat, t: nat, r: PathResult) {
    && (r.weight == Inf <==> !Reachable(g, s, t))
    && (r.weight == Inf ==> r.path == [])
    && (r.weight.Fin? ==>
          && (exists ws :: WalkBetween(g, s, t, r.path, ws) && Sum(ws) == r.weight.n)
          && LowerBound(g, s, t, r.weight))
  }

  /** The `distances` / `previous_nodes` tables both solvers maintain, with
      `via[v]` the weight of the edge that last improved `v`: the source sits
      at 0 with no predecessor, every other node has a predecessor exactly when
      its distance is finite, and a predecessor `u` of `v` is joined to `v` by
      an edge with `dist[u] + via[v] <= dist[v]`. */
  ghost predicate PredecessorTable(g: Graph, s: nat, dist: seq<Dist>, prev: seq<Option<nat>>, via: seq<nat>) {
    && |dist| == |g| && |prev| == |g| && |via| == |g| && s < |g|
    && dist[s] == Fin(0) && prev[s] == None
    && (forall v {:trigger prev[v]} :: 0 <= v < |g| && v != s ==> (prev[v].Some? <==> dist[v].Fin?))
    && (forall v {:trigger prev[v]} :: 0 <= v < |g| && prev[v].Some? ==>
          && prev[v].value < |g|
          && dist[v].Fin? && dist[prev[v].value].Fin?
          && Edge(v, via[v]) in g[prev[v].value]
          && dist[prev[v].value].n + via[v] <= dist[v].n)
  }

  /** Improving `x` through the edge `u -> x` of weight `w` keeps the
      predecessor discipline. */
  lemma TableAfterImprove(g: Graph, s: nat, dist: seq<Dist>, prev: seq<Option<nat>>, via: seq<nat>, u: nat, x: nat, w: nat)
    requires PredecessorTable(g, s, dist, prev, via)
    requires u < |g| && x < |g| && Edge(x, w) in g[u] && dist[u].Plus(w).Less(dist[x])
    ensures PredecessorTable(g, s, dist[x := dist[u].Plus(w)], prev[x := Some(u)], via[x := w])
  {
  }

  /** The initial tables: 0 at the source, `inf` and no predecessor elsewhere. */
  method InitialTables(n: nat, s: nat) returns (dist: seq<Dist>, prev: seq<Option<nat>>)
    requires s < n
    ensures |dist| == n && |prev| == n
    ensures forall v :: 0 <= v < n ==> dist[v] == (if v == s then Fin(0) else Inf) && prev[v] == None
  {
    dist := seq(n, v => if v == s then Fin(0) else Inf);
    prev := seq(n, v => None);
  }

  /** Walks the predecessor links back from `t`, prepending each node.
      With positive weights each predecessor is strictly closer than its
      successor, so the walk-back ends, and it ends at the source. */
  method BuildPath(ghost g: Graph, s: nat, t: nat, dist: seq<Dist>, prev: seq<Option<nat>>, ghost via: seq<nat>)
    returns (r: PathResult)
    requires ValidGraph(g) && t < |g|
    requires PredecessorTable(g, s, dist, prev, via)
    ensures r.weight == dist[t]
    ensures dist[t] == Inf ==> r.path == []
    ensures dist[t].Fin? ==> exists ws :: WalkBetween(g, s, t, r.path, ws) && Sum(ws) <= dist[t].n
    ensures t == s ==> r.path == [s]
  {
    if dist[t] == Inf {
      return PathResult([], Inf);
    }
    var path: seq<nat> := [];
    var node: Option<nat> := Some(t);
    ghost var ws: seq<nat> := [];
    while node.Some?
      invariant node.Some? ==> node.value < |g| && dist[node.value].Fin?
      invariant path == [] ==> node == Some(t) && ws == []
      invariant path != [] ==>
        && IsWalk(g, path, ws) && path[|path| - 1] == t
        && node == prev[path[0]]
        && dist[path[0]].Fin? && dist[path[0]].n + Sum(ws) <= dist[t].n
      invariant node.None? ==> path != [] && path[0] == s
      invariant t == s && path != [] ==> path == [s]
      decreases if node.Some? then dist[node.value].n + 1 else 0
    {
      var v := node.value;
      if path != [] {
        ghost var k :| 0 <= k < |g[v]| && g[v][k] == Edge(path[0], via[path[0]]);
        assert via[path[0]] >= 1;
        SumConcat([via[path[0]]], ws);
        ws := [via[path[0]]] + ws;
      }
      path := [v] + path;
      node := prev[v];
    }
    r := PathResult(path, dist[t]);
  }

  /** The walk-back result is correct once `dist[t]` bounds every walk from
      below: the walk it returns is then no heavier and no lighter than
      `dist[t]`. */
  lemma LowerBoundGivesResult(g: Graph, s: nat, t: nat, dist: seq<Dist>, r: PathResult)
    requires |dist| == |g| && t < |g| && LowerBound(g, s, t, dist[t])
    requires r.weight == dist[t]
    requires dist[t] == Inf ==> r.path == []
    requires dist[t].Fin? ==> exists ws :: WalkBetween(g, s, t, r.path, ws) && Sum(ws) <= dist[t].n
    ensures CorrectResult(g, s, t, r)
  {
    if dist[t].Fin? {
      var ws :| WalkBetween(g, s, t, r.path, ws) && Sum(ws) <= dist[t].n;
      assert Reachable(g, s, t);
    }
  }

  /** Any two correct answers to the same query report the same weight, so
      the link-state and distance-vector solvers agree on it; their paths
      may differ when several walks are lightest. */
  lemma CorrectResultsAgree(g: Graph, s: nat, t: nat, r1: PathResult, r2: PathResult)
    requires CorrectResult(g, s, t, r1) && CorrectResult(g, s, t, r2)
    ensures r1.weight == r2.weight
  {
    if r1.weight.Fin? && r2.weight.Fin? {
      var ws1 :| WalkBetween(g, s, t, r1.path, ws1) && Sum(ws1) == r1.weight.n;
      var ws2 :| WalkBetween(g, s, t, r2.path, ws2) && Sum(ws2) == r2.weight.n;
      assert r1.weight.AtMost(Fin(Sum(ws2)));
      assert r2.weight.AtMost(Fin(Sum(ws1)));
    }
  }
}
