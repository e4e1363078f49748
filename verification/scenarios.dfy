/** Worked queries on small fixed graphs: what every correct answer, and so
    the answer of either solver, must be. */
module Scenarios {
  import opened Graphs
  import opened Paths

  /** The chain `0 -3- 1 -5- 2 -2- 3`. */
  function Chain4(): (g: Graph)
    ensures ValidGraph(g) && |g| == 4
  {
    [[Edge(1, 3)], [Edge(0, 3), Edge(2, 5)], [Edge(1, 5), Edge(3, 2)], [Edge(2, 2)]]
  }

  /** The same chain with the extra edge `0 -1- 3`. */
  function Chain4Shortcut(): (g: Graph)
    ensures ValidGraph(g) && |g| == 4
  {
    [[Edge(1, 3), Edge(3, 1)], [Edge(0, 3), Edge(2, 5)], [Edge(1, 5), Edge(3, 2)], [Edge(2, 2), Edge(0, 1)]]
  }

  /** The chain `0 -4- 1 -4- 2`, without an edge `(0, 2)`. */
  function Chain3(): (g: Graph)
    ensures ValidGraph(g) && |g| == 3
  {
    [[Edge(1, 4)], [Edge(0, 4), Edge(2, 4)], [Edge(1, 4)]]
  }

  /** Two components, `{0, 1}` and `{2, 3}`. */
  function Split4(): (g: Graph)
    ensures ValidGraph(g) && |g| == 4
  {
    [[Edge(1, 1)], [Edge(0, 1)], [Edge(3, 1)], [Edge(2, 1)]]
  }

  /** A walk of weight `dist[t]` plus a relaxed table rooted at `s` make
      `(p, dist[t])` a correct answer, and every correct answer has that
      weight. */
  lemma WitnessedWeight(g: Graph, s: nat, t: nat, dist: seq<Dist>, p: seq<nat>, ws: seq<nat>, r: PathResult)
    requires Relaxed(g, dist) && s < |g| && t < |g| && dist[s] == Fin(0)
    requires WalkBetween(g, s, t, p, ws) && dist[t] == Fin(Sum(ws))
    requires CorrectResult(g, s, t, r)
    ensures r.weight == dist[t]
  {
    RelaxedIsLowerBound(g, dist, s, t);
    assert Reachable(g, s, t);
    CorrectResultsAgree(g, s, t, r, PathResult(p, dist[t]));
  }

  /** The path of a correct answer of weight `dist[t]`, for a relaxed table
      rooted at `s`, is tight on every hop. */
  lemma TightAnswer(g: Graph, s: nat, t: nat, dist: seq<Dist>, r: PathResult) returns (ws: seq<nat>)
    requires Relaxed(g, dist) && s < |g| && t < |g| && dist[s] == Fin(0)
    requires CorrectResult(g, s, t, r) && r.weight == dist[t] && dist[t].Fin?
    ensures WalkBetween(g, s, t, r.path, ws) && Sum(ws) == dist[t].n
    ensures forall k :: 0 <= k < |ws| ==> dist[r.path[k + 1]] == dist[r.path[k]].Plus(ws[k])
  {
    ws :| WalkBetween(g, s, t, r.path, ws) && Sum(ws) == r.weight.n;
    TightWalk(g, dist, s, r.path, ws);
  }

  /** A node sequence from 0 that climbs by one id per hop is `0, 1, 2, ...`. */
  lemma {:induction false} Climbing(p: seq<nat>)
    requires |p| > 0 && p[0] == 0
    requires forall k :: 0 <= k < |p| - 1 ==> p[k + 1] == p[k] + 1
    ensures forall k :: 0 <= k < |p| ==> p[k] == k
  {
    if |p| > 1 {
      var q := p[..|p| - 1];
      forall k | 0 <= k < |q| - 1
        ensures q[k + 1] == q[k] + 1
      {
        assert q[k] == p[k] && q[k + 1] == p[k + 1];
      }
      Climbing(q);
      assert p[|p| - 1] == q[|q| - 1] + 1;
    }
  }

  /** Every tight hop from `u` climbs one id. */
  ghost predicate TightClimbs(g: Graph, dist: seq<Dist>) {
    && |dist| == |g|
    && forall u, k :: 0 <= u < |g| && 0 <= k < |g[u]| && g[u][k].to < |g| &&
         dist[g[u][k].to] == dist[u].Plus(g[u][k].weight)
         ==> g[u][k].to == u + 1
  }

  /** When every tight hop climbs one id, a correct answer of weight
      `dist[t]` from 0 is the path `0, 1, ..., t`. */
  lemma ClimbingAnswer(g: Graph, t: nat, dist: seq<Dist>, r: PathResult)
    requires Relaxed(g, dist) && TightClimbs(g, dist) && t < |g| && dist[0] == Fin(0)
    requires CorrectResult(g, 0, t, r) && r.weight == dist[t] && dist[t].Fin?
    ensures |r.path| == t + 1 && forall k :: 0 <= k <= t ==> r.path[k] == k
  {
    var ws := TightAnswer(g, 0, t, dist, r);
    var p := r.path;
    forall k | 0 <= k < |p| - 1
      ensures p[k + 1] == p[k] + 1
    {
      var i :| 0 <= i < |g[p[k]]| && g[p[k]][i] == Edge(p[k + 1], ws[k]);
    }
    Climbing(p);
  }

  /** The chain's distances from 0 are relaxed, and every tight hop climbs. */
  lemma ChainTable()
    ensures Relaxed(Chain4(), [Fin(0), Fin(3), Fin(8), Fin(10)])
    ensures TightClimbs(Chain4(), [Fin(0), Fin(3), Fin(8), Fin(10)])
  {
  }

  /** The three-node chain's distances from 0 are relaxed, and every tight
      hop climbs. */
  lemma DetourTable()
    ensures Relaxed(Chain3(), [Fin(0), Fin(4), Fin(8)])
    ensures TightClimbs(Chain3(), [Fin(0), Fin(4), Fin(8)])
  {
  }

  /** Along the plain chain, `0` to `3` is `[0, 1, 2, 3]`, weighing
      `3 + 5 + 2 = 10`. */
  lemma ChainQuery(r: PathResult)
    requires CorrectResult(Chain4(), 0, 3, r)
    ensures r == PathResult([0, 1, 2, 3], Fin(10))
  {
    var g := Chain4();
    var dist := [Fin(0), Fin(3), Fin(8), Fin(10)];
    ChainTable();
    assert Edge(1, 3) in g[0] && Edge(2, 5) in g[1] && Edge(3, 2) in g[2];
    assert Sum([3, 5, 2]) == 10;
    WitnessedWeight(g, 0, 3, dist, [0, 1, 2, 3], [3, 5, 2], r);
    ClimbingAnswer(g, 3, dist, r);
    assert r.path == [0, 1, 2, 3];
  }

  /** With the shortcut, `0` to `3` is the single hop `[0, 3]` of weight 1. */
  lemma ShortcutQuery(r: PathResult)
    requires CorrectResult(Chain4Shortcut(), 0, 3, r)
    ensures r == PathResult([0, 3], Fin(1))
  {
    var g := Chain4Shortcut();
    var dist := [Fin(0), Fin(3), Fin(3), Fin(1)];
    assert Edge(3, 1) in g[0];
    assert Sum([1]) == 1;
    WitnessedWeight(g, 0, 3, dist, [0, 3], [1], r);
    var ws :| WalkBetween(g, 0, 3, r.path, ws) && Sum(ws) == 1;
    HopsAtMostWeight(g, r.path, ws);
  }

  /** Without an edge `(0, 2)`, `0` to `2` is `[0, 1, 2]` of weight 8. */
  lemma DetourQuery(r: PathResult)
    requires CorrectResult(Chain3(), 0, 2, r)
    ensures r == PathResult([0, 1, 2], Fin(8))
  {
    var g := Chain3();
    var dist := [Fin(0), Fin(4), Fin(8)];
    DetourTable();
    assert Edge(1, 4) in g[0] && Edge(2, 4) in g[1];
    assert Sum([4, 4]) == 8;
    WitnessedWeight(g, 0, 2, dist, [0, 1, 2], [4, 4], r);
    ClimbingAnswer(g, 2, dist, r);
    assert r.path == [0, 1, 2];
  }

  /** Across components there is no path: the answer is `([], inf)`. */
  lemma SplitQuery(r: PathResult)
    requires CorrectResult(Split4(), 0, 2, r)
    ensures r == PathResult([], Inf)
  {
    var g := Split4();
    var dist := [Fin(0), Fin(1), Inf, Inf];
    RelaxedIsLowerBound(g, dist, 0, 2);
  }
}
