/** Distance-vector routing: `bellman_ford` (route.py:99-122). */
module DistanceVector {
  import opened Graphs
  import opened Paths

  /** `dist` bounds from below every walk from `s` that has at most `k` hops. */
  ghost predicate BoundsShortWalks(g: Graph, s: nat, dist: seq<Dist>, k: nat) {
    |dist| == |g| &&
    forall p, ws :: IsWalk(g, p, ws) && p[0] == s && |ws| <= k ==> dist[p[|p| - 1]].AtMost(Fin(Sum(ws)))
  }

  /** After a round in which every edge `u -> v` left `dist[v] <= before[u] + w`
      and no entry grew, walks one hop longer are bounded too. */
  lemma RoundExtendsBound(g: Graph, s: nat, before: seq<Dist>, dist: seq<Dist>, k: nat)
    requires BoundsShortWalks(g, s, before, k) && |dist| == |g|
    requires forall v :: 0 <= v < |g| ==> dist[v].AtMost(before[v])
    requires forall u, i :: 0 <= u < |g| && 0 <= i < |g[u]| && g[u][i].to < |g| ==>
               dist[g[u][i].to].AtMost(before[u].Plus(g[u][i].weight))
    ensures BoundsShortWalks(g, s, dist, k + 1)
  {
    forall p, ws | IsWalk(g, p, ws) && p[0] == s && |ws| <= k + 1
      ensures dist[p[|p| - 1]].AtMost(Fin(Sum(ws)))
    {
      if |ws| == k + 1 {
        WalkPrefix(g, p, ws);
        var q, vs := p[..|p| - 1], ws[..|ws| - 1];
        assert before[q[|q| - 1]].AtMost(Fin(Sum(vs)));
        var u := p[|p| - 2];
        var i :| 0 <= i < |g[u]| && g[u][i] == Edge(p[|p| - 1], ws[|ws| - 1]);
      }
    }
  }

  /** Once `|g| - 1` hops are covered, every walk is: a shortest walk never
      needs to repeat a node. */
  lemma EnoughRounds(g: Graph, s: nat, t: nat, dist: seq<Dist>)
    requires |g| >= 1 && BoundsShortWalks(g, s, dist, |g| - 1) && t < |g|
    ensures LowerBound(g, s, t, dist[t])
  {
    forall p, ws | WalkBetween(g, s, t, p, ws)
      ensures dist[t].AtMost(Fin(Sum(ws)))
    {
      var q, vs := ShortWalk(g, p, ws);
    }
  }

  /** One pass of the inner loop: relaxes the edges of `u` in list order,
      in place. */
  method RelaxNode(g: Graph, s: nat, u: nat, dist0: seq<Dist>, prev0: seq<Option<nat>>, ghost via0: seq<nat>)
    returns (dist: seq<Dist>, prev: seq<Option<nat>>, ghost via: seq<nat>, updated: bool)
    requires ValidGraph(g) && u < |g| && PredecessorTable(g, s, dist0, prev0, via0)
    ensures PredecessorTable(g, s, dist, prev, via)
    ensures forall v :: 0 <= v < |g| ==> dist[v].AtMost(dist0[v])
    ensures updated <==> dist != dist0
    ensures forall v :: 0 <= v < |g| && dist[v] != dist0[v] ==> prev[v] == Some(u)
    ensures forall i :: 0 <= i < |g[u]| ==> dist[g[u][i].to].AtMost(dist0[u].Plus(g[u][i].weight))
  {
    dist, prev, via, updated := dist0, prev0, via0, false;
    var j := 0;
    while j < |g[u]|
      invariant 0 <= j <= |g[u]|
      invariant PredecessorTable(g, s, dist, prev, via)
      invariant forall v :: 0 <= v < |g| ==> dist[v].AtMost(dist0[v])
      invariant updated <==> dist != dist0
      invariant dist[u] == dist0[u]
      invariant forall v :: 0 <= v < |g| && dist[v] != dist0[v] ==> prev[v] == Some(u)
      invariant forall i :: 0 <= i < j ==> dist[g[u][i].to].AtMost(dist0[u].Plus(g[u][i].weight))
    {
      var e := g[u][j];
      if dist[u].Plus(e.weight).Less(dist[e.to]) {
        assert e in g[u];
        TableAfterImprove(g, s, dist, prev, via, u, e.to, e.weight);
        dist := dist[e.to := dist[u].Plus(e.weight)];
        prev := prev[e.to := Some(u)];
        via := via[e.to := e.weight];
        updated := true;
      }
      j := j + 1;
    }
  }

  /** One round of the outer loop: every node's edges, nodes in id order. */
  method RelaxAll(g: Graph, s: nat, dist0: seq<Dist>, prev0: seq<Option<nat>>, ghost via0: seq<nat>)
    returns (dist: seq<Dist>, prev: seq<Option<nat>>, ghost via: seq<nat>, updated: bool)
    requires ValidGraph(g) && PredecessorTable(g, s, dist0, prev0, via0)
    ensures PredecessorTable(g, s, dist, prev, via)
    ensures forall v :: 0 <= v < |g| ==> dist[v].AtMost(dist0[v])
    ensures updated <==> dist != dist0
    ensures forall x, i :: 0 <= x < |g| && 0 <= i < |g[x]| ==>
              dist[g[x][i].to].AtMost(dist0[x].Plus(g[x][i].weight))
  {
    dist, prev, via, updated := dist0, prev0, via0, false;
    var u := 0;
    while u < |g|
      invariant 0 <= u <= |g|
      invariant PredecessorTable(g, s, dist, prev, via)
      invariant forall v :: 0 <= v < |g| ==> dist[v].AtMost(dist0[v])
      invariant updated <==> dist != dist0
      invariant forall x, i :: 0 <= x < u && 0 <= i < |g[x]| ==>
                  dist[g[x][i].to].AtMost(dist0[x].Plus(g[x][i].weight))
    {
      var changed;
      ghost var mid := dist;
      dist, prev, via, changed := RelaxNode(g, s, u, dist, prev, via);
      forall x, i | 0 <= x <= u && 0 <= i < |g[x]|
        ensures dist[g[x][i].to].AtMost(dist0[x].Plus(g[x][i].weight))
      {
        var v := g[x][i].to;
        if x < u {
          assert dist[v].AtMost(mid[v]) && mid[v].AtMost(dist0[x].Plus(g[x][i].weight));
        } else {
          assert dist[v].AtMost(mid[u].Plus(g[x][i].weight)) && mid[u].AtMost(dist0[u]);
        }
      }
      if updated || changed {
        ghost var v :| 0 <= v < |g| && (if updated then dist0[v] != mid[v] else mid[v] != dist[v]);
        assert dist[v] != dist0[v];
      }
      updated := updated || changed;
      u := u + 1;
    }
  }

  /** At most `|g| - 1` rounds relaxing every edge in adjacency order, updating
      the tables in place and stopping after the first round that changes
      nothing; then the shared walk-back. */
  method BellmanFord(g: Graph, s: nat, t: nat) returns (r: PathResult)
    requires ValidGraph(g) && s < |g| && t < |g|
    ensures CorrectResult(g, s, t, r)
    ensures s == t ==> r == PathResult([s], Fin(0))
  {
    var n := |g|;
    var dist, prev := InitialTables(n, s);
    ghost var via: seq<nat> := seq(n, v => 0);
    var round := 0;
    while round < n - 1
      invariant 0 <= round <= n - 1
      invariant PredecessorTable(g, s, dist, prev, via)
      invariant BoundsShortWalks(g, s, dist, round)
      decreases n - 1 - round
    {
      ghost var before := dist;
      var updated;
      dist, prev, via, updated := RelaxAll(g, s, dist, prev, via);
      RoundExtendsBound(g, s, before, dist, round);
      if !updated {
        RelaxedIsLowerBound(g, dist, s, t);
        break;
      }
      round := round + 1;
    }
    if round == n - 1 {
      EnoughRounds(g, s, t, dist);
    }
    r := BuildPath(g, s, t, dist, prev, via);
    LowerBoundGivesResult(g, s, t, dist, r);
  }
}
