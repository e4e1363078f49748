/** Weighted adjacency lists, walks and shortest distances.

    A graph is the adjacency mapping of route.py: node ids are 0..|g|-1 and
    g[u] is the ordered list of (neighbour, weight) pairs appended to u.
    Distances follow Python's float semantics for `float('inf')`. */
module Graphs {

  datatype Option<T> = None | Some(value: T)

  /** One entry `(neighbour, weight)` of an adjacency list. */
  datatype Edge = Edge(to: nat, weight: nat)

  type Graph = seq<seq<Edge>>

  /** A tentative distance: a finite natural number or `float('inf')`. */
  datatype Dist = Fin(n: nat) | Inf {

    /** `d + w`, where `inf + w` stays `inf`. */
    function Plus(w: nat): Dist {
      if Fin? then Fin(n + w) else Inf
    }

    /** `d < other`, where nothing is below `inf` and `inf` is below nothing. */
    predicate Less(other: Dist) {
      Fin? && (other.Inf? || n < other.n)
    }

    /** `d <= other` in the same order. */
    predicate AtMost(other: Dist) {
      other.Inf? || (Fin? && n <= other.n)
    }
  }

  /** Every neighbour names a node of the graph and every weight is positive. */
  predicate ValidGraph(g: Graph) {
    forall u, k :: 0 <= u < |g| && 0 <= k < |g[u]| ==> g[u][k].to < |g| && g[u][k].weight >= 1
  }

  function Sum(ws: seq<nat>): nat {
    if |ws| == 0 then 0 else ws[0] + Sum(ws[1..])
  }

  lemma {:induction false} SumConcat(a: seq<nat>, b: seq<nat>)
    ensures Sum(a + b) == Sum(a) + Sum(b)
  {
    if |a| == 0 {
      assert a + b == b;
    } else {
      assert (a + b)[1..] == a[1..] + b;
      SumConcat(a[1..], b);
    }
  }

  /** `p` is a walk in `g` whose k-th hop uses an edge of weight `ws[k]`. */
  ghost predicate IsWalk(g: Graph, p: seq<nat>, ws: seq<nat>) {
    && |p| == |ws| + 1
    && (forall k :: 0 <= k < |p| ==> p[k] < |g|)
    && (forall k :: 0 <= k < |ws| ==> Edge(p[k + 1], ws[k]) in g[p[k]])
  }

  ghost predicate WalkBetween(g: Graph, s: nat, t: nat, p: seq<nat>, ws: seq<nat>) {
    IsWalk(g, p, ws) && p[0] == s && p[|p| - 1] == t
  }

  ghost predicate Reachable(g: Graph, s: nat, t: nat) {
    exists p, ws :: WalkBetween(g, s, t, p, ws)
  }

  /** `d` is at most the weight of every walk from `s` to `t`
      (vacuously so, including `d == Inf`, when there is none). */
  ghost predicate LowerBound(g: Graph, s: nat, t: nat, d: Dist) {
    forall p, ws :: WalkBetween(g, s, t, p, ws) ==> d.AtMost(Fin(Sum(ws)))
  }

  /** Every edge `u -> v` of weight `w` satisfies `dist[v] <= dist[u] + w`. */
  ghost predicate Relaxed(g: Graph, dist: seq<Dist>) {
    && |dist| == |g|
    && forall u, k :: 0 <= u < |g| && 0 <= k < |g[u]| && g[u][k].to < |g| ==>
         dist[g[u][k].to].AtMost(dist[u].Plus(g[u][k].weight))
  }

  /** The last weight of a non-empty sequence splits off its sum. */
  lemma SumLast(ws: seq<nat>)
    requires |ws| > 0
    ensures Sum(ws) == Sum(ws[..|ws| - 1]) + ws[|ws| - 1]
  {
    assert ws == ws[..|ws| - 1] + [ws[|ws| - 1]];
    SumConcat(ws[..|ws| - 1], [ws[|ws| - 1]]);
    assert Sum([ws[|ws| - 1]]) == ws[|ws| - 1] + Sum([]);
  }

  /** Dropping the last hop of a walk leaves a walk that is lighter by that hop. */
  lemma WalkPrefix(g: Graph, p: seq<nat>, ws: seq<nat>)
    requires IsWalk(g, p, ws) && |ws| > 0
    ensures IsWalk(g, p[..|p| - 1], ws[..|ws| - 1])
    ensures Sum(ws) == Sum(ws[..|ws| - 1]) + ws[|ws| - 1]
    ensures Edge(p[|p| - 1], ws[|ws| - 1]) in g[p[|p| - 2]]
  {
    var q, vs := p[..|p| - 1], ws[..|ws| - 1];
    forall k | 0 <= k < |q|
      ensures q[k] < |g|
    {
      assert q[k] == p[k];
    }
    forall k | 0 <= k < |vs|
      ensures Edge(q[k + 1], vs[k]) in g[q[k]]
    {
      assert q[k] == p[k] && q[k + 1] == p[k + 1] && vs[k] == ws[k];
    }
    SumLast(ws);
  }

  /** Appending a hop along an edge out of the last node extends a walk. */
  lemma WalkExtend(g: Graph, p: seq<nat>, ws: seq<nat>, x: nat, w: nat)
    requires IsWalk(g, p, ws) && x < |g| && Edge(x, w) in g[p[|p| - 1]]
    ensures IsWalk(g, p + [x], ws + [w])
  {
    var q, vs := p + [x], ws + [w];
    forall k | 0 <= k < |vs|
      ensures Edge(q[k + 1], vs[k]) in g[q[k]]
    {
      if k < |ws| {
        assert q[k] == p[k] && q[k + 1] == p[k + 1] && vs[k] == ws[k];
      }
    }
  }

  /** A table in which every edge is relaxed and the source sits at 0 bounds
      every walk from the source from below. */
  lemma {:induction false} RelaxedBoundsWalks(g: Graph, dist: seq<Dist>, s: nat, p: seq<nat>, ws: seq<nat>)
    requires Relaxed(g, dist) && s < |g| && dist[s] == Fin(0)
    requires IsWalk(g, p, ws) && p[0] == s
    ensures dist[p[|p| - 1]].AtMost(Fin(Sum(ws)))
    decreases |ws|
  {
    if |ws| > 0 {
      WalkPrefix(g, p, ws);
      RelaxedBoundsWalks(g, dist, s, p[..|p| - 1], ws[..|ws| - 1]);
      var u := p[|p| - 2];
      var k :| 0 <= k < |g[u]| && g[u][k] == Edge(p[|p| - 1], ws[|ws| - 1]);
    }
  }

  /** With every weight at least 1, a walk has no more hops than its weight. */
  lemma {:induction false} HopsAtMostWeight(g: Graph, p: seq<nat>, ws: seq<nat>)
    requires ValidGraph(g) && IsWalk(g, p, ws)
    ensures |ws| <= Sum(ws)
    decreases |ws|
  {
    if |ws| > 0 {
      WalkPrefix(g, p, ws);
      HopsAtMostWeight(g, p[..|p| - 1], ws[..|ws| - 1]);
      var u := p[|p| - 2];
      var k :| 0 <= k < |g[u]| && g[u][k] == Edge(p[|p| - 1], ws[|ws| - 1]);
    }
  }

  /** A walk from the source whose weight equals its end's distance in a
      relaxed table is tight on every hop: each hop raises the distance by
      exactly its weight, so the walk runs along shortest-path edges. */
  lemma {:induction false} TightWalk(g: Graph, dist: seq<Dist>, s: nat, p: seq<nat>, ws: seq<nat>)
    requires Relaxed(g, dist) && s < |g| && dist[s] == Fin(0)
    requires IsWalk(g, p, ws) && p[0] == s && dist[p[|p| - 1]] == Fin(Sum(ws))
    ensures forall k :: 0 <= k < |ws| ==> dist[p[k + 1]] == dist[p[k]].Plus(ws[k])
    decreases |ws|
  {
    if |ws| > 0 {
      var q, vs := p[..|p| - 1], ws[..|ws| - 1];
      WalkPrefix(g, p, ws);
      RelaxedBoundsWalks(g, dist, s, q, vs);
      var u := p[|p| - 2];
      var k :| 0 <= k < |g[u]| && g[u][k] == Edge(p[|p| - 1], ws[|ws| - 1]);
      assert dist[u] == Fin(Sum(vs));
      TightWalk(g, dist, s, q, vs);
      forall j | 0 <= j < |ws|
        ensures dist[p[j + 1]] == dist[p[j]].Plus(ws[j])
      {
        if j < |vs| {
          assert q[j] == p[j] && q[j + 1] == p[j + 1] && vs[j] == ws[j];
        }
      }
    }
  }

  /** Relaxed tables give lower bounds to every target. */
  lemma RelaxedIsLowerBound(g: Graph, dist: seq<Dist>, s: nat, t: nat)
    requires Relaxed(g, dist) && s < |g| && t < |g| && dist[s] == Fin(0)
    ensures LowerBound(g, s, t, dist[t])
  {
    forall p, ws | WalkBetween(g, s, t, p, ws)
      ensures dist[t].AtMost(Fin(Sum(ws)))
    {
      RelaxedBoundsWalks(g, dist, s, p, ws);
    }
  }

  /** The set of values in `p`. */
  function Elements(p: seq<nat>): (r: set<nat>)
    ensures forall x :: x in r <==> x in p
  {
    if |p| == 0 then {} else Elements(p[..|p| - 1]) + {p[|p| - 1]}
  }

  /** The node ids `0..n-1`. */
  function Range(n: nat): (r: set<nat>)
    ensures |r| == n
    ensures forall x: nat :: x in r <==> x < n
  {
    if n == 0 then {} else Range(n - 1) + {n - 1}
  }

  /** A sequence without repetitions has as many values as elements. */
  lemma {:induction false} DistinctElements(p: seq<nat>)
    requires forall a, b :: 0 <= a < b < |p| ==> p[a] != p[b]
    ensures |Elements(p)| == |p|
  {
    if |p| > 0 {
      DistinctElements(p[..|p| - 1]);
      assert p[|p| - 1] !in Elements(p[..|p| - 1]);
    }
  }

  lemma SubsetSize(a: set<nat>, b: set<nat>)
    requires a <= b
    ensures |a| <= |b|
  {
    assert b == a + (b - a);
    assert a * (b - a) == {};
  }

  /** More than `n` values below `n` repeat one. */
  lemma Pigeonhole(p: seq<nat>, n: nat) returns (i: nat, j: nat)
    requires |p| > n
    requires forall k :: 0 <= k < |p| ==> p[k] < n
    ensures i < j < |p| && p[i] == p[j]
  {
    if forall a, b :: 0 <= a < b < |p| ==> p[a] != p[b] {
      DistinctElements(p);
      SubsetSize(Elements(p), Range(n));
      assert false;
    }
    i, j :| 0 <= i < j < |p| && p[i] == p[j];
  }

  /** Cutting the closed sub-walk between two visits of the same node. */
  lemma CutWalk(g: Graph, p: seq<nat>, ws: seq<nat>, i: nat, j: nat)
    requires IsWalk(g, p, ws) && i < j < |p| && p[i] == p[j]
    ensures IsWalk(g, p[..i] + p[j..], ws[..i] + ws[j..])
    ensures Sum(ws[..i] + ws[j..]) <= Sum(ws)
  {
    var q, vs := p[..i] + p[j..], ws[..i] + ws[j..];
    forall k | 0 <= k < |vs|
      ensures Edge(q[k + 1], vs[k]) in g[q[k]]
    {
      if k < i {
        assert vs[k] == ws[k] && q[k] == p[k];
        assert q[k + 1] == p[k + 1];
      } else {
        assert vs[k] == ws[j + k - i] && q[k] == p[j + k - i] && q[k + 1] == p[j + k - i + 1];
      }
    }
    assert ws == ws[..i] + ws[i..j] + ws[j..];
    SumConcat(ws[..i] + ws[i..j], ws[j..]);
    SumConcat(ws[..i], ws[i..j]);
    SumConcat(ws[..i], ws[j..]);
  }

  /** With non-negative weights every walk can be replaced by one that visits
      at most `|g|` nodes, has the same ends, and is no heavier. */
  lemma {:induction false} ShortWalk(g: Graph, p: seq<nat>, ws: seq<nat>) returns (q: seq<nat>, vs: seq<nat>)
    requires IsWalk(g, p, ws)
    ensures IsWalk(g, q, vs) && q[0] == p[0] && q[|q| - 1] == p[|p| - 1]
    ensures |q| <= |g| && Sum(vs) <= Sum(ws)
    decreases |p|
  {
    if |p| <= |g| {
      q, vs := p, ws;
    } else {
      var i, j := Pigeonhole(p, |g|);
      CutWalk(g, p, ws, i, j);
      var p', ws' := p[..i] + p[j..], ws[..i] + ws[j..];
      assert p'[0] == p[0] && p'[|p'| - 1] == p[|p| - 1];
      q, vs := ShortWalk(g, p', ws');
    }
  }
}
