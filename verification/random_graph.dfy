/** Random topology construction: `build_random_graph` (route.py:24-56).

    The builder lays a backbone chain `0 - 1 - ... - (n-1)` and then gives
    every node, in id order, a random number of extra edges to shuffled
    partners, respecting per-node degree caps in that second pass only.
    Randomness enters as raw draws: `random.randint(lo, hi)` folds a draw
    into `[lo, hi]`, and `random.shuffle` is any permutation of the
    candidate list. */
module RandomGraph {
  import opened Graphs

  /** The weight range of `random.randint(1, 10)`. */
  const MinWeight: nat := 1
  const MaxWeight: nat := 10

  function Min(a: nat, b: nat): nat {
    if a <= b then a else b
  }

  function Max(a: nat, b: nat): nat {
    if a <= b then b else a
  }

  /** `random.randint(lo, hi)` driven by the raw draw `draw`: every value in
      the range is produced, by the draw `r - lo`, and nothing outside it. */
  function RandInt(draw: nat, lo: nat, hi: nat): (r: nat)
    requires lo <= hi
    ensures lo <= r <= hi
    ensures draw <= hi - lo ==> r == lo + draw
  {
    lo + draw % (hi - lo + 1)
  }

  /** `[node for node in range(n) if node != i]`. */
  function Others(n: nat, i: nat): (r: seq<nat>)
    ensures forall x: nat :: x in r <==> x < n && x != i
    ensures |r| == if i < n then n - 1 else n
  {
    if n == 0 then []
    else if n - 1 == i then Others(n - 1, i)
    else Others(n - 1, i) + [n - 1]
  }

  /** `order` is what `random.shuffle` can make of the candidate list of `i`. */
  predicate Shuffled(n: nat, i: nat, order: seq<nat>) {
    multiset(order) == multiset(Others(n, i))
  }

  /** A shuffled candidate list holds exactly the other nodes. */
  lemma ShuffledMembers(n: nat, i: nat, order: seq<nat>)
    requires Shuffled(n, i, order)
    ensures forall x: nat :: x in order <==> x < n && x != i
    ensures i < n ==> |order| == n - 1
  {
    forall x: nat
      ensures x in order <==> x < n && x != i
    {
      calc {
        x in order;
        x in multiset(order);
        x in multiset(Others(n, i));
        x in Others(n, i);
      }
    }
    assert |multiset(order)| == |multiset(Others(n, i))|;
  }

  /** `b` appears in the adjacency list of `a`. */
  ghost predicate Adjacent(g: Graph, a: nat, b: nat)
    requires a < |g|
  {
    exists k :: 0 <= k < |g[a]| && g[a][k].to == b
  }

  /** The structural invariants of a generated graph: neighbours are nodes,
      no node lists itself, no neighbour is listed twice, weights lie in
      `[1, 10]`, and every entry `(b, w)` in the list of `a` is mirrored by
      `(a, w)` in the list of `b`. */
  predicate Simple(g: Graph) {
    && (forall v, k :: 0 <= v < |g| && 0 <= k < |g[v]| ==>
          && g[v][k].to < |g| && g[v][k].to != v
          && MinWeight <= g[v][k].weight <= MaxWeight
          && Edge(v, g[v][k].weight) in g[g[v][k].to])
    && (forall v, a, b :: 0 <= v < |g| && 0 <= a < b < |g[v]| ==> g[v][a].to != g[v][b].to)
  }

  /** The `edges` set holds exactly the ordered pairs `(a, b)`, `a < b`, of
      adjacent nodes. */
  ghost predicate Mirror(g: Graph, edges: set<(nat, nat)>) {
    forall a: nat, b: nat :: (a, b) in edges <==> a < b < |g| && Adjacent(g, a, b)
  }

  /** Every adjacency list of `g` is a prefix of the one in `h`. */
  ghost predicate Grows(g: Graph, h: Graph) {
    |g| == |h| && forall v :: 0 <= v < |g| ==> g[v] <= h[v]
  }

  /** In a simple graph adjacency is symmetric. */
  lemma AdjacentSymmetric(g: Graph, a: nat, b: nat)
    requires Simple(g) && a < |g| && Adjacent(g, a, b)
    ensures b < |g| && Adjacent(g, b, a)
  {
    var k :| 0 <= k < |g[a]| && g[a][k].to == b;
    var j :| 0 <= j < |g[b]| && g[b][j] == Edge(a, g[a][k].weight);
  }

  /** Adjacency survives growth of the lists. */
  lemma GrowsKeepsAdjacent(g: Graph, h: Graph, a: nat, b: nat)
    requires Grows(g, h) && a < |g| && Adjacent(g, a, b)
    ensures Adjacent(h, a, b)
  {
    var k :| 0 <= k < |g[a]| && g[a][k].to == b;
    assert h[a][k] == g[a][k];
  }

  /** The weight of backbone edge `(i, i + 1)`. */
  function ChainWeight(bw: seq<nat>, i: nat): (w: nat)
    requires i < |bw|
    ensures MinWeight <= w <= MaxWeight
  {
    RandInt(bw[i], MinWeight, MaxWeight)
  }

  /** The adjacency list of `v` after the first `i` backbone steps: step
      `v - 1` appended `(v - 1, w)`, then step `v` appended `(v + 1, w)`. */
  function Laid(bw: seq<nat>, i: nat, v: nat): (es: seq<Edge>)
    requires i <= |bw|
    ensures |es| == (if 0 < v <= i then 1 else 0) + (if v < i then 1 else 0)
  {
    (if 0 < v <= i then [Edge(v - 1, ChainWeight(bw, v - 1))] else []) +
    (if v < i then [Edge(v + 1, ChainWeight(bw, v))] else [])
  }

  /** Number of backbone edges at `v` in an `n`-node graph. */
  function BackboneDegree(n: nat, v: nat): nat {
    (if 0 < v then 1 else 0) + (if v + 1 < n then 1 else 0)
  }

  /** The first pass: for `i` in `0..n-2` append `(i + 1, w)` to `i` and
      `(i, w)` to `i + 1` with a fresh weight, ignoring every cap. */
  method Backbone(n: nat, bw: seq<nat>) returns (g: Graph, edges: set<(nat, nat)>)
    requires n >= 1 && |bw| == n - 1
    ensures |g| == n
    ensures forall v :: 0 <= v < n ==> g[v] == Laid(bw, n - 1, v) && |g[v]| == BackboneDegree(n, v)
    ensures forall a: nat, b: nat :: (a, b) in edges <==> b < n && b == a + 1
  {
    g := seq(n, v => []);
    edges := {};
    var i := 0;
    while i < n - 1
      invariant 0 <= i <= n - 1 && |g| == n
      invariant forall v :: 0 <= v < n ==> g[v] == Laid(bw, i, v)
      invariant forall a: nat, b: nat :: (a, b) in edges <==> b <= i && b == a + 1
    {
      var w := RandInt(bw[i], MinWeight, MaxWeight);
      g := g[i := g[i] + [Edge(i + 1, w)]];
      g := g[i + 1 := g[i + 1] + [Edge(i, w)]];
      edges := edges + {(Min(i, i + 1), Max(i, i + 1))};
      i := i + 1;
    }
  }

  /** The backbone graph is simple. */
  lemma ChainSimple(bw: seq<nat>, g: Graph)
    requires |g| == |bw| + 1 && forall v :: 0 <= v < |g| ==> g[v] == Laid(bw, |bw|, v)
    ensures Simple(g)
  {
    forall v, k | 0 <= v < |g| && 0 <= k < |g[v]|
      ensures g[v][k].to < |g| && g[v][k].to != v
      ensures MinWeight <= g[v][k].weight <= MaxWeight
      ensures Edge(v, g[v][k].weight) in g[g[v][k].to]
    {
      ChainEntry(bw, g, v, k);
    }
  }

  /** Each backbone entry points one id down or one id up, and is mirrored. */
  lemma ChainEntry(bw: seq<nat>, g: Graph, v: nat, k: nat)
    requires |g| == |bw| + 1 && forall v :: 0 <= v < |g| ==> g[v] == Laid(bw, |bw|, v)
    requires v < |g| && k < |g[v]|
    ensures g[v][k].to < |g| && g[v][k].to != v
    ensures MinWeight <= g[v][k].weight <= MaxWeight
    ensures Edge(v, g[v][k].weight) in g[g[v][k].to]
  {
    var m := |bw|;
    if k == 0 && 0 < v {
      assert g[v][k] == Edge(v - 1, ChainWeight(bw, v - 1));
      assert g[v - 1] == Laid(bw, m, v - 1);
      assert g[v - 1][|g[v - 1]| - 1] == Edge(v, ChainWeight(bw, v - 1));
    } else {
      assert g[v][k] == Edge(v + 1, ChainWeight(bw, v));
      assert g[v + 1] == Laid(bw, m, v + 1);
      assert g[v + 1][0] == Edge(v, ChainWeight(bw, v));
    }
  }

  /** In the backbone graph the adjacent pairs are exactly the consecutive ids. */
  lemma ChainAdjacent(bw: seq<nat>, g: Graph)
    requires |g| == |bw| + 1 && forall v :: 0 <= v < |g| ==> g[v] == Laid(bw, |bw|, v)
    ensures forall a: nat, b: nat :: a < b < |g| ==> (Adjacent(g, a, b) <==> b == a + 1)
  {
    forall a: nat, b: nat | a < b < |g|
      ensures Adjacent(g, a, b) <==> b == a + 1
    {
      assert g[a] == Laid(bw, |bw|, a);
      if b == a + 1 {
        assert g[a][|g[a]| - 1] == Edge(b, ChainWeight(bw, a));
      }
    }
  }

  /** A graph containing the backbone lists as prefixes connects every pair
      of nodes, along consecutive ids. */
  lemma {:induction false} ChainWalk(g: Graph, bw: seq<nat>, s: nat, t: nat) returns (p: seq<nat>, ws: seq<nat>)
    requires |g| == |bw| + 1 && forall v :: 0 <= v < |g| ==> Laid(bw, |bw|, v) <= g[v]
    requires s < |g| && t < |g|
    ensures WalkBetween(g, s, t, p, ws)
    decreases if s <= t then t - s else s - t
  {
    if s == t {
      p, ws := [s], [];
    } else if s < t {
      var p', ws' := ChainWalk(g, bw, s, t - 1);
      assert g[t - 1][|Laid(bw, |bw|, t - 1)| - 1] == Edge(t, ChainWeight(bw, t - 1));
      WalkExtend(g, p', ws', t, ChainWeight(bw, t - 1));
      p, ws := p' + [t], ws' + [ChainWeight(bw, t - 1)];
    } else {
      var p', ws' := ChainWalk(g, bw, s, t + 1);
      assert g[t + 1][0] == Edge(t, ChainWeight(bw, t));
      WalkExtend(g, p', ws', t, ChainWeight(bw, t));
      p, ws := p' + [t], ws' + [ChainWeight(bw, t)];
    }
  }

  /** `max_additional_connections`: `max(0, cap - degree)`, the number of
      edges that brings the degree up to the cap and never past it. */
  function Room(cap: nat, degree: nat): (r: nat)
    ensures degree + r == Max(cap, degree)
  {
    if degree < cap then cap - degree else 0
  }

  /** `num_additional_connections`: a draw from `[0, room]`, or 0 without
      room; every count up to `room` is drawn by some draw. */
  function Quota(room: nat, draw: nat): (r: nat)
    ensures r <= room
    ensures draw <= room ==> r == draw
  {
    if room > 0 then RandInt(draw, 0, room) else 0
  }

  /** `graph[i].append((x, w))` followed by `graph[x].append((i, w))`. */
  function AddPair(g: Graph, i: nat, x: nat, w: nat): (h: Graph)
    requires i < |g| && x < |g| && i != x
    ensures |h| == |g| && h[i] == g[i] + [Edge(x, w)] && h[x] == g[x] + [Edge(i, w)]
    ensures forall v :: 0 <= v < |g| && v != i && v != x ==> h[v] == g[v]
  {
    g[i := g[i] + [Edge(x, w)]][x := g[x] + [Edge(i, w)]]
  }

  /** Appending the mirrored entries `(x, w)` to `i` and `(i, w)` to `x`,
      for nodes not yet adjacent, keeps the graph simple. */
  lemma AddEdgeSimple(g: Graph, i: nat, x: nat, w: nat, h: Graph)
    requires Simple(g) && i < |g| && x < |g| && i != x
    requires !Adjacent(g, i, x) && MinWeight <= w <= MaxWeight
    requires h == AddPair(g, i, x, w)
    ensures Simple(h) && Grows(g, h)
    ensures h[i][|g[i]|] == Edge(x, w) && h[x][|g[x]|] == Edge(i, w)
  {
    if Adjacent(g, x, i) {
      AdjacentSymmetric(g, x, i);
    }
    forall v, k | 0 <= v < |h| && 0 <= k < |h[v]|
      ensures h[v][k].to < |h| && h[v][k].to != v
      ensures MinWeight <= h[v][k].weight <= MaxWeight
      ensures Edge(v, h[v][k].weight) in h[h[v][k].to]
    {
      AddedEntry(g, i, x, w, h, v, k);
    }
    forall v, a, b | 0 <= v < |h| && 0 <= a < b < |h[v]|
      ensures h[v][a].to != h[v][b].to
    {
      AddedDistinct(g, i, x, w, h, v, a, b);
    }
  }

  /** Each entry of the grown graph is a proper, mirrored entry. */
  lemma AddedEntry(g: Graph, i: nat, x: nat, w: nat, h: Graph, v: nat, k: nat)
    requires Simple(g) && i < |g| && x < |g| && i != x && MinWeight <= w <= MaxWeight
    requires h == AddPair(g, i, x, w) && v < |h| && k < |h[v]|
    ensures h[v][k].to < |h| && h[v][k].to != v
    ensures MinWeight <= h[v][k].weight <= MaxWeight
    ensures Edge(v, h[v][k].weight) in h[h[v][k].to]
  {
    if k < |g[v]| {
      var e := g[v][k];
      assert h[v][k] == e;
      var j :| 0 <= j < |g[e.to]| && g[e.to][j] == Edge(v, e.weight);
      assert h[e.to][j] == Edge(v, e.weight);
    } else if v == i {
      assert h[i][k] == Edge(x, w);
      assert h[x][|g[x]|] == Edge(i, w);
    } else {
      assert v == x && h[x][k] == Edge(i, w);
      assert h[i][|g[i]|] == Edge(x, w);
    }
  }

  /** The grown graph lists no neighbour twice, as `i` and `x` were not
      adjacent. */
  lemma AddedDistinct(g: Graph, i: nat, x: nat, w: nat, h: Graph, v: nat, a: nat, b: nat)
    requires Simple(g) && i < |g| && x < |g| && i != x
    requires !Adjacent(g, i, x) && !Adjacent(g, x, i)
    requires h == AddPair(g, i, x, w) && v < |h| && a < b < |h[v]|
    ensures h[v][a].to != h[v][b].to
  {
    assert h[v][a] == g[v][a];
    if b < |g[v]| {
      assert h[v][b] == g[v][b];
    }
  }

  /** Recording the new pair `(min, max)` keeps `edges` in step with the
      grown graph. */
  lemma AddEdgeMirror(g: Graph, edges: set<(nat, nat)>, i: nat, x: nat, w: nat, h: Graph)
    requires Simple(g) && Mirror(g, edges) && i < |g| && x < |g| && i != x
    requires h == AddPair(g, i, x, w)
    requires Grows(g, h) && h[i][|g[i]|] == Edge(x, w) && h[x][|g[x]|] == Edge(i, w)
    ensures Mirror(h, edges + {(Min(i, x), Max(i, x))})
  {
    forall a: nat, b: nat
      ensures (a, b) in edges + {(Min(i, x), Max(i, x))} <==> a < b < |h| && Adjacent(h, a, b)
    {
      if (a, b) in edges + {(Min(i, x), Max(i, x))} {
        RecordedIsAdjacent(g, edges, i, x, w, h, a, b);
      }
      if a < b < |h| && Adjacent(h, a, b) {
        AdjacentIsRecorded(g, edges, i, x, w, h, a, b);
      }
    }
  }

  lemma RecordedIsAdjacent(g: Graph, edges: set<(nat, nat)>, i: nat, x: nat, w: nat, h: Graph, a: nat, b: nat)
    requires Mirror(g, edges) && i < |g| && x < |g| && i != x
    requires h == AddPair(g, i, x, w)
    requires Grows(g, h) && h[i][|g[i]|] == Edge(x, w) && h[x][|g[x]|] == Edge(i, w)
    requires (a, b) in edges + {(Min(i, x), Max(i, x))}
    ensures a < b < |h| && Adjacent(h, a, b)
  {
    if (a, b) in edges {
      GrowsKeepsAdjacent(g, h, a, b);
    } else if a == i {
      assert h[i][|g[i]|].to == b;
    } else {
      assert h[x][|g[x]|].to == b;
    }
  }

  lemma AdjacentIsRecorded(g: Graph, edges: set<(nat, nat)>, i: nat, x: nat, w: nat, h: Graph, a: nat, b: nat)
    requires Mirror(g, edges) && i < |g| && x < |g| && i != x
    requires h == AddPair(g, i, x, w)
    requires a < b < |h| && Adjacent(h, a, b)
    ensures (a, b) in edges + {(Min(i, x), Max(i, x))}
  {
    var k :| 0 <= k < |h[a]| && h[a][k].to == b;
    if k < |g[a]| {
      assert g[a][k] == h[a][k];
      assert Adjacent(g, a, b);
    } else if a == i {
      assert b == x;
    } else {
      assert a == x && b == i;
    }
  }

  /** What node `i`'s pass keeps of the graph it started from: the graph
      stays simple with `edges` in step and only grows; `i` has gained
      `added` entries and every other node at most one, pointing at `i`;
      and no addition took a node past its cap. */
  ghost predicate Extended(n: nat, caps: seq<nat>, i: nat, g0: Graph, g: Graph, edges: set<(nat, nat)>, added: nat) {
    && |g0| == n && |g| == n && |caps| == n && i < n
    && Simple(g) && Mirror(g, edges) && Grows(g0, g)
    && |g[i]| == |g0[i]| + added
    && (forall v :: 0 <= v < n && v != i && g[v] != g0[v] ==> |g[v]| == |g0[v]| + 1 && g[v][|g0[v]|].to == i)
    && (forall v :: 0 <= v < n ==> |g[v]| <= Max(caps[v], |g0[v]|))
  }

  /** Every one of the first `p` candidates is at its cap or adjacent to `i`. */
  ghost predicate Visited(caps: seq<nat>, i: nat, order: seq<nat>, p: nat, g: Graph) {
    && i < |g| && p <= |order| && |caps| == |g|
    && (forall q :: 0 <= q < |order| ==> order[q] < |g| && order[q] != i)
    && (forall q :: 0 <= q < p ==> |g[order[q]]| >= caps[order[q]] || Adjacent(g, i, order[q]))
  }

  /** A candidate already adjacent to `i` (its pair is in `edges`) is
      passed over. */
  lemma SkipAdjacent(caps: seq<nat>, i: nat, order: seq<nat>, p: nat, g: Graph, edges: set<(nat, nat)>)
    requires Simple(g) && Mirror(g, edges) && Visited(caps, i, order, p, g) && p < |order|
    requires (Min(i, order[p]), Max(i, order[p])) in edges
    ensures Visited(caps, i, order, p + 1, g)
  {
    var x := order[p];
    if x < i {
      AdjacentSymmetric(g, x, i);
    }
  }

  /** A candidate already at its cap is passed over. */
  lemma SkipFull(caps: seq<nat>, i: nat, order: seq<nat>, p: nat, g: Graph)
    requires Visited(caps, i, order, p, g) && p < |order| && |g[order[p]]| >= caps[order[p]]
    ensures Visited(caps, i, order, p + 1, g)
  {
  }

  /** A candidate `x` not adjacent to `i`, with both below their caps, gets
      the new edge. */
  lemma AddKeepsExtended(n: nat, caps: seq<nat>, i: nat, g0: Graph, g: Graph, edges: set<(nat, nat)>,
                         added: nat, x: nat, w: nat, h: Graph)
    requires Extended(n, caps, i, g0, g, edges, added) && x < n && x != i
    requires |g[i]| < caps[i] && |g[x]| < caps[x]
    requires (Min(i, x), Max(i, x)) !in edges && MinWeight <= w <= MaxWeight
    requires h == AddPair(g, i, x, w)
    ensures Extended(n, caps, i, g0, h, edges + {(Min(i, x), Max(i, x))}, added + 1)
    ensures Grows(g, h) && Adjacent(h, i, x)
  {
    if Adjacent(g, i, x) {
      if x < i {
        AdjacentSymmetric(g, i, x);
      }
      assert false;
    }
    if g[x] != g0[x] {
      assert g[x][|g0[x]|].to == i;
      AdjacentSymmetric(g, x, i);
      assert false;
    }
    AddEdgeSimple(g, i, x, w, h);
    AddEdgeMirror(g, edges, i, x, w, h);
    assert Grows(g0, h) by {
      forall v | 0 <= v < n
        ensures g0[v] <= h[v]
      {
        assert g0[v] <= g[v] <= h[v];
      }
    }
    assert h[i][|g[i]|].to == x;
  }

  /** Growing the graph keeps the visited candidates settled, and the new
      partner is adjacent. */
  lemma AddKeepsVisited(caps: seq<nat>, i: nat, order: seq<nat>, p: nat, g: Graph, h: Graph)
    requires Visited(caps, i, order, p, g) && p < |order| && Grows(g, h) && Adjacent(h, i, order[p])
    ensures Visited(caps, i, order, p + 1, h)
  {
    forall q | 0 <= q < p
      ensures |h[order[q]]| >= caps[order[q]] || Adjacent(h, i, order[q])
    {
      if Adjacent(g, i, order[q]) {
        GrowsKeepsAdjacent(g, h, i, order[q]);
      } else {
        assert g[order[q]] <= h[order[q]];
      }
    }
  }

  /** Before the walk, a shuffled list names the `n - 1` other nodes. */
  lemma VisitedStart(n: nat, caps: seq<nat>, i: nat, order: seq<nat>, g: Graph)
    requires Shuffled(n, i, order) && |g| == n && |caps| == n && i < n
    ensures Visited(caps, i, order, 0, g) && |order| == n - 1
  {
    ShuffledMembers(n, i, order);
    assert forall q :: 0 <= q < |order| ==> order[q] in order;
  }

  /** Once every candidate of a shuffled list is visited, every other node
      is at its cap or adjacent to `i`. */
  lemma AllVisited(n: nat, caps: seq<nat>, i: nat, order: seq<nat>, g: Graph)
    requires Shuffled(n, i, order) && Visited(caps, i, order, |order|, g) && |g| == n
    ensures forall x :: 0 <= x < n && x != i ==> |g[x]| >= caps[x] || Adjacent(g, i, x)
  {
    ShuffledMembers(n, i, order);
    forall x | 0 <= x < n && x != i
      ensures |g[x]| >= caps[x] || Adjacent(g, i, x)
    {
      assert x in order;
      var q :| 0 <= q < |order| && order[q] == x;
    }
  }

  /** One candidate `x = order[p]` of the second pass for node `i`, which is
      still below its cap: skip `x` at its cap, skip `x` already joined to
      `i`, and otherwise join them with a fresh weight. */
  method Consider(n: nat, caps: seq<nat>, i: nat, g0: Graph, order: seq<nat>, weightDraws: seq<nat>,
                  p: nat, g: Graph, edges: set<(nat, nat)>, added: nat)
    returns (h: Graph, edges': set<(nat, nat)>, added': nat)
    requires Extended(n, caps, i, g0, g, edges, added) && Visited(caps, i, order, p, g)
    requires p < |order| && added < |weightDraws| && |g[i]| < caps[i]
    ensures Extended(n, caps, i, g0, h, edges', added') && Visited(caps, i, order, p + 1, h)
    ensures added' == added || added' == added + 1
    ensures added' == added + 1 <==> |g[order[p]]| < caps[order[p]] && !Adjacent(g, i, order[p])
  {
    var x := order[p];
    h, edges', added' := g, edges, added;
    if |g[x]| >= caps[x] {
      SkipFull(caps, i, order, p, g);
    } else if (Min(i, x), Max(i, x)) !in edges {
      if Adjacent(g, i, x) {
        if x < i {
          AdjacentSymmetric(g, i, x);
        }
        assert false;
      }
      var w := RandInt(weightDraws[added], MinWeight, MaxWeight);
      h := AddPair(g, i, x, w);
      AddKeepsExtended(n, caps, i, g0, g, edges, added, x, w, h);
      AddKeepsVisited(caps, i, order, p, g, h);
      edges' := edges + {(Min(i, x), Max(i, x))};
      added' := added + 1;
    } else {
      SkipAdjacent(caps, i, order, p, g, edges);
    }
  }

  /** The second pass for node `i`: with `room = max(0, cap - degree)` and a
      quota drawn from `[0, room]`, walk the shuffled candidates; stop when
      `i` is at its cap, and stop once the quota is met after an addition
      (the quota is checked only after an addition, so a quota of 0 still
      allows one edge). */
  method AugmentNode(n: nat, caps: seq<nat>, i: nat, g0: Graph, edges0: set<(nat, nat)>,
                     quotaDraw: nat, order: seq<nat>, weightDraws: seq<nat>)
    returns (g: Graph, edges: set<(nat, nat)>, added: nat)
    requires |g0| == n && |caps| == n && i < n && Simple(g0) && Mirror(g0, edges0)
    requires Shuffled(n, i, order) && |weightDraws| == n - 1
    ensures Extended(n, caps, i, g0, g, edges, added)
    ensures added <= Room(caps[i], |g0[i]|)
    ensures added <= Max(1, Quota(Room(caps[i], |g0[i]|), quotaDraw))
    ensures added < Max(1, Quota(Room(caps[i], |g0[i]|), quotaDraw)) && added < Room(caps[i], |g0[i]|) ==>
              forall x :: 0 <= x < n && x != i ==> |g[x]| >= caps[x] || Adjacent(g, i, x)
  {
    VisitedStart(n, caps, i, order, g0);
    var room := Room(caps[i], |g0[i]|);
    var quota := Quota(room, quotaDraw);
    g, edges, added := g0, edges0, 0;
    var p := 0;
    ghost var full := false;
    ghost var target := Max(1, quota);
    while p < |order|
      invariant Extended(n, caps, i, g0, g, edges, added) && Visited(caps, i, order, p, g) && added <= p
      invariant full ==> added == target
      invariant !full ==> added == 0 || added < quota
    {
      if |g[i]| >= caps[i] {
        break;
      }
      var before := added;
      g, edges, added := Consider(n, caps, i, g0, order, weightDraws, p, g, edges, added);
      p := p + 1;
      if added > before && added >= quota {
        full := true;
        break;
      }
    }
    if added < target && added < room {
      AllVisited(n, caps, i, order, g);
    }
  }

  /** Prefix growth composes. */
  lemma GrowsTrans(a: Graph, b: Graph, c: Graph)
    requires Grows(a, b) && Grows(b, c)
    ensures Grows(a, c)
  {
    forall v | 0 <= v < |a|
      ensures a[v] <= c[v]
    {
      assert a[v] <= b[v] <= c[v];
    }
  }

  /** The raw draws one run of the builder consumes: one weight draw per
      backbone edge; per node, in id order, the draw of its quota, the
      shuffled candidate list, and the weight draws of the edges it adds. */
  datatype Draws = Draws(backbone: seq<nat>, quota: seq<nat>, order: seq<seq<nat>>, weight: seq<seq<nat>>)

  /** Enough draws for an `n`-node build, each list a shuffle of its node's
      candidates. */
  predicate DrawsFor(n: nat, d: Draws) {
    && |d.backbone| == n - 1 && |d.quota| == n && |d.order| == n && |d.weight| == n
    && forall i :: 0 <= i < n ==> Shuffled(n, i, d.order[i]) && |d.weight[i]| == n - 1
  }

  /** `build_random_graph(N, M_list)`: the backbone pass, then one
      augmentation pass per node in id order. The result is simple, holds
      the whole backbone (so it is connected), and every degree lies between
      the backbone degree and the larger of the cap and the backbone degree;
      the backbone alone can exceed a cap. */
  method BuildRandomGraph(n: nat, caps: seq<nat>, d: Draws) returns (g: Graph)
    requires n >= 2 && |caps| == n && forall v :: 0 <= v < n ==> 1 <= caps[v] < n
    requires DrawsFor(n, d)
    ensures |g| == n && Simple(g) && ValidGraph(g)
    ensures forall v :: 0 <= v < n ==> Laid(d.backbone, n - 1, v) <= g[v]
    ensures forall v :: 0 <= v < n ==> BackboneDegree(n, v) <= |g[v]| <= Max(caps[v], BackboneDegree(n, v))
    ensures forall s, t :: 0 <= s < n && 0 <= t < n ==> Reachable(g, s, t)
  {
    var edges;
    g, edges := Backbone(n, d.backbone);
    ChainSimple(d.backbone, g);
    ChainAdjacent(d.backbone, g);
    ghost var chain := g;
    var i := 0;
    while i < n
      invariant 0 <= i <= n && |g| == n && Simple(g) && Mirror(g, edges) && Grows(chain, g)
      invariant forall v :: 0 <= v < n ==> |g[v]| <= Max(caps[v], BackboneDegree(n, v))
    {
      ghost var before := g;
      var added;
      g, edges, added := AugmentNode(n, caps, i, g, edges, d.quota[i], d.order[i], d.weight[i]);
      GrowsTrans(chain, before, g);
      i := i + 1;
    }
    forall s, t | 0 <= s < n && 0 <= t < n
      ensures Reachable(g, s, t)
    {
      var p, ws := ChainWalk(g, d.backbone, s, t);
    }
  }
}
