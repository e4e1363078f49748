/** Link-state routing: `dijkstra` (route.py:72-97) with a lazily pruned
    min-heap of `(distance, node)` entries and an early stop at the target. */
module LinkState {
  import opened Graphs
  import opened Paths

  /** A heap entry, the tuple `(distance, node)`. */
  datatype Entry = Entry(key: nat, node: nat)

  /** Python's tuple order on entries: by distance, then by node id. */
  predicate EntryBefore(a: Entry, b: Entry) {
    a.key < b.key || (a.key == b.key && a.node <= b.node)
  }

  /** Tuple order is a total order: any two entries compare, only equal
      entries compare both ways, and comparisons chain. */
  lemma EntryOrder(a: Entry, b: Entry, c: Entry)
    ensures EntryBefore(a, b) || EntryBefore(b, a)
    ensures EntryBefore(a, b) && EntryBefore(b, a) ==> a == b
    ensures EntryBefore(a, b) && EntryBefore(b, c) ==> EntryBefore(a, c)
  {
  }

  /** `heapq.heappop`: removes and returns the least entry in tuple order. */
  method PopMin(heap: seq<Entry>) returns (e: Entry, rest: seq<Entry>)
    requires |heap| > 0
    ensures multiset(heap) == multiset(rest) + multiset{e}
    ensures forall x :: x in heap ==> EntryBefore(e, x)
  {
    var m := 0;
    var i := 1;
    while i < |heap|
      invariant 0 <= m < i <= |heap|
      invariant forall j :: 0 <= j < i ==> EntryBefore(heap[m], heap[j])
    {
      if !EntryBefore(heap[m], heap[i]) {
        m := i;
      }
      i := i + 1;
    }
    e := heap[m];
    rest := heap[..m] + heap[m + 1..];
    assert heap == heap[..m] + [heap[m]] + heap[m + 1..];
  }

  /** The heap discipline of the lazy-deletion loop. Nodes outside `undone`
      have been expanded: their distance is final and at most `floor`, the
      key of the last expansion, which no entry undercuts. Every entry is
      at least its node's distance; an unexpanded node with a finite
      distance has an entry at exactly that distance, and an expanded one
      has none. */
  ghost predicate Frontier(g: Graph, dist: seq<Dist>, heap: seq<Entry>, undone: set<nat>, floor: nat) {
    && |dist| == |g|
    && (forall x :: x in heap ==>
          x.node < |g| && dist[x.node].Fin? && dist[x.node].n <= x.key && floor <= x.key)
    && (forall v :: 0 <= v < |g| && v in undone && dist[v].Fin? ==> Entry(dist[v].n, v) in heap)
    && (forall v :: 0 <= v < |g| && dist[v].Fin? ==>
          multiset(heap)[Entry(dist[v].n, v)] <= if v in undone then 1 else 0)
    && (forall v :: 0 <= v < |g| && v !in undone ==> dist[v].Fin? && dist[v].n <= floor)
  }

  /** Every edge out of an expanded node other than those in `pending` is relaxed. */
  ghost predicate DoneRelaxed(g: Graph, dist: seq<Dist>, undone: set<nat>, pending: set<nat>) {
    && |dist| == |g|
    && forall v, i :: 0 <= v < |g| && v !in undone && v !in pending && 0 <= i < |g[v]| && g[v][i].to < |g| ==>
         dist[g[v][i].to].AtMost(dist[v].Plus(g[v][i].weight))
  }

  /** The cut argument: walking a walk from the source, the first node that is
      unexpanded (or else the last node) already has a distance no larger
      than the whole walk. */
  lemma {:induction false} FirstUnexpanded(g: Graph, s: nat, dist: seq<Dist>, undone: set<nat>, p: seq<nat>, ws: seq<nat>)
    returns (i: nat)
    requires DoneRelaxed(g, dist, undone, {}) && s < |g| && dist[s] == Fin(0)
    requires IsWalk(g, p, ws) && p[0] == s
    ensures i < |p| && (i == |p| - 1 || p[i] in undone)
    ensures dist[p[i]].AtMost(Fin(Sum(ws)))
    decreases |ws|
  {
    if |ws| == 0 {
      i := 0;
    } else {
      WalkPrefix(g, p, ws);
      var j := FirstUnexpanded(g, s, dist, undone, p[..|p| - 1], ws[..|ws| - 1]);
      if p[j] in undone {
        i := j;
      } else {
        var u := p[|p| - 2];
        var k :| 0 <= k < |g[u]| && g[u][k] == Edge(p[|p| - 1], ws[|ws| - 1]);
        i := |p| - 1;
      }
    }
  }

  /** Loop exit on an empty heap: every unexpanded node is still at `inf`, so
      only expanded nodes can end a walk, with final distances. */
  lemma EmptyHeapBound(g: Graph, s: nat, t: nat, dist: seq<Dist>, undone: set<nat>, floor: nat)
    requires Frontier(g, dist, [], undone, floor) && DoneRelaxed(g, dist, undone, {})
    requires s < |g| && t < |g| && dist[s] == Fin(0)
    ensures LowerBound(g, s, t, dist[t])
  {
    forall p, ws | WalkBetween(g, s, t, p, ws)
      ensures dist[t].AtMost(Fin(Sum(ws)))
    {
      var i := FirstUnexpanded(g, s, dist, undone, p, ws);
    }
  }

  /** Loop exit on popping the target: the popped entry is no larger than
      any unexpanded node's distance, so no walk is lighter than it. */
  lemma TargetPoppedBound(g: Graph, s: nat, t: nat, dist: seq<Dist>, heap: seq<Entry>, undone: set<nat>, floor: nat, e: Entry)
    requires Frontier(g, dist, heap, undone, floor) && DoneRelaxed(g, dist, undone, {})
    requires s < |g| && t < |g| && dist[s] == Fin(0)
    requires e in heap && e.node == t && forall x :: x in heap ==> EntryBefore(e, x)
    ensures dist[t].Fin? && LowerBound(g, s, t, dist[t])
  {
    forall p, ws | WalkBetween(g, s, t, p, ws)
      ensures dist[t].AtMost(Fin(Sum(ws)))
    {
      var i := FirstUnexpanded(g, s, dist, undone, p, ws);
      if i < |p| - 1 {
        assert Entry(dist[p[i]].n, p[i]) in heap;
      }
    }
  }

  /** Lowering an unexpanded node's distance to `nd >= floor` and pushing the
      matching entry keeps the heap discipline. */
  lemma FrontierAfterPush(g: Graph, dist: seq<Dist>, heap: seq<Entry>, undone: set<nat>, floor: nat, x: nat, nd: nat)
    requires Frontier(g, dist, heap, undone, floor) && x < |g| && floor <= nd && Fin(nd).Less(dist[x])
    ensures x in undone
    ensures Frontier(g, dist[x := Fin(nd)], heap + [Entry(nd, x)], undone, floor)
  {
    assert Entry(nd, x) !in heap;
    assert multiset(heap)[Entry(nd, x)] == 0;
    var dist', heap' := dist[x := Fin(nd)], heap + [Entry(nd, x)];
    forall v | 0 <= v < |g| && dist'[v].Fin?
      ensures multiset(heap')[Entry(dist'[v].n, v)] <= if v in undone then 1 else 0
    {
      if v != x {
        assert Entry(dist'[v].n, v) != Entry(nd, x);
      }
    }
  }

  lemma RelaxedAfterDrop(g: Graph, dist: seq<Dist>, undone: set<nat>, pending: set<nat>, x: nat, nd: nat)
    requires DoneRelaxed(g, dist, undone, pending) && x < |g| && x in undone && Fin(nd).Less(dist[x])
    ensures DoneRelaxed(g, dist[x := Fin(nd)], undone, pending)
  {
  }

  /** Discarding a stale entry keeps the heap discipline. */
  lemma FrontierAfterStalePop(g: Graph, dist: seq<Dist>, heap: seq<Entry>, rest: seq<Entry>, undone: set<nat>, floor: nat, e: Entry)
    requires Frontier(g, dist, heap, undone, floor) && multiset(heap) == multiset(rest) + multiset{e}
    requires e.node < |g| && dist[e.node].Less(Fin(e.key))
    ensures Frontier(g, dist, rest, undone, floor)
  {
    forall v | 0 <= v < |g| && v in undone && dist[v].Fin?
      ensures Entry(dist[v].n, v) in rest
    {
      assert Entry(dist[v].n, v) in multiset(heap);
      assert Entry(dist[v].n, v) != e;
    }
    forall x | x in rest
      ensures x in heap
    {
      assert x in multiset(rest);
      assert x in multiset(heap);
    }
  }

  /** Popping the least entry when it is not stale: its node is unexpanded and
      sits at exactly that distance, and it becomes expanded with the popped
      key as the new floor. */
  lemma FrontierAfterExpandPop(g: Graph, dist: seq<Dist>, heap: seq<Entry>, rest: seq<Entry>, undone: set<nat>, floor: nat, e: Entry)
    requires Frontier(g, dist, heap, undone, floor) && multiset(heap) == multiset(rest) + multiset{e}
    requires forall x :: x in heap ==> EntryBefore(e, x)
    requires e.node < |g| && !dist[e.node].Less(Fin(e.key))
    ensures e.node in undone && dist[e.node] == Fin(e.key)
    ensures Frontier(g, dist, rest, undone - {e.node}, e.key)
  {
    assert e in multiset(heap);
    forall v | 0 <= v < |g| && v in undone - {e.node} && dist[v].Fin?
      ensures Entry(dist[v].n, v) in rest
    {
      assert Entry(dist[v].n, v) in multiset(heap);
    }
    forall x | x in rest
      ensures x in heap && e.key <= x.key
    {
      assert x in multiset(rest);
      assert x in multiset(heap);
    }
  }

  /** What the inner loop has achieved after the first `j` edges of `u`:
      those edges are relaxed, no distance grew, and every distance that
      dropped has `u` as predecessor and an entry in the heap. */
  ghost predicate Progress(g: Graph, u: nat, d: nat, dist0: seq<Dist>, heap0: seq<Entry>,
                           j: nat, dist: seq<Dist>, prev: seq<Option<nat>>, heap: seq<Entry>) {
    && ValidGraph(g) && u < |g| && j <= |g[u]| && |dist0| == |g| && |dist| == |g| && |prev| == |g|
    && (forall i :: 0 <= i < j ==> dist[g[u][i].to].AtMost(Fin(d + g[u][i].weight)))
    && (forall v :: 0 <= v < |g| ==> dist[v].AtMost(dist0[v]))
    && (forall v :: 0 <= v < |g| && dist[v] != dist0[v] ==> prev[v] == Some(u) && Entry(dist[v].n, v) in heap)
    && multiset(heap0) <= multiset(heap)
  }

  /** The inner loop's invariant after the first `j` edges of `u`. */
  ghost predicate ExpandedUpTo(g: Graph, s: nat, u: nat, d: nat, dist0: seq<Dist>, heap0: seq<Entry>, undone: set<nat>,
                               j: nat, dist: seq<Dist>, prev: seq<Option<nat>>, via: seq<nat>, heap: seq<Entry>) {
    && Progress(g, u, d, dist0, heap0, j, dist, prev, heap)
    && PredecessorTable(g, s, dist, prev, via)
    && Frontier(g, dist, heap, undone, d) && DoneRelaxed(g, dist, undone, {u})
    && u !in undone && dist[u] == Fin(d)
  }

  lemma ProgressAfterImprove(g: Graph, u: nat, d: nat, dist0: seq<Dist>, heap0: seq<Entry>,
                             j: nat, dist: seq<Dist>, prev: seq<Option<nat>>, heap: seq<Entry>,
                             dist': seq<Dist>, prev': seq<Option<nat>>, heap': seq<Entry>)
    requires Progress(g, u, d, dist0, heap0, j, dist, prev, heap) && j < |g[u]|
    requires Fin(d + g[u][j].weight).Less(dist[g[u][j].to])
    requires dist' == dist[g[u][j].to := Fin(d + g[u][j].weight)] && prev' == prev[g[u][j].to := Some(u)]
    requires heap' == heap + [Entry(d + g[u][j].weight, g[u][j].to)]
    ensures Progress(g, u, d, dist0, heap0, j + 1, dist', prev', heap')
  {
    forall i | 0 <= i < j + 1
      ensures dist'[g[u][i].to].AtMost(Fin(d + g[u][i].weight))
    {
      if i < j {
        assert dist'[g[u][i].to].AtMost(dist[g[u][i].to]);
      }
    }
  }

  /** An iteration of the inner loop whose neighbour does not improve keeps
      `ExpandedUpTo`. */
  lemma ExpandSkip(g: Graph, s: nat, u: nat, d: nat, dist0: seq<Dist>, heap0: seq<Entry>, undone: set<nat>,
                   j: nat, dist: seq<Dist>, prev: seq<Option<nat>>, via: seq<nat>, heap: seq<Entry>)
    requires ExpandedUpTo(g, s, u, d, dist0, heap0, undone, j, dist, prev, via, heap) && j < |g[u]|
    requires !Fin(d + g[u][j].weight).Less(dist[g[u][j].to])
    ensures ExpandedUpTo(g, s, u, d, dist0, heap0, undone, j + 1, dist, prev, via, heap)
  {
  }

  /** One improving neighbour `x` of `u` (route.py:84-88): `x` gets the
      distance `d + w`, the predecessor `u` and a fresh heap entry. */
  method Improve(g: Graph, s: nat, u: nat, d: nat, dist0: seq<Dist>, heap0: seq<Entry>, ghost undone: set<nat>,
                 j: nat, dist: seq<Dist>, prev: seq<Option<nat>>, ghost via: seq<nat>, heap: seq<Entry>)
    returns (dist': seq<Dist>, prev': seq<Option<nat>>, ghost via': seq<nat>, heap': seq<Entry>)
    requires ExpandedUpTo(g, s, u, d, dist0, heap0, undone, j, dist, prev, via, heap) && j < |g[u]|
    requires Fin(d + g[u][j].weight).Less(dist[g[u][j].to])
    ensures ExpandedUpTo(g, s, u, d, dist0, heap0, undone, j + 1, dist', prev', via', heap')
    ensures dist' == dist[g[u][j].to := Fin(d + g[u][j].weight)] && prev' == prev[g[u][j].to := Some(u)]
    ensures heap' == heap + [Entry(d + g[u][j].weight, g[u][j].to)]
  {
    var e := g[u][j];
    var cand := d + e.weight;
    assert e in g[u];
    TableAfterImprove(g, s, dist, prev, via, u, e.to, e.weight);
    FrontierAfterPush(g, dist, heap, undone, d, e.to, cand);
    RelaxedAfterDrop(g, dist, undone, {u}, e.to, cand);
    ProgressAfterImprove(g, u, d, dist0, heap0, j, dist, prev, heap,
                         dist[e.to := Fin(cand)], prev[e.to := Some(u)], heap + [Entry(cand, e.to)]);
    dist' := dist[e.to := Fin(cand)];
    prev' := prev[e.to := Some(u)];
    via' := via[e.to := e.weight];
    heap' := heap + [Entry(cand, e.to)];
  }

  /** Once every edge of `u` is relaxed, no expanded node has an unrelaxed
      edge left. */
  lemma ExpandFinish(g: Graph, s: nat, u: nat, d: nat, dist0: seq<Dist>, heap0: seq<Entry>, undone: set<nat>,
                     dist: seq<Dist>, prev: seq<Option<nat>>, via: seq<nat>, heap: seq<Entry>)
    requires u < |g| && ExpandedUpTo(g, s, u, d, dist0, heap0, undone, |g[u]|, dist, prev, via, heap)
    ensures DoneRelaxed(g, dist, undone, {})
  {
    forall v, i | 0 <= v < |g| && v !in undone && 0 <= i < |g[v]| && g[v][i].to < |g|
      ensures dist[g[v][i].to].AtMost(dist[v].Plus(g[v][i].weight))
    {
      if v == u {
        assert dist[g[u][i].to].AtMost(Fin(d + g[u][i].weight));
      }
    }
  }

  /** The inner loop for an expanded node `u` popped at distance `d`: each
      neighbour reached more cheaply through `u` gets the new distance, `u`
      as predecessor, and a fresh heap entry. */
  method Expand(g: Graph, s: nat, u: nat, d: nat, dist0: seq<Dist>, prev0: seq<Option<nat>>, ghost via0: seq<nat>,
                heap0: seq<Entry>, ghost undone: set<nat>)
    returns (dist: seq<Dist>, prev: seq<Option<nat>>, ghost via: seq<nat>, heap: seq<Entry>)
    requires ValidGraph(g) && u < |g| && |dist0| == |g| && u !in undone && dist0[u] == Fin(d)
    requires PredecessorTable(g, s, dist0, prev0, via0)
    requires Frontier(g, dist0, heap0, undone, d) && DoneRelaxed(g, dist0, undone, {u})
    ensures PredecessorTable(g, s, dist, prev, via)
    ensures Frontier(g, dist, heap, undone, d) && DoneRelaxed(g, dist, undone, {})
    ensures forall i :: 0 <= i < |g[u]| ==> dist[g[u][i].to].AtMost(Fin(d + g[u][i].weight))
    ensures forall v :: 0 <= v < |g| ==> dist[v].AtMost(dist0[v])
    ensures forall v :: 0 <= v < |g| && dist[v] != dist0[v] ==> prev[v] == Some(u) && Entry(dist[v].n, v) in heap
    ensures multiset(heap0) <= multiset(heap)
  {
    dist, prev, via, heap := dist0, prev0, via0, heap0;
    var j := 0;
    while j < |g[u]|
      invariant ExpandedUpTo(g, s, u, d, dist0, heap0, undone, j, dist, prev, via, heap)
    {
      var e := g[u][j];
      var cand := d + e.weight;
      if Fin(cand).Less(dist[e.to]) {
        dist, prev, via, heap := Improve(g, s, u, d, dist0, heap0, undone, j, dist, prev, via, heap);
      } else {
        ExpandSkip(g, s, u, d, dist0, heap0, undone, j, dist, prev, via, heap);
      }
      j := j + 1;
    }
    ExpandFinish(g, s, u, d, dist0, heap0, undone, dist, prev, via, heap);
  }

  /** Pops entries in `(distance, node)` order until the heap is empty or
      the target is popped; stale entries are skipped, the rest expanded;
      then the shared walk-back. */
  method Dijkstra(g: Graph, s: nat, t: nat) returns (r: PathResult)
    requires ValidGraph(g) && s < |g| && t < |g|
    ensures CorrectResult(g, s, t, r)
    ensures s == t ==> r == PathResult([s], Fin(0))
  {
    var n := |g|;
    var dist, prev := InitialTables(n, s);
    ghost var via: seq<nat> := seq(n, v => 0);
    var heap := [Entry(0, s)];
    ghost var undone := Range(n);
    ghost var floor := 0;
    while heap != []
      invariant PredecessorTable(g, s, dist, prev, via)
      invariant Frontier(g, dist, heap, undone, floor) && DoneRelaxed(g, dist, undone, {})
      decreases undone, |heap|
    {
      var e, rest := PopMin(heap);
      assert e in multiset(heap);
      if e.node == t {
        TargetPoppedBound(g, s, t, dist, heap, undone, floor, e);
        break;
      }
      var u := e.node;
      if dist[u].Less(Fin(e.key)) {
        FrontierAfterStalePop(g, dist, heap, rest, undone, floor, e);
        heap := rest;
      } else {
        FrontierAfterExpandPop(g, dist, heap, rest, undone, floor, e);
        undone := undone - {u};
        floor := e.key;
        dist, prev, via, heap := Expand(g, s, u, e.key, dist, prev, via, rest, undone);
      }
    }
    if heap == [] {
      EmptyHeapBound(g, s, t, dist, undone, floor);
    }
    r := BuildPath(g, s, t, dist, prev, via);
    LowerBoundGivesResult(g, s, t, dist, r);
  }
}
