# Routing demo: random topologies and two shortest-path solvers

This project models the core of `route.py`, a small routing demonstration.
`build_random_graph` builds a connected, weighted, undirected topology.
It takes a node count and per-node degree caps. `dijkstra` (link-state
routing) and `bellman_ford` (distance-vector routing) then answer
shortest-path queries on such graphs. Both share one way of reporting
the path: the node list from start to end plus its total weight, or an
empty list and infinity when the end cannot be reached.

Modules, one per concern of the source:

- `Graphs` (graphs.dfy) holds the core definitions and walk lemmas.
  - A graph is a sequence of adjacency lists of `(neighbour, weight)`
    entries, indexed by node id. The source keeps a dict keyed
    `0..N-1` and iterates it in that order.
  - `Dist` is a distance: a natural number, or Python's `float('inf')`,
    with the same `+` and `<`.
  - Also defined here: walks, reachability, lower bounds and relaxed
    distance tables.
  - Lemmas: every walk can be shortened to at most `N` nodes without
    getting heavier, and a relaxed table bounds every walk from below.
- `Paths` (paths.dfy) holds what both solvers share.
  - `CorrectResult` is the contract a query answer must meet.
  - It also holds the distance and predecessor tables and the walk back
    along predecessor links.
- `LinkState` (link_state.dfy) is `dijkstra`.
  - The heap is a list of `(distance, node)` entries, and the pop takes
    the least entry in tuple order.
  - Stale entries are deleted lazily, and the loop stops early when the
    end node is popped.
- `DistanceVector` (distance_vector.dfy) is `bellman_ford`.
  - It runs at most `N - 1` rounds of in-place relaxation, in adjacency
    order.
  - It stops after the first round that changes nothing.
- `RandomGraph` (random_graph.dfy) is `build_random_graph`.
  - First the backbone chain, then one capped augmentation pass per node.
- `Scenarios` (scenarios.dfy) works through small fixed queries.

Randomness is a parameter. A raw natural-number draw stands for each
`random.randint(lo, hi)` call and is folded into `[lo, hi]` (`RandInt`).
Each `random.shuffle` is given as a list that must be a permutation of
the candidate list (`Shuffled`). Given the same draws, the builder
returns the same graph.

Both solvers promise `CorrectResult` for every graph whose entries name
nodes and whose weights are at least 1 (`ValidGraph`). This means:

- the weight is infinite exactly when no walk leads from start to end;
- an infinite weight comes with an empty path;
- otherwise the path is a walk from start to end whose edge weights add
  up to the reported weight, and no walk is lighter.

When start and end coincide, both return `[start]` and weight 0.

Three behaviours of the source are easy to misread:

- **Degree bound.** A degree can exceed its cap. The backbone pass
  (route.py:28-32) ignores the caps; only the augmentation pass checks
  them (route.py:43-46). For example, with `N = 3` and every cap 1,
  node 1 still gets degree 2. `BuildRandomGraph` therefore proves
  `degree <= max(cap, backbone degree)`.
- **Quota of 0.** The drawn quota `k` is compared with the added-count
  only after an addition (route.py:53-54). So when `k = 0` is drawn and
  there is room, at most one edge is still added, and exactly one
  whenever some other node is below its cap and not yet adjacent. With
  `N = 3` and caps `[2, 1, 1]`, nodes 1 and 2 are at their caps after the
  backbone, so node 0 adds nothing. `AugmentNode` proves
  `added <= max(1, k)`, and that it stops short of both bounds only when
  every other node is capped or adjacent.
- **Validation.** The builder and the solvers check nothing themselves.
  The console input loops (`get_user_input`, `get_init_and_end_nodes`)
  reject a bad `N`, cap or node id before they are called. Here those
  checks become preconditions: `N >= 2`, `1 <= cap < N`, and
  `0 <= start, end < N`.

## Model

| member | source | states |
|---|---|---|
| LinkState.Dijkstra | route.py:72-97 | Meets `CorrectResult` for every valid graph and in-range start and end: no path and infinite weight exactly when the end is unreachable, otherwise a walk of exactly the reported weight that no walk undercuts; `start == end` gives `([start], 0)`. |
| LinkState.EntryBefore | route.py:78 | The order `heappop` uses on `(distance, node)` tuples: by distance, then by node id. |
| LinkState.EntryOrder | route.py:78 | That tuple order is total, antisymmetric and transitive, so "the least entry" is well defined. |
| LinkState.PopMin | route.py:78 | The popped entry is the least in `(distance, node)` tuple order, and the rest is the heap without exactly that one entry (multiset equality). |
| LinkState.Expand | route.py:83-88 | After expanding `u` at distance `d`, every edge of `u` is relaxed to at most `d + w`, no distance grew, every lowered node has `u` as predecessor and an entry at its new distance in the heap, and the predecessor, heap and relaxation invariants still hold. |
| LinkState.Improve | route.py:84-88 | An improving neighbour gets distance `d + w`, predecessor `u` and a fresh heap entry, and the expansion loop's invariant (predecessor table, heap discipline, relaxed expanded nodes, progress) advances by one edge. |
| LinkState.ExpandFinish | route.py:83-88 | Once every edge of the expanded node is relaxed, no expanded node has an unrelaxed edge. |
| LinkState.FirstUnexpanded | route.py:77-88 | Along any walk from the start, the first node not yet expanded (or the last node) already has a distance no larger than the walk's weight. |
| LinkState.EmptyHeapBound | route.py:77 | When the heap runs empty, every distance is a lower bound on the walks to its node. |
| LinkState.TargetPoppedBound | route.py:79-80 | When the end node is popped, its distance is finite and no walk to it is lighter. |
| LinkState.FrontierAfterPush | route.py:84-88 | Lowering an unexpanded node's distance and pushing the matching entry keeps the heap discipline. |
| LinkState.FrontierAfterStalePop | route.py:81-82 | Discarding an entry above its node's distance keeps the heap discipline. |
| LinkState.FrontierAfterExpandPop | route.py:78-83 | A popped entry that is not stale belongs to an unexpanded node at exactly that distance, and expanding that node keeps the heap discipline with the popped key as the new floor. |
| LinkState.RelaxedAfterDrop | route.py:84-86 | Lowering an unexpanded node's distance keeps every expanded node's edges relaxed. |
| LinkState.ProgressAfterImprove | route.py:83-88 | One improving neighbour extends the expansion loop's progress by one edge. |
| LinkState.ExpandSkip | route.py:83-85 | A neighbour that does not improve leaves the expansion loop's invariant intact for the next edge. |
| DistanceVector.BellmanFord | route.py:99-122 | Meets `CorrectResult` for every valid graph and in-range start and end; `start == end` gives `([start], 0)`. |
| DistanceVector.RelaxAll | route.py:105-111 | One round keeps the predecessor table, never raises a distance, leaves every edge `u -> v` with `dist[v] <= dist_before[u] + w`, and reports `updated` exactly when some distance changed. |
| DistanceVector.RelaxNode | route.py:106-111 | Relaxing the edges of one node in list order keeps the predecessor table, never raises a distance, bounds each neighbour by `dist[u] + w`, gives every lowered node `u` as predecessor (so, with the predecessor table, only neighbours of `u` change), and reports `updated` exactly when some distance changed. |
| DistanceVector.RoundExtendsBound | route.py:104-111 | If the table bounded all walks of at most `k` hops before a round, it bounds all walks of at most `k + 1` hops after it. |
| DistanceVector.EnoughRounds | route.py:104 | After `N - 1` rounds the table bounds every walk, since a walk can be shortened to at most `N` nodes. |
| Paths.BuildPath | route.py:90-97 | The walk back along predecessor links ends at the start and returns a walk from start to end no heavier than `dist[end]`, `[]` when `dist[end]` is infinite, and `[start]` when start is the end; the weight returned is `dist[end]`. |
| Paths.InitialTables | route.py:73-75 | Distances start at 0 for the start node and infinity elsewhere, with no predecessors. |
| Paths.TableAfterImprove | route.py:84-86 | Improving a node through an edge keeps the predecessor table consistent. |
| Paths.LowerBoundGivesResult | route.py:90-97 | A lower-bound distance plus the walk-back result is a correct answer. |
| Paths.CorrectResultsAgree | route.py:72-122 | Two correct answers to the same query have the same weight, so the two solvers agree on it. |
| Graphs.RelaxedIsLowerBound | route.py:112-113 | A table in which every edge is relaxed, with the start at 0, bounds every walk from the start; this is why stopping after a round with no update is sound. |
| Graphs.ShortWalk | route.py:104 | Every walk has a walk with the same ends, at most `N` nodes and no greater weight. |
| Graphs.TightWalk | route.py:90-97 | A walk from the start whose weight equals its end's distance in a relaxed table raises the distance by exactly its weight on every hop: a lightest walk runs along tight edges only. |
| Graphs.HopsAtMostWeight | route.py:72-122 | With every weight at least 1, a walk has no more hops than its weight. |
| Graphs.WalkExtend | route.py:28-32 | Appending a hop along an existing edge extends a walk. |
| RandomGraph.BuildRandomGraph | route.py:24-56 | The built graph is simple (mirrored entries with equal weights, no self-loops, no neighbour twice, weights in `[1, 10]`), contains every backbone edge `(i, i+1)` with its drawn weight, connects every pair of nodes, and has each degree between the backbone degree and `max(cap, backbone degree)`. |
| RandomGraph.Backbone | route.py:28-32 | The backbone pass gives node `v` exactly the entries `(v-1, w)` then `(v+1, w)` where those exist, and records exactly the pairs `(i, i+1)`. |
| RandomGraph.Room | route.py:37 | `max(0, cap - degree)`: the room brings the degree exactly up to `max(cap, degree)`. |
| RandomGraph.Quota | route.py:38 | The drawn quota never exceeds the room, and every count up to the room is drawn by some draw. |
| RandomGraph.Consider | route.py:45-53 | One candidate keeps the pass invariant and the visited prefix, and adds exactly one edge exactly when the candidate is below its cap and not yet adjacent. |
| RandomGraph.AugmentNode | route.py:34-55 | One node's pass keeps the graph simple and the `edges` set equal to the adjacent pairs. It only appends: one entry per new partner, pointing back at the node. No addition takes a node past its cap. It adds at most `max(0, cap - degree)` edges and at most `max(1, k)` for the drawn quota `k`. If it adds fewer than both, every other node is at its cap or already adjacent. |
| RandomGraph.RandInt | route.py:29 | A folded draw lies in `[lo, hi]`, and every value of the range is produced by some draw. |
| RandomGraph.Others | route.py:39 | The candidate list holds exactly the node ids other than `i`, `N - 1` of them. |
| RandomGraph.ShuffledMembers | route.py:39-40 | A shuffled candidate list holds exactly the other nodes, `N - 1` entries. |
| RandomGraph.ChainSimple | route.py:28-32 | The backbone graph is simple. |
| RandomGraph.ChainEntry | route.py:28-32 | Every backbone entry points one id down or up and is mirrored with the same weight. |
| RandomGraph.ChainAdjacent | route.py:28-32 | In the backbone graph, two nodes are adjacent exactly when their ids are consecutive. |
| RandomGraph.ChainWalk | route.py:28-32 | A graph containing the backbone has a walk between any two nodes. |
| RandomGraph.AddPair | route.py:50-51 | Adding an edge appends `(x, w)` to `i` and `(i, w)` to `x` and changes no other list. |
| RandomGraph.AddEdgeSimple | route.py:47-52 | Adding an edge between two nodes that are not yet adjacent keeps the graph simple and only appends. |
| RandomGraph.AddedEntry | route.py:49-51 | Every entry of the grown graph names another node, has a weight in `[1, 10]` and is mirrored. |
| RandomGraph.AddedDistinct | route.py:47-51 | The grown graph lists no neighbour twice. |
| RandomGraph.AddEdgeMirror | route.py:47-52 | Recording `(min, max)` keeps the `edges` set equal to the adjacent pairs. |
| RandomGraph.RecordedIsAdjacent | route.py:47-52 | Every recorded pair is adjacent in the grown graph. |
| RandomGraph.AdjacentIsRecorded | route.py:47-52 | Every adjacent ordered pair of the grown graph is recorded. |
| RandomGraph.AdjacentSymmetric | route.py:50-51 | In a simple graph adjacency is symmetric. |
| RandomGraph.SkipAdjacent | route.py:47-48 | A candidate whose pair is already recorded is adjacent to the node. |
| RandomGraph.SkipFull | route.py:45-46 | A candidate already at its cap counts as visited. |
| RandomGraph.AddKeepsExtended | route.py:43-53 | An addition with both endpoints below their caps keeps the pass invariant, with one more edge added. |
| RandomGraph.AddKeepsVisited | route.py:42-53 | Growing the graph keeps every visited candidate at its cap or adjacent, and the new partner is adjacent. |
| RandomGraph.VisitedStart | route.py:39-42 | Before the walk, the shuffled list names the `N - 1` other nodes. |
| RandomGraph.AllVisited | route.py:42-55 | Once every candidate has been visited, every other node is at its cap or adjacent. |
| Scenarios.WitnessedWeight | route.py:72-122 | A walk whose weight matches a relaxed table fixes the weight of every correct answer. |
| Scenarios.TightAnswer | route.py:90-97 | The path of a correct answer whose weight matches a relaxed table is tight on every hop. |
| Scenarios.ClimbingAnswer | route.py:90-97 | When every tight hop climbs one id, a correct answer from 0 to `t` is exactly the path `0, 1, ..., t`. |
| Scenarios.ChainQuery | route.py:72-122 | On the chain `0 -3- 1 -5- 2 -2- 3`, every correct answer, and so either solver's, from 0 to 3 is `([0, 1, 2, 3], 10)`. |
| Scenarios.ShortcutQuery | route.py:72-122 | With an extra edge `0 -1- 3`, the answer becomes `([0, 3], 1)`. |
| Scenarios.DetourQuery | route.py:72-122 | On `0 -4- 1 -4- 2`, 0 to 2 is `([0, 1, 2], 8)`. |
| Scenarios.SplitQuery | route.py:72-122 | Across two components the answer is `([], inf)`. |

## Left out

- Console input and output (`get_user_input`, `get_init_and_end_nodes`, `main`) are not modelled. Their validation loops become preconditions: `N >= 2`, `1 <= cap < N`, and start and end in `[0, N)`.
- The random number generator is not modelled. `RandInt` maps any natural draw onto the range and reaches every value. Uniformity and the generator's state are not modelled, and neither is the order in which the real program interleaves draws.
- `heapq` internals are not modelled. The heap is an unordered list, and `PopMin` takes its least entry in tuple order as `heappop` does. The binary-heap layout and its cost are left out.
- Python floats are not modelled. Distances are natural numbers plus infinity. The weights the builder draws are integers, so no rounding arises.
- The solvers require every weight to be at least 1 (`ValidGraph`). The builder only draws weights from `[1, 10]`. Zero weights would need another argument for why the walk back along predecessors ends.
- RandomGraph.BuildRandomGraph: does not claim `degree <= cap`. The source's backbone pass can exceed a cap, so the proved bound is `max(cap, backbone degree)`.
- Determinism under a fixed seed is not stated as a lemma. The builder is a method of its draws, and methods cannot be compared inside a proof.
