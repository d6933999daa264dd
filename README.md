# Chinese Postman solver, modelled in Dafny

This project models the core of a solver for the undirected, weighted
Chinese Postman Problem: find a closed walk that crosses every edge of a
multigraph at least once and costs as little as possible. The solver works in
these steps:

1. It stores the input in a `Graph`. The graph keeps adjacency Counters
   (parallel edges are counted), a weight per ordered vertex pair, the vertex
   set and the running total weight.
2. It checks that the vertices of positive degree are connected, using a
   depth-first search.
3. It lists the odd-degree vertices.
4. It runs Dijkstra from each odd vertex.
5. It enumerates every perfect pairing of the odd vertices and picks the
   cheapest.
6. It builds an augmented graph. The augmented graph holds every original
   edge, plus every edge of the shortest path between the two vertices of
   each matched pair.
7. It runs Hierholzer's algorithm on the augmented graph.

The model keeps the program's shape:

- `Graph` is a class whose methods update its fields.
- Every loop of the source is a Dafny loop with invariants. This covers the
  search in `_is_connected`, Dijkstra's queue loop and relaxation loop, the
  walk back along predecessor links, the matching search, the three copy loops
  and the path-adding loop of the augmentation, and Hierholzer's stack loop.
- The pairing generator becomes the function `Pairings`, which returns the
  pairings in the order the generator yields them.

Modules:

- `Base`: vertices, `Option` and list reversal.
- `Order`: Python's `<=` on strings.
- `Counters`: `Counter` sums.
- `Multigraph`: `graph.py`.
- `ShortestPaths`: `shortest_paths.py`.
- `Matching`: `matching.py`.
- `Eulerian`: `eulerian.py`.
- `Postman`: `postman.py`.

How Python values are represented:

- `float('inf')` is the `Inf` case of `Dist`.
- The heap is a multiset of `(cost, vertex)` entries. `heappop` takes any
  entry of least cost.
- A missing key of a `Counter` reads as zero.

Main results:

- `Postman.Solve` returns one of three outcomes:
  - the "not connected" message, exactly when the graph is not connected;
  - `NoVertex`, exactly when a connected graph has no vertex;
  - otherwise a circuit.
- The circuit is an Eulerian circuit of a multigraph that contains the input
  graph and in which every degree is even.
- When there are no odd vertices, that multigraph is the input graph and the
  cost is its total weight.
- Otherwise the circuit starts at the first odd vertex. The cost is the total
  weight plus the cost of the chosen pairing, priced with true shortest-path
  distances. The chosen pairing is one the generator yields, and no perfect
  pairing of the odd vertices costs less, whatever order its pairs and the
  vertices within them are written in.
- The augmented graph is the input graph plus, for each matched pair, one walk
  of input edges from one vertex of the pair to the other. Each walk weighs
  that pair's shortest distance.
- The circuit weighs half the sum, over ordered vertex pairs, of edge count
  times weight in the augmented graph. When no edge was re-added with a
  different weight, that is exactly the returned cost.

`dijkstra` does not fail on an unreachable vertex: it leaves the distance
infinite. That is what `ShortestPaths.Dijkstra` states (see
`ShortestPaths.FiniteIffReachable`).

## Model

| member | source | states |
|---|---|---|
| Multigraph.Graph.constructor | cpp_solver/graph.py:16-22 | a new graph has no edges, no weights, no vertices, total weight 0, and satisfies the graph invariant |
| Multigraph.Graph.AddEdge | cpp_solver/graph.py:24-37 | the u-v and v-u multiplicities each grow by one and no other count changes; both weight entries are set to `weight`; u and v join the vertex set; the total grows by `weight`; the invariant is kept (symmetric counts, weights present for every edge, vertex set = adjacency keys, while no weight was overwritten, twice the total equals the sum of count times weight over ordered pairs) |
| Multigraph.Increment | cpp_solver/graph.py:27-28 | the two Counter increments add exactly one u-v edge in both directions and change no other count |
| Multigraph.AddedEdgeInvariant | cpp_solver/graph.py:24-37 | adding an edge to a graph that satisfies the invariant gives a graph that satisfies it |
| Multigraph.WeightedTotalAdd | cpp_solver/graph.py:32-37 | adding a u-v edge of weight w raises the sum of count times weight over ordered pairs by 2w, so the total weight stays half of that sum |
| Multigraph.Graph.Degree | cpp_solver/graph.py:39-41 | the degree bounds every single multiplicity at the vertex, and it is 0 exactly when the vertex has no edge |
| Multigraph.ZeroDegreeEmptyRow | cpp_solver/graph.py:39-41 | in a well-formed graph a vertex has degree 0 exactly when its Counter is empty |
| Counters.SumValuesRemove | cpp_solver/graph.py:41 | `sum(counter.values())` does not depend on the order the keys are visited in |
| Counters.SumValuesBounds | cpp_solver/graph.py:41 | each count is at most `sum(counter.values())`, and the sum is 0 only when every count is 0 |
| Counters.SumValuesGet | cpp_solver/graph.py:41 | two Counters that read the same at every key (a missing key reading as 0) have the same sum |
| Counters.SumValuesParity | cpp_solver/graph.py:41 | the parity of a Counter's sum is the parity of its number of odd entries |
| Multigraph.TotalDegreeEven | cpp_solver/graph.py:27-28 | with symmetric counts the sum of all degrees is even |
| Multigraph.OddCountEven | cpp_solver/graph.py:43-45 | the number of odd-degree vertices is even (handshake lemma) |
| Multigraph.Graph.OddDegreeVertices | cpp_solver/graph.py:43-45 | a vertex is listed iff it is in the vertex set with odd degree; no vertex is listed twice; the list has even length |
| Multigraph.Graph.IsConnected | cpp_solver/graph.py:47-71 | the result is true iff every two vertices of positive degree are joined by a walk (true when no vertex has an edge) |
| Multigraph.Graph.FirstWithEdge | cpp_solver/graph.py:52-58 | finds a vertex of positive degree, or reports that every vertex has degree 0 |
| Multigraph.Graph.PushNeighbours | cpp_solver/graph.py:64-69 | the new visited set is the old one plus every neighbour of u; the old stack stays as a prefix, and the entries pushed after it are exactly the newly visited vertices; the visited set stays reachable from the start vertex; no edge leaves the visited set except from vertices still on the stack |
| Multigraph.SearchOutcome | cpp_solver/graph.py:60-71 | when the search ends, all vertices are visited iff the positive-degree vertices are connected |
| Multigraph.MissedUnreachable | cpp_solver/graph.py:60-71 | a vertex the finished search did not visit has an edge and cannot be reached from the start |
| Multigraph.ReachableSym | cpp_solver/graph.py:27-28 | edges are stored in both directions, so reachability is symmetric |
| Eulerian.FindEulerianCircuit | cpp_solver/eulerian.py:10-53 | the result starts at `start_node`; it has at most one step per edge; it is `[start]` when the start has no edge; on a graph with all degrees even it is a closed walk that uses no edge more often than it exists; if every edge is also reachable from the start, it crosses every edge exactly once |
| Eulerian.Step | cpp_solver/eulerian.py:30-50 | one pass of the loop keeps the invariant: every input edge is either unused in the copy or crossed once by the closed part or the open part of the stack, and only the top of the stack and its anchor have odd degree in the copy; and either an edge is burned or the stack shrinks |
| Eulerian.BurnEdge | cpp_solver/eulerian.py:42-47 | removes exactly one u-v edge in both directions and drops keys that reach zero, leaving a well-formed copy |
| Multigraph.BurnedDegrees | cpp_solver/eulerian.py:42-47 | burning an edge lowers the degrees of its two ends by one and the total degree by 2 |
| Eulerian.Finish | cpp_solver/eulerian.py:52-53 | once the stack is empty, the reversed output has every property `FindEulerianCircuit` promises |
| Eulerian.Exhausted | cpp_solver/eulerian.py:30-50 | when no vertex on the finished closed walk has an unused edge and every edge is reachable from the start, no edge is left unused |
| ShortestPaths.Dijkstra | cpp_solver/shortest_paths.py:10-47 | distances are keyed by the vertices and the start; the start is at 0; every edge is relaxed (no distance can be improved); each predecessor link is a tight edge; the links are acyclic; a vertex has no predecessor iff it is the start or unreachable; finite distances belong to reachable vertices |
| ShortestPaths.PopMin | cpp_solver/shortest_paths.py:31 | `heappop` returns an entry of the queue whose cost is least |
| ShortestPaths.RelaxNeighbours | cpp_solver/shortest_paths.py:38-45 | relaxing u's neighbours keeps the loop invariant, and either lowers some distance or changes neither distances nor queue |
| ShortestPaths.RelaxEdge | cpp_solver/shortest_paths.py:39-45 | the weight of (u, v) is present; when `current_dist + weight` is strictly below v's distance, v's distance becomes it, v's predecessor becomes u and the entry is pushed; otherwise (a tie included) distances, links and queue are unchanged; the loop invariant is kept and no distance rises |
| ShortestPaths.NoShorterWalk | cpp_solver/shortest_paths.py:10-47 | every walk from the start ends at a vertex whose distance is finite and no larger than the walk's weight |
| ShortestPaths.FiniteIffReachable | cpp_solver/shortest_paths.py:23-47 | a vertex's distance is finite iff it can be reached from the start |
| ShortestPaths.PredPathWeight | cpp_solver/shortest_paths.py:42-44 | following predecessor links gives a walk whose weight is the difference of the end distances |
| ShortestPaths.ReconstructPath | cpp_solver/shortest_paths.py:72-82 | returns a path iff following the links back from v meets u; the path runs from u to v, each step is a predecessor link, and u appears only at its head; otherwise returns `None` |
| ShortestPaths.LinksReachStart | cpp_solver/shortest_paths.py:72-82 | from a vertex at finite distance the links lead back to the start, so `reconstruct_path` never returns `None` for it |
| ShortestPaths.ShortestPathFound | cpp_solver/shortest_paths.py:72-82 | the reconstructed path is a walk in the graph whose weight equals the shortest distance |
| ShortestPaths.TreeClosed | cpp_solver/shortest_paths.py:24 | every predecessor named is itself a key of the predecessor map, and the links are acyclic |
| ShortestPaths.AllPairs | cpp_solver/shortest_paths.py:49-70 | both tables are keyed by exactly the given nodes, and each entry is a finished Dijkstra result from that node |
| ShortestPaths.ShortestWalkExists | cpp_solver/shortest_paths.py:10-47 | for every vertex at finite distance there is a walk from the start to it whose weight is that distance |
| ShortestPaths.WalkReversed | cpp_solver/graph.py:27-33 | since edges and weights are stored in both directions, a walk read backwards is a walk of the same weight |
| ShortestPaths.DistanceBound | cpp_solver/shortest_paths.py:10-47 | if Dijkstra from a finds b at finite distance d, then Dijkstra from b finds a at finite distance at most d |
| ShortestPaths.DistanceSymmetric | cpp_solver/shortest_paths.py:49-70 | the distance from a to b found from a equals the distance from b to a found from b, so the cost table reads the same both ways |
| Matching.PairingsOfNone | cpp_solver/matching.py:20-22 | the empty list yields exactly one pairing, the empty one |
| Matching.PairingsPerfect | cpp_solver/matching.py:12-32 | every pairing yielded covers the input vertices exactly, as a multiset |
| Matching.PairingsFromPerfect | cpp_solver/matching.py:24-32 | every pairing the loop yields after pairing `first` with some later vertex covers `first` and the rest exactly, as a multiset |
| Matching.PairingsHasCons | cpp_solver/matching.py:24-32 | pairing the first vertex with any later vertex and following with any pairing of what remains gives a pairing the generator yields |
| Matching.PairingsComplete | cpp_solver/matching.py:12-32 | on distinct vertices, every perfect pairing is, up to the order of the pairs and of the two vertices in a pair, one the generator yields |
| Matching.PairingsInOrder | cpp_solver/matching.py:24-32 | in every pair the first vertex comes before the second in the input list |
| Matching.PairingsCount | cpp_solver/matching.py:12-32 | n vertices yield (n-1)!! pairings when n is even |
| Matching.OddCountZero | cpp_solver/matching.py:12-32 | an odd number of vertices yields no pairing |
| Matching.EvenCountPositive | cpp_solver/matching.py:12-32 | an even number of vertices yields at least one pairing |
| Matching.PairingsOfTwo | cpp_solver/matching.py:24-32 | two vertices yield exactly the one pairing of them |
| Matching.PairingsOfFour | cpp_solver/matching.py:17-18 | `[1, 2, 3, 4]` yields the three pairings of the docstring, in that order |
| Matching.CostFinite | cpp_solver/matching.py:53-55 | a pairing's cost is finite iff every pair's shortest-path cost is finite |
| Matching.PairingCost | cpp_solver/matching.py:53-55 | the inner loop sums the pair costs of the pairing; an infinite pair cost makes the sum infinite, as `inf + x` stays `inf` |
| Matching.CostRemove | cpp_solver/matching.py:53-55 | a pairing costs the cost of any one of its pairs plus the cost of the other pairs |
| Matching.CostUnordered | cpp_solver/matching.py:53-55 | with a symmetric cost table, two pairings made of the same unordered pairs cost the same |
| Matching.MinimumOverAll | cpp_solver/matching.py:52-59 | with distinct vertices and a symmetric cost table, a cost that no generated pairing undercuts is undercut by no perfect pairing at all |
| Matching.SomeFinitePairing | cpp_solver/matching.py:34-61 | when all costs between odd vertices are finite, some pairing has finite cost |
| Matching.FindMinWeightMatching | cpp_solver/matching.py:34-61 | no generated pairing costs less than the returned cost; the returned pairing is the first one in generator order at that cost, and every earlier one costs strictly more; `([], inf)` when no pairing has finite cost; with distinct vertices and a symmetric cost table, no perfect pairing at all costs less |
| Postman.Solve | cpp_solver/postman.py:13-79 | not-connected message iff disconnected; `NoVertex` iff connected with no vertex; else an Eulerian circuit of an all-even supergraph of the input; with no odd vertex, that supergraph is the input itself and the cost its total weight; otherwise the circuit starts at the first odd vertex, the supergraph is the input plus one shortest walk per matched pair, and the cost is the total weight plus a matching cost no perfect pairing undercuts; the circuit weighs half the supergraph's weighted edge count, which is the returned cost when no weight was overwritten |
| Postman.Finish | cpp_solver/postman.py:27-79 | the same outcomes as `Solve`, circuit weight included, given the connectivity answer and the odd vertices |
| Postman.SolveEven | cpp_solver/postman.py:34-38 | on a connected graph with all degrees even, the circuit starts at a vertex of the graph and crosses every edge exactly once |
| Postman.AlreadyEulerian | cpp_solver/postman.py:34-38 | a connected graph whose vertices all have even degree has all degrees even and every edge reachable from any vertex |
| Postman.SolveOdd | cpp_solver/postman.py:40-79 | with odd vertices, the circuit is Eulerian on an all-even supergraph and starts at the first odd vertex; the supergraph is the input plus, for each matched pair, a walk of input edges between its vertices weighing the pair's shortest distance; the cost is total weight + the matching cost, which no perfect pairing of the odd vertices undercuts; the circuit weighs half the weighted edge count, and the cost when no weight was overwritten |
| Postman.PairUp | cpp_solver/postman.py:44-48 | the cost table holds a Dijkstra result for each odd vertex; the chosen pairing is a generated pairing of the odd vertices with finite cost; no generated pairing, and no perfect pairing of the odd vertices in any order, is cheaper; every pair has a finite known cost |
| Postman.CostsSymmetric | cpp_solver/postman.py:44 | the cost table built from one Dijkstra run per odd vertex reads the same both ways between odd vertices |
| Postman.FiniteCosts | cpp_solver/postman.py:44 | in a connected graph every odd-to-odd shortest distance is known and finite |
| Postman.BestCovers | cpp_solver/postman.py:48 | the chosen pairing lists every odd vertex once and nothing else |
| Postman.Augment | cpp_solver/postman.py:51-70 | the new graph keeps the input's weights; its edges are the input's plus one walk per matched pair, from one vertex of the pair to the other, through input edges, weighing that pair's shortest distance; every degree in it is even; with no overwritten weight its total is the input's total plus the matching cost |
| Postman.CopyEdges | cpp_solver/postman.py:55-61 | after step 5a the new graph has exactly the input's edges and weights |
| Postman.CopyRow | cpp_solver/postman.py:57-61 | one row of step 5a copies every pair (u, v) of that row with u <= v, with all its edges; every weight of the new graph is its input weight |
| Postman.CopyPair | cpp_solver/postman.py:58-61 | adds the u-v edge `count` times, moving both multiplicities up by `count` and setting the pair's weight |
| Order.LexLeMeaning | cpp_solver/postman.py:58 | `u <= v` on strings holds iff u is a prefix of v, or u has the smaller character at the first position where the two differ |
| Order.LexTotal | cpp_solver/postman.py:58 | of any two vertices, at least one is `<=` the other, so step 5a keeps every pair in one of its two directions |
| Order.LexAntisym | cpp_solver/postman.py:58 | two vertices each `<=` the other are equal, so step 5a never copies a pair of distinct vertices in both directions |
| Postman.CopiedAll | cpp_solver/postman.py:55-61 | when every row is done, the copied edges and weights equal the input's |
| Postman.AddMatching | cpp_solver/postman.py:63-70 | after step 5b every degree is even; the edges added are exactly the steps of one walk per matched pair, in matching order, each joining the pair's vertices through input edges at the pair's shortest distance; the total rose by exactly the matching cost |
| Postman.AddPair | cpp_solver/postman.py:64-70 | one matched pair adds exactly the steps of a walk of input edges between its two vertices, weighing the pair's cost; the odd vertices of the new graph are exactly those of the pairs after it; the matching cost so far and the total each grow by that pair's cost |
| Postman.MatchedPairDone | cpp_solver/postman.py:64-70 | after one pair is added, the odd vertices of the new graph are exactly those of the pairs still to come |
| Postman.AddShortestPath | cpp_solver/postman.py:65-70 | adds exactly the steps of a walk of input edges from u to v whose weight is the shortest distance; the parity of u and v flips, no other parity changes, and the total grows by the shortest distance |
| Postman.AddPath | cpp_solver/postman.py:66-70 | adds every step of the walk as an edge: counts grow by the walk's steps, only the ends change parity, and the total grows by the walk's weight |
| Postman.WalkLifts | cpp_solver/postman.py:63-70 | a walk of the input graph is a walk of any graph that contains it |
| Postman.ReachesAfterAugment | cpp_solver/postman.py:72-75 | in the augmented graph every edge can be reached from the first odd vertex |
| Postman.CircuitWeight | cpp_solver/postman.py:72-77 | a closed walk that crosses every edge exactly once weighs half the sum, over ordered vertex pairs, of edge count times weight |
| Postman.TourWeight | cpp_solver/postman.py:72-77 | on a graph whose running total weight matches its edges, an Eulerian circuit weighs exactly the total weight |

## Left out

- `Graph.from_json`, `main.py` and every `print` call are not part of this model.
- The `str(u)` conversion is not modelled: vertices are already strings.
- Self-loops are not modelled: `Graph.AddEdge` requires two distinct vertices.
- Weights are natural numbers; a negative weight is not modelled.
- Reading a missing vertex from the `defaultdict` inserts an empty Counter in Python. The model never inserts a key on a read; a missing row reads as empty.
- Set and dict iteration orders are not modelled. Where the source iterates a set or a Counter, the model picks any element with `:|`. This applies to the first vertex of positive degree, neighbours, rows of step 5a, the first vertex of `graph.vertices` and the neighbour Hierholzer takes. Every stated property holds for every order picked; the circuit itself, the start vertex of the all-even case and predecessor links among ties may differ between orders.
- Multigraph.Graph.OddDegreeVertices: lists the odd vertices in ascending string order rather than set-iteration order, so the first odd vertex (the circuit's start) and the matching tie-break are fixed by that order.
- The heap's layout and its tie-break among entries of equal cost are not modelled. `heappop` is any entry of least cost.
- Postman.Solve: the source raises `StopIteration` on a connected graph without vertices; the model returns `NoVertex` instead.
- `KeyError` and `TypeError` are not modelled. The preconditions (the graph invariant and Dijkstra results for the odd vertices) are shown to hold on every path `Solve` takes, so those errors never arise.
- Multigraph.Graph.IsConnected: requires the graph to be well formed and its vertex set to equal the adjacency keys, which every graph built by `AddEdge` satisfies.
- Eulerian.FindEulerianCircuit: is only promised to be an Eulerian circuit when every degree is even and every edge is reachable from the start, as its docstring assumes; on other input only the weaker bounds are stated.
- Postman.Solve: states that the circuit weighs exactly the returned cost only while no vertex pair was added twice with different weights. `total_weight` adds the weight passed to every `add_edge` call, but `weights[(u, v)]` keeps only the last one, so after such an overwrite the returned cost and the circuit's weight can differ; the source does not reconcile the two.
- Postman.CopyPair: does not state how `total_weight` changes in step 5a; the new graph's total is stated after step 5b, through `Postman.Augment`.
- ShortestPaths.Dijkstra: the distance map is keyed by the vertices plus the start vertex, as in the source, where `distances[start_node] = 0` inserts the start even when it is not a vertex.
