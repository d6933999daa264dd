/**
 * `solve_chinese_postman`: connectivity gate, odd vertices, shortest paths
 * between them, minimum matching, a fresh augmented graph (every original
 * edge copied, then every matched shortest path added edge by edge), and
 * Hierholzer's circuit on the augmented graph.
 */
module Postman {
  import opened Base
  import opened Order
  import opened Counters
  import opened Multigraph
  import opened ShortestPaths
  import opened Matching
  import opened Eulerian

  /** The value `solve_chinese_postman` returns, or the exception it raises on a graph without vertices. */
  datatype Outcome =
    | NotConnected(message: string)
    | NoVertex
    | Solved(circuit: seq<Vertex>, cost: nat)

  const NotConnectedMessage: string := "Graph is not connected. No solution."

  // ----- the solver -----

  /** The distances of a finished `dijkstra` run from u. */
  ghost predicate DistancesFrom(e: Edges, weights: Weights, vertices: set<Vertex>, u: Vertex, dist: Dists)
  {
    exists pred :: ShortestPathTree(e, weights, vertices, u, dist, pred)
  }

  /**
   * What the answer for a graph with odd vertices is made of: the circuit starts at the first
   * odd vertex; `matching` is one of the generator's pairings of the odd vertices and no perfect
   * pairing of them has a smaller total shortest-path cost; the cost is the graph's total weight
   * plus that of the matching; and the augmented graph is the original one plus, for each matched
   * pair, a walk between its two vertices weighing that pair's cost.
   */
  ghost predicate OddSolution(e: Edges, weights: Weights, vertices: set<Vertex>, total: nat, odd: seq<Vertex>,
                              circuit: seq<Vertex>, cost: nat, matching: Pairing, costs: map<Vertex, Dists>,
                              augEdges: Edges)
  {
    && odd != [] && |circuit| >= 1 && circuit[0] == odd[0]
    && (forall u :: u in odd ==> u in costs && DistancesFrom(e, weights, vertices, u, costs[u]))
    && matching in Pairings(odd)
    && Priced(costs, matching) && Cost(costs, matching).Fin?
    && cost == total + Cost(costs, matching).n
    && (forall q :: PerfectPairing(odd, q) ==> Priced(costs, q) && AtMost(Cost(costs, matching), Cost(costs, q)))
    && exists walks :: MatchedWalks(e, weights, costs, matching, walks) && PlusWalks(e, augEdges, walks)
  }

  /**
   * `solve_chinese_postman(graph)`. The ghost results are the edges of the graph the circuit is
   * taken on, and the matching and cost table used. The circuit weighs half the weighted total
   * of those edges, and, while every edge of the graph carries the weight it was added with,
   * exactly the cost returned.
   */
  method Solve(graph: Graph) returns (r: Outcome, ghost augEdges: Edges,
                                      ghost matching: Pairing, ghost costs: map<Vertex, Dists>)
    requires graph.Valid()
    ensures r.NotConnected? <==> !graph.Connected()
    ensures r.NotConnected? ==> r.message == NotConnectedMessage
    ensures r.NoVertex? <==> graph.Connected() && graph.vertices == {}
    ensures r.Solved? ==> Augments(graph.edges, augEdges) && AllEven(augEdges)
    ensures r.Solved? ==> |r.circuit| >= 1 && EulerianCircuit(augEdges, r.circuit[0], r.circuit)
    ensures r.Solved? && graph.OddDegreeVertices() == [] ==>
      augEdges == graph.edges && r.cost == graph.totalWeight && r.circuit[0] in graph.vertices
    ensures r.Solved? && graph.OddDegreeVertices() != [] ==>
      OddSolution(graph.edges, graph.weights, graph.vertices, graph.totalWeight, graph.OddDegreeVertices(),
                  r.circuit, r.cost, matching, costs, augEdges)
    ensures r.Solved? ==> 2 * WalkWeight(graph.weights, r.circuit) == WeightedTotal(augEdges, graph.weights)
    ensures r.Solved? && graph.uniform ==> WalkWeight(graph.weights, r.circuit) == r.cost
  {
    // 1. the connectivity gate
    var connected := graph.IsConnected();
    // 2. the odd-degree vertices, once the graph is known to be connected
    var odd := [];
    if connected {
      odd := graph.OddDegreeVertices();
    }
    r, augEdges, matching, costs :=
      Finish(graph.edges, graph.weights, graph.vertices, graph.totalWeight, graph.uniform, connected, odd);
  }

  /** The rest of `solve_chinese_postman`, once connectivity and the odd vertices are known. */
  method Finish(e: Edges, w: Weights, vertices: set<Vertex>, total: nat, ghost uniform: bool,
                connected: bool, odd: seq<Vertex>)
    returns (r: Outcome, ghost augEdges: Edges, ghost matching: Pairing, ghost costs: map<Vertex, Dists>)
    requires GraphInvariant(e, w, vertices, total, uniform) && (connected <==> ConnectedIn(e, vertices))
    requires connected ==> forall v :: v in odd <==> v in vertices && DegreeIn(e, v) % 2 == 1
    requires connected ==> forall i, j :: 0 <= i < j < |odd| ==> odd[i] != odd[j]
    requires connected ==> |odd| % 2 == 0
    ensures r.NotConnected? <==> !connected
    ensures r.NotConnected? ==> r.message == NotConnectedMessage
    ensures r.NoVertex? <==> connected && vertices == {}
    ensures r.Solved? ==> Augments(e, augEdges) && AllEven(augEdges)
    ensures r.Solved? ==> |r.circuit| >= 1 && EulerianCircuit(augEdges, r.circuit[0], r.circuit)
    ensures r.Solved? && odd == [] ==> augEdges == e && r.cost == total && r.circuit[0] in vertices
    ensures r.Solved? && odd != [] ==> OddSolution(e, w, vertices, total, odd, r.circuit, r.cost, matching, costs, augEdges)
    ensures r.Solved? ==> 2 * WalkWeight(w, r.circuit) == WeightedTotal(augEdges, w)
    ensures r.Solved? && uniform ==> WalkWeight(w, r.circuit) == r.cost
  {
    augEdges, matching, costs := map[], [], map[];
    if !connected {
      r := NotConnected(NotConnectedMessage);
    } else if odd == [] {
      if vertices == {} {
        r := NoVertex;
      } else {
        var circuit := SolveEven(e, w, vertices, total, uniform);
        r := Solved(circuit, total);
        augEdges := e;
        AugmentsRefl(e);
        CircuitWeight(e, w, circuit);
      }
    } else {
      assert odd[0] in vertices;
      var circuit, cost;
      circuit, cost, augEdges, matching, costs := SolveOdd(e, w, vertices, total, uniform, odd);
      r := Solved(circuit, cost);
    }
  }

  /** The branch without odd vertices: the circuit is taken on the graph itself, from any vertex. */
  method SolveEven(e: Edges, w: Weights, vertices: set<Vertex>, total: nat, ghost uniform: bool)
    returns (circuit: seq<Vertex>)
    requires GraphInvariant(e, w, vertices, total, uniform) && ConnectedIn(e, vertices) && vertices != {}
    requires forall v :: v in vertices ==> DegreeIn(e, v) % 2 == 0
    ensures |circuit| >= 1 && circuit[0] in vertices
    ensures AllEven(e) && EulerianCircuit(e, circuit[0], circuit)
  {
    var start :| start in vertices;
    AlreadyEulerian(e, w, vertices, total, uniform, start);
    circuit := FindEulerianCircuit(e, start);
  }

  /** The branch with odd vertices: steps 3 to 6 of the solver. */
  method SolveOdd(e: Edges, w: Weights, vertices: set<Vertex>, total: nat, ghost uniform: bool, odd: seq<Vertex>)
    returns (circuit: seq<Vertex>, cost: nat, ghost augEdges: Edges,
             ghost matching: Pairing, ghost costs: map<Vertex, Dists>)
    requires GraphInvariant(e, w, vertices, total, uniform) && ConnectedIn(e, vertices)
    requires forall v :: v in odd <==> v in vertices && DegreeIn(e, v) % 2 == 1
    requires forall i, j :: 0 <= i < j < |odd| ==> odd[i] != odd[j]
    requires |odd| % 2 == 0 && odd != []
    ensures Augments(e, augEdges) && AllEven(augEdges)
    ensures |circuit| >= 1 && EulerianCircuit(augEdges, circuit[0], circuit)
    ensures OddSolution(e, w, vertices, total, odd, circuit, cost, matching, costs, augEdges)
    ensures 2 * WalkWeight(w, circuit) == WeightedTotal(augEdges, w)
    ensures uniform ==> WalkWeight(w, circuit) == cost
  {
    // 3. and 4. shortest paths between odd vertices, and the matching
    var allCosts, paths, best, minCost := PairUp(e, w, vertices, odd);

    // 5. the augmented graph
    var aug, walks := Augment(e, w, vertices, total, uniform, best, allCosts, paths);
    augEdges, matching, costs := aug.edges, best, allCosts;
    ghost var augTotal := aug.totalWeight;
    assert GraphInvariant(augEdges, w, aug.vertices, augTotal, true);

    // 6. the circuit
    var start := odd[0];
    assert start in odd;
    OddPositive(DegreeIn(e, start));
    ReachesAfterAugment(e, vertices, aug.edges, start);
    circuit := FindEulerianCircuit(aug.edges, start);
    cost := total + minCost.n;
    forall u | u in odd ensures u in costs && DistancesFrom(e, w, vertices, u, costs[u]) {
      TreeAt(e, w, vertices, costs, paths, u);
    }
    TourWeight(augEdges, w, aug.vertices, augTotal, circuit);
  }

  /** Steps 3 and 4: shortest paths from each odd vertex, then the cheapest pairing of the odd vertices. */
  method PairUp(e: Edges, w: Weights, vertices: set<Vertex>, odd: seq<Vertex>)
    returns (costs: map<Vertex, Dists>, paths: map<Vertex, Preds>, best: Pairing, minCost: Dist)
    requires WellFormed(e) && vertices == e.Keys && WeightKeys(e, w) && WeightsSymmetric(w) && ConnectedIn(e, vertices)
    requires forall v :: v in odd <==> v in vertices && DegreeIn(e, v) % 2 == 1
    requires forall i, j :: 0 <= i < j < |odd| ==> odd[i] != odd[j]
    requires |odd| % 2 == 0
    ensures Trees(e, w, vertices, costs, paths) && costs.Keys == set n | n in odd
    ensures forall q :: q in Pairings(odd) ==> Priced(costs, q) && AtMost(minCost, Cost(costs, q))
    ensures forall q :: PerfectPairing(odd, q) ==> Priced(costs, q) && AtMost(minCost, Cost(costs, q))
    ensures minCost.Fin? && best in Pairings(odd) && Priced(costs, best) && Cost(costs, best) == minCost
    ensures Distinct(Flat(best)) && OddExactly(e, Flat(best))
    ensures forall k :: 0 <= k < |best| ==> PairReady(costs, best[k])
  {
    costs, paths := AllPairs(e, w, vertices, odd);
    assert Trees(e, w, vertices, costs, paths);
    FiniteCosts(e, w, vertices, odd, costs, paths);
    CostsSymmetric(e, w, vertices, odd, costs, paths);
    assert Distinct(odd);
    best, minCost := FindMinWeightMatching(odd, costs);
    SomeFinitePairing(odd, costs);
    BestFound(odd, costs, best, minCost);
    BestCovers(e, vertices, odd, best);
    BestReady(odd, costs, best);
  }

  /** Step 5: a fresh graph holding every original edge once more and the shortest path of each matched pair. */
  method Augment(e: Edges, w: Weights, vertices: set<Vertex>, total: nat, ghost uniform: bool, best: Pairing,
                 costs: map<Vertex, Dists>, paths: map<Vertex, Preds>) returns (aug: Graph, ghost walks: seq<seq<Vertex>>)
    requires GraphInvariant(e, w, vertices, total, uniform) && Trees(e, w, vertices, costs, paths)
    requires Distinct(Flat(best)) && OddExactly(e, Flat(best))
    requires forall k :: 0 <= k < |best| ==> PairReady(costs, best[k])
    ensures fresh(aug) && aug.Valid() && aug.uniform && aug.weights == w
    ensures Augments(e, aug.edges) && AllEven(aug.edges)
    ensures MatchedWalks(e, w, costs, best, walks) && PlusWalks(e, aug.edges, walks)
    ensures Priced(costs, best) && Cost(costs, best).Fin?
    ensures uniform ==> aug.totalWeight == total + Cost(costs, best).n
  {
    aug := new Graph();
    CopyEdges(aug, e, w);
    assert uniform ==> aug.totalWeight == total;
    AugmentsRefl(e);
    walks := AddMatching(aug, e, w, vertices, best, costs, paths);
  }

  // ----- step 5a -----

  /** Step 5a: each original edge is added once more to the fresh graph, with its stored weight. */
  method CopyEdges(aug: Graph, e: Edges, w: Weights)
    requires aug.Valid() && aug.uniform && aug.edges == map[] && aug.weights == map[]
    requires WellFormed(e) && RowsNonEmpty(e) && WeightKeys(e, w) && WeightsSymmetric(w)
    modifies aug
    ensures aug.Valid() && aug.uniform && aug.edges == e && aug.weights == w
  {
    var rows := e.Keys;
    while rows != {}
      invariant rows <= e.Keys
      invariant aug.Valid() && aug.uniform && WeightsWithin(w, aug.weights)
      invariant CopiedRows(e, aug.edges, rows)
      decreases rows
    {
      var u :| u in rows;
      CopyRow(aug, e, w, rows, u);
      rows := rows - {u};
    }
    CopiedAll(e, aug.edges, w, aug.weights);
  }

  /** The loop over `graph.edges[u].items()`: the pairs (u, v) with `u <= v` are copied. */
  method CopyRow(aug: Graph, e: Edges, w: Weights, ghost rows: set<Vertex>, u: Vertex)
    requires aug.Valid() && aug.uniform && WellFormed(e) && WeightKeys(e, w) && WeightsSymmetric(w)
    requires u in rows && WeightsWithin(w, aug.weights) && CopiedRows(e, aug.edges, rows)
    modifies aug
    ensures aug.Valid() && aug.uniform && WeightsWithin(w, aug.weights)
    ensures CopiedRows(e, aug.edges, rows - {u})
  {
    var cols := Row(e, u).Keys;
    EnterRow(e, aug.edges, rows, u);
    while cols != {}
      invariant cols <= Row(e, u).Keys
      invariant aug.Valid() && aug.uniform && WeightsWithin(w, aug.weights)
      invariant CopiedSoFar(e, aug.edges, rows, u, cols)
      decreases cols
    {
      var v :| v in cols;
      var count := Row(e, u)[v];
      if LexLe(u, v) {
        PairWeight(e, w, u, v);
        var weight := w[(u, v)];
        ghost var a0 := aug.edges;
        CopyPair(aug, u, v, count, weight);
        PairCopied(e, a0, aug.edges, rows, u, cols, v);
      } else {
        PairSkipped(e, aug.edges, rows, u, cols, v);
      }
      cols := cols - {v};
    }
    LeaveRow(e, aug.edges, rows, u);
  }

  /** `for _ in range(count): augmented_graph.add_edge(u, v, weight)`. */
  method CopyPair(aug: Graph, u: Vertex, v: Vertex, count: nat, weight: nat)
    requires aug.Valid() && aug.uniform && u != v
    requires (u, v) in aug.weights ==> aug.weights[(u, v)] == weight
    modifies aug
    ensures aug.Valid() && aug.uniform
    ensures CountsPlus(old(aug.edges), aug.edges, u, v, count)
    ensures aug.weights == if count == 0 then old(aug.weights) else old(aug.weights)[(u, v) := weight][(v, u) := weight]
  {
    ghost var e0, w0 := aug.edges, aug.weights;
    ghost var w1 := w0[(u, v) := weight][(v, u) := weight];
    CountsPlusNone(e0, u, v);
    RewriteSame(w0, u, v, weight);
    for k := 0 to count
      invariant aug.Valid() && aug.uniform
      invariant CountsPlus(e0, aug.edges, u, v, k)
      invariant k == 0 ==> aug.weights == w0
      invariant k > 0 ==> aug.weights == w1
      invariant (u, v) in aug.weights ==> aug.weights[(u, v)] == weight
    {
      ghost var a0 := aug.edges;
      aug.AddEdge(u, v, weight);
      CountsPlusStep(e0, a0, aug.edges, u, v, k);
    }
  }

  // ----- step 5b -----

  /** Step 5b: the shortest path of each matched pair is added edge by edge. */
  method AddMatching(aug: Graph, e: Edges, w: Weights, vertices: set<Vertex>, matching: Pairing,
                     costs: map<Vertex, Dists>, paths: map<Vertex, Preds>) returns (ghost walks: seq<seq<Vertex>>)
    requires aug.Valid() && aug.uniform && aug.weights == w && Augments(e, aug.edges)
    requires WellFormed(e) && vertices == e.Keys && WeightKeys(e, w) && WeightsSymmetric(w)
    requires Distinct(Flat(matching)) && OddExactly(aug.edges, Flat(matching))
    requires Trees(e, w, vertices, costs, paths)
    requires forall k :: 0 <= k < |matching| ==> PairReady(costs, matching[k])
    modifies aug
    ensures aug.Valid() && aug.uniform && aug.weights == w && Augments(e, aug.edges)
    ensures AllEven(aug.edges)
    ensures MatchedWalks(e, w, costs, matching, walks) && PlusWalks(old(aug.edges), aug.edges, walks)
    ensures Priced(costs, matching) && Cost(costs, matching).Fin?
    ensures aug.totalWeight == old(aug.totalWeight) + Cost(costs, matching).n
  {
    ghost var e0, t0 := aug.edges, aug.totalWeight;
    walks := [];
    for t := 0 to |matching|
      invariant aug.Valid() && aug.uniform && aug.weights == w && Augments(e, aug.edges)
      invariant Distinct(Flat(matching[t..])) && OddExactly(aug.edges, Flat(matching[t..]))
      invariant Priced(costs, matching[..t]) && Cost(costs, matching[..t]).Fin?
      invariant aug.totalWeight == t0 + Cost(costs, matching[..t]).n
      invariant MatchedWalks(e, w, costs, matching[..t], walks) && PlusWalks(e0, aug.edges, walks)
    {
      ghost var a0 := aug.edges;
      ghost var p := AddPair(aug, e, w, vertices, matching, costs, paths, t);
      WalksStep(e0, a0, aug.edges, walks, p);
      MatchedWalksStep(e, w, costs, matching, t, walks, p);
      walks := walks + [p];
    }
    assert matching[..|matching|] == matching;
    OddExactlyNone(aug.edges, matching);
  }

  /** One pass of the outer loop of step 5b, with what it does to the loop's invariants. */
  method AddPair(aug: Graph, e: Edges, w: Weights, vertices: set<Vertex>, matching: Pairing,
                 costs: map<Vertex, Dists>, paths: map<Vertex, Preds>, t: nat) returns (ghost p: seq<Vertex>)
    requires aug.Valid() && aug.uniform && aug.weights == w && Augments(e, aug.edges)
    requires WellFormed(e) && vertices == e.Keys && WeightKeys(e, w) && WeightsSymmetric(w)
    requires Trees(e, w, vertices, costs, paths)
    requires t < |matching| && PairReady(costs, matching[t])
    requires Distinct(Flat(matching[t..])) && OddExactly(aug.edges, Flat(matching[t..]))
    requires Priced(costs, matching[..t]) && Cost(costs, matching[..t]).Fin?
    modifies aug
    ensures aug.Valid() && aug.uniform && aug.weights == w && Augments(e, aug.edges)
    ensures Distinct(Flat(matching[t + 1..])) && OddExactly(aug.edges, Flat(matching[t + 1..]))
    ensures Priced(costs, matching[..t + 1]) && Cost(costs, matching[..t + 1]).Fin?
    ensures Cost(costs, matching[..t + 1]).n == Cost(costs, matching[..t]).n + costs[matching[t].0][matching[t].1].n
    ensures aug.totalWeight == old(aug.totalWeight) + costs[matching[t].0][matching[t].1].n
    ensures MatchedWalk(e, w, costs, matching[t], p) && PlusWalk(old(aug.edges), aug.edges, p)
  {
    var u, v := matching[t].0, matching[t].1;
    ghost var a0 := aug.edges;
    ghost var c0 := Cost(costs, matching[..t]);
    TreeAt(e, w, vertices, costs, paths, u);
    p := AddShortestPath(aug, e, w, vertices, u, v, costs[u], paths[u]);
    MatchedPairDone(a0, aug.edges, matching, t);
    CostStep(costs, matching, t, c0);
  }

  /** One pass of the outer loop of step 5b: `reconstruct_path(paths[u], u, v)` and its edges added. */
  method AddShortestPath(aug: Graph, e: Edges, w: Weights, vertices: set<Vertex>, u: Vertex, v: Vertex,
                         dist: Dists, pred: Preds) returns (ghost p: seq<Vertex>)
    requires aug.Valid() && aug.uniform && aug.weights == w && Augments(e, aug.edges)
    requires WellFormed(e) && vertices == e.Keys && WeightKeys(e, w) && WeightsSymmetric(w)
    requires ShortestPathTree(e, w, vertices, u, dist, pred)
    requires u != v && v in dist && dist[v].Fin?
    modifies aug
    ensures aug.Valid() && aug.uniform && aug.weights == w && Augments(e, aug.edges)
    ensures ParityFlipped(old(aug.edges), aug.edges, u, v)
    ensures aug.totalWeight == old(aug.totalWeight) + dist[v].n
    ensures IsWalk(e, p) && p[0] == u && p[|p| - 1] == v && WalkWeight(w, p) == dist[v].n
    ensures PlusWalk(old(aug.edges), aug.edges, p)
  {
    TreeClosed(e, w, vertices, u, dist, pred);
    LinksReachStart(e, w, vertices, u, dist, pred, v);
    assert v in pred;
    var path := ReconstructPath(pred, u, v);
    var steps := path.value;
    ShortestPathFound(e, w, vertices, u, dist, pred, v, steps);
    AddPath(aug, e, w, steps);
    p := steps;
  }

  /** The inner loop of step 5b: one edge for each step of the path, weighted as in the original graph. */
  method AddPath(aug: Graph, e: Edges, w: Weights, p: seq<Vertex>)
    requires aug.Valid() && aug.uniform && aug.weights == w
    requires WellFormed(e) && WeightKeys(e, w) && WeightsSymmetric(w) && Augments(e, aug.edges)
    requires IsWalk(e, p)
    modifies aug
    ensures aug.Valid() && aug.uniform && aug.weights == w && Augments(e, aug.edges)
    ensures PlusWalk(old(aug.edges), aug.edges, p)
    ensures ParityFlipped(old(aug.edges), aug.edges, p[0], p[|p| - 1])
    ensures aug.totalWeight == old(aug.totalWeight) + WalkWeight(w, p)
  {
    ghost var e0, t0 := aug.edges, aug.totalWeight;
    PathStart(e0, p);
    for i := 0 to |p| - 1
      invariant aug.Valid() && aug.uniform && aug.weights == w && Augments(e, aug.edges)
      invariant PlusWalk(e0, aug.edges, p[..i + 1])
      invariant ParityFlipped(e0, aug.edges, p[0], p[i])
      invariant aug.totalWeight == t0 + WalkWeight(w, p[..i + 1])
    {
      var n1, n2 := p[i], p[i + 1];
      StepWeight(e, w, p, i);
      var weight := w[(n1, n2)];
      ghost var a0 := aug.edges;
      aug.AddEdge(n1, n2, weight);
      PathStep(e, e0, a0, aug.edges, p, i);
      WalkWeightStep(w, p, i);
    }
    assert p[..|p|] == p;
  }

  // ----- predicates -----

  /** Every pair of `e` has at least as many edges in a, and a has no edge on a pair without one in e. */
  ghost predicate Augments(e: Edges, a: Edges)
  {
    forall x, y :: Count(e, x, y) <= Count(a, x, y) && (Count(a, x, y) > 0 ==> Count(e, x, y) > 0)
  }

  function Ind(b: bool): nat
  {
    if b then 1 else 0
  }

  /** The degrees of a and b changed parity and no other degree did (a == b changes none). */
  ghost predicate ParityFlipped(e0: Edges, e1: Edges, a: Vertex, b: Vertex)
  {
    forall x :: DegreeIn(e1, x) % 2 == (DegreeIn(e0, x) + Ind(x == a) + Ind(x == b)) % 2
  }

  /** e1 is e0 with one more edge for every step of the walk p. */
  ghost predicate PlusWalk(e0: Edges, e1: Edges, p: seq<Vertex>)
  {
    forall x, y :: Count(e1, x, y) == Count(e0, x, y) + StepCount(p, x, y)
  }

  /** A walk of e from the first vertex of the pair to the second, weighing the cost found for the pair. */
  ghost predicate MatchedWalk(e: Edges, w: Weights, costs: map<Vertex, Dists>, pair: Pair, p: seq<Vertex>)
  {
    && IsWalk(e, p) && p[0] == pair.0 && p[|p| - 1] == pair.1
    && pair.0 in costs && pair.1 in costs[pair.0] && costs[pair.0][pair.1] == Fin(WalkWeight(w, p))
  }

  /** One such walk for each matched pair, in the order of the matching. */
  ghost predicate MatchedWalks(e: Edges, w: Weights, costs: map<Vertex, Dists>, matching: Pairing,
                               walks: seq<seq<Vertex>>)
  {
    |walks| == |matching| && forall k :: 0 <= k < |walks| ==> MatchedWalk(e, w, costs, matching[k], walks[k])
  }

  /** How many steps of all the walks together run along the pair {x, y}. */
  function WalksCount(walks: seq<seq<Vertex>>, x: Vertex, y: Vertex): nat
  {
    if walks == [] then 0 else WalksCount(walks[..|walks| - 1], x, y) + StepCount(walks[|walks| - 1], x, y)
  }

  /** e1 is e0 with one more edge for every step of every walk. */
  ghost predicate PlusWalks(e0: Edges, e1: Edges, walks: seq<seq<Vertex>>)
  {
    forall x, y :: Count(e1, x, y) == Count(e0, x, y) + WalksCount(walks, x, y)
  }

  /** The vertices of odd degree are exactly those listed in s. */
  ghost predicate OddExactly(a: Edges, s: seq<Vertex>)
  {
    forall x :: DegreeIn(a, x) % 2 == Ind(x in s)
  }

  /** Every weight of the augmented graph is the original weight of its pair. */
  ghost predicate WeightsWithin(w: Weights, aw: Weights)
  {
    forall q :: q in aw ==> q in w && aw[q] == w[q]
  }

  /** e1 is e0 with k more edges between u and v. */
  ghost predicate CountsPlus(e0: Edges, e1: Edges, u: Vertex, v: Vertex, k: nat)
  {
    forall x, y :: Count(e1, x, y) == Count(e0, x, y) + (if Joins(x, y, u, v) == 1 then k else 0)
  }

  /** The pair (x, y), written with its smaller vertex first, belongs to a row already copied. */
  ghost predicate RowDone(e: Edges, rows: set<Vertex>, x: Vertex, y: Vertex)
  {
    LexLe(x, y) && x != y && y in Row(e, x) && x !in rows
  }

  /** Exactly the pairs of the rows no longer in `rows` have been copied, all their edges. */
  ghost predicate CopiedRows(e: Edges, a: Edges, rows: set<Vertex>)
  {
    forall x, y :: Count(a, x, y) == (if RowDone(e, rows, x, y) || RowDone(e, rows, y, x) then Count(e, x, y) else 0)
  }

  /** As `RowDone`, with the pairs (u, v) of the current row for v no longer in `cols` also done. */
  ghost predicate PairDone(e: Edges, rows: set<Vertex>, u: Vertex, cols: set<Vertex>, x: Vertex, y: Vertex)
  {
    LexLe(x, y) && x != y && y in Row(e, x) && (x !in rows || (x == u && y !in cols))
  }

  ghost predicate CopiedSoFar(e: Edges, a: Edges, rows: set<Vertex>, u: Vertex, cols: set<Vertex>)
  {
    forall x, y :: Count(a, x, y)
      == (if PairDone(e, rows, u, cols, x, y) || PairDone(e, rows, u, cols, y, x) then Count(e, x, y) else 0)
  }

  /** A matched pair of two different vertices joined by a path of finite cost. */
  ghost predicate PairReady(costs: map<Vertex, Dists>, p: Pair)
  {
    p.0 != p.1 && p.0 in costs && p.1 in costs[p.0] && costs[p.0][p.1].Fin?
  }

  /** The result of `find_all_pairs_shortest_paths`: one finished Dijkstra run per key. */
  ghost predicate Trees(e: Edges, w: Weights, vertices: set<Vertex>, costs: map<Vertex, Dists>,
                        paths: map<Vertex, Preds>)
  {
    forall n :: n in costs ==> n in paths && ShortestPathTree(e, w, vertices, n, costs[n], paths[n])
  }

  lemma TreeAt(e: Edges, w: Weights, vertices: set<Vertex>, costs: map<Vertex, Dists>,
               paths: map<Vertex, Preds>, u: Vertex)
    requires Trees(e, w, vertices, costs, paths) && u in costs
    ensures u in paths && ShortestPathTree(e, w, vertices, u, costs[u], paths[u])
  {
  }

  // ----- lemmas for the no-odd case and the final circuit -----

  /** With no odd vertex, every degree is even and any vertex reaches every edge. */
  lemma AlreadyEulerian(e: Edges, w: Weights, vertices: set<Vertex>, total: nat, uniform: bool, start: Vertex)
    requires GraphInvariant(e, w, vertices, total, uniform) && ConnectedIn(e, vertices)
    requires forall v :: v in vertices ==> DegreeIn(e, v) % 2 == 0
    requires start in vertices
    ensures AllEven(e) && ReachesAllEdges(e, start)
  {
    forall x ensures DegreeIn(e, x) % 2 == 0 {
      if x !in vertices {
        assert Row(e, x) == map[];
      }
    }
    assert e[start] != map[];
    ZeroDegreeEmptyRow(e, start);
    forall x | DegreeIn(e, x) > 0 ensures Reachable(e, start, x) {
      ZeroDegreeEmptyRow(e, x);
    }
  }

  lemma AugmentsRefl(e: Edges)
    ensures Augments(e, e)
  {
  }

  /** A walk of e is a walk of any graph that augments e. */
  lemma WalkLifts(e: Edges, a: Edges, walk: seq<Vertex>)
    requires Augments(e, a) && IsWalk(e, walk)
    ensures IsWalk(a, walk)
  {
    forall i | 0 <= i < |walk| - 1 ensures Count(a, walk[i], walk[i + 1]) > 0 {
      assert Count(e, walk[i], walk[i + 1]) > 0;
    }
  }

  /** The augmented graph of a connected graph is reached in full from any vertex of positive degree. */
  lemma ReachesAfterAugment(e: Edges, vertices: set<Vertex>, a: Edges, start: Vertex)
    requires WellFormed(e) && vertices == e.Keys && ConnectedIn(e, vertices) && Augments(e, a)
    requires start in vertices && DegreeIn(e, start) > 0
    ensures ReachesAllEdges(a, start)
  {
    forall x | DegreeIn(a, x) > 0 ensures Reachable(a, start, x) {
      DegreeFacts(a, x);
      var y :| Count(a, x, y) != 0;
      assert Count(e, x, y) > 0;
      CountBelowDegree(e, x, y);
      assert y in Row(e, x);
      assert Reachable(e, start, x);
      var walk :| IsWalk(e, walk) && walk[0] == start && walk[|walk| - 1] == x;
      WalkLifts(e, a, walk);
    }
  }

  // ----- lemmas for the shortest paths and the matching -----

  /** Between two odd vertices of a connected graph the shortest-path cost is finite. */
  lemma FiniteCosts(e: Edges, w: Weights, vertices: set<Vertex>, odd: seq<Vertex>,
                    costs: map<Vertex, Dists>, paths: map<Vertex, Preds>)
    requires WellFormed(e) && vertices == e.Keys && ConnectedIn(e, vertices)
    requires forall v :: v in odd <==> v in vertices && DegreeIn(e, v) % 2 == 1
    requires costs.Keys == set n | n in odd
    requires Trees(e, w, vertices, costs, paths)
    ensures CostsKnown(odd, costs)
    ensures forall i, j :: 0 <= i < j < |odd| ==> Known(costs, odd[i], odd[j])
  {
    forall i, j | 0 <= i < j < |odd| ensures Known(costs, odd[i], odd[j]) {
      var u, v := odd[i], odd[j];
      assert u in odd && v in odd;
      OddPositive(DegreeIn(e, u));
      OddPositive(DegreeIn(e, v));
      assert Reachable(e, u, v);
      TreeAt(e, w, vertices, costs, paths, u);
      PairCostFinite(e, w, vertices, u, v, costs[u], paths[u]);
    }
  }

  /** Between odd vertices, the cost table reads the same both ways. */
  lemma CostsSymmetric(e: Edges, w: Weights, vertices: set<Vertex>, odd: seq<Vertex>,
                       costs: map<Vertex, Dists>, paths: map<Vertex, Preds>)
    requires WellFormed(e) && vertices == e.Keys && WeightsSymmetric(w)
    requires forall v :: v in odd ==> v in vertices
    requires costs.Keys == set n | n in odd
    requires Trees(e, w, vertices, costs, paths)
    ensures SymmetricOn(costs, odd)
  {
    forall a, b | a in odd && b in odd
      ensures a in costs && b in costs && b in costs[a] && a in costs[b] && costs[a][b] == costs[b][a]
    {
      TreeAt(e, w, vertices, costs, paths, a);
      TreeAt(e, w, vertices, costs, paths, b);
      DistanceSymmetric(e, w, vertices, a, costs[a], paths[a], b, costs[b], paths[b]);
    }
  }

  lemma OddPositive(n: nat)
    requires n % 2 == 1
    ensures n > 0
  {
  }

  /** A cost table entry that is present and finite. */
  ghost predicate Known(costs: map<Vertex, Dists>, u: Vertex, v: Vertex)
  {
    u in costs && v in costs[u] && costs[u][v].Fin?
  }

  /** In a connected graph, Dijkstra from u gives every vertex with an edge a finite distance. */
  lemma PairCostFinite(e: Edges, w: Weights, vertices: set<Vertex>, u: Vertex, v: Vertex, dist: Dists, pred: Preds)
    requires WellFormed(e) && vertices == e.Keys && ShortestPathTree(e, w, vertices, u, dist, pred)
    requires v in vertices && Reachable(e, u, v)
    ensures v in dist && dist[v].Fin?
  {
    FiniteIffReachable(e, w, vertices, u, dist, pred, v);
  }


  /** When some pairing has a finite cost, the matching found is a pairing of finite, least cost. */
  lemma BestFound(odd: seq<Vertex>, costs: map<Vertex, Dists>, best: Pairing, minCost: Dist)
    requires forall q :: q in Pairings(odd) ==> Priced(costs, q)
    requires forall q :: q in Pairings(odd) ==> AtMost(minCost, Cost(costs, q))
    requires minCost.Fin? ==> Earliest(Pairings(odd), costs, best, minCost, |Pairings(odd)|)
    requires exists q :: q in Pairings(odd) && Priced(costs, q) && Cost(costs, q).Fin?
    ensures minCost.Fin? && best in Pairings(odd) && Priced(costs, best) && Cost(costs, best) == minCost
  {
    var q :| q in Pairings(odd) && Priced(costs, q) && Cost(costs, q).Fin?;
    assert AtMost(minCost, Cost(costs, q));
    var j :| 0 <= j < |Pairings(odd)| && Pairings(odd)[j] == best && Cost(costs, Pairings(odd)[j]) == minCost
      && forall i :: 0 <= i < j ==> Below(minCost, Cost(costs, Pairings(odd)[i]));
    assert best in Pairings(odd);
  }

  /** A pairing of the odd vertices lists each of them once, and nothing else. */
  lemma BestCovers(e: Edges, vertices: set<Vertex>, odd: seq<Vertex>, best: Pairing)
    requires WellFormed(e) && vertices == e.Keys
    requires forall v :: v in odd <==> v in vertices && DegreeIn(e, v) % 2 == 1
    requires forall i, j :: 0 <= i < j < |odd| ==> odd[i] != odd[j]
    requires best in Pairings(odd)
    ensures Distinct(Flat(best)) && OddExactly(e, Flat(best))
  {
    PairingsPerfect(odd);
    assert Distinct(odd);
    DistinctOnce(odd);
    DistinctOnce(Flat(best));
    assert multiset(Flat(best)) == multiset(odd);
    forall x ensures DegreeIn(e, x) % 2 == Ind(x in Flat(best)) {
      assert x in Flat(best) <==> x in multiset(Flat(best));
      assert x in odd <==> x in multiset(odd);
      if x !in vertices {
        assert Row(e, x) == map[];
      }
    }
  }

  /** Each pair of a pairing of distinct odd vertices joins two of them with a finite cost. */
  lemma BestReady(odd: seq<Vertex>, costs: map<Vertex, Dists>, best: Pairing)
    requires forall i, j :: 0 <= i < j < |odd| ==> odd[i] != odd[j]
    requires forall i, j :: 0 <= i < j < |odd| ==> Known(costs, odd[i], odd[j])
    requires best in Pairings(odd)
    ensures forall k :: 0 <= k < |best| ==> PairReady(costs, best[k])
  {
    PairingsInOrder(odd);
    forall k | 0 <= k < |best| ensures PairReady(costs, best[k]) {
      assert InOrder(odd, best[k].0, best[k].1);
      var i, j :| 0 <= i < j < |odd| && odd[i] == best[k].0 && odd[j] == best[k].1;
      assert Known(costs, odd[i], odd[j]);
    }
  }

  // ----- lemmas for step 5a -----

  lemma PairWeight(e: Edges, w: Weights, u: Vertex, v: Vertex)
    requires WellFormed(e) && WeightKeys(e, w) && WeightsSymmetric(w) && v in Row(e, u)
    ensures Row(e, u)[v] > 0 && u != v && (u, v) in w && (v, u) in w && w[(v, u)] == w[(u, v)]
  {
    assert Count(e, u, v) > 0 && Count(e, v, u) > 0;
  }

  lemma EnterRow(e: Edges, a: Edges, rows: set<Vertex>, u: Vertex)
    requires CopiedRows(e, a, rows) && u in rows
    ensures CopiedSoFar(e, a, rows, u, Row(e, u).Keys)
  {
    forall x, y ensures Count(a, x, y)
      == (if PairDone(e, rows, u, Row(e, u).Keys, x, y) || PairDone(e, rows, u, Row(e, u).Keys, y, x)
          then Count(e, x, y) else 0)
    {
      assert PairDone(e, rows, u, Row(e, u).Keys, x, y) == RowDone(e, rows, x, y);
      assert PairDone(e, rows, u, Row(e, u).Keys, y, x) == RowDone(e, rows, y, x);
    }
  }

  lemma LeaveRow(e: Edges, a: Edges, rows: set<Vertex>, u: Vertex)
    requires CopiedSoFar(e, a, rows, u, {})
    ensures CopiedRows(e, a, rows - {u})
  {
    forall x, y ensures Count(a, x, y)
      == (if RowDone(e, rows - {u}, x, y) || RowDone(e, rows - {u}, y, x) then Count(e, x, y) else 0)
    {
      assert PairDone(e, rows, u, {}, x, y) == RowDone(e, rows - {u}, x, y);
      assert PairDone(e, rows, u, {}, y, x) == RowDone(e, rows - {u}, y, x);
    }
  }

  /** Copying the `count` edges of a pair with `u <= v` marks the pair done. */
  lemma PairCopied(e: Edges, a0: Edges, a1: Edges, rows: set<Vertex>, u: Vertex, cols: set<Vertex>, v: Vertex)
    requires WellFormed(e) && u in rows && v in cols && cols <= Row(e, u).Keys && LexLe(u, v)
    requires CopiedSoFar(e, a0, rows, u, cols)
    requires CountsPlus(a0, a1, u, v, Row(e, u)[v])
    ensures CopiedSoFar(e, a1, rows, u, cols - {v})
  {
    assert Count(e, u, v) == Row(e, u)[v] && u != v;
    LexAntisymAll();
    forall x, y ensures Count(a1, x, y)
      == (if PairDone(e, rows, u, cols - {v}, x, y) || PairDone(e, rows, u, cols - {v}, y, x)
          then Count(e, x, y) else 0)
    {
      if Joins(x, y, u, v) == 1 {
        assert !PairDone(e, rows, u, cols, x, y) && !PairDone(e, rows, u, cols, y, x);
        assert Count(e, x, y) == Count(e, u, v);
      } else {
        assert PairDone(e, rows, u, cols - {v}, x, y) == PairDone(e, rows, u, cols, x, y);
        assert PairDone(e, rows, u, cols - {v}, y, x) == PairDone(e, rows, u, cols, y, x);
      }
    }
  }

  /** A pair with `u > v` is skipped here; it is copied from v's row. */
  lemma PairSkipped(e: Edges, a: Edges, rows: set<Vertex>, u: Vertex, cols: set<Vertex>, v: Vertex)
    requires CopiedSoFar(e, a, rows, u, cols) && !LexLe(u, v)
    ensures CopiedSoFar(e, a, rows, u, cols - {v})
  {
    forall x, y ensures Count(a, x, y)
      == (if PairDone(e, rows, u, cols - {v}, x, y) || PairDone(e, rows, u, cols - {v}, y, x)
          then Count(e, x, y) else 0)
    {
      assert PairDone(e, rows, u, cols - {v}, x, y) == PairDone(e, rows, u, cols, x, y);
      assert PairDone(e, rows, u, cols - {v}, y, x) == PairDone(e, rows, u, cols, y, x);
    }
  }

  /** Writing the same weight on a pair twice leaves the weights as the first write did. */
  lemma RewriteSame(w0: Weights, u: Vertex, v: Vertex, weight: nat)
    ensures w0[(u, v) := weight][(v, u) := weight][(u, v) := weight][(v, u) := weight]
         == w0[(u, v) := weight][(v, u) := weight]
  {
  }

  lemma CountsPlusNone(e: Edges, u: Vertex, v: Vertex)
    ensures CountsPlus(e, e, u, v, 0)
  {
  }

  lemma CountsPlusStep(e0: Edges, a0: Edges, a1: Edges, u: Vertex, v: Vertex, k: nat)
    requires CountsPlus(e0, a0, u, v, k) && OneMoreEdge(a0, a1, u, v)
    ensures CountsPlus(e0, a1, u, v, k + 1)
  {
    forall x, y ensures Count(a1, x, y) == Count(e0, x, y) + (if Joins(x, y, u, v) == 1 then k + 1 else 0) {
      assert Count(a1, x, y) == Count(a0, x, y) + Joins(x, y, u, v);
    }
  }

  /** Once every row is copied, the fresh graph has exactly the original edges and weights. */
  lemma CopiedAll(e: Edges, a: Edges, w: Weights, aw: Weights)
    requires WellFormed(e) && RowsNonEmpty(e) && WeightKeys(e, w)
    requires WellFormed(a) && RowsNonEmpty(a) && WeightKeys(a, aw)
    requires CopiedRows(e, a, {}) && WeightsWithin(w, aw)
    ensures a == e && aw == w
  {
    LexAntisymAll();
    forall x, y ensures Count(a, x, y) == Count(e, x, y) {
      if Count(e, x, y) > 0 {
        assert y in Row(e, x) && x in Row(e, y) && x != y;
        LexTotal(x, y);
      }
    }
    SameCounts(e, a);
    forall q | q in w ensures q in aw {
      assert Count(e, q.0, q.1) > 0;
    }
  }

  /** Two edge maps without empty rows or zero counts that agree on every count are equal. */
  lemma SameCounts(e: Edges, a: Edges)
    requires WellFormed(e) && RowsNonEmpty(e) && WellFormed(a) && RowsNonEmpty(a)
    requires forall x, y :: Count(a, x, y) == Count(e, x, y)
    ensures a == e
  {
    forall x | x in e ensures x in a && a[x] == e[x] {
      var y :| y in e[x];
      assert Count(e, x, y) > 0;
      forall z | z in e[x] ensures z in a[x] && a[x][z] == e[x][z] {
        assert Count(e, x, z) > 0;
      }
      forall z | z in a[x] ensures z in e[x] {
        assert Count(a, x, z) > 0;
      }
    }
    forall x | x in a ensures x in e {
      var y :| y in a[x];
      assert Count(a, x, y) > 0;
    }
  }

  // ----- lemmas for step 5b -----

  lemma PathStart(e0: Edges, p: seq<Vertex>)
    requires |p| >= 1
    ensures PlusWalk(e0, e0, p[..1]) && ParityFlipped(e0, e0, p[0], p[0])
  {
    forall x ensures DegreeIn(e0, x) % 2 == (DegreeIn(e0, x) + Ind(x == p[0]) + Ind(x == p[0])) % 2 {
    }
  }

  lemma StepWeight(e: Edges, w: Weights, p: seq<Vertex>, i: nat)
    requires WellFormed(e) && WeightKeys(e, w) && WeightsSymmetric(w) && IsWalk(e, p) && i < |p| - 1
    ensures p[i] != p[i + 1] && (p[i], p[i + 1]) in w && w[(p[i], p[i + 1])] == Wt(w, p[i], p[i + 1])
    ensures w[(p[i], p[i + 1]) := w[(p[i], p[i + 1])]][(p[i + 1], p[i]) := w[(p[i], p[i + 1])]] == w
  {
    var x, y := p[i], p[i + 1];
    assert Count(e, x, y) > 0 && Count(e, y, x) > 0;
    assert y in Row(e, x);
  }

  /** Adding the edge for step i of the path keeps the step-count, parity and support invariants. */
  lemma PathStep(e: Edges, e0: Edges, a0: Edges, a1: Edges, p: seq<Vertex>, i: nat)
    requires WellFormed(e) && IsWalk(e, p) && i < |p| - 1
    requires OneMoreEdge(a0, a1, p[i], p[i + 1]) && Augments(e, a0)
    requires PlusWalk(e0, a0, p[..i + 1]) && ParityFlipped(e0, a0, p[0], p[i])
    ensures PlusWalk(e0, a1, p[..i + 2]) && ParityFlipped(e0, a1, p[0], p[i + 1]) && Augments(e, a1)
  {
    StepAugments(e, a0, a1, p[i], p[i + 1]);
    StepCounted(e0, a0, a1, p, i);
    OneMoreEdgeDegrees(a0, a1, p[i], p[i + 1]);
    WalkEndMoves(e0, a0, a1, p[0], p[i], p[i + 1]);
  }

  /** One more copy of an edge of e keeps a an augmentation of e. */
  lemma StepAugments(e: Edges, a0: Edges, a1: Edges, x: Vertex, y: Vertex)
    requires WellFormed(e) && Count(e, x, y) > 0 && OneMoreEdge(a0, a1, x, y) && Augments(e, a0)
    ensures Augments(e, a1)
  {
    assert Count(e, y, x) > 0;
  }

  /** The counts after step i are the counts before the path plus the first i + 1 steps. */
  lemma StepCounted(e0: Edges, a0: Edges, a1: Edges, p: seq<Vertex>, i: nat)
    requires i < |p| - 1 && CountsOneMore(a0, a1, p[i], p[i + 1]) && PlusWalk(e0, a0, p[..i + 1])
    ensures PlusWalk(e0, a1, p[..i + 2])
  {
    assert p[..i + 2] == p[..i + 1] + [p[i + 1]];
    assert p[..i + 1][i] == p[i];
    forall s, t ensures Count(a1, s, t) == Count(e0, s, t) + StepCount(p[..i + 2], s, t) {
      var q := p[..i + 1];
      StepCountConcat(q, [p[i + 1]], s, t);
      assert q[|q| - 1] == p[i];
      assert StepCount([p[i + 1]], s, t) == 0;
      assert StepCount(p[..i + 2], s, t) == StepCount(q, s, t) + Joins(p[i], p[i + 1], s, t);
      assert Joins(p[i], p[i + 1], s, t) == Joins(s, t, p[i], p[i + 1]);
      assert Count(a0, s, t) == Count(e0, s, t) + StepCount(q, s, t);
      assert Count(a1, s, t) == Count(a0, s, t) + Joins(s, t, p[i], p[i + 1]);
    }
  }

  /** One more edge from x to y moves the odd end of a walk from x to y. */
  lemma WalkEndMoves(e0: Edges, a0: Edges, a1: Edges, s: Vertex, x: Vertex, y: Vertex)
    requires x != y && ParityFlipped(e0, a0, s, x)
    requires forall z :: DegreeIn(a1, z) == DegreeIn(a0, z) + (if z == x || z == y then 1 else 0)
    ensures ParityFlipped(e0, a1, s, y)
  {
    forall z ensures DegreeIn(a1, z) % 2 == (DegreeIn(e0, z) + Ind(z == s) + Ind(z == y)) % 2 {
      EndMovesAt(DegreeIn(e0, z), DegreeIn(a0, z), DegreeIn(a1, z), s, x, y, z);
    }
  }

  /** The same at one vertex z, on the degrees alone. */
  lemma EndMovesAt(o: nat, d0: nat, d1: nat, s: Vertex, x: Vertex, y: Vertex, z: Vertex)
    requires x != y
    requires d0 % 2 == (o + Ind(z == s) + Ind(z == x)) % 2
    requires d1 == d0 + (if z == x || z == y then 1 else 0)
    ensures d1 % 2 == (o + Ind(z == s) + Ind(z == y)) % 2
  {
    ParityShift(o, d0, d1, Ind(z == s), Ind(z == x), Ind(z == y));
  }

  /** Adding one edge end at b and one at c moves the odd end of a walk from b to c. */
  lemma ParityShift(o: nat, d0: nat, d1: nat, a: nat, b: nat, c: nat)
    requires d0 % 2 == (o + a + b) % 2 && d1 == d0 + b + c
    ensures d1 % 2 == (o + a + c) % 2
  {
    assert d1 == d0 + 2 * b + c - b;
  }

  lemma WalkWeightStep(w: Weights, p: seq<Vertex>, i: nat)
    requires i < |p| - 1
    ensures WalkWeight(w, p[..i + 2]) == WalkWeight(w, p[..i + 1]) + Wt(w, p[i], p[i + 1])
  {
    assert p[..i + 2][..i + 1] == p[..i + 1];
  }

  /** After the path of pair t, its two ends are even again and the rest of the matching is still pending. */
  lemma MatchedPairDone(a0: Edges, a1: Edges, matching: Pairing, t: nat)
    requires t < |matching|
    requires Distinct(Flat(matching[t..])) && OddExactly(a0, Flat(matching[t..]))
    requires ParityFlipped(a0, a1, matching[t].0, matching[t].1)
    ensures Distinct(Flat(matching[t + 1..])) && OddExactly(a1, Flat(matching[t + 1..]))
  {
    var u, v := matching[t].0, matching[t].1;
    var rest := Flat(matching[t + 1..]);
    var s := Flat(matching[t..]);
    FlatSuffix(matching, t);
    HeadsApart(s, u, v, rest);
    forall x ensures DegreeIn(a1, x) % 2 == Ind(x in rest) {
      OddEndsAt(DegreeIn(a0, x), DegreeIn(a1, x), x, u, v, s, rest);
    }
  }

  lemma FlatSuffix(matching: Pairing, t: nat)
    requires t < |matching|
    ensures Flat(matching[t..]) == [matching[t].0, matching[t].1] + Flat(matching[t + 1..])
  {
    assert matching[t..] == [matching[t]] + matching[t + 1..];
    FlatCons(matching[t], matching[t + 1..]);
  }

  /** The first two vertices of a sequence without repeats differ and do not occur in the rest. */
  lemma HeadsApart(s: seq<Vertex>, u: Vertex, v: Vertex, rest: seq<Vertex>)
    requires s == [u, v] + rest && Distinct(s)
    ensures Distinct(rest) && u != v && u !in rest && v !in rest
  {
    assert s[0] == u && s[1] == v;
    forall i | 0 <= i < |rest| ensures rest[i] == s[i + 2] {
    }
  }

  /** At one vertex x: removing the pair's two ends from the odd list flips exactly their parities. */
  lemma OddEndsAt(d0: nat, d1: nat, x: Vertex, u: Vertex, v: Vertex, s: seq<Vertex>, rest: seq<Vertex>)
    requires s == [u, v] + rest && u != v && u !in rest && v !in rest
    requires d0 % 2 == Ind(x in s)
    requires d1 % 2 == (d0 + Ind(x == u) + Ind(x == v)) % 2
    ensures d1 % 2 == Ind(x in rest)
  {
    assert x in s <==> x == u || x == v || x in rest;
  }

  /** The cost added for pair t is the cost of the matching's pair t. */
  lemma CostStep(costs: map<Vertex, Dists>, matching: Pairing, t: nat, c0: Dist)
    requires t < |matching| && PairReady(costs, matching[t])
    requires Priced(costs, matching[..t]) && c0 == Cost(costs, matching[..t]) && c0.Fin?
    ensures Priced(costs, matching[..t + 1])
    ensures Cost(costs, matching[..t + 1]).Fin?
    ensures Cost(costs, matching[..t + 1]).n == c0.n + costs[matching[t].0][matching[t].1].n
  {
    var m := matching[..t + 1];
    assert m[..t] == matching[..t] && m[t] == matching[t];
    assert Priced(costs, m) by {
      forall k | 0 <= k < |m| ensures m[k].0 in costs && m[k].1 in costs[m[k].0] {
        if k < t { assert m[k] == matching[..t][k]; }
      }
    }
  }

  /** The walk of one more matched pair joins the walks already added. */
  lemma WalksStep(e0: Edges, a0: Edges, a1: Edges, walks: seq<seq<Vertex>>, p: seq<Vertex>)
    requires PlusWalks(e0, a0, walks) && PlusWalk(a0, a1, p)
    ensures PlusWalks(e0, a1, walks + [p])
  {
    assert (walks + [p])[..|walks|] == walks;
  }

  lemma MatchedWalksStep(e: Edges, w: Weights, costs: map<Vertex, Dists>, matching: Pairing, t: nat,
                         walks: seq<seq<Vertex>>, p: seq<Vertex>)
    requires t < |matching| && MatchedWalks(e, w, costs, matching[..t], walks)
    requires MatchedWalk(e, w, costs, matching[t], p)
    ensures MatchedWalks(e, w, costs, matching[..t + 1], walks + [p])
  {
    var m, ws := matching[..t + 1], walks + [p];
    forall k | 0 <= k < |ws| ensures MatchedWalk(e, w, costs, m[k], ws[k]) {
      if k < t {
        assert m[k] == matching[..t][k] && ws[k] == walks[k];
      }
    }
  }

  lemma OddExactlyNone(a: Edges, matching: Pairing)
    requires OddExactly(a, Flat(matching[|matching|..]))
    ensures AllEven(a)
  {
    assert matching[|matching|..] == [];
  }

  // ----- the weight of the tour -----

  /** Every pair joined by an edge has a weight. */
  ghost predicate Weighed(e: Edges, w: Weights)
  {
    forall x, y :: Count(e, x, y) > 0 ==> (x, y) in w
  }

  /**
   * A closed walk that runs along every edge exactly once weighs half the weighted total,
   * that is, the total weight of the edges it runs along.
   */
  lemma {:induction false} CircuitWeight(e: Edges, w: Weights, c: seq<Vertex>)
    requires WellFormed(e) && Weighed(e, w) && WeightsSymmetric(w)
    requires |c| >= 1 && forall x, y :: StepCount(c, x, y) == Count(e, x, y)
    ensures 2 * WalkWeight(w, c) == WeightedTotal(e, w)
    decreases |c|
  {
    if |c| == 1 {
      NoEdgesNoWeight(e, w);
    } else {
      var b := LastEdgeOff(e, c);
      OneLessWeight(e, w, b, c[|c| - 2], c[|c| - 1]);
      CircuitWeight(b, w, c[..|c| - 1]);
    }
  }

  /** Taking the last step's edge out of e leaves exactly the edges the rest of the walk runs along. */
  lemma LastEdgeOff(e: Edges, c: seq<Vertex>) returns (b: Edges)
    requires WellFormed(e) && |c| >= 2 && forall x, y :: StepCount(c, x, y) == Count(e, x, y)
    ensures Count(e, c[|c| - 2], c[|c| - 1]) > 0 && OneLess(e, b, c[|c| - 2], c[|c| - 1])
    ensures forall s, t :: StepCount(c[..|c| - 1], s, t) == Count(b, s, t)
  {
    var n := |c|;
    var c' := c[..n - 1];
    var x, y := c[n - 2], c[n - 1];
    assert c == c' + [y];
    StepCountAt(c, n - 2);
    BurnedOneLess(e, x, y);
    b := Burned(e, x, y);
    forall s, t ensures StepCount(c', s, t) == Count(b, s, t) {
      StepCountConcat(c', [y], s, t);
      assert c'[|c'| - 1] == x;
    }
  }

  /** One edge fewer between x and y lowers the weighted total by twice that edge's weight. */
  lemma OneLessWeight(e: Edges, w: Weights, b: Edges, x: Vertex, y: Vertex)
    requires Weighed(e, w) && WeightsSymmetric(w) && OneLess(e, b, x, y) && Count(e, x, y) > 0
    ensures Weighed(b, w)
    ensures WeightedTotal(e, w) == WeightedTotal(b, w) + 2 * Wt(w, x, y)
  {
    var weight := w[(x, y)];
    assert (y, x) in w && w[(y, x)] == weight;
    assert w[(x, y) := weight][(y, x) := weight] == w;
    WeightedTotalAdd(b, w, e, w, x, y, weight);
  }

  /** On a graph whose edges all carry their current weight, an Euler circuit weighs the running total. */
  lemma TourWeight(a: Edges, w: Weights, vertices: set<Vertex>, total: nat, c: seq<Vertex>)
    requires GraphInvariant(a, w, vertices, total, true)
    requires |c| >= 1 && EulerianCircuit(a, c[0], c)
    ensures 2 * WalkWeight(w, c) == WeightedTotal(a, w) && WalkWeight(w, c) == total
  {
    CircuitWeight(a, w, c);
  }

  /** A graph without edges weighs nothing. */
  lemma NoEdgesNoWeight(e: Edges, w: Weights)
    requires forall x, y :: Count(e, x, y) == 0
    ensures WeightedTotal(e, w) == 0
  {
    var rows := map x | x in e :: RowWeight(e, w, x);
    forall x | x in e ensures RowWeight(e, w, x) == 0 {
      forall y ensures Get(WeightedRow(e, w, x), y) == Get(map[], y) {
        GetWeightedRow(e, w, x, y);
      }
      SumValuesGet(WeightedRow(e, w, x), map[]);
    }
    SumValuesGet(rows, map[]);
  }
}
