/**
 * `dijkstra`, `find_all_pairs_shortest_paths` and `reconstruct_path`.
 *
 * A distance is `float('inf')` or a non-negative whole number; the heap of
 * `(cost, vertex)` entries is a multiset from which an entry of least cost
 * is taken out, stale entries included.
 */
module ShortestPaths {
  import opened Base
  import opened Counters
  import opened Multigraph

  /** A distance: finite, or `float('inf')`. */
  datatype Dist = Fin(n: nat) | Inf

  type Dists = map<Vertex, Dist>
  type Preds = map<Vertex, Option<Vertex>>
  type Queue = multiset<(nat, Vertex)>

  /** `a < b` on distances, infinity being the largest. */
  predicate Below(a: Dist, b: Dist)
  {
    a.Fin? && (b.Inf? || a.n < b.n)
  }

  /** `a <= b` on distances. */
  predicate AtMost(a: Dist, b: Dist)
  {
    b.Inf? || (a.Fin? && a.n <= b.n)
  }

  /** `a + b` on distances: infinity absorbs. */
  function Plus(a: Dist, b: Dist): (r: Dist)
    ensures r.Fin? <==> a.Fin? && b.Fin?
    ensures r.Fin? ==> r.n == a.n + b.n
  {
    if a.Inf? || b.Inf? then Inf else Fin(a.n + b.n)
  }

  /** Total weight of the steps of a walk, taken from `weights`. */
  function WalkWeight(weights: Weights, w: seq<Vertex>): nat
  {
    if |w| < 2 then 0 else WalkWeight(weights, w[..|w| - 1]) + Wt(weights, w[|w| - 2], w[|w| - 1])
  }

  // ----- what a finished run guarantees -----

  /** No edge out of a vertex of finite distance can still be relaxed. */
  ghost predicate Relaxed(e: Edges, weights: Weights, dist: Dists, u: Vertex)
    requires u in dist && dist[u].Fin?
  {
    forall v :: v in Row(e, u) ==> v in dist && AtMost(dist[v], Fin(dist[u].n + Wt(weights, u, v)))
  }

  ghost predicate Settled(e: Edges, weights: Weights, dist: Dists)
  {
    forall u :: u in dist && dist[u].Fin? ==> Relaxed(e, weights, dist, u)
  }

  /** Each recorded predecessor is a neighbour through which the distance is reached exactly. */
  ghost predicate Tight(e: Edges, weights: Weights, dist: Dists, pred: Preds)
  {
    forall v :: v in pred && pred[v].Some? ==>
      var u := pred[v].value;
      u in dist && u in pred && v in dist && v in Row(e, u) && dist[u].Fin? && dist[v].Fin?
      && dist[v].n == dist[u].n + Wt(weights, u, v)
  }

  /** Following predecessors strictly lowers the rank: predecessor links have no cycle. */
  ghost predicate Ranked(pred: Preds, rank: map<Vertex, nat>)
  {
    forall v :: v in pred && pred[v].Some? ==>
      v in rank && pred[v].value in rank && rank[pred[v].value] < rank[v]
  }

  ghost predicate Acyclic(pred: Preds)
  {
    exists rank :: Ranked(pred, rank)
  }

  /** Everything `dijkstra(graph, start)` promises about its two dictionaries. */
  ghost predicate ShortestPathTree(e: Edges, weights: Weights, vertices: set<Vertex>, start: Vertex,
                                   dist: Dists, pred: Preds)
  {
    && dist.Keys == vertices + {start}
    && pred.Keys == vertices
    && dist[start] == Fin(0)
    && (start in pred ==> pred[start] == None)
    && Settled(e, weights, dist)
    && Tight(e, weights, dist, pred)
    && Acyclic(pred)
    && (forall v :: v in pred ==> (pred[v].None? <==> v == start || dist[v].Inf?))
    && (forall v :: v in dist && dist[v].Fin? ==> Reachable(e, start, v))
  }

  // ----- dijkstra -----

  /** `dijkstra(graph, start_node)`, on the graph's `edges`, `weights` and `vertices`. */
  method Dijkstra(edges: Edges, weights: Weights, vertices: set<Vertex>, start: Vertex)
    returns (dist: Dists, pred: Preds)
    requires WellFormed(edges) && vertices == edges.Keys && WeightKeys(edges, weights)
    ensures ShortestPathTree(edges, weights, vertices, start, dist, pred)
  {
    dist := map v | v in vertices :: Inf;
    pred := map v | v in vertices :: None;
    dist := dist[start := Fin(0)];
    var pq: Queue := multiset{(0, start)};
    ghost var rank: map<Vertex, nat> := map v | v in vertices + {start} :: 0;
    ghost var clock: nat := 1;
    InitInv(edges, weights, vertices, start, dist, pred, rank, pq, clock);

    while pq != multiset{}
      invariant DInv(edges, weights, vertices, start, dist, pred, rank, pq, clock)
      decreases |InfKeys(dist)|, SumValues(FinValues(dist)), |pq|
    {
      var item := PopMin(pq);
      var currentDist, u := item.0, item.1;
      QueuedFinite(edges, weights, vertices, start, dist, pred, rank, pq, clock, item);
      ghost var pq0 := pq;
      pq := pq - multiset{item};
      if currentDist > dist[u].n {
        SkipStale(edges, weights, vertices, start, dist, pred, rank, pq0, clock, item);
      } else {
        EnterRelax(edges, weights, vertices, start, dist, pred, rank, pq0, clock, item);
        dist, pred, pq, rank, clock := RelaxNeighbours(edges, weights, vertices, start, dist, pred, rank, pq, clock, u, currentDist);
      }
    }
    Finished(edges, weights, vertices, start, dist, pred, rank, clock);
  }

  /** `heapq.heappop(pq)`: an entry whose cost is least. */
  method PopMin(pq: Queue) returns (item: (nat, Vertex))
    requires pq != multiset{}
    ensures item in pq && forall q :: q in pq ==> item.0 <= q.0
  {
    MinEntryExists(pq);
    item :| item in pq && forall q :: q in pq ==> item.0 <= q.0;
  }

  /** The relaxation loop over `graph.edges[u]`, once `u` is taken out at its current distance. */
  method RelaxNeighbours(e: Edges, weights: Weights, vertices: set<Vertex>, start: Vertex,
                         dist0: Dists, pred0: Preds, ghost rank0: map<Vertex, nat>, pq0: Queue, ghost clock0: nat,
                         u: Vertex, currentDist: nat)
    returns (dist: Dists, pred: Preds, pq: Queue, ghost rank: map<Vertex, nat>, ghost clock: nat)
    requires RInv(e, weights, vertices, start, dist0, pred0, rank0, pq0, clock0, u, currentDist, Row(e, u).Keys)
    ensures DInv(e, weights, vertices, start, dist, pred, rank, pq, clock)
    ensures Lower(dist, dist0) || (dist == dist0 && pq == pq0)
  {
    dist, pred, pq, rank, clock := dist0, pred0, pq0, rank0, clock0;
    var todo := Row(e, u).Keys;
    while todo != {}
      invariant todo <= Row(e, u).Keys
      invariant RInv(e, weights, vertices, start, dist, pred, rank, pq, clock, u, currentDist, todo)
      invariant NoWorse(dist, pq, dist0, pq0)
      decreases |todo|
    {
      var v :| v in todo;
      ghost var dist1, pq1 := dist, pq;
      dist, pred, pq, rank, clock := RelaxEdge(e, weights, vertices, start, dist, pred, rank, pq, clock,
                                               u, currentDist, todo, v);
      NoWorseTrans(dist, pq, dist1, pq1, dist0, pq0);
      todo := todo - {v};
    }
    LeaveRelax(e, weights, vertices, start, dist, pred, rank, pq, clock, u, currentDist);
  }

  /** One pass of the relaxation loop: the edge from u to v. */
  method RelaxEdge(e: Edges, weights: Weights, vertices: set<Vertex>, start: Vertex,
                   dist0: Dists, pred0: Preds, ghost rank0: map<Vertex, nat>, pq0: Queue, ghost clock0: nat,
                   u: Vertex, currentDist: nat, ghost todo: set<Vertex>, v: Vertex)
    returns (dist: Dists, pred: Preds, pq: Queue, ghost rank: map<Vertex, nat>, ghost clock: nat)
    requires RInv(e, weights, vertices, start, dist0, pred0, rank0, pq0, clock0, u, currentDist, todo)
    requires todo <= Row(e, u).Keys && v in todo
    ensures RInv(e, weights, vertices, start, dist, pred, rank, pq, clock, u, currentDist, todo - {v})
    ensures NoWorse(dist, pq, dist0, pq0)
    ensures (u, v) in weights && v in dist0
    ensures Below(Fin(currentDist + weights[(u, v)]), dist0[v]) ==>
      && dist == dist0[v := Fin(currentDist + weights[(u, v)])]
      && pred == pred0[v := Some(u)]
      && pq == pq0 + multiset{(currentDist + weights[(u, v)], v)}
    ensures !Below(Fin(currentDist + weights[(u, v)]), dist0[v]) ==> dist == dist0 && pred == pred0 && pq == pq0
  {
    dist, pred, pq, rank, clock := dist0, pred0, pq0, rank0, clock0;
    WeightPresent(e, weights, vertices, start, dist, pred, rank, pq, clock, u, currentDist, todo, v);
    var weight := weights[(u, v)];
    var distance := currentDist + weight;
    if Below(Fin(distance), dist[v]) {
      RelaxStep(e, weights, vertices, start, dist, pred, rank, pq, clock, u, currentDist, todo, v, distance);
      Lowered(dist, v, distance);
      dist := dist[v := Fin(distance)];
      pred := pred[v := Some(u)];
      pq := pq + multiset{(distance, v)};
      rank := rank[v := clock];
      clock := clock + 1;
      assert dist == dist0[v := Fin(distance)] && pq == pq0 + multiset{(distance, v)};
    } else {
      KeepStep(e, weights, vertices, start, dist, pred, rank, pq, clock, u, currentDist, todo, v);
    }
  }

  // ----- the loop invariants -----

  ghost predicate Shape(vertices: set<Vertex>, start: Vertex, dist: Dists, pred: Preds, rank: map<Vertex, nat>)
  {
    && dist.Keys == vertices + {start}
    && pred.Keys == vertices
    && rank.Keys == dist.Keys
    && dist[start] == Fin(0)
    && (start in pred ==> pred[start] == None)
  }

  /** Every queued entry is at least the current distance of its vertex. */
  ghost predicate QueueSound(dist: Dists, pq: Queue)
  {
    forall q :: q in pq ==> q.1 in dist && dist[q.1].Fin? && dist[q.1].n <= q.0
  }

  /** A vertex of finite distance is still queued at that distance, or has had its edges relaxed. */
  ghost predicate Pending(e: Edges, weights: Weights, dist: Dists, pq: Queue, busy: set<Vertex>)
  {
    forall x :: x in dist && dist[x].Fin? && x !in busy ==> (dist[x].n, x) in pq || Relaxed(e, weights, dist, x)
  }

  ghost predicate PredNone(start: Vertex, dist: Dists, pred: Preds)
  {
    forall v :: v in pred ==> v in dist && (pred[v].None? <==> v == start || dist[v].Inf?)
  }

  /**
   * A predecessor reaches its vertex at no more than the recorded distance, and either was
   * set earlier (lower rank) or its own distance has since dropped.
   */
  ghost predicate PredLinks(e: Edges, weights: Weights, dist: Dists, pred: Preds, rank: map<Vertex, nat>)
  {
    forall v :: v in pred && pred[v].Some? ==>
      var u := pred[v].value;
      u in dist && u in pred && v in dist && u in rank && v in rank && v in Row(e, u)
      && dist[u].Fin? && dist[v].Fin?
      && dist[u].n + Wt(weights, u, v) <= dist[v].n
      && (rank[u] < rank[v] || dist[u].n + Wt(weights, u, v) < dist[v].n)
  }

  ghost predicate RankBelow(rank: map<Vertex, nat>, clock: nat)
  {
    forall v :: v in rank ==> rank[v] < clock
  }

  ghost predicate FromStart(e: Edges, start: Vertex, dist: Dists)
  {
    forall v :: v in dist && dist[v].Fin? ==> Reachable(e, start, v)
  }

  ghost predicate Common(e: Edges, weights: Weights, vertices: set<Vertex>, start: Vertex,
                         dist: Dists, pred: Preds, rank: map<Vertex, nat>, pq: Queue, clock: nat)
  {
    && WellFormed(e) && vertices == e.Keys && WeightKeys(e, weights)
    && Shape(vertices, start, dist, pred, rank)
    && QueueSound(dist, pq)
    && PredNone(start, dist, pred)
    && PredLinks(e, weights, dist, pred, rank)
    && RankBelow(rank, clock)
    && FromStart(e, start, dist)
  }

  /** The invariant of the outer loop. */
  ghost predicate DInv(e: Edges, weights: Weights, vertices: set<Vertex>, start: Vertex,
                       dist: Dists, pred: Preds, rank: map<Vertex, nat>, pq: Queue, clock: nat)
  {
    Common(e, weights, vertices, start, dist, pred, rank, pq, clock) && Pending(e, weights, dist, pq, {})
  }

  /** The invariant of the relaxation loop over the neighbours of u not yet looked at (`todo`). */
  ghost predicate RInv(e: Edges, weights: Weights, vertices: set<Vertex>, start: Vertex,
                       dist: Dists, pred: Preds, rank: map<Vertex, nat>, pq: Queue, clock: nat,
                       u: Vertex, cd: nat, todo: set<Vertex>)
  {
    && Common(e, weights, vertices, start, dist, pred, rank, pq, clock)
    && Pending(e, weights, dist, pq, {u})
    && u in dist && dist[u] == Fin(cd)
    && PartlyRelaxed(e, weights, dist, u, cd, todo)
  }

  /** The neighbours of u outside `todo` are no further than through u. */
  ghost predicate PartlyRelaxed(e: Edges, weights: Weights, dist: Dists, u: Vertex, cd: nat, todo: set<Vertex>)
  {
    forall v :: v in Row(e, u) && v !in todo ==> v in dist && AtMost(dist[v], Fin(cd + Wt(weights, u, v)))
  }

  // ----- termination measure -----

  ghost function InfKeys(dist: Dists): set<Vertex>
  {
    set v | v in dist && dist[v].Inf?
  }

  ghost function FinValues(dist: Dists): Counter
  {
    map v | v in dist :: if dist[v].Fin? then dist[v].n else 0
  }

  /** Fewer infinite distances, or as many and a smaller sum of the finite ones. */
  ghost predicate Lower(d1: Dists, d0: Dists)
  {
    || |InfKeys(d1)| < |InfKeys(d0)|
    || (|InfKeys(d1)| == |InfKeys(d0)| && SumValues(FinValues(d1)) < SumValues(FinValues(d0)))
  }

  /** Lowering one distance lowers the measure. */
  lemma Lowered(dist: Dists, v: Vertex, x: nat)
    requires v in dist && Below(Fin(x), dist[v])
    ensures Lower(dist[v := Fin(x)], dist)
  {
    var d' := dist[v := Fin(x)];
    if dist[v].Inf? {
      assert InfKeys(d') == InfKeys(dist) - {v};
      assert v in InfKeys(dist);
    } else {
      assert InfKeys(d') == InfKeys(dist);
      forall k | k != v ensures Get(FinValues(dist), k) == Get(FinValues(d'), k) {
      }
      SumValuesChange(FinValues(dist), FinValues(d'), v);
    }
  }

  /** Lower distances, or the same distances and the same queue. */
  ghost predicate NoWorse(d1: Dists, q1: Queue, d0: Dists, q0: Queue)
  {
    Lower(d1, d0) || (d1 == d0 && q1 == q0)
  }

  lemma NoWorseTrans(d2: Dists, q2: Queue, d1: Dists, q1: Queue, d0: Dists, q0: Queue)
    requires NoWorse(d2, q2, d1, q1) && NoWorse(d1, q1, d0, q0)
    ensures NoWorse(d2, q2, d0, q0)
  {
  }

  // ----- the steps -----

  lemma MinEntryExists(pq: Queue)
    requires pq != multiset{}
    ensures exists item :: item in pq && forall q :: q in pq ==> item.0 <= q.0
  {
    assert |pq| > 0;
    var x: (nat, Vertex) :| x in pq;
    MinEntryBelow(pq, x);
  }

  /** Some queued entry costs no more than x and no more than any other entry. */
  lemma {:induction false} MinEntryBelow(pq: Queue, x: (nat, Vertex))
    requires x in pq
    ensures exists item :: item in pq && forall q :: q in pq ==> item.0 <= q.0
    decreases x.0
  {
    if y :| y in pq && y.0 < x.0 {
      MinEntryBelow(pq, y);
    } else {
      assert forall q :: q in pq ==> x.0 <= q.0;
    }
  }

  lemma InitInv(e: Edges, weights: Weights, vertices: set<Vertex>, start: Vertex,
                dist: Dists, pred: Preds, rank: map<Vertex, nat>, pq: Queue, clock: nat)
    requires WellFormed(e) && vertices == e.Keys && WeightKeys(e, weights)
    requires dist == (map v | v in vertices :: Inf)[start := Fin(0)]
    requires pred == map v | v in vertices :: None
    requires rank == map v | v in vertices + {start} :: 0
    requires pq == multiset{(0, start)} && clock == 1
    ensures DInv(e, weights, vertices, start, dist, pred, rank, pq, clock)
  {
    ReachableRefl(e, start);
    assert FromStart(e, start, dist) by {
      forall v | v in dist && dist[v].Fin? ensures Reachable(e, start, v) {
        assert v == start;
      }
    }
    assert Pending(e, weights, dist, pq, {}) by {
      forall x | x in dist && dist[x].Fin? ensures (dist[x].n, x) in pq {
        assert x == start;
      }
    }
  }

  lemma QueuedFinite(e: Edges, weights: Weights, vertices: set<Vertex>, start: Vertex,
                     dist: Dists, pred: Preds, rank: map<Vertex, nat>, pq: Queue, clock: nat,
                     item: (nat, Vertex))
    requires DInv(e, weights, vertices, start, dist, pred, rank, pq, clock) && item in pq
    ensures item.1 in dist && dist[item.1].Fin? && dist[item.1].n <= item.0
  {
  }

  /** A stale entry (its cost is above the current distance) is dropped and nothing else changes. */
  lemma SkipStale(e: Edges, weights: Weights, vertices: set<Vertex>, start: Vertex,
                  dist: Dists, pred: Preds, rank: map<Vertex, nat>, pq: Queue, clock: nat,
                  item: (nat, Vertex))
    requires DInv(e, weights, vertices, start, dist, pred, rank, pq, clock) && item in pq
    requires item.1 in dist && dist[item.1].Fin? && item.0 > dist[item.1].n
    ensures DInv(e, weights, vertices, start, dist, pred, rank, pq - multiset{item}, clock)
  {
    var pq' := pq - multiset{item};
    forall x | x in dist && dist[x].Fin? && (dist[x].n, x) in pq ensures (dist[x].n, x) in pq' {
      assert (dist[x].n, x) != item;
    }
  }

  /** Taking out the entry of u at its current distance: only u is left to relax. */
  lemma EnterRelax(e: Edges, weights: Weights, vertices: set<Vertex>, start: Vertex,
                   dist: Dists, pred: Preds, rank: map<Vertex, nat>, pq: Queue, clock: nat,
                   item: (nat, Vertex))
    requires DInv(e, weights, vertices, start, dist, pred, rank, pq, clock) && item in pq
    requires item.1 in dist && dist[item.1].Fin? && item.0 <= dist[item.1].n
    ensures RInv(e, weights, vertices, start, dist, pred, rank, pq - multiset{item}, clock,
                 item.1, item.0, Row(e, item.1).Keys)
  {
    var pq' := pq - multiset{item};
    var u := item.1;
    forall x | x in dist && dist[x].Fin? && x != u && (dist[x].n, x) in pq ensures (dist[x].n, x) in pq' {
      assert (dist[x].n, x) != item;
    }
    assert Pending(e, weights, dist, pq', {u});
  }

  lemma WeightPresent(e: Edges, weights: Weights, vertices: set<Vertex>, start: Vertex,
                      dist: Dists, pred: Preds, rank: map<Vertex, nat>, pq: Queue, clock: nat,
                      u: Vertex, cd: nat, todo: set<Vertex>, v: Vertex)
    requires RInv(e, weights, vertices, start, dist, pred, rank, pq, clock, u, cd, todo)
    requires todo <= Row(e, u).Keys && v in todo
    ensures (u, v) in weights && weights[(u, v)] == Wt(weights, u, v) && v in dist && v != u
  {
    assert Count(e, u, v) > 0;
  }

  /** `distances[v] = distance; predecessors[v] = u; heappush(pq, (distance, v))` keeps the invariant. */
  lemma RelaxStep(e: Edges, weights: Weights, vertices: set<Vertex>, start: Vertex,
                  dist: Dists, pred: Preds, rank: map<Vertex, nat>, pq: Queue, clock: nat,
                  u: Vertex, cd: nat, todo: set<Vertex>, v: Vertex, x: nat)
    requires RInv(e, weights, vertices, start, dist, pred, rank, pq, clock, u, cd, todo)
    requires todo <= Row(e, u).Keys && v in todo && v in dist
    requires x == cd + Wt(weights, u, v) && Below(Fin(x), dist[v])
    ensures RInv(e, weights, vertices, start, dist[v := Fin(x)], pred[v := Some(u)],
                 rank[v := clock], pq + multiset{(x, v)}, clock + 1, u, cd, todo - {v})
  {
    assert v != u && v in vertices by {
      assert Count(e, u, v) > 0;
    }
    RelaxCommon(e, weights, vertices, start, dist, pred, rank, pq, clock, u, v, x);
    RelaxPending(e, weights, dist, pq, u, v, x);
    RelaxPartly(e, weights, dist, u, cd, todo, v, x);
  }

  lemma RelaxCommon(e: Edges, weights: Weights, vertices: set<Vertex>, start: Vertex,
                    dist: Dists, pred: Preds, rank: map<Vertex, nat>, pq: Queue, clock: nat,
                    u: Vertex, v: Vertex, x: nat)
    requires Common(e, weights, vertices, start, dist, pred, rank, pq, clock)
    requires u in dist && dist[u].Fin? && v in Row(e, u) && v != u && v in vertices
    requires x == dist[u].n + Wt(weights, u, v) && Below(Fin(x), dist[v])
    ensures Common(e, weights, vertices, start, dist[v := Fin(x)], pred[v := Some(u)],
                   rank[v := clock], pq + multiset{(x, v)}, clock + 1)
  {
    assert v != start;
    assert u in vertices;
    RelaxQueue(dist, pq, v, x);
    RelaxLinks(e, weights, dist, pred, rank, clock, u, v, x);
    RelaxRank(rank, clock, v);
    RelaxFromStart(e, start, dist, u, v, x);
    RelaxPredNone(start, dist, pred, u, v, x);
  }

  lemma RelaxRank(rank: map<Vertex, nat>, clock: nat, v: Vertex)
    requires RankBelow(rank, clock)
    ensures RankBelow(rank[v := clock], clock + 1)
  {
  }

  lemma RelaxFromStart(e: Edges, start: Vertex, dist: Dists, u: Vertex, v: Vertex, x: nat)
    requires WellFormed(e) && FromStart(e, start, dist) && u in dist && dist[u].Fin? && v in Row(e, u)
    ensures FromStart(e, start, dist[v := Fin(x)])
  {
    assert Reachable(e, start, u);
    ReachableStep(e, start, u, v);
  }

  lemma RelaxPredNone(start: Vertex, dist: Dists, pred: Preds, u: Vertex, v: Vertex, x: nat)
    requires PredNone(start, dist, pred) && v != start && v in pred
    ensures PredNone(start, dist[v := Fin(x)], pred[v := Some(u)])
  {
  }

  lemma RelaxPartly(e: Edges, weights: Weights, dist: Dists, u: Vertex, cd: nat, todo: set<Vertex>, v: Vertex, x: nat)
    requires PartlyRelaxed(e, weights, dist, u, cd, todo) && v in dist
    requires x == cd + Wt(weights, u, v)
    ensures PartlyRelaxed(e, weights, dist[v := Fin(x)], u, cd, todo - {v})
  {
  }

  lemma RelaxQueue(dist: Dists, pq: Queue, v: Vertex, x: nat)
    requires QueueSound(dist, pq) && v in dist && Below(Fin(x), dist[v])
    ensures QueueSound(dist[v := Fin(x)], pq + multiset{(x, v)})
  {
  }

  lemma RelaxPending(e: Edges, weights: Weights, dist: Dists, pq: Queue, u: Vertex, v: Vertex, x: nat)
    requires Pending(e, weights, dist, pq, {u}) && v in dist && Below(Fin(x), dist[v])
    ensures Pending(e, weights, dist[v := Fin(x)], pq + multiset{(x, v)}, {u})
  {
    var d' := dist[v := Fin(x)];
    var q' := pq + multiset{(x, v)};
    forall y | y in d' && d'[y].Fin? && y != u ensures (d'[y].n, y) in q' || Relaxed(e, weights, d', y) {
      if y != v && (d'[y].n, y) !in q' {
        assert Relaxed(e, weights, dist, y);
        forall z | z in Row(e, y) ensures z in d' && AtMost(d'[z], Fin(d'[y].n + Wt(weights, y, z))) {
          assert z in dist && AtMost(dist[z], Fin(dist[y].n + Wt(weights, y, z)));
        }
      }
    }
  }

  lemma RelaxLinks(e: Edges, weights: Weights, dist: Dists, pred: Preds, rank: map<Vertex, nat>, clock: nat,
                   u: Vertex, v: Vertex, x: nat)
    requires PredLinks(e, weights, dist, pred, rank) && RankBelow(rank, clock)
    requires u in dist && u in pred && u in rank && dist[u].Fin? && v in Row(e, u) && v != u
    requires v in dist && v in pred && v in rank
    requires x == dist[u].n + Wt(weights, u, v) && Below(Fin(x), dist[v])
    ensures PredLinks(e, weights, dist[v := Fin(x)], pred[v := Some(u)], rank[v := clock])
  {
    var d', p', r' := dist[v := Fin(x)], pred[v := Some(u)], rank[v := clock];
    forall y | y in p' && p'[y].Some?
      ensures var t := p'[y].value;
        t in d' && t in p' && y in d' && t in r' && y in r' && y in Row(e, t)
        && d'[t].Fin? && d'[y].Fin? && d'[t].n + Wt(weights, t, y) <= d'[y].n
        && (r'[t] < r'[y] || d'[t].n + Wt(weights, t, y) < d'[y].n)
    {
      if y != v {
        var t := pred[y].value;
        assert t in dist && dist[t].Fin? && dist[t].n + Wt(weights, t, y) <= dist[y].n;
        if t == v {
          assert d'[t].n < dist[t].n;
        }
      }
    }
  }

  /** A neighbour that is not improved is left as it was. */
  lemma KeepStep(e: Edges, weights: Weights, vertices: set<Vertex>, start: Vertex,
                 dist: Dists, pred: Preds, rank: map<Vertex, nat>, pq: Queue, clock: nat,
                 u: Vertex, cd: nat, todo: set<Vertex>, v: Vertex)
    requires RInv(e, weights, vertices, start, dist, pred, rank, pq, clock, u, cd, todo)
    requires todo <= Row(e, u).Keys && v in todo && v in dist
    requires !Below(Fin(cd + Wt(weights, u, v)), dist[v])
    ensures RInv(e, weights, vertices, start, dist, pred, rank, pq, clock, u, cd, todo - {v})
  {
  }

  /** Once every neighbour of u is looked at, u is relaxed. */
  lemma LeaveRelax(e: Edges, weights: Weights, vertices: set<Vertex>, start: Vertex,
                   dist: Dists, pred: Preds, rank: map<Vertex, nat>, pq: Queue, clock: nat,
                   u: Vertex, cd: nat)
    requires RInv(e, weights, vertices, start, dist, pred, rank, pq, clock, u, cd, {})
    ensures DInv(e, weights, vertices, start, dist, pred, rank, pq, clock)
  {
    assert Relaxed(e, weights, dist, u);
  }

  /** With the queue empty, every distance is settled and the predecessor links are exact. */
  lemma Finished(e: Edges, weights: Weights, vertices: set<Vertex>, start: Vertex,
                 dist: Dists, pred: Preds, rank: map<Vertex, nat>, clock: nat)
    requires DInv(e, weights, vertices, start, dist, pred, rank, multiset{}, clock)
    ensures ShortestPathTree(e, weights, vertices, start, dist, pred)
  {
    assert Settled(e, weights, dist);
    forall v | v in pred && pred[v].Some?
      ensures v in rank && pred[v].value in rank && rank[pred[v].value] < rank[v]
      ensures dist[v].n == dist[pred[v].value].n + Wt(weights, pred[v].value, v)
    {
      var u := pred[v].value;
      assert Relaxed(e, weights, dist, u);
      assert AtMost(dist[v], Fin(dist[u].n + Wt(weights, u, v)));
    }
    assert Ranked(pred, rank);
  }

  // ----- what the distances mean -----

  /** No walk from the start is shorter than the distance found for its last vertex. */
  lemma {:induction false} NoShorterWalk(e: Edges, weights: Weights, vertices: set<Vertex>, start: Vertex,
                                         dist: Dists, pred: Preds, w: seq<Vertex>)
    requires WellFormed(e) && vertices == e.Keys
    requires ShortestPathTree(e, weights, vertices, start, dist, pred)
    requires IsWalk(e, w) && w[0] == start
    ensures w[|w| - 1] in dist && dist[w[|w| - 1]].Fin?
    ensures dist[w[|w| - 1]].n <= WalkWeight(weights, w)
    decreases |w|
  {
    if |w| >= 2 {
      var w' := w[..|w| - 1];
      var x, y := w[|w| - 2], w[|w| - 1];
      assert IsWalk(e, w') by {
        forall i | 0 <= i < |w'| - 1 ensures Count(e, w'[i], w'[i + 1]) > 0 {
          assert w'[i] == w[i] && w'[i + 1] == w[i + 1];
        }
      }
      NoShorterWalk(e, weights, vertices, start, dist, pred, w');
      assert Count(e, x, y) > 0;
      assert y in Row(e, x);
      assert Relaxed(e, weights, dist, x);
    }
  }

  /** A vertex has a finite distance exactly when it can be reached from the start. */
  lemma FiniteIffReachable(e: Edges, weights: Weights, vertices: set<Vertex>, start: Vertex,
                           dist: Dists, pred: Preds, v: Vertex)
    requires WellFormed(e) && vertices == e.Keys
    requires ShortestPathTree(e, weights, vertices, start, dist, pred)
    requires v in dist
    ensures dist[v].Fin? <==> Reachable(e, start, v)
  {
    if Reachable(e, start, v) {
      var w :| IsWalk(e, w) && w[0] == start && w[|w| - 1] == v;
      NoShorterWalk(e, weights, vertices, start, dist, pred, w);
    }
  }

  /** Walking the predecessor links forward gives a walk of the graph whose weight is the distance gained. */
  lemma {:induction false} PredPathWeight(e: Edges, weights: Weights, dist: Dists, pred: Preds, p: seq<Vertex>)
    requires WellFormed(e) && Tight(e, weights, dist, pred)
    requires PredPath(pred, p) && p[|p| - 1] in dist && dist[p[|p| - 1]].Fin?
    ensures IsWalk(e, p) && p[0] in dist && dist[p[0]].Fin?
    ensures dist[p[|p| - 1]].n == dist[p[0]].n + WalkWeight(weights, p)
    decreases |p|
  {
    if |p| >= 2 {
      var p' := p[..|p| - 1];
      var x, y := p[|p| - 2], p[|p| - 1];
      assert PredPath(pred, p') by {
        forall i | 1 <= i < |p'| ensures p'[i] in pred && pred[p'[i]] == Some(p'[i - 1]) {
          assert p'[i] == p[i] && p'[i - 1] == p[i - 1];
        }
      }
      assert pred[y] == Some(x);
      PredPathWeight(e, weights, dist, pred, p');
      assert Count(e, x, y) > 0;
      forall i | 0 <= i < |p| - 1 ensures Count(e, p[i], p[i + 1]) > 0 {
        if i < |p| - 2 {
          assert p'[i] == p[i] && p'[i + 1] == p[i + 1];
        }
      }
    }
  }

  // ----- reconstruct_path -----

  /** Each element of p is the recorded predecessor of the next one. */
  ghost predicate PredPath(pred: Preds, p: seq<Vertex>)
  {
    |p| >= 1 && forall i :: 1 <= i < |p| ==> p[i] in pred && pred[p[i]] == Some(p[i - 1])
  }

  /** The vertex k predecessor links back from v, if the links go that far. */
  function Back(pred: Preds, v: Vertex, k: nat): Option<Vertex>
  {
    if k == 0 then Some(v)
    else match Back(pred, v, k - 1)
      case None => None
      case Some(x) => if x in pred then pred[x] else None
  }

  /** Every predecessor named is itself a key, so following links never fails on a lookup. */
  ghost predicate Closed(pred: Preds)
  {
    forall x :: x in pred && pred[x].Some? ==> pred[x].value in pred
  }

  function RankOf(rank: map<Vertex, nat>, x: Vertex): nat
  {
    if x in rank then rank[x] else 0
  }

  /**
   * `reconstruct_path(predecessors, u, v)`: follows links back from v until u is met
   * (`None` when the links run out first) and returns the vertices from u to v.
   */
  method ReconstructPath(pred: Preds, u: Vertex, v: Vertex) returns (r: Option<seq<Vertex>>)
    requires v == u || v in pred
    requires Closed(pred) && Acyclic(pred)
    ensures r.Some? <==> exists k :: Back(pred, v, k) == Some(u)
    ensures r.Some? ==> PredPath(pred, r.value) && r.value[0] == u && r.value[|r.value| - 1] == v
    ensures r.Some? ==> forall i :: 0 < i < |r.value| ==> r.value[i] != u
  {
    ghost var rank :| Ranked(pred, rank);
    var path := [v];
    var curr := v;
    ghost var k := 0;
    while curr != u
      invariant curr == u || curr in pred
      invariant |path| == k + 1 && path[0] == v && path[k] == curr
      invariant forall i :: 0 <= i < k ==> path[i] in pred && pred[path[i]] == Some(path[i + 1])
      invariant forall i :: 0 <= i < k ==> path[i] != u
      invariant forall i :: 0 <= i <= k ==> Back(pred, v, i) == Some(path[i])
      decreases RankOf(rank, curr)
    {
      var next := pred[curr];
      if next.None? {
        NeverBack(pred, v, u, path, k);
        return None;
      }
      curr := next.value;
      path := path + [curr];
      k := k + 1;
    }
    r := Some(Reverse(path));
    assert Back(pred, v, k) == Some(u);
    ReversePredPath(pred, path, k, u);
  }

  /** The links from v run out after k steps without meeting u: u is never met. */
  lemma NeverBack(pred: Preds, v: Vertex, u: Vertex, path: seq<Vertex>, k: nat)
    requires |path| == k + 1 && path[k] != u && path[k] in pred && pred[path[k]] == None
    requires forall i :: 0 <= i < k ==> path[i] != u
    requires forall i :: 0 <= i <= k ==> Back(pred, v, i) == Some(path[i])
    ensures forall j :: Back(pred, v, j) != Some(u)
  {
    forall j: nat ensures Back(pred, v, j) != Some(u) {
      if j > k {
        BackNoneStays(pred, v, k + 1, j);
      } else {
        assert Back(pred, v, j) == Some(path[j]);
      }
    }
  }

  lemma {:induction false} BackNoneStays(pred: Preds, v: Vertex, k: nat, j: nat)
    requires Back(pred, v, k) == None && k <= j
    ensures Back(pred, v, j) == None
    decreases j - k
  {
    if j > k {
      BackNoneStays(pred, v, k, j - 1);
    }
  }

  lemma ReversePredPath(pred: Preds, path: seq<Vertex>, k: nat, u: Vertex)
    requires |path| == k + 1 && path[k] == u
    requires forall i :: 0 <= i < k ==> path[i] in pred && pred[path[i]] == Some(path[i + 1])
    requires forall i :: 0 <= i < k ==> path[i] != u
    ensures PredPath(pred, Reverse(path)) && Reverse(path)[0] == u && Reverse(path)[k] == path[0]
    ensures forall i :: 0 < i < |Reverse(path)| ==> Reverse(path)[i] != u
  {
    var r := Reverse(path);
    forall i | 1 <= i < |r| ensures r[i] in pred && pred[r[i]] == Some(r[i - 1]) {
      assert r[i] == path[k - i] && r[i - 1] == path[k - i + 1];
    }
    forall i | 0 < i < |r| ensures r[i] != u {
      assert r[i] == path[k - i];
    }
  }

  /** One more link back from v is one link back from its predecessor. */
  lemma {:induction false} BackShift(pred: Preds, v: Vertex, x: Vertex, k: nat)
    requires v in pred && pred[v] == Some(x)
    ensures Back(pred, v, k + 1) == Back(pred, x, k)
    decreases k
  {
    if k > 0 {
      BackShift(pred, v, x, k - 1);
    }
  }

  /** From a vertex of finite distance, the predecessor links lead back to the start. */
  lemma LinksReachStart(e: Edges, weights: Weights, vertices: set<Vertex>, start: Vertex,
                        dist: Dists, pred: Preds, v: Vertex)
    requires ShortestPathTree(e, weights, vertices, start, dist, pred)
    requires v in dist && dist[v].Fin?
    ensures exists k :: Back(pred, v, k) == Some(start)
  {
    var rank :| Ranked(pred, rank);
    LinksReachStartRanked(e, weights, vertices, start, dist, pred, rank, v);
  }

  lemma {:induction false} LinksReachStartRanked(e: Edges, weights: Weights, vertices: set<Vertex>, start: Vertex,
                                                 dist: Dists, pred: Preds, rank: map<Vertex, nat>, v: Vertex)
    requires ShortestPathTree(e, weights, vertices, start, dist, pred) && Ranked(pred, rank)
    requires v in dist && dist[v].Fin?
    ensures exists k :: Back(pred, v, k) == Some(start)
    decreases RankOf(rank, v)
  {
    if v == start {
      assert Back(pred, v, 0) == Some(start);
    } else {
      assert v in pred;
      var x := pred[v].value;
      LinksReachStartRanked(e, weights, vertices, start, dist, pred, rank, x);
      var k :| Back(pred, x, k) == Some(start);
      BackShift(pred, v, x, k);
    }
  }

  /**
   * The path rebuilt from a run started at u to a vertex v of finite distance exists,
   * is a walk of the graph from u to v, and weighs exactly the distance found.
   */
  lemma ShortestPathFound(e: Edges, weights: Weights, vertices: set<Vertex>, u: Vertex,
                          dist: Dists, pred: Preds, v: Vertex, p: seq<Vertex>)
    requires WellFormed(e) && ShortestPathTree(e, weights, vertices, u, dist, pred)
    requires v in dist && dist[v].Fin?
    requires PredPath(pred, p) && p[0] == u && p[|p| - 1] == v
    ensures IsWalk(e, p) && WalkWeight(weights, p) == dist[v].n
  {
    PredPathWeight(e, weights, dist, pred, p);
  }

  /** Closedness of a finished run's predecessor map, so that `reconstruct_path` may use it. */
  lemma TreeClosed(e: Edges, weights: Weights, vertices: set<Vertex>, start: Vertex, dist: Dists, pred: Preds)
    requires ShortestPathTree(e, weights, vertices, start, dist, pred)
    ensures Closed(pred) && Acyclic(pred)
  {
  }

  // ----- distances read the same both ways -----

  /** A symmetric weight table reads the same both ways, present or not. */
  lemma SymmetricWt(weights: Weights)
    requires WeightsSymmetric(weights)
    ensures forall x, y :: Wt(weights, x, y) == Wt(weights, y, x)
  {
  }

  lemma {:induction false} WalkWeightCons(weights: Weights, a: Vertex, w: seq<Vertex>)
    requires |w| >= 1
    ensures WalkWeight(weights, [a] + w) == Wt(weights, a, w[0]) + WalkWeight(weights, w)
    decreases |w|
  {
    if |w| > 1 {
      var w' := w[..|w| - 1];
      assert ([a] + w)[..|w|] == [a] + w';
      WalkWeightCons(weights, a, w');
    }
  }

  /** Walked backwards, a walk is a walk of the same weight when weights are symmetric. */
  lemma WalkReversed(e: Edges, weights: Weights, w: seq<Vertex>)
    requires WellFormed(e) && IsWalk(e, w)
    requires forall x, y :: Wt(weights, x, y) == Wt(weights, y, x)
    ensures IsWalk(e, Reverse(w)) && WalkWeight(weights, Reverse(w)) == WalkWeight(weights, w)
  {
    var r := Reverse(w);
    forall i | 0 <= i < |r| - 1 ensures Count(e, r[i], r[i + 1]) > 0 {
      assert Count(e, w[|w| - 2 - i], w[|w| - 1 - i]) > 0;
    }
    WeightReversed(weights, w);
  }

  lemma {:induction false} WeightReversed(weights: Weights, w: seq<Vertex>)
    requires forall x, y :: Wt(weights, x, y) == Wt(weights, y, x)
    ensures WalkWeight(weights, Reverse(w)) == WalkWeight(weights, w)
    decreases |w|
  {
    if |w| > 1 {
      var w' := w[..|w| - 1];
      var last := w[|w| - 1];
      WeightReversed(weights, w');
      assert Reverse(w) == [last] + Reverse(w');
      WalkWeightCons(weights, last, Reverse(w'));
      assert Reverse(w')[0] == w[|w| - 2];
    }
  }

  /** From the start, the predecessor links lead forward to any vertex of finite distance. */
  lemma {:induction false} PredPathTo(e: Edges, weights: Weights, vertices: set<Vertex>, start: Vertex,
                                      dist: Dists, pred: Preds, rank: map<Vertex, nat>, v: Vertex)
    returns (p: seq<Vertex>)
    requires ShortestPathTree(e, weights, vertices, start, dist, pred) && Ranked(pred, rank)
    requires v in dist && dist[v].Fin?
    ensures PredPath(pred, p) && p[0] == start && p[|p| - 1] == v
    decreases RankOf(rank, v)
  {
    if v == start {
      p := [v];
    } else {
      var x := pred[v].value;
      var p' := PredPathTo(e, weights, vertices, start, dist, pred, rank, x);
      p := p' + [v];
      forall i | 1 <= i < |p| ensures p[i] in pred && pred[p[i]] == Some(p[i - 1]) {
        if i < |p'| {
          assert p[i] == p'[i] && p[i - 1] == p'[i - 1];
        }
      }
    }
  }

  /** A vertex of finite distance is reached from the start by a walk weighing exactly that distance. */
  lemma ShortestWalkExists(e: Edges, weights: Weights, vertices: set<Vertex>, start: Vertex,
                           dist: Dists, pred: Preds, v: Vertex) returns (p: seq<Vertex>)
    requires WellFormed(e) && ShortestPathTree(e, weights, vertices, start, dist, pred)
    requires v in dist && dist[v].Fin?
    ensures IsWalk(e, p) && p[0] == start && p[|p| - 1] == v && WalkWeight(weights, p) == dist[v].n
  {
    var rank :| Ranked(pred, rank);
    p := PredPathTo(e, weights, vertices, start, dist, pred, rank, v);
    ShortestPathFound(e, weights, vertices, start, dist, pred, v, p);
  }

  /** What the run from b finds for a is no more than what the run from a finds for b. */
  lemma DistanceBound(e: Edges, weights: Weights, vertices: set<Vertex>,
                      a: Vertex, da: Dists, pa: Preds, b: Vertex, db: Dists, pb: Preds)
    requires WellFormed(e) && vertices == e.Keys && WeightsSymmetric(weights)
    requires ShortestPathTree(e, weights, vertices, a, da, pa)
    requires ShortestPathTree(e, weights, vertices, b, db, pb)
    requires b in da && da[b].Fin?
    ensures a in db && db[a].Fin? && db[a].n <= da[b].n
  {
    var p := ShortestWalkExists(e, weights, vertices, a, da, pa, b);
    SymmetricWt(weights);
    WalkReversed(e, weights, p);
    var r := Reverse(p);
    assert r[0] == b && r[|r| - 1] == a;
    NoShorterWalk(e, weights, vertices, b, db, pb, r);
  }

  /** Dijkstra from a finds the same distance to b as Dijkstra from b finds to a. */
  lemma DistanceSymmetric(e: Edges, weights: Weights, vertices: set<Vertex>,
                          a: Vertex, da: Dists, pa: Preds, b: Vertex, db: Dists, pb: Preds)
    requires WellFormed(e) && vertices == e.Keys && WeightsSymmetric(weights)
    requires ShortestPathTree(e, weights, vertices, a, da, pa)
    requires ShortestPathTree(e, weights, vertices, b, db, pb)
    requires b in da && a in db
    ensures da[b] == db[a]
  {
    if da[b].Fin? {
      DistanceBound(e, weights, vertices, a, da, pa, b, db, pb);
      DistanceBound(e, weights, vertices, b, db, pb, a, da, pa);
    } else if db[a].Fin? {
      DistanceBound(e, weights, vertices, b, db, pb, a, da, pa);
    }
  }

  // ----- find_all_pairs_shortest_paths -----

  /** `find_all_pairs_shortest_paths(graph, nodes)`: one run of Dijkstra from each node. */
  method AllPairs(edges: Edges, weights: Weights, vertices: set<Vertex>, nodes: seq<Vertex>)
    returns (costs: map<Vertex, Dists>, paths: map<Vertex, Preds>)
    requires WellFormed(edges) && vertices == edges.Keys && WeightKeys(edges, weights)
    ensures costs.Keys == paths.Keys == set n | n in nodes
    ensures forall n :: n in costs ==> ShortestPathTree(edges, weights, vertices, n, costs[n], paths[n])
  {
    costs, paths := map[], map[];
    for i := 0 to |nodes|
      invariant costs.Keys == paths.Keys == set n | n in nodes[..i]
      invariant forall n :: n in costs ==> ShortestPathTree(edges, weights, vertices, n, costs[n], paths[n])
    {
      var d, p := Dijkstra(edges, weights, vertices, nodes[i]);
      costs := costs[nodes[i] := d];
      paths := paths[nodes[i] := p];
      assert nodes[..i + 1] == nodes[..i] + [nodes[i]];
    }
    assert nodes[..|nodes|] == nodes;
  }
}
