/**
 * The weighted undirected multigraph of cpp_solver/graph.py.
 *
 * `edges[u][v]` counts the parallel edges between u and v (a dict of
 * Counters, read as empty for a vertex that has none), `weights[(u, v)]`
 * is the one weight shared by all of them, `vertices` is the vertex set
 * and `totalWeight` the running sum of every weight ever added.
 */
module Multigraph {
  import opened Base
  import opened Order
  import opened Counters

  type Edges = map<Vertex, Counter>
  /** The weight recorded for each ordered pair of endpoints. */
  type Weights = map<(Vertex, Vertex), nat>

  /** `edges[x]`, an empty Counter when x has no entry. */
  function Row(e: Edges, x: Vertex): Counter
  {
    if x in e then e[x] else map[]
  }

  /** `edges[x][y]`: the number of parallel edges between x and y. */
  function Count(e: Edges, x: Vertex, y: Vertex): nat
  {
    Get(Row(e, x), y)
  }

  /** `sum(edges[x].values())`. */
  function DegreeIn(e: Edges, x: Vertex): nat
  {
    SumValues(Row(e, x))
  }

  /** 1 when the step a-b runs along the undirected pair {x, y}, else 0. */
  function Joins(a: Vertex, b: Vertex, x: Vertex, y: Vertex): nat
  {
    if (a == x && b == y) || (a == y && b == x) then 1 else 0
  }

  /** Edge counts as the solver keeps them: symmetric, positive where present, no self-loops. */
  ghost predicate WellFormed(e: Edges)
  {
    && (forall x, y :: y in Row(e, x) ==> Row(e, x)[y] > 0 && y != x)
    && (forall x, y :: Count(e, x, y) == Count(e, y, x))
  }

  ghost predicate AllEven(e: Edges)
  {
    forall x :: DegreeIn(e, x) % 2 == 0
  }

  ghost function DegreeMap(e: Edges): Counter
  {
    map x | x in e :: DegreeIn(e, x)
  }

  /** The sum of all degrees: twice the number of edges. */
  ghost function TotalDegree(e: Edges): nat
  {
    SumValues(DegreeMap(e))
  }

  lemma GetDegreeMap(e: Edges, x: Vertex)
    ensures Get(DegreeMap(e), x) == DegreeIn(e, x)
  {
  }

  lemma CountBelowDegree(e: Edges, x: Vertex, y: Vertex)
    ensures Count(e, x, y) <= DegreeIn(e, x)
    ensures DegreeIn(e, x) == 0 ==> Count(e, x, y) == 0
  {
    SumValuesBounds(Row(e, x), y);
  }

  lemma ZeroDegreeEmptyRow(e: Edges, x: Vertex)
    requires WellFormed(e)
    ensures DegreeIn(e, x) == 0 <==> Row(e, x) == map[]
  {
    if Row(e, x) != map[] {
      var y :| y in Row(e, x);
      CountBelowDegree(e, x, y);
    }
  }

  /** One edge between u and v taken out, a count that reaches zero being deleted. */
  ghost function Burned(e: Edges, u: Vertex, v: Vertex): Edges
    requires u != v && Count(e, u, v) > 0 && Count(e, v, u) > 0
  {
    var e1 := e[u := e[u][v := e[u][v] - 1]];
    var e2 := e1[v := e1[v][u := e1[v][u] - 1]];
    var e3 := if e2[u][v] == 0 then e2[u := e2[u] - {v}] else e2;
    if e3[v][u] == 0 then e3[v := e3[v] - {u}] else e3
  }

  lemma BurnedCounts(e: Edges, u: Vertex, v: Vertex)
    requires WellFormed(e) && u != v && Count(e, u, v) > 0
    ensures Count(e, v, u) > 0
    ensures forall x, y :: Count(Burned(e, u, v), x, y) + Joins(x, y, u, v) == Count(e, x, y)
    ensures WellFormed(Burned(e, u, v))
  {
    assert Count(e, v, u) == Count(e, u, v);
    var b := Burned(e, u, v);
    forall x, y ensures Count(b, x, y) + Joins(x, y, u, v) == Count(e, x, y) {
      if x == u && y == v {
      } else if x == v && y == u {
      } else {
        assert Row(b, x) == Row(e, x) || (x == u && Get(Row(b, x), y) == Get(Row(e, x), y))
          || (x == v && Get(Row(b, x), y) == Get(Row(e, x), y));
      }
    }
    forall x, y | y in Row(b, x) ensures Row(b, x)[y] > 0 && y != x {
      assert Count(b, x, y) <= Count(e, x, y);
      assert y in Row(e, x);
    }
  }

  lemma BurnedDegrees(e: Edges, u: Vertex, v: Vertex)
    requires WellFormed(e) && u != v && Count(e, u, v) > 0
    ensures Count(e, v, u) > 0
    ensures forall x :: DegreeIn(Burned(e, u, v), x) + (if x == u || x == v then 1 else 0) == DegreeIn(e, x)
    ensures TotalDegree(Burned(e, u, v)) + 2 == TotalDegree(e)
  {
    BurnedCounts(e, u, v);
    CountsDegrees(Burned(e, u, v), e, u, v);
    DegreesTotal(Burned(e, u, v), e, u, v);
  }

  /** One more edge between u and v adds one to the degree of each of its ends. */
  lemma CountsDegrees(e0: Edges, e1: Edges, u: Vertex, v: Vertex)
    requires u != v
    requires forall x, y :: Count(e1, x, y) == Count(e0, x, y) + Joins(x, y, u, v)
    ensures forall x :: DegreeIn(e1, x) == DegreeIn(e0, x) + (if x == u || x == v then 1 else 0)
  {
    forall x ensures DegreeIn(e1, x) == DegreeIn(e0, x) + (if x == u || x == v then 1 else 0) {
      forall y ensures Get(Row(e1, x), y) == Get(Row(e0, x), y) + Joins(x, y, u, v) {
        assert Count(e1, x, y) == Count(e0, x, y) + Joins(x, y, u, v);
      }
      if x == u {
        SumValuesChange(Row(e0, x), Row(e1, x), v);
      } else if x == v {
        SumValuesChange(Row(e0, x), Row(e1, x), u);
      } else {
        SumValuesGet(Row(e0, x), Row(e1, x));
      }
    }
  }

  /** ... and two to the sum of all degrees. */
  lemma DegreesTotal(e0: Edges, e1: Edges, u: Vertex, v: Vertex)
    requires u != v
    requires forall x :: DegreeIn(e1, x) == DegreeIn(e0, x) + (if x == u || x == v then 1 else 0)
    ensures TotalDegree(e1) == TotalDegree(e0) + 2
  {
    var mid := DegreeMap(e0)[u := DegreeIn(e1, u)];
    forall y | y != u ensures Get(DegreeMap(e0), y) == Get(mid, y) {
      GetDegreeMap(e0, y);
    }
    SumValuesChange(DegreeMap(e0), mid, u);
    forall y | y != v ensures Get(mid, y) == Get(DegreeMap(e1), y) {
      GetDegreeMap(e0, y);
      GetDegreeMap(e1, y);
    }
    GetDegreeMap(e0, u);
    GetDegreeMap(e1, v);
    GetDegreeMap(e0, v);
    SumValuesChange(mid, DegreeMap(e1), v);
  }

  /** b is e with one edge between u and v taken out. */
  ghost predicate OneLess(e: Edges, b: Edges, u: Vertex, v: Vertex)
  {
    && WellFormed(b) && u != v
    && forall x, y :: Count(e, x, y) == Count(b, x, y) + Joins(x, y, u, v)
  }

  lemma BurnedOneLess(e: Edges, u: Vertex, v: Vertex)
    requires WellFormed(e) && u != v && Count(e, u, v) > 0
    ensures Count(e, v, u) > 0
    ensures OneLess(e, Burned(e, u, v), u, v)
  {
    BurnedCounts(e, u, v);
  }

  /** Taking out one edge lowers the sum of all degrees by two. */
  lemma OneLessTotal(e: Edges, b: Edges, u: Vertex, v: Vertex)
    requires OneLess(e, b, u, v)
    ensures TotalDegree(b) + 2 == TotalDegree(e)
  {
    CountsDegrees(b, e, u, v);
    DegreesTotal(b, e, u, v);
  }

  /** The degrees of a well-formed edge map add up to an even number. */
  lemma {:induction false} TotalDegreeEven(e: Edges)
    requires WellFormed(e)
    ensures TotalDegree(e) % 2 == 0
    decreases TotalDegree(e)
  {
    if TotalDegree(e) > 0 {
      var x, y := SomeEdge(e);
      var b := Burned(e, x, y);
      BurnedTotal(e, x, y);
      TotalDegreeEven(b);
    }
  }

  lemma BurnedTotal(e: Edges, u: Vertex, v: Vertex)
    requires WellFormed(e) && u != v && Count(e, u, v) > 0
    ensures WellFormed(Burned(e, u, v))
    ensures TotalDegree(Burned(e, u, v)) + 2 == TotalDegree(e)
  {
    BurnedCounts(e, u, v);
    BurnedDegrees(e, u, v);
  }

  lemma SomeEdge(e: Edges) returns (x: Vertex, y: Vertex)
    requires WellFormed(e) && TotalDegree(e) > 0
    ensures x != y && Count(e, x, y) > 0
  {
    x := SumValuesPositive(DegreeMap(e));
    assert DegreeIn(e, x) > 0;
    y := SumValuesPositive(Row(e, x));
  }

  /** The handshake lemma: a well-formed multigraph has an even number of odd-degree vertices. */
  lemma OddCountEven(e: Edges)
    requires WellFormed(e)
    ensures |set x | x in e && DegreeIn(e, x) % 2 == 1| % 2 == 0
  {
    TotalDegreeEven(e);
    SumValuesParity(DegreeMap(e));
    assert OddKeys(DegreeMap(e)) == set x | x in e && DegreeIn(e, x) % 2 == 1;
  }

  // ----- walks and reachability -----

  /** A non-empty vertex sequence whose consecutive vertices share at least one edge. */
  ghost predicate IsWalk(e: Edges, w: seq<Vertex>)
  {
    |w| >= 1 && forall i :: 0 <= i < |w| - 1 ==> Count(e, w[i], w[i + 1]) > 0
  }

  ghost predicate Reachable(e: Edges, a: Vertex, b: Vertex)
  {
    exists w :: IsWalk(e, w) && w[0] == a && w[|w| - 1] == b
  }

  lemma ReachableRefl(e: Edges, a: Vertex)
    ensures Reachable(e, a, a)
  {
    assert IsWalk(e, [a]);
  }

  lemma ReachableStep(e: Edges, a: Vertex, b: Vertex, c: Vertex)
    requires Reachable(e, a, b) && Count(e, b, c) > 0
    ensures Reachable(e, a, c)
  {
    var w :| IsWalk(e, w) && w[0] == a && w[|w| - 1] == b;
    assert IsWalk(e, w + [c]);
  }

  lemma ReachableTrans(e: Edges, a: Vertex, b: Vertex, c: Vertex)
    requires Reachable(e, a, b) && Reachable(e, b, c)
    ensures Reachable(e, a, c)
  {
    var w1 :| IsWalk(e, w1) && w1[0] == a && w1[|w1| - 1] == b;
    var w2 :| IsWalk(e, w2) && w2[0] == b && w2[|w2| - 1] == c;
    var w := w1 + w2[1..];
    forall i | 0 <= i < |w| - 1 ensures Count(e, w[i], w[i + 1]) > 0 {
      if i < |w1| - 1 {
      } else {
        assert w[i] == w2[i - |w1| + 1] && w[i + 1] == w2[i - |w1| + 2];
      }
    }
    assert IsWalk(e, w);
  }

  lemma ReachableSym(e: Edges, a: Vertex, b: Vertex)
    requires WellFormed(e) && Reachable(e, a, b)
    ensures Reachable(e, b, a)
  {
    var w :| IsWalk(e, w) && w[0] == a && w[|w| - 1] == b;
    var r := Reverse(w);
    forall i | 0 <= i < |r| - 1 ensures Count(e, r[i], r[i + 1]) > 0 {
      assert r[i] == w[|w| - 1 - i] && r[i + 1] == w[|w| - 2 - i];
      assert Count(e, w[|w| - 2 - i], w[|w| - 1 - i]) > 0;
    }
    assert IsWalk(e, r);
  }

  /** A vertex set that contains `a` and is closed under neighbours contains everything reachable from `a`. */
  lemma ClosedContainsReachable(e: Edges, s: set<Vertex>, a: Vertex, b: Vertex)
    requires a in s
    requires forall x, y :: x in s && y in Row(e, x) ==> y in s
    requires Reachable(e, a, b)
    ensures b in s
  {
    var w :| IsWalk(e, w) && w[0] == a && w[|w| - 1] == b;
    var i := 0;
    while i < |w| - 1
      invariant 0 <= i < |w| && w[i] in s
    {
      assert Count(e, w[i], w[i + 1]) > 0;
      i := i + 1;
    }
  }

  // ----- edges traversed by a walk -----

  /** How many steps of `w` run along the undirected pair {x, y}. */
  function StepCount(w: seq<Vertex>, x: Vertex, y: Vertex): nat
  {
    if |w| < 2 then 0 else Joins(w[0], w[1], x, y) + StepCount(w[1..], x, y)
  }

  lemma {:induction false} StepCountConcat(a: seq<Vertex>, b: seq<Vertex>, x: Vertex, y: Vertex)
    requires |a| >= 1 && |b| >= 1
    ensures StepCount(a + b, x, y) == StepCount(a, x, y) + Joins(a[|a| - 1], b[0], x, y) + StepCount(b, x, y)
  {
    if |a| > 1 {
      assert (a + b)[1..] == a[1..] + b;
      StepCountConcat(a[1..], b, x, y);
    }
  }

  lemma StepCountSplit(s: seq<Vertex>, j: int, x: Vertex, y: Vertex)
    requires 0 <= j < |s|
    ensures StepCount(s, x, y) == StepCount(s[..j + 1], x, y) + StepCount(s[j..], x, y)
  {
    if j + 1 < |s| {
      assert s == s[..j + 1] + s[j + 1..];
      StepCountConcat(s[..j + 1], s[j + 1..], x, y);
      assert s[j..][1..] == s[j + 1..];
    } else {
      assert s[..j + 1] == s;
    }
  }

  lemma {:induction false} StepCountMember(w: seq<Vertex>, x: Vertex, y: Vertex)
    requires StepCount(w, x, y) > 0
    ensures x in w && y in w
  {
    if Joins(w[0], w[1], x, y) == 0 {
      StepCountMember(w[1..], x, y);
    }
  }

  lemma {:induction false} StepCountAt(w: seq<Vertex>, i: int)
    requires 0 <= i < |w| - 1
    ensures StepCount(w, w[i], w[i + 1]) >= 1
  {
    if i > 0 {
      StepCountAt(w[1..], i - 1);
    }
  }

  /** A vertex sequence that traverses each pair no more often than it has edges is a walk. */
  lemma StepsWithinEdges(e: Edges, w: seq<Vertex>)
    requires |w| >= 1
    requires forall x, y :: StepCount(w, x, y) <= Count(e, x, y)
    ensures IsWalk(e, w)
  {
    forall i | 0 <= i < |w| - 1 ensures Count(e, w[i], w[i + 1]) > 0 {
      StepCountAt(w, i);
    }
  }

  // ----- total weight -----

  /** `weights[(x, y)]`, zero for a pair without a weight. */
  function Wt(weights: Weights, x: Vertex, y: Vertex): nat
  {
    if (x, y) in weights then weights[(x, y)] else 0
  }

  ghost function WeightedRow(e: Edges, weights: Weights, x: Vertex): Counter
  {
    map y | y in Row(e, x) :: Row(e, x)[y] * Wt(weights, x, y)
  }

  ghost function RowWeight(e: Edges, weights: Weights, x: Vertex): nat
  {
    SumValues(WeightedRow(e, weights, x))
  }

  /** Sum over every ordered pair (x, y) of count times weight: twice the weight of all edges. */
  ghost function WeightedTotal(e: Edges, weights: Weights): nat
  {
    SumValues(map x | x in e :: RowWeight(e, weights, x))
  }

  lemma GetWeightedRow(e: Edges, weights: Weights, x: Vertex, y: Vertex)
    ensures Get(WeightedRow(e, weights, x), y) == Count(e, x, y) * Wt(weights, x, y)
  {
  }

  lemma RowWeightAdd(e: Edges, w0: Weights, e': Edges, w1: Weights,
                     u: Vertex, v: Vertex, weight: nat, x: Vertex)
    requires u != v
    requires forall x, y :: Count(e', x, y) == Count(e, x, y) + Joins(x, y, u, v)
    requires w1 == w0[(u, v) := weight][(v, u) := weight]
    requires Count(e, u, v) > 0 ==> Wt(w0, u, v) == weight
    requires Count(e, v, u) > 0 ==> Wt(w0, v, u) == weight
    ensures RowWeight(e', w1, x) == RowWeight(e, w0, x) + (if x == u || x == v then weight else 0)
  {
    var r := WeightedRow(e, w0, x);
    var r' := WeightedRow(e', w1, x);
    var other := if x == u then v else u;
    forall y | y != other ensures Get(r, y) == Get(r', y) {
      GetWeightedRow(e, w0, x, y);
      GetWeightedRow(e', w1, x, y);
      assert Joins(x, y, u, v) == 0;
      assert Count(e', x, y) == Count(e, x, y);
      assert Wt(w1, x, y) == Wt(w0, x, y);
    }
    GetWeightedRow(e, w0, x, other);
    GetWeightedRow(e', w1, x, other);
    var c := Count(e, x, other);
    if x == u || x == v {
      assert Count(e', x, other) == c + 1;
      assert Wt(w1, x, other) == weight;
      assert c > 0 ==> Wt(w0, x, other) == weight;
      assert c * Wt(w0, x, other) == c * weight;
      assert (c + 1) * weight == c * weight + weight;
      assert Get(r', other) == Get(r, other) + weight;
    } else {
      assert Count(e', x, other) == c;
      assert Wt(w1, x, other) == Wt(w0, x, other);
      assert Get(r', other) == Get(r, other);
    }
    SumValuesChange(r, r', other);
  }

  lemma WeightedTotalAdd(e: Edges, w0: Weights, e': Edges, w1: Weights,
                         u: Vertex, v: Vertex, weight: nat)
    requires u != v
    requires forall x, y :: Count(e', x, y) == Count(e, x, y) + Joins(x, y, u, v)
    requires w1 == w0[(u, v) := weight][(v, u) := weight]
    requires Count(e, u, v) > 0 ==> Wt(w0, u, v) == weight
    requires Count(e, v, u) > 0 ==> Wt(w0, v, u) == weight
    ensures WeightedTotal(e', w1) == WeightedTotal(e, w0) + 2 * weight
  {
    var rows := map x | x in e :: RowWeight(e, w0, x);
    var rows' := map x | x in e' :: RowWeight(e', w1, x);
    forall x ensures Get(rows', x) == Get(rows, x) + (if x == u || x == v then weight else 0) {
      RowWeightAdd(e, w0, e', w1, u, v, weight, x);
      if x !in e' {
        assert Row(e', x) == map[];
        assert WeightedRow(e', w1, x) == map[];
      }
      if x !in e {
        assert WeightedRow(e, w0, x) == map[];
      }
    }
    var mid := rows[u := Get(rows', u)];
    SumValuesChange(rows, mid, u);
    SumValuesChange(mid, rows', v);
  }

  // ----- the Graph object -----

  class Graph {
    var edges: Edges
    var weights: Weights
    var vertices: set<Vertex>
    var totalWeight: nat
    /** True while every edge was added with the weight its pair carries now. */
    ghost var uniform: bool

    ghost predicate Valid()
      reads this
    {
      GraphInvariant(edges, weights, vertices, totalWeight, uniform)
    }

    constructor ()
      ensures Valid() && uniform
      ensures edges == map[] && weights == map[] && vertices == {} && totalWeight == 0
    {
      edges := map[];
      weights := map[];
      vertices := {};
      totalWeight := 0;
      uniform := true;
    }

    /** `add_edge(u, v, weight)` for two distinct vertices. */
    method AddEdge(u: Vertex, v: Vertex, weight: nat)
      requires Valid() && u != v
      modifies this
      ensures Valid()
      ensures OneMoreEdge(old(edges), edges, u, v)
      ensures weights == old(weights)[(u, v) := weight][(v, u) := weight]
      ensures vertices == old(vertices) + {u, v}
      ensures totalWeight == old(totalWeight) + weight
      ensures uniform == (old(uniform) && ((u, v) in old(weights) ==> old(weights)[(u, v)] == weight))
    {
      ghost var e0, w0, vs0, t0, uni0 := edges, weights, vertices, totalWeight, uniform;
      assert GraphInvariant(e0, w0, vs0, t0, uni0);
      edges := Increment(edges, u, v);
      uniform := uniform && ((u, v) in weights ==> weights[(u, v)] == weight);
      weights := weights[(u, v) := weight][(v, u) := weight];
      vertices := vertices + {u, v};
      totalWeight := totalWeight + weight;
      AddedEdgeInvariant(e0, w0, vs0, t0, uni0, edges, weights, vertices, totalWeight, uniform, u, v, weight);
    }

    /** `get_degree(v)`: the number of edge ends at v. */
    function Degree(v: Vertex): (d: nat)
      reads this
      ensures forall y :: Count(edges, v, y) <= d
      ensures d == 0 <==> forall y :: Count(edges, v, y) == 0
    {
      DegreeFacts(edges, v);
      DegreeIn(edges, v)
    }

    /**
     * `get_odd_degree_vertices()`: every vertex of odd degree, once each.
     * The source lists them in set-iteration order; here they come in ascending order.
     */
    function OddDegreeVertices(): (odd: seq<Vertex>)
      reads this
      requires Valid()
      ensures forall v :: v in odd <==> v in vertices && Degree(v) % 2 == 1
      ensures forall i, j :: 0 <= i < j < |odd| ==> odd[i] != odd[j]
      ensures |odd| % 2 == 0
    {
      OddCountEven(edges);
      assert (set v | v in vertices && Degree(v) % 2 == 1) == set x | x in edges && DegreeIn(edges, x) % 2 == 1;
      Sorted(set v | v in vertices && Degree(v) % 2 == 1)
    }

    /** Every two vertices of positive degree are joined by a walk. */
    ghost predicate Connected()
      reads this
    {
      ConnectedIn(edges, vertices)
    }

    /**
     * `_is_connected()`: a depth-first search from the first vertex of positive degree,
     * answering whether it reaches every vertex of positive degree.
     */
    method IsConnected() returns (connected: bool)
      requires WellFormed(edges) && vertices == edges.Keys
      ensures connected <==> Connected()
    {
      var start := FirstWithEdge();
      if start.None? {
        return true;
      }
      var s := start.value;

      var visited := set v | v in vertices && DegreeIn(edges, v) == 0;
      var stack := [s];
      visited := visited + {s};
      ReachableRefl(edges, s);

      while stack != []
        invariant visited <= vertices && s in visited
        invariant forall x :: x in vertices && DegreeIn(edges, x) == 0 ==> x in visited
        invariant forall x :: x in stack ==> x in visited
        invariant VisitedFrom(edges, s, visited)
        invariant ClosedBeyond(edges, visited, stack, {})
        decreases |vertices - visited|, |stack|
      {
        var u := stack[|stack| - 1];
        stack := stack[..|stack| - 1];
        ghost var visited0 := visited;
        visited, stack := PushNeighbours(s, u, visited, stack);
        if visited != visited0 {
          ShrinkingRest(vertices, visited0, visited);
        }
      }

      connected := |visited| == |vertices|;
      SearchOutcome(edges, s, visited);
    }

    /** The loop of `_is_connected()` that looks for a vertex of positive degree. */
    method FirstWithEdge() returns (start: Option<Vertex>)
      ensures start.None? ==> forall x :: x in vertices ==> DegreeIn(edges, x) == 0
      ensures start.Some? ==> start.value in vertices && DegreeIn(edges, start.value) > 0
    {
      start := None;
      var unseen := vertices;
      while unseen != {}
        invariant unseen <= vertices
        invariant forall x :: x in vertices - unseen ==> DegreeIn(edges, x) == 0
        decreases |unseen|
      {
        var v :| v in unseen;
        if Degree(v) > 0 {
          return Some(v);
        }
        unseen := unseen - {v};
      }
    }

    /** The inner loop of `_is_connected()`: marks and pushes every unvisited neighbour of u. */
    method PushNeighbours(ghost s: Vertex, u: Vertex, visited0: set<Vertex>, stack0: seq<Vertex>)
      returns (visited: set<Vertex>, stack: seq<Vertex>)
      requires WellFormed(edges) && visited0 <= vertices && vertices == edges.Keys
      requires u in visited0 && VisitedFrom(edges, s, visited0)
      requires forall x :: x in stack0 ==> x in visited0
      requires ClosedBeyond(edges, visited0, stack0 + [u], {})
      ensures visited == visited0 + Row(edges, u).Keys && visited <= vertices
      ensures |stack| >= |stack0| && stack[..|stack0|] == stack0
      ensures forall x :: x in stack[|stack0|..] <==> x in visited - visited0
      ensures visited == visited0 ==> stack == stack0
      ensures forall x :: x in stack ==> x in visited
      ensures VisitedFrom(edges, s, visited)
      ensures ClosedBeyond(edges, visited, stack, {})
    {
      visited, stack := visited0, stack0;
      var nbrs := Row(edges, u).Keys;
      while nbrs != {}
        invariant nbrs <= Row(edges, u).Keys
        invariant visited == visited0 + (Row(edges, u).Keys - nbrs) && visited <= vertices
        invariant Pushed(stack0, stack, visited0, visited)
        invariant forall x :: x in stack ==> x in visited
        invariant VisitedFrom(edges, s, visited)
        invariant ClosedBeyond(edges, visited, stack, {u})
        decreases nbrs
      {
        var v :| v in nbrs;
        if v !in visited {
          VisitNeighbour(edges, s, visited, u, v);
          PushedStep(stack0, stack, visited0, visited, v);
          visited := visited + {v};
          stack := stack + [v];
        }
        nbrs := nbrs - {v};
      }
    }
  }

  /** The stack is the old one with exactly the newly visited vertices pushed after it. */
  ghost predicate Pushed(stack0: seq<Vertex>, stack: seq<Vertex>, visited0: set<Vertex>, visited: set<Vertex>)
  {
    && |stack| >= |stack0| && stack[..|stack0|] == stack0
    && (forall x :: x in stack[|stack0|..] <==> x in visited - visited0)
    && (visited == visited0 ==> stack == stack0)
  }

  lemma PushedStep(stack0: seq<Vertex>, stack: seq<Vertex>, visited0: set<Vertex>, visited: set<Vertex>, v: Vertex)
    requires Pushed(stack0, stack, visited0, visited) && visited0 <= visited && v !in visited
    ensures Pushed(stack0, stack + [v], visited0, visited + {v})
  {
    assert (stack + [v])[|stack0|..] == stack[|stack0|..] + [v];
    assert (stack + [v])[..|stack0|] == stack[..|stack0|];
  }

  /** Every visited vertex has no edge or is reachable from s. */
  ghost predicate VisitedFrom(e: Edges, s: Vertex, visited: set<Vertex>)
  {
    forall x :: x in visited ==> DegreeIn(e, x) == 0 || Reachable(e, s, x)
  }

  /** Every neighbour of a visited vertex outside `pending` and `busy` is visited. */
  ghost predicate ClosedBeyond(e: Edges, visited: set<Vertex>, pending: seq<Vertex>, busy: set<Vertex>)
  {
    forall x, y :: x in visited && x !in pending && x !in busy && y in Row(e, x) ==> y in visited
  }

  lemma VisitNeighbour(e: Edges, s: Vertex, visited: set<Vertex>, u: Vertex, v: Vertex)
    requires WellFormed(e) && VisitedFrom(e, s, visited) && u in visited && v in Row(e, u)
    ensures VisitedFrom(e, s, visited + {v}) && v in e
  {
    assert Count(e, u, v) > 0;
    assert Count(e, v, u) > 0;
    if DegreeIn(e, u) == 0 {
      DegreeFacts(e, u);
    }
    ReachableStep(e, s, u, v);
  }

  /** Every two vertices of vs with an edge are joined by a walk. */
  ghost predicate ConnectedIn(e: Edges, vs: set<Vertex>)
  {
    forall a, b :: a in vs && b in vs && DegreeIn(e, a) > 0 && DegreeIn(e, b) > 0 ==> Reachable(e, a, b)
  }

  /** When the search stops, it has visited every vertex exactly when the graph is connected. */
  lemma SearchOutcome(e: Edges, s: Vertex, visited: set<Vertex>)
    requires WellFormed(e) && visited <= e.Keys && s in visited && DegreeIn(e, s) > 0
    requires forall x :: x in e.Keys && DegreeIn(e, x) == 0 ==> x in visited
    requires VisitedFrom(e, s, visited) && ClosedBeyond(e, visited, [], {})
    ensures |visited| == |e.Keys| <==> ConnectedIn(e, e.Keys)
  {
    if |visited| == |e.Keys| {
      SameSizeSubset(visited, e.Keys);
      AllVisitedConnected(e, s, e.Keys);
    } else {
      assert visited != e.Keys;
      var x :| x in e.Keys && x !in visited;
      MissedUnreachable(e, s, visited, x);
    }
  }

  lemma AllVisitedConnected(e: Edges, s: Vertex, vs: set<Vertex>)
    requires WellFormed(e) && VisitedFrom(e, s, vs) && s in vs
    ensures forall a, b :: a in vs && b in vs && DegreeIn(e, a) > 0 && DegreeIn(e, b) > 0 ==> Reachable(e, a, b)
  {
    forall a, b | a in vs && b in vs && DegreeIn(e, a) > 0 && DegreeIn(e, b) > 0
      ensures Reachable(e, a, b)
    {
      ReachableSym(e, s, a);
      ReachableTrans(e, a, s, b);
    }
  }

  lemma MissedUnreachable(e: Edges, s: Vertex, visited: set<Vertex>, x: Vertex)
    requires s in visited && x !in visited && DegreeIn(e, s) > 0
    requires forall y :: y in e.Keys && DegreeIn(e, y) == 0 ==> y in visited
    requires ClosedBeyond(e, visited, [], {}) && x in e
    ensures DegreeIn(e, x) > 0 && !Reachable(e, s, x)
  {
    if Reachable(e, s, x) {
      ClosedContainsReachable(e, visited, s, x);
    }
  }

  /**
   * The invariant of a Graph built by `add_edge` calls: counts as `WellFormed` says, the vertex
   * set is the set of rows, no row is empty, a pair has a weight exactly when it has an edge,
   * both directions of a pair carry the same weight, and while every edge was added with the
   * weight its pair now carries, the running total is the weight of all edges.
   */
  ghost predicate GraphInvariant(edges: Edges, weights: Weights, vertices: set<Vertex>,
                                 totalWeight: nat, uniform: bool)
  {
    && WellFormed(edges)
    && vertices == edges.Keys
    && RowsNonEmpty(edges)
    && WeightKeys(edges, weights)
    && WeightsSymmetric(weights)
    && (uniform ==> 2 * totalWeight == WeightedTotal(edges, weights))
  }

  /** A vertex is a key of `edges` only while it has a neighbour. */
  ghost predicate RowsNonEmpty(e: Edges)
  {
    forall x :: x in e ==> e[x] != map[]
  }

  /** A pair carries a weight exactly when it has an edge. */
  ghost predicate WeightKeys(e: Edges, weights: Weights)
  {
    forall x, y :: (x, y) in weights <==> Count(e, x, y) > 0
  }

  ghost predicate WeightsSymmetric(weights: Weights)
  {
    forall x, y :: (x, y) in weights ==> weights[(x, y)] == Wt(weights, y, x)
  }

  /** `edges[u][v] += 1; edges[v][u] += 1`, a missing row or count reading as empty or zero. */
  function Increment(e0: Edges, u: Vertex, v: Vertex): (e1: Edges)
    requires u != v
    ensures OneMoreEdge(e0, e1, u, v)
  {
    var mid := e0[u := Row(e0, u)[v := Count(e0, u, v) + 1]];
    AddedEdge(e0, mid, mid[v := Row(mid, v)[u := Count(mid, v, u) + 1]], u, v);
    mid[v := Row(mid, v)[u := Count(mid, v, u) + 1]]
  }

  /** The counts after the two increments. */
  lemma AddedEdge(e0: Edges, mid: Edges, e1: Edges, u: Vertex, v: Vertex)
    requires u != v
    requires mid == e0[u := Row(e0, u)[v := Count(e0, u, v) + 1]]
    requires e1 == mid[v := Row(mid, v)[u := Count(mid, v, u) + 1]]
    ensures OneMoreEdge(e0, e1, u, v)
  {
    assert Row(mid, v) == Row(e0, v);
    assert e1.Keys == e0.Keys + {u, v};
    forall x, y ensures Count(e1, x, y) == Count(e0, x, y) + Joins(x, y, u, v)
      && (y in Row(e1, x) <==> y in Row(e0, x) || Joins(x, y, u, v) > 0)
    {
      if x == u {
        assert Row(e1, x) == Row(e0, u)[v := Count(e0, u, v) + 1];
      } else if x == v {
        assert Row(e1, x) == Row(e0, v)[u := Count(e0, v, u) + 1];
      } else {
        assert Row(e1, x) == Row(e0, x);
      }
    }
  }

  lemma OneMoreEdgeDegrees(e0: Edges, e1: Edges, u: Vertex, v: Vertex)
    requires OneMoreEdge(e0, e1, u, v)
    ensures forall x :: DegreeIn(e1, x) == DegreeIn(e0, x) + (if x == u || x == v then 1 else 0)
    ensures TotalDegree(e1) == TotalDegree(e0) + 2
  {
    CountsDegrees(e0, e1, u, v);
    DegreesTotal(e0, e1, u, v);
  }

  /** The counts and rows after one more edge between u and v, as `AddedEdge` states them. */
  ghost predicate OneMoreEdge(e0: Edges, e1: Edges, u: Vertex, v: Vertex)
  {
    && u != v
    && CountsOneMore(e0, e1, u, v)
    && RowsOneMore(e0, e1, u, v)
    && e1.Keys == e0.Keys + {u, v}
  }

  ghost predicate CountsOneMore(e0: Edges, e1: Edges, u: Vertex, v: Vertex)
  {
    forall x, y :: Count(e1, x, y) == Count(e0, x, y) + Joins(x, y, u, v)
  }

  ghost predicate RowsOneMore(e0: Edges, e1: Edges, u: Vertex, v: Vertex)
  {
    forall x, y :: y in Row(e1, x) <==> y in Row(e0, x) || Joins(x, y, u, v) > 0
  }

  lemma AddedEdgeWellFormed(e0: Edges, e1: Edges, u: Vertex, v: Vertex)
    requires WellFormed(e0) && OneMoreEdge(e0, e1, u, v)
    ensures WellFormed(e1)
  {
    forall x, y | y in Row(e1, x) ensures Row(e1, x)[y] > 0 && y != x {
      assert Count(e1, x, y) == Count(e0, x, y) + Joins(x, y, u, v);
      if Joins(x, y, u, v) == 0 {
        assert y in Row(e0, x);
      }
    }
    forall x, y ensures Count(e1, x, y) == Count(e1, y, x) {
      assert Count(e0, x, y) == Count(e0, y, x);
    }
  }

  lemma AddedEdgeRows(e0: Edges, e1: Edges, u: Vertex, v: Vertex)
    requires RowsNonEmpty(e0) && OneMoreEdge(e0, e1, u, v)
    ensures RowsNonEmpty(e1)
  {
    forall x | x in e1 ensures e1[x] != map[] {
      if x == u {
        assert v in Row(e1, u);
      } else if x == v {
        assert u in Row(e1, v);
      } else {
        assert x in e0 && e0[x] != map[];
        var y :| y in e0[x];
        assert y in Row(e1, x);
      }
    }
  }

  lemma AddedEdgeWeights(e0: Edges, w0: Weights, e1: Edges, w1: Weights,
                         u: Vertex, v: Vertex, weight: nat)
    requires WeightKeys(e0, w0) && WeightsSymmetric(w0)
    requires OneMoreEdge(e0, e1, u, v) && w1 == w0[(u, v) := weight][(v, u) := weight]
    ensures WeightKeys(e1, w1) && WeightsSymmetric(w1)
  {
    forall x, y ensures (x, y) in w1 <==> Count(e1, x, y) > 0 {
      assert (x, y) in w0 <==> Count(e0, x, y) > 0;
      assert Count(e1, x, y) == Count(e0, x, y) + Joins(x, y, u, v);
    }
    WeightsStaySymmetric(w0, w1, u, v, weight);
  }

  lemma WeightsStaySymmetric(w0: Weights, w1: Weights, u: Vertex, v: Vertex, weight: nat)
    requires WeightsSymmetric(w0)
    requires w1 == w0[(u, v) := weight][(v, u) := weight]
    ensures WeightsSymmetric(w1)
  {
    forall x, y | (x, y) in w1 ensures w1[(x, y)] == Wt(w1, y, x) {
      if (x, y) == (u, v) || (x, y) == (v, u) {
        assert Wt(w1, y, x) == weight;
      } else {
        assert (x, y) in w0 && w1[(x, y)] == w0[(x, y)];
        assert Wt(w1, y, x) == Wt(w0, y, x);
      }
    }
  }

  lemma AddedEdgeInvariant(e0: Edges, w0: Weights, vs0: set<Vertex>, t0: nat, uni0: bool,
                           e1: Edges, w1: Weights, vs1: set<Vertex>, t1: nat, uni1: bool,
                           u: Vertex, v: Vertex, weight: nat)
    requires GraphInvariant(e0, w0, vs0, t0, uni0) && OneMoreEdge(e0, e1, u, v)
    requires w1 == w0[(u, v) := weight][(v, u) := weight]
    requires vs1 == vs0 + {u, v} && t1 == t0 + weight
    requires uni1 == (uni0 && ((u, v) in w0 ==> w0[(u, v)] == weight))
    ensures GraphInvariant(e1, w1, vs1, t1, uni1)
  {
    AddedEdgeWellFormed(e0, e1, u, v);
    AddedEdgeRows(e0, e1, u, v);
    AddedEdgeWeights(e0, w0, e1, w1, u, v, weight);
    if uni1 {
      assert Count(e0, v, u) == Count(e0, u, v);
      assert Count(e0, u, v) > 0 ==> (u, v) in w0;
      assert Count(e0, v, u) > 0 ==> (v, u) in w0 && w0[(v, u)] == Wt(w0, u, v);
      WeightedTotalAdd(e0, w0, e1, w1, u, v, weight);
    }
  }

  lemma DegreeFacts(e: Edges, v: Vertex)
    ensures forall y :: Count(e, v, y) <= DegreeIn(e, v)
    ensures DegreeIn(e, v) == 0 <==> forall y :: Count(e, v, y) == 0
  {
    forall y ensures Count(e, v, y) <= DegreeIn(e, v) {
      CountBelowDegree(e, v, y);
    }
    if forall y :: Count(e, v, y) == 0 {
      forall y ensures Get(Row(e, v), y) == Get(map[], y) {
        assert Count(e, v, y) == 0;
      }
      SumValuesGet(Row(e, v), map[]);
    }
  }

  lemma {:induction false} SubsetSize(a: set<Vertex>, b: set<Vertex>)
    requires a <= b
    ensures |a| <= |b|
    decreases |b|
  {
    if a != {} {
      var x :| x in a;
      SubsetSize(a - {x}, b - {x});
    }
  }

  lemma ShrinkingRest(vs: set<Vertex>, a: set<Vertex>, b: set<Vertex>)
    requires a <= b <= vs && a != b
    ensures |vs - b| < |vs - a|
  {
    var x :| x in b && x !in a;
    SubsetSize(vs - b, (vs - a) - {x});
  }

  lemma SameSizeSubset(a: set<Vertex>, b: set<Vertex>)
    requires a <= b && |a| == |b|
    ensures a == b
  {
    if a != b {
      var x :| x in b && x !in a;
      SubsetSize(a, b - {x});
    }
  }
}
