/**
 * Hierholzer's algorithm (`find_eulerian_circuit`): a stack of vertices walks
 * along unused edges, "burning" each edge it crosses in a private copy of the
 * adjacency Counters, and a vertex with no unused edge left moves from the
 * stack to the output path.
 *
 * The proof follows the stack with a ghost anchor index `j`: the part of the
 * stack above the anchor is the sub-tour still being extended, the part up to
 * the anchor joined with the reversed output is a closed walk, and together
 * they account for every burned edge exactly once.
 */
module Eulerian {
  import opened Base
  import opened Counters
  import opened Multigraph

  /** A closed walk from `start` that crosses every edge of `e` exactly once. */
  ghost predicate EulerianCircuit(e: Edges, start: Vertex, c: seq<Vertex>)
  {
    && |c| >= 1 && c[0] == start && c[|c| - 1] == start
    && IsWalk(e, c)
    && forall x, y :: StepCount(c, x, y) == Count(e, x, y)
  }

  /** Every vertex that has an edge can be reached from `start`. */
  ghost predicate ReachesAllEdges(e: Edges, start: Vertex)
  {
    forall x :: DegreeIn(e, x) > 0 ==> Reachable(e, start, x)
  }

  /** `find_eulerian_circuit(graph_edges, start_node)`. */
  method FindEulerianCircuit(graphEdges: Edges, start: Vertex) returns (circuit: seq<Vertex>)
    requires WellFormed(graphEdges)
    ensures |circuit| >= 1 && circuit[0] == start
    ensures 2 * (|circuit| - 1) <= TotalDegree(graphEdges)
    ensures Row(graphEdges, start) == map[] ==> circuit == [start]
    ensures AllEven(graphEdges) ==> IsWalk(graphEdges, circuit) && circuit[|circuit| - 1] == start
    ensures AllEven(graphEdges) ==> forall x, y :: StepCount(circuit, x, y) <= Count(graphEdges, x, y)
    ensures AllEven(graphEdges) && ReachesAllEdges(graphEdges, start) ==> EulerianCircuit(graphEdges, start, circuit)
  {
    var copy := graphEdges;
    var stack := [start];
    var path := [];
    ghost var j := 0;
    Init(graphEdges, start);

    while stack != []
      invariant Inv(graphEdges, start, copy, stack, path, j)
      decreases TotalDegree(copy), |stack|
    {
      copy, stack, path, j := Step(graphEdges, start, copy, stack, path, j);
    }

    circuit := Reverse(path);
    Finish(graphEdges, start, copy, path);
  }

  /**
   * One pass of the loop: cross an unused edge from the top of the stack, or,
   * when the top has none left, move it to the output.
   */
  method Step(ghost e: Edges, ghost start: Vertex, copy0: Edges, stack0: seq<Vertex>, path0: seq<Vertex>, ghost j0: int)
    returns (copy: Edges, stack: seq<Vertex>, path: seq<Vertex>, ghost j: int)
    requires stack0 != [] && Inv(e, start, copy0, stack0, path0, j0)
    ensures Inv(e, start, copy, stack, path, j)
    ensures TotalDegree(copy) < TotalDegree(copy0)
            || (TotalDegree(copy) == TotalDegree(copy0) && |stack| < |stack0|)
  {
    var u := stack0[|stack0| - 1];
    if Row(copy0, u) != map[] {
      var v :| v in Row(copy0, u);
      stack := stack0 + [v];
      copy := BurnEdge(copy0, u, v);
      path, j := path0, j0;
      BurnStep(e, start, copy0, copy, stack0, path0, j0, v);
    } else {
      PopStep(e, start, copy0, stack0, path0, j0);
      copy := copy0;
      j := if |stack0| >= 2 then |stack0| - 2 else 0;
      stack := stack0[..|stack0| - 1];
      path := path0 + [u];
    }
  }

  // ----- the loop invariant -----

  /** 1 when x is a, else 0. */
  function Ind(x: Vertex, a: Vertex): nat
  {
    if x == a then 1 else 0
  }

  /** The closed part: the stack up to the anchor, then the output read backwards. */
  function Closed(stack: seq<Vertex>, path: seq<Vertex>, j: int): seq<Vertex>
  {
    if 0 <= j < |stack| then stack[..j + 1] + Reverse(path) else Reverse(path)
  }

  /** The open part: the stack from the anchor to its top. */
  function Open(stack: seq<Vertex>, j: int): seq<Vertex>
  {
    if 0 <= j < |stack| then stack[j..] else []
  }

  ghost predicate Inv(e: Edges, start: Vertex, copy: Edges, stack: seq<Vertex>, path: seq<Vertex>, j: int)
  {
    Basic(e, start, copy, stack, path) && (AllEven(e) ==> Tour(e, start, copy, stack, path, j))
  }

  /** What holds for every input. */
  ghost predicate Basic(e: Edges, start: Vertex, copy: Edges, stack: seq<Vertex>, path: seq<Vertex>)
  {
    && WellFormed(copy)
    && (forall x, y :: Count(copy, x, y) <= Count(e, x, y))
    && (stack != [] ==> stack[0] == start)
    && (stack == [] ==> path != [] && path[|path| - 1] == start)
    && (forall x :: x in path ==> Row(copy, x) == map[])
    && 2 * (|stack| + |path| - 1) + TotalDegree(copy) == TotalDegree(e)
    && (Row(e, start) == map[] ==> stack + path == [start])
  }

  /** What holds besides when every degree of the input is even. */
  ghost predicate Tour(e: Edges, start: Vertex, copy: Edges, stack: seq<Vertex>, path: seq<Vertex>, j: int)
  {
    && (stack != [] ==> 0 <= j < |stack|)
    && (stack != [] ==> Parity(copy, stack[|stack| - 1], stack[j]))
    && (path == [] ==> j == 0)
    && (path != [] ==> path[0] == start)
    && Accounts(e, copy, Closed(stack, path, j), Open(stack, j))
  }

  /** Exactly the top of the stack and the anchor have odd degree, or none when they are the same vertex. */
  ghost predicate Parity(copy: Edges, top: Vertex, anchor: Vertex)
  {
    forall x :: DegreeIn(copy, x) % 2 == (Ind(x, top) + Ind(x, anchor)) % 2
  }

  /** Every edge of e is either unused in the copy or crossed once by one of the two walks. */
  ghost predicate Accounts(e: Edges, copy: Edges, closed: seq<Vertex>, open: seq<Vertex>)
  {
    forall x, y :: Count(e, x, y) == Count(copy, x, y) + StepCount(closed, x, y) + StepCount(open, x, y)
  }

  lemma Init(e: Edges, start: Vertex)
    requires WellFormed(e)
    ensures Inv(e, start, e, [start], [], 0)
  {
    assert Closed([start], [], 0) == [start];
    assert Open([start], 0) == [start];
  }

  /** A row that is empty stays empty when counts only go down. */
  lemma EmptyRowsStay(c0: Edges, c1: Edges, xs: seq<Vertex>)
    requires WellFormed(c1) && forall x, y :: Count(c1, x, y) <= Count(c0, x, y)
    requires forall x :: x in xs ==> Row(c0, x) == map[]
    ensures forall x :: x in xs ==> Row(c1, x) == map[]
  {
    forall x | x in xs ensures Row(c1, x) == map[] {
      forall y ensures y !in Row(c1, x) {
        assert Count(c1, x, y) <= Count(c0, x, y) == 0;
      }
      assert Row(c1, x).Keys == {};
    }
  }

  /**
   * The four updates that burn one edge between u and v: both counts go down by
   * one and a count that reaches zero is deleted.
   */
  method BurnEdge(copy0: Edges, u: Vertex, v: Vertex) returns (copy: Edges)
    requires WellFormed(copy0) && v in Row(copy0, u)
    ensures OneLess(copy0, copy, u, v)
    ensures copy == Burned(copy0, u, v)
  {
    assert Count(copy0, u, v) > 0 && Count(copy0, v, u) > 0;
    copy := copy0;
    copy := copy[u := copy[u][v := copy[u][v] - 1]];
    copy := copy[v := copy[v][u := copy[v][u] - 1]];
    if copy[u][v] == 0 {
      copy := copy[u := copy[u] - {v}];
    }
    if copy[v][u] == 0 {
      copy := copy[v := copy[v] - {u}];
    }
    BurnedOneLess(copy0, u, v);
  }

  /** Crossing the unused edge from the top u to v, which leaves b, keeps the invariant. */
  lemma BurnStep(e: Edges, start: Vertex, copy: Edges, b: Edges, stack: seq<Vertex>, path: seq<Vertex>, j: int, v: Vertex)
    requires stack != [] && OneLess(copy, b, stack[|stack| - 1], v)
    requires Inv(e, start, copy, stack, path, j)
    ensures Inv(e, start, b, stack + [v], path, j)
    ensures TotalDegree(b) < TotalDegree(copy)
  {
    var u := stack[|stack| - 1];
    OneLessTotal(copy, b, u, v);
    assert forall x, y :: Count(b, x, y) <= Count(copy, x, y);
    EmptyRowsStay(copy, b, path);
    assert Count(copy, u, v) > 0;
    assert Count(e, u, v) > 0 && v in Row(e, u);
    assert (stack + [v])[0] == stack[0];
    if AllEven(e) {
      BurnTour(e, start, copy, b, stack, path, j, v);
    }
  }

  lemma BurnTour(e: Edges, start: Vertex, copy: Edges, b: Edges, stack: seq<Vertex>, path: seq<Vertex>, j: int, v: Vertex)
    requires stack != [] && OneLess(copy, b, stack[|stack| - 1], v)
    requires Tour(e, start, copy, stack, path, j)
    ensures Tour(e, start, b, stack + [v], path, j)
  {
    var u := stack[|stack| - 1];
    PushWalks(stack, path, j, v);
    BurnParity(copy, b, u, v, stack[j]);
    BurnAccounts(e, copy, b, Closed(stack, path, j), Open(stack, j), u, v);
  }

  /** Pushing v extends the open part by v and leaves the closed part as it was. */
  lemma PushWalks(stack: seq<Vertex>, path: seq<Vertex>, j: int, v: Vertex)
    requires 0 <= j < |stack|
    ensures (stack + [v])[j] == stack[j] && (stack + [v])[|stack|] == v
    ensures Closed(stack + [v], path, j) == Closed(stack, path, j)
    ensures Open(stack + [v], j) == Open(stack, j) + [v]
    ensures Open(stack, j) != [] && Open(stack, j)[|Open(stack, j)| - 1] == stack[|stack| - 1]
  {
    assert (stack + [v])[..j + 1] == stack[..j + 1];
    assert (stack + [v])[j..] == stack[j..] + [v];
  }

  lemma BurnParity(copy: Edges, b: Edges, u: Vertex, v: Vertex, anchor: Vertex)
    requires OneLess(copy, b, u, v) && Parity(copy, u, anchor)
    ensures Parity(b, v, anchor)
  {
    CountsDegrees(b, copy, u, v);
    forall x ensures DegreeIn(b, x) % 2 == (Ind(x, v) + Ind(x, anchor)) % 2 {
      var d, d' := DegreeIn(copy, x), DegreeIn(b, x);
      assert d % 2 == (Ind(x, u) + Ind(x, anchor)) % 2;
      if x == u || x == v {
        assert d' + 1 == d;
        ParityMove(d, d', Ind(x, u) + Ind(x, anchor), Ind(x, v) + Ind(x, anchor));
      } else {
        assert d' == d;
      }
    }
  }

  lemma BurnAccounts(e: Edges, copy: Edges, b: Edges, closed: seq<Vertex>, open: seq<Vertex>, u: Vertex, v: Vertex)
    requires OneLess(copy, b, u, v)
    requires open != [] && open[|open| - 1] == u
    requires Accounts(e, copy, closed, open)
    ensures Accounts(e, b, closed, open + [v])
  {
    forall x, y ensures Count(e, x, y) == Count(b, x, y) + StepCount(closed, x, y) + StepCount(open + [v], x, y)
    {
      StepCountConcat(open, [v], x, y);
    }
  }

  lemma ParityMove(d: nat, d': nat, p: nat, p': nat)
    requires d == d' + 1 && (p == p' + 1 || p' == p + 1) && d % 2 == p % 2
    ensures d' % 2 == p' % 2
  {
  }

  /** Moving the top, which has no unused edge, to the output keeps the invariant. */
  lemma PopStep(e: Edges, start: Vertex, copy: Edges, stack: seq<Vertex>, path: seq<Vertex>, j: int)
    requires stack != [] && Row(copy, stack[|stack| - 1]) == map[]
    requires Inv(e, start, copy, stack, path, j)
    ensures Inv(e, start, copy, stack[..|stack| - 1], path + [stack[|stack| - 1]],
                                if |stack| >= 2 then |stack| - 2 else 0)
  {
    PopBasic(e, start, copy, stack, path);
    if AllEven(e) {
      PopTour(e, start, copy, stack, path, j);
    }
  }

  lemma PopBasic(e: Edges, start: Vertex, copy: Edges, stack: seq<Vertex>, path: seq<Vertex>)
    requires stack != [] && Row(copy, stack[|stack| - 1]) == map[]
    requires Basic(e, start, copy, stack, path)
    ensures Basic(e, start, copy, stack[..|stack| - 1], path + [stack[|stack| - 1]])
  {
    var n := |stack|;
    PopEnds(start, stack, path);
    PopRows(copy, path, stack[n - 1]);
    assert |stack[..n - 1]| + |path + [stack[n - 1]]| == |stack| + |path|;
  }

  /** Popping the top onto the output keeps the stack's bottom and the output's end at `start`. */
  lemma PopEnds(start: Vertex, stack: seq<Vertex>, path: seq<Vertex>)
    requires stack != [] && stack[0] == start
    requires stack + path == [start] || |stack| + |path| >= 2
    ensures stack[..|stack| - 1] != [] ==> stack[..|stack| - 1][0] == start
    ensures stack[..|stack| - 1] == [] ==> (path + [stack[|stack| - 1]])[|path|] == start
    ensures stack + path == [start] ==> stack[..|stack| - 1] + (path + [stack[|stack| - 1]]) == [start]
  {
    var n := |stack|;
    if n >= 2 {
      assert stack[..n - 1][0] == stack[0];
    }
    if stack + path == [start] {
      assert path == [];
      assert stack[..n - 1] + (path + [stack[n - 1]]) == [start];
    }
  }

  /** A vertex without unused edges joins outputs that have none. */
  lemma PopRows(copy: Edges, path: seq<Vertex>, t: Vertex)
    requires forall x :: x in path ==> Row(copy, x) == map[]
    requires Row(copy, t) == map[]
    ensures forall x :: x in path + [t] ==> Row(copy, x) == map[]
  {
  }

  lemma PopTour(e: Edges, start: Vertex, copy: Edges, stack: seq<Vertex>, path: seq<Vertex>, j: int)
    requires stack != [] && Row(copy, stack[|stack| - 1]) == map[]
    requires WellFormed(copy) && stack[0] == start && Tour(e, start, copy, stack, path, j)
    ensures Tour(e, start, copy, stack[..|stack| - 1], path + [stack[|stack| - 1]],
                 if |stack| >= 2 then |stack| - 2 else 0)
  {
    var n := |stack|;
    var t := stack[n - 1];
    AnchorReached(copy, t, stack[j]);
    if n >= 2 {
      PopInner(e, start, copy, stack, path, j);
    } else {
      PopLast(e, copy, t, path);
      if path == [] {
        assert t == stack[0] == start;
      }
    }
  }

  /** A top with no unused edge left has even degree, so it is the anchor. */
  lemma AnchorReached(copy: Edges, t: Vertex, anchor: Vertex)
    requires WellFormed(copy) && Row(copy, t) == map[] && Parity(copy, t, anchor)
    ensures t == anchor
  {
    ZeroDegreeEmptyRow(copy, t);
    assert DegreeIn(copy, t) % 2 == (Ind(t, t) + Ind(t, anchor)) % 2;
  }

  /** Popping a top that is not the bottom of the stack: the vertex below becomes the anchor. */
  lemma PopInner(e: Edges, start: Vertex, copy: Edges, stack: seq<Vertex>, path: seq<Vertex>, j: int)
    requires |stack| >= 2 && 0 <= j < |stack| && stack[j] == stack[|stack| - 1]
    requires stack[0] == start && Tour(e, start, copy, stack, path, j)
    ensures Tour(e, start, copy, stack[..|stack| - 1], path + [stack[|stack| - 1]], |stack| - 2)
  {
    var n := |stack|;
    var t := stack[n - 1];
    PopParity(copy, t, stack[n - 2]);
    PopAccounts(e, copy, stack, path, j);
    assert stack[..n - 1][n - 2] == stack[n - 2];
    if path == [] {
      assert t == stack[0] == start;
    }
  }

  /** Popping the last vertex leaves the closed walk as it was. */
  lemma PopLast(e: Edges, copy: Edges, t: Vertex, path: seq<Vertex>)
    requires Accounts(e, copy, Closed([t], path, 0), Open([t], 0))
    ensures Accounts(e, copy, Closed([], path + [t], 0), Open([], 0))
  {
    ReverseSnoc(path, t);
    assert Closed([t], path, 0) == [t] + Reverse(path) == Closed([], path + [t], 0);
    assert StepCount(Open([t], 0), "", "") == 0;
  }

  lemma PopParity(copy: Edges, t: Vertex, t': Vertex)
    requires Parity(copy, t, t)
    ensures Parity(copy, t', t')
  {
    forall x ensures DegreeIn(copy, x) % 2 == (Ind(x, t') + Ind(x, t')) % 2 {
      assert DegreeIn(copy, x) % 2 == (Ind(x, t) + Ind(x, t)) % 2;
    }
  }

  lemma PopAccounts(e: Edges, copy: Edges, stack: seq<Vertex>, path: seq<Vertex>, j: int)
    requires |stack| >= 2 && 0 <= j < |stack| && stack[j] == stack[|stack| - 1]
    requires Accounts(e, copy, Closed(stack, path, j), Open(stack, j))
    ensures Accounts(e, copy, Closed(stack[..|stack| - 1], path + [stack[|stack| - 1]], |stack| - 2),
                     Open(stack[..|stack| - 1], |stack| - 2))
  {
    var n := |stack|;
    var t := stack[n - 1];
    var s' := stack[..n - 1];
    var p' := path + [t];
    ReverseSnoc(path, t);
    assert Open(s', n - 2) == [stack[n - 2]];
    assert s'[..n - 1] + [t] == stack;
    var r := Reverse(path);
    assert Closed(s', p', n - 2) == stack + r;
    assert Closed(stack, path, j) == stack[..j + 1] + r;
    assert Open(stack, j) == stack[j..];
    forall x, y ensures Count(e, x, y) == Count(copy, x, y) + StepCount(stack + r, x, y)
                                          + StepCount([stack[n - 2]], x, y)
    {
      assert Count(e, x, y) == Count(copy, x, y) + StepCount(stack[..j + 1] + r, x, y) + StepCount(stack[j..], x, y);
      Rejoin(stack, r, j, x, y);
    }
  }

  /** A sub-tour from the anchor back to the same vertex, spliced into the closed walk. */
  lemma Rejoin(stack: seq<Vertex>, r: seq<Vertex>, j: int, x: Vertex, y: Vertex)
    requires 0 <= j < |stack| && stack[j] == stack[|stack| - 1]
    ensures StepCount(stack + r, x, y) == StepCount(stack[..j + 1] + r, x, y) + StepCount(stack[j..], x, y)
  {
    StepCountSplit(stack, j, x, y);
    if r != [] {
      StepCountConcat(stack, r, x, y);
      StepCountConcat(stack[..j + 1], r, x, y);
      assert stack[..j + 1][j] == stack[j];
    } else {
      assert stack + r == stack;
      assert stack[..j + 1] + r == stack[..j + 1];
    }
  }

  /** When the stack is empty, the reversed output is the answer. */
  lemma Finish(e: Edges, start: Vertex, copy: Edges, path: seq<Vertex>)
    requires WellFormed(e)
    requires Inv(e, start, copy, [], path, 0)
    ensures |Reverse(path)| >= 1 && Reverse(path)[0] == start
    ensures 2 * (|Reverse(path)| - 1) <= TotalDegree(e)
    ensures Row(e, start) == map[] ==> Reverse(path) == [start]
    ensures AllEven(e) ==> IsWalk(e, Reverse(path)) && Reverse(path)[|path| - 1] == start
    ensures AllEven(e) ==> forall x, y :: StepCount(Reverse(path), x, y) <= Count(e, x, y)
    ensures AllEven(e) && ReachesAllEdges(e, start) ==> EulerianCircuit(e, start, Reverse(path))
  {
    var c := Reverse(path);
    if AllEven(e) {
      assert Closed([], path, 0) == c && Open([], 0) == [];
      assert forall x, y :: Count(e, x, y) == Count(copy, x, y) + StepCount(c, x, y);
      StepsWithinEdges(e, c);
      if ReachesAllEdges(e, start) {
        ReverseMembers(path);
        Exhausted(e, copy, c, start);
      }
    }
  }

  /**
   * Once every vertex of a closed walk through `start` has no unused edge left,
   * no edge that `start` can reach is left unused.
   */
  lemma Exhausted(e: Edges, copy: Edges, c: seq<Vertex>, start: Vertex)
    requires WellFormed(e) && WellFormed(copy) && start in c
    requires forall x :: x in c ==> Row(copy, x) == map[]
    requires forall x, y :: Count(e, x, y) == Count(copy, x, y) + StepCount(c, x, y)
    requires ReachesAllEdges(e, start)
    ensures forall x, y :: Count(copy, x, y) == 0
  {
    var inC := set z | z in c;
    forall a, b | a in inC && b in Row(e, a) ensures b in inC {
      assert Count(copy, a, b) == 0;
      StepCountMember(c, a, b);
    }
    forall x, y ensures Count(copy, x, y) == 0 {
      if Count(copy, x, y) > 0 {
        CountBelowDegree(e, x, y);
        ClosedContainsReachable(e, inC, start, x);
      }
    }
  }
}
