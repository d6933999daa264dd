/**
 * `get_all_pairings` and `find_min_weight_matching`: a brute-force minimum
 * weight perfect matching of the odd-degree vertices.
 *
 * The generator `get_all_pairings` becomes the function `Pairings`, whose
 * value is the sequence of pairings in the order the generator yields them.
 */
module Matching {
  import opened Base
  import opened ShortestPaths

  type Pair = (Vertex, Vertex)
  type Pairing = seq<Pair>

  // ----- get_all_pairings -----

  /** `list(get_all_pairings(nodes))`. */
  function Pairings(nodes: seq<Vertex>): seq<Pairing>
    decreases |nodes|, 1, 0
  {
    if nodes == [] then [[]] else PairingsFrom(nodes[0], nodes[1..], 0)
  }

  /** The pairings yielded by the iterations `i, i + 1, ...` of the loop that pairs `first` with `rest[i]`. */
  function PairingsFrom(first: Vertex, rest: seq<Vertex>, i: nat): seq<Pairing>
    requires i <= |rest|
    decreases |rest| + 1, 0, |rest| - i
  {
    if i == |rest| then []
    else Prefix((first, rest[i]), Pairings(rest[..i] + rest[i + 1..])) + PairingsFrom(first, rest, i + 1)
  }

  /** `[p] + sub_pairing` for each sub-pairing, in order. */
  function Prefix(p: Pair, ps: seq<Pairing>): (r: seq<Pairing>)
    ensures |r| == |ps| && forall j :: 0 <= j < |ps| ==> r[j] == [p] + ps[j]
  {
    seq(|ps|, j requires 0 <= j < |ps| => [p] + ps[j])
  }

  /** The vertices a pairing covers, pair by pair. */
  function Flat(q: Pairing): (r: seq<Vertex>)
    ensures |r| == 2 * |q|
  {
    if q == [] then [] else [q[0].0, q[0].1] + Flat(q[1..])
  }

  /** Each node is covered exactly once: the pairing is a perfect matching of the nodes. */
  ghost predicate PerfectPairing(nodes: seq<Vertex>, q: Pairing)
  {
    multiset(Flat(q)) == multiset(nodes)
  }

  /** No vertex is listed twice. */
  ghost predicate Distinct(s: seq<Vertex>)
  {
    forall i, j :: 0 <= i < j < |s| ==> s[i] != s[j]
  }

  /** The number of perfect pairings of n items: (n - 1)!! when n is even, none when n is odd. */
  function PairingCount(n: nat): nat
  {
    if n == 0 then 1 else if n == 1 then 0 else (n - 1) * PairingCount(n - 2)
  }

  lemma PairingsOfNone()
    ensures Pairings([]) == [[]]
  {
  }

  lemma FlatCons(p: Pair, q: Pairing)
    ensures Flat([p] + q) == [p.0, p.1] + Flat(q)
  {
    assert ([p] + q)[1..] == q;
  }

  /** Every pairing yielded covers the nodes exactly: each node once, nothing else. */
  lemma {:induction false} PairingsPerfect(nodes: seq<Vertex>)
    ensures forall q :: q in Pairings(nodes) ==> PerfectPairing(nodes, q)
    decreases |nodes|, 1, 0
  {
    if nodes != [] {
      PairingsFromPerfect(nodes[0], nodes[1..], 0);
      assert nodes == [nodes[0]] + nodes[1..];
    }
  }

  lemma {:induction false} PairingsFromPerfect(first: Vertex, rest: seq<Vertex>, i: nat)
    requires i <= |rest|
    ensures forall q :: q in PairingsFrom(first, rest, i) ==> multiset(Flat(q)) == multiset([first] + rest)
    decreases |rest| + 1, 0, |rest| - i
  {
    if i < |rest| {
      var remaining := rest[..i] + rest[i + 1..];
      var ps := Pairings(remaining);
      PairingsPerfect(remaining);
      PairingsFromPerfect(first, rest, i + 1);
      PrefixPerfect(first, rest, i, ps);
    }
  }

  /** Putting `(first, rest[i])` in front of a pairing of the others covers `[first] + rest`. */
  lemma PrefixPerfect(first: Vertex, rest: seq<Vertex>, i: nat, ps: seq<Pairing>)
    requires i < |rest|
    requires forall q :: q in ps ==> multiset(Flat(q)) == multiset(rest[..i] + rest[i + 1..])
    ensures forall q :: q in Prefix((first, rest[i]), ps) ==> multiset(Flat(q)) == multiset([first] + rest)
  {
    forall q | q in Prefix((first, rest[i]), ps)
      ensures multiset(Flat(q)) == multiset([first] + rest)
    {
      var j :| 0 <= j < |ps| && q == [(first, rest[i])] + ps[j];
      assert ps[j] in ps;
      ConsPerfect(first, rest, i, ps[j]);
    }
  }

  lemma ConsPerfect(first: Vertex, rest: seq<Vertex>, i: nat, sub: Pairing)
    requires i < |rest|
    requires multiset(Flat(sub)) == multiset(rest[..i] + rest[i + 1..])
    ensures multiset(Flat([(first, rest[i])] + sub)) == multiset([first] + rest)
  {
    var left, x, right := rest[..i], rest[i], rest[i + 1..];
    var f := Flat(sub);
    FlatCons((first, x), sub);
    assert rest == left + [x] + right;
    assert multiset(rest) == multiset(left) + multiset{x} + multiset(right);
    assert multiset(left + right) == multiset(left) + multiset(right);
    assert [first, x] + f == [first] + [x] + f;
    assert multiset([first, x] + f) == multiset{first} + multiset{x} + multiset(f);
  }

  /** There are (n - 1)!! pairings of n nodes, and none when n is odd. */
  lemma {:induction false} PairingsCount(nodes: seq<Vertex>)
    ensures |Pairings(nodes)| == PairingCount(|nodes|)
    decreases |nodes|, 1, 0
  {
    if nodes != [] {
      if |nodes| == 1 {
        assert Pairings(nodes) == PairingsFrom(nodes[0], [], 0) == [];
      } else {
        PairingsFromCount(nodes[0], nodes[1..], 0);
      }
    }
  }

  lemma {:induction false} PairingsFromCount(first: Vertex, rest: seq<Vertex>, i: nat)
    requires 1 <= |rest| && i <= |rest|
    ensures |PairingsFrom(first, rest, i)| == (|rest| - i) * PairingCount(|rest| - 1)
    decreases |rest| + 1, 0, |rest| - i
  {
    if i < |rest| {
      PairingsCount(rest[..i] + rest[i + 1..]);
      PairingsFromCount(first, rest, i + 1);
      assert |PairingsFrom(first, rest, i)|
          == PairingCount(|rest| - 1) + (|rest| - (i + 1)) * PairingCount(|rest| - 1);
    }
  }

  /** a comes before b in the list. */
  ghost predicate InOrder(nodes: seq<Vertex>, a: Vertex, b: Vertex)
  {
    exists i, j :: 0 <= i < j < |nodes| && nodes[i] == a && nodes[j] == b
  }

  /** Every pair yielded keeps the order of the list: its first vertex comes earlier. */
  lemma {:induction false} PairingsInOrder(nodes: seq<Vertex>)
    ensures forall q: Pairing, k: int :: q in Pairings(nodes) && 0 <= k < |q| ==> InOrder(nodes, q[k].0, q[k].1)
    decreases |nodes|, 1, 0
  {
    if nodes != [] {
      PairingsFromInOrder(nodes[0], nodes[1..], 0);
      assert nodes == [nodes[0]] + nodes[1..];
    }
  }

  lemma {:induction false} PairingsFromInOrder(first: Vertex, rest: seq<Vertex>, i: nat)
    requires i <= |rest|
    ensures forall q: Pairing, k: int :: q in PairingsFrom(first, rest, i) && 0 <= k < |q| ==> InOrder([first] + rest, q[k].0, q[k].1)
    decreases |rest| + 1, 0, |rest| - i
  {
    if i < |rest| {
      var remaining := rest[..i] + rest[i + 1..];
      var ps := Pairings(remaining);
      var nodes := [first] + rest;
      PairingsInOrder(remaining);
      PairingsFromInOrder(first, rest, i + 1);
      forall q: Pairing, k: int | q in Prefix((first, rest[i]), ps) && 0 <= k < |q|
        ensures InOrder(nodes, q[k].0, q[k].1)
      {
        var j :| 0 <= j < |ps| && q == [(first, rest[i])] + ps[j];
        if k == 0 {
          assert nodes[0] == first && nodes[i + 1] == rest[i];
        } else {
          assert ps[j] in ps && q[k] == ps[j][k - 1];
          SubOrder(first, rest, i, q[k].0, q[k].1);
        }
      }
    }
  }

  /** Leaving out one element keeps the relative order of the others. */
  lemma SubOrder(first: Vertex, rest: seq<Vertex>, i: nat, a: Vertex, b: Vertex)
    requires i < |rest| && InOrder(rest[..i] + rest[i + 1..], a, b)
    ensures InOrder([first] + rest, a, b)
  {
    var remaining := rest[..i] + rest[i + 1..];
    var x, y :| 0 <= x < y < |remaining| && remaining[x] == a && remaining[y] == b;
    var x' := if x < i then x else x + 1;
    var y' := if y < i then y else y + 1;
    assert rest[x'] == a && rest[y'] == b;
    var nodes := [first] + rest;
    assert nodes[x' + 1] == a && nodes[y' + 1] == b;
  }

  lemma PrefixOne(p: Pair, q: Pairing)
    ensures Prefix(p, [q]) == [[p] + q]
  {
    var r := Prefix(p, [q]);
    assert |r| == 1 && r[0] == [p] + q;
  }

  /** Two nodes have a single pairing. */
  lemma PairingsOfTwo(a: Vertex, b: Vertex)
    ensures Pairings([a, b]) == [[(a, b)]]
  {
    var rest := [b];
    assert [a, b][1..] == rest;
    assert rest[..0] + rest[1..] == [];
    PrefixOne((a, b), []);
    assert [(a, b)] + [] == [(a, b)];
    calc {
      Pairings([a, b]);
      PairingsFrom(a, rest, 0);
      Prefix((a, b), Pairings([])) + PairingsFrom(a, rest, 1);
      [[(a, b)]] + [];
    }
  }

  /** The example of the generator's documentation. */
  lemma PairingsOfFour()
    ensures Pairings(["1", "2", "3", "4"])
         == [[("1", "2"), ("3", "4")], [("1", "3"), ("2", "4")], [("1", "4"), ("2", "3")]]
  {
    var rest := ["2", "3", "4"];
    assert ["1", "2", "3", "4"][1..] == rest;
    assert rest[..2] + rest[3..] == ["2", "3"];
    PairingsOfTwo("2", "3");
    PairingsFromOne("1", rest, 2, [("2", "3")]);
    assert PairingsFrom("1", rest, 3) == [];
    assert [("1", "4")] + [("2", "3")] == [("1", "4"), ("2", "3")];
    var third := [[("1", "4"), ("2", "3")]];
    assert PairingsFrom("1", rest, 2) == third;
    assert rest[..1] + rest[2..] == ["2", "4"];
    PairingsOfTwo("2", "4");
    PairingsFromOne("1", rest, 1, [("2", "4")]);
    assert [("1", "3")] + [("2", "4")] == [("1", "3"), ("2", "4")];
    var second := [[("1", "3"), ("2", "4")]] + third;
    assert PairingsFrom("1", rest, 1) == second;
    assert rest[..0] + rest[1..] == ["3", "4"];
    PairingsOfTwo("3", "4");
    PairingsFromOne("1", rest, 0, [("3", "4")]);
    assert [("1", "2")] + [("3", "4")] == [("1", "2"), ("3", "4")];
    assert PairingsFrom("1", rest, 0) == [[("1", "2"), ("3", "4")]] + second;
  }

  /** An iteration of the pairing loop whose remaining vertices have a single pairing yields exactly one pairing. */
  lemma PairingsFromOne(first: Vertex, rest: seq<Vertex>, i: nat, sub: Pairing)
    requires i < |rest| && Pairings(rest[..i] + rest[i + 1..]) == [sub]
    ensures PairingsFrom(first, rest, i) == [[(first, rest[i])] + sub] + PairingsFrom(first, rest, i + 1)
  {
    PrefixOne((first, rest[i]), sub);
  }

  // ----- every perfect pairing is yielded -----

  /** The two vertices of a pair, without their order. */
  function PairSet(p: Pair): set<Vertex>
  {
    {p.0, p.1}
  }

  /** The pairs of a pairing as unordered pairs, without their order in the list. */
  function Unordered(q: Pairing): (m: multiset<set<Vertex>>)
    ensures |m| == |q|
  {
    if q == [] then multiset{} else multiset{PairSet(q[0])} + Unordered(q[1..])
  }

  lemma {:induction false} UnorderedConcat(a: Pairing, b: Pairing)
    ensures Unordered(a + b) == Unordered(a) + Unordered(b)
    decreases |a|
  {
    if a == [] {
      assert a + b == b;
    } else {
      assert (a + b)[1..] == a[1..] + b;
      UnorderedConcat(a[1..], b);
    }
  }

  lemma UnorderedCons(p: Pair, q: Pairing)
    ensures Unordered([p] + q) == multiset{PairSet(p)} + Unordered(q)
  {
    assert ([p] + q)[1..] == q;
  }

  /** Taking pair k out of a pairing takes its unordered pair out of `Unordered`. */
  lemma UnorderedRemove(q: Pairing, k: nat)
    requires k < |q|
    ensures Unordered(q) == Unordered(q[..k] + q[k + 1..]) + multiset{PairSet(q[k])}
  {
    UnorderedSplit(q, k);
    UnorderedConcat(q[..k], q[k + 1..]);
    var ua, ub, mx := Unordered(q[..k]), Unordered(q[k + 1..]), multiset{PairSet(q[k])};
    assert ua + (mx + ub) == (ua + ub) + mx;
  }

  lemma UnorderedSplit(q: Pairing, k: nat)
    requires k < |q|
    ensures Unordered(q) == Unordered(q[..k]) + (multiset{PairSet(q[k])} + Unordered(q[k + 1..]))
  {
    var a, x, b := q[..k], q[k], q[k + 1..];
    SplitAround(q, k);
    UnorderedConcat(a, [x] + b);
    UnorderedCons(x, b);
  }

  lemma SplitAround(q: Pairing, k: nat)
    requires k < |q|
    ensures q == q[..k] + ([q[k]] + q[k + 1..])
  {
  }

  lemma {:induction false} UnorderedHas(q: Pairing, s: set<Vertex>) returns (k: nat)
    requires s in Unordered(q)
    ensures k < |q| && PairSet(q[k]) == s
    decreases |q|
  {
    if PairSet(q[0]) == s {
      k := 0;
    } else {
      k := UnorderedHas(q[1..], s);
      assert q[k + 1] == q[1..][k];
      k := k + 1;
    }
  }

  lemma {:induction false} FlatConcat(a: Pairing, b: Pairing)
    ensures Flat(a + b) == Flat(a) + Flat(b)
    decreases |a|
  {
    if a == [] {
      assert a + b == b;
    } else {
      assert (a + b)[1..] == a[1..] + b;
      FlatConcat(a[1..], b);
    }
  }

  /** Taking pair k out of a pairing takes its two vertices out of the covered nodes. */
  lemma FlatRemove(q: Pairing, k: nat)
    requires k < |q|
    ensures multiset(Flat(q)) == multiset{q[k].0, q[k].1} + multiset(Flat(q[..k] + q[k + 1..]))
  {
    FlatSplit(q, k);
    MultisetMiddle(Flat(q[..k]), q[k].0, q[k].1, Flat(q[k + 1..]));
  }

  lemma FlatSplit(q: Pairing, k: nat)
    requires k < |q|
    ensures Flat(q) == Flat(q[..k]) + ([q[k].0, q[k].1] + Flat(q[k + 1..]))
    ensures Flat(q[..k] + q[k + 1..]) == Flat(q[..k]) + Flat(q[k + 1..])
  {
    var a, x, b := q[..k], q[k], q[k + 1..];
    assert q == a + ([x] + b);
    FlatConcat(a, [x] + b);
    FlatCons(x, b);
    FlatConcat(a, b);
  }

  lemma MultisetMiddle(a: seq<Vertex>, x: Vertex, y: Vertex, b: seq<Vertex>)
    ensures multiset(a + ([x, y] + b)) == multiset{x, y} + multiset(a + b)
  {
    assert multiset([x, y]) == multiset{x, y};
  }

  lemma {:induction false} FlatMember(q: Pairing, x: Vertex) returns (k: nat)
    requires x in multiset(Flat(q))
    ensures k < |q| && (q[k].0 == x || q[k].1 == x)
    decreases |q|
  {
    if q[0].0 == x || q[0].1 == x {
      k := 0;
    } else {
      assert Flat(q) == [q[0].0, q[0].1] + Flat(q[1..]);
      k := FlatMember(q[1..], x);
      assert q[k + 1] == q[1..][k];
      k := k + 1;
    }
  }

  /** A sequence has no repeated element exactly when each element occurs in it at most once. */
  lemma {:induction false} DistinctOnce(s: seq<Vertex>)
    ensures Distinct(s) <==> forall x :: multiset(s)[x] <= 1
    decreases |s|
  {
    if s != [] {
      var t := s[1..];
      assert s == [s[0]] + t;
      assert multiset(s) == multiset{s[0]} + multiset(t);
      DistinctOnce(t);
      if Distinct(s) {
        forall i, j | 0 <= i < j < |t| ensures t[i] != t[j] {
          assert t[i] == s[i + 1] && t[j] == s[j + 1];
        }
        forall j | 0 <= j < |t| ensures t[j] != s[0] {
          assert t[j] == s[j + 1];
        }
        assert multiset(t)[s[0]] == 0;
      } else {
        var i, j :| 0 <= i < j < |s| && s[i] == s[j];
        if i == 0 {
          assert t[j - 1] == s[0];
          assert multiset(s)[s[0]] >= 2;
        } else {
          assert t[i - 1] == t[j - 1];
          assert !Distinct(t);
          var x :| multiset(t)[x] > 1;
          assert multiset(s)[x] > 1;
        }
      }
    }
  }

  lemma DistinctDrop(s: seq<Vertex>, i: nat)
    requires Distinct(s) && i < |s|
    ensures Distinct(s[..i] + s[i + 1..])
  {
    var r := s[..i] + s[i + 1..];
    forall a, b | 0 <= a < b < |r| ensures r[a] != r[b] {
      var a' := if a < i then a else a + 1;
      var b' := if b < i then b else b + 1;
      assert r[a] == s[a'] && r[b] == s[b'];
    }
  }

  /** The pairings yielded from iteration j of the loop on include those of every later iteration. */
  lemma {:induction false} PairingsFromHas(first: Vertex, rest: seq<Vertex>, j: nat, i: nat, r: Pairing)
    requires j <= i < |rest|
    requires r in Prefix((first, rest[i]), Pairings(rest[..i] + rest[i + 1..]))
    ensures r in PairingsFrom(first, rest, j)
    decreases i - j
  {
    if j < i {
      PairingsFromHas(first, rest, j + 1, i, r);
    }
  }

  /**
   * The generator misses no perfect pairing: every way of pairing up distinct nodes is
   * yielded, up to the order of the pairs and the order within each pair.
   */
  lemma {:induction false} PairingsComplete(nodes: seq<Vertex>, q: Pairing)
    requires Distinct(nodes) && PerfectPairing(nodes, q)
    ensures exists r :: r in Pairings(nodes) && Unordered(r) == Unordered(q)
    decreases |nodes|
  {
    if nodes == [] {
      assert |Flat(q)| == |multiset(Flat(q))| == 0;
      assert q == [] && Pairings(nodes)[0] == [];
    } else {
      var k, i := PartnerOfFirst(nodes, q);
      var rest := nodes[1..];
      var remaining := rest[..i] + rest[i + 1..];
      var q' := q[..k] + q[k + 1..];
      PairingsComplete(remaining, q');
      var r' :| r' in Pairings(remaining) && Unordered(r') == Unordered(q');
      var r := PairingsHasCons(nodes, i, r');
      UnorderedRemove(q, k);
    }
  }

  /**
   * In a perfect pairing of distinct nodes, the first node is paired, in some pair k, with
   * some later node `nodes[i + 1]`, and the other pairs are a perfect pairing of the rest.
   */
  lemma PartnerOfFirst(nodes: seq<Vertex>, q: Pairing) returns (k: nat, i: nat)
    requires nodes != [] && Distinct(nodes) && PerfectPairing(nodes, q)
    ensures k < |q| && i < |nodes| - 1
    ensures PairSet(q[k]) == {nodes[0], nodes[i + 1]}
    ensures Distinct(nodes[1..][..i] + nodes[1..][i + 1..])
    ensures PerfectPairing(nodes[1..][..i] + nodes[1..][i + 1..], q[..k] + q[k + 1..])
  {
    var other;
    k, other := FirstPaired(nodes, q);
    i := PartnerLater(nodes, other);
    RestPerfect(nodes, multiset{nodes[0], other}, nodes[1..][..i] + nodes[1..][i + 1..], q[..k] + q[k + 1..]);
  }

  /** Two ways of splitting the same nodes off the same pair leave the same rest. */
  lemma RestPerfect(nodes: seq<Vertex>, m: multiset<Vertex>, rest: seq<Vertex>, q: Pairing)
    requires multiset(nodes) == m + multiset(Flat(q))
    requires multiset(nodes) == m + multiset(rest)
    ensures PerfectPairing(rest, q)
  {
    forall x ensures multiset(Flat(q))[x] == multiset(rest)[x] {
      assert multiset(nodes)[x] == m[x] + multiset(Flat(q))[x] == m[x] + multiset(rest)[x];
    }
  }

  /** The first node sits in some pair k, beside some `other`; the remaining pairs cover the rest. */
  lemma FirstPaired(nodes: seq<Vertex>, q: Pairing) returns (k: nat, other: Vertex)
    requires nodes != [] && PerfectPairing(nodes, q)
    ensures k < |q| && PairSet(q[k]) == {nodes[0], other}
    ensures multiset(nodes) == multiset{nodes[0], other} + multiset(Flat(q[..k] + q[k + 1..]))
  {
    assert nodes[0] in multiset(nodes);
    k := FlatMember(q, nodes[0]);
    other := CoverRest(nodes, q, k);
  }

  lemma CoverRest(nodes: seq<Vertex>, q: Pairing, k: nat) returns (other: Vertex)
    requires nodes != [] && PerfectPairing(nodes, q)
    requires k < |q| && (q[k].0 == nodes[0] || q[k].1 == nodes[0])
    ensures PairSet(q[k]) == {nodes[0], other}
    ensures multiset(nodes) == multiset{nodes[0], other} + multiset(Flat(q[..k] + q[k + 1..]))
  {
    other := if q[k].0 == nodes[0] then q[k].1 else q[k].0;
    PairOf(q[k], nodes[0], other);
    CoverRestOf(nodes, q, k, other);
  }

  lemma PairOf(p: Pair, x: Vertex, y: Vertex)
    requires (p.0 == x && p.1 == y) || (p.0 == y && p.1 == x)
    ensures PairSet(p) == {x, y} && multiset{p.0, p.1} == multiset{x, y}
  {
  }

  lemma CoverRestOf(nodes: seq<Vertex>, q: Pairing, k: nat, other: Vertex)
    requires nodes != [] && PerfectPairing(nodes, q)
    requires k < |q| && multiset{q[k].0, q[k].1} == multiset{nodes[0], other}
    ensures multiset(nodes) == multiset{nodes[0], other} + multiset(Flat(q[..k] + q[k + 1..]))
  {
    FlatRemove(q, k);
  }

  /** Among distinct nodes, a partner of the first node is a later one, and the others stay distinct. */
  lemma PartnerLater(nodes: seq<Vertex>, other: Vertex) returns (i: nat)
    requires nodes != [] && Distinct(nodes) && multiset{nodes[0], other} <= multiset(nodes)
    ensures i < |nodes| - 1 && nodes[i + 1] == other
    ensures multiset(nodes) == multiset{nodes[0], other} + multiset(nodes[1..][..i] + nodes[1..][i + 1..])
    ensures Distinct(nodes[1..][..i] + nodes[1..][i + 1..])
  {
    var first, rest := nodes[0], nodes[1..];
    MultisetCons(nodes);
    DistinctOnce(nodes);
    assert other != first by {
      assert multiset(nodes)[first] <= 1;
    }
    assert other in multiset(rest);
    i := IndexOf(rest, other);
    DropOne(rest, i);
    DistinctTail(nodes);
    DistinctDrop(rest, i);
  }

  lemma MultisetCons(s: seq<Vertex>)
    requires s != []
    ensures multiset(s) == multiset{s[0]} + multiset(s[1..])
  {
    assert s == [s[0]] + s[1..];
  }

  lemma DistinctTail(s: seq<Vertex>)
    requires s != [] && Distinct(s)
    ensures Distinct(s[1..])
  {
    var t := s[1..];
    forall a, b | 0 <= a < b < |t| ensures t[a] != t[b] {
      assert t[a] == s[a + 1] && t[b] == s[b + 1];
    }
  }

  lemma {:induction false} IndexOf(s: seq<Vertex>, x: Vertex) returns (i: nat)
    requires x in s
    ensures i < |s| && s[i] == x
    decreases |s|
  {
    if s[0] == x {
      i := 0;
    } else {
      assert x in s[1..];
      i := IndexOf(s[1..], x);
      i := i + 1;
    }
  }

  lemma DropOne(s: seq<Vertex>, i: nat)
    requires i < |s|
    ensures multiset(s) == multiset{s[i]} + multiset(s[..i] + s[i + 1..])
  {
    assert s == s[..i] + [s[i]] + s[i + 1..];
  }

  /** Pairing the first node with `nodes[i + 1]` in front of any pairing of the rest is yielded. */
  lemma PairingsHasCons(nodes: seq<Vertex>, i: nat, r': Pairing) returns (r: Pairing)
    requires i < |nodes| - 1
    requires r' in Pairings(nodes[1..][..i] + nodes[1..][i + 1..])
    ensures r in Pairings(nodes)
    ensures Unordered(r) == multiset{{nodes[0], nodes[i + 1]}} + Unordered(r')
  {
    var first, rest := nodes[0], nodes[1..];
    var ps := Pairings(rest[..i] + rest[i + 1..]);
    r := [(first, rest[i])] + r';
    var j :| 0 <= j < |ps| && ps[j] == r';
    assert Prefix((first, rest[i]), ps)[j] == r;
    PairingsFromHas(first, rest, 0, i, r);
    UnorderedCons((first, rest[i]), r');
  }

  // ----- find_min_weight_matching -----

  /** `costs[u][v]` is there for every pair of the pairing. */
  ghost predicate Priced(costs: map<Vertex, Dists>, q: Pairing)
  {
    forall k :: 0 <= k < |q| ==> q[k].0 in costs && q[k].1 in costs[q[k].0]
  }

  /** `costs[u][v]` is there for every u listed before v. */
  ghost predicate CostsKnown(odd: seq<Vertex>, costs: map<Vertex, Dists>)
  {
    forall i, j :: 0 <= i < j < |odd| ==> odd[i] in costs && odd[j] in costs[odd[i]]
  }

  /** `sum(costs[u][v] for u, v in pairing)`, added up from the left. */
  function Cost(costs: map<Vertex, Dists>, q: Pairing): Dist
    requires Priced(costs, q)
  {
    if q == [] then Fin(0)
    else Plus(Cost(costs, q[..|q| - 1]), costs[q[|q| - 1].0][q[|q| - 1].1])
  }

  /** A pairing costs a finite amount exactly when each of its pairs does. */
  lemma {:induction false} CostFinite(costs: map<Vertex, Dists>, q: Pairing)
    requires Priced(costs, q)
    ensures Cost(costs, q).Fin? <==> forall k :: 0 <= k < |q| ==> costs[q[k].0][q[k].1].Fin?
    decreases |q|
  {
    if q != [] {
      var q' := q[..|q| - 1];
      assert Priced(costs, q') by {
        forall k | 0 <= k < |q'| ensures q'[k].0 in costs && q'[k].1 in costs[q'[k].0] {
          assert q'[k] == q[k];
        }
      }
      CostFinite(costs, q');
      forall k | 0 <= k < |q'| ensures q'[k] == q[k] {
      }
    }
  }

  /** Under the lookups the caller provides, every pairing yielded can be priced. */
  lemma AllPriced(odd: seq<Vertex>, costs: map<Vertex, Dists>)
    requires |odd| % 2 == 0 ==> CostsKnown(odd, costs)
    ensures forall q :: q in Pairings(odd) ==> Priced(costs, q)
  {
    PairingsCount(odd);
    if |odd| % 2 == 0 {
      PairingsInOrder(odd);
    } else {
      OddCountZero(|odd|);
    }
  }

  lemma {:induction false} OddCountZero(n: nat)
    requires n % 2 == 1
    ensures PairingCount(n) == 0
  {
    if n > 1 {
      OddCountZero(n - 2);
    }
  }

  lemma {:induction false} EvenCountPositive(n: nat)
    requires n % 2 == 0
    ensures PairingCount(n) > 0
  {
    if n > 0 {
      EvenCountPositive(n - 2);
    }
  }

  /** With an even number of vertices and every listed cost finite, some pairing costs a finite amount. */
  lemma SomeFinitePairing(odd: seq<Vertex>, costs: map<Vertex, Dists>)
    requires |odd| % 2 == 0 && CostsKnown(odd, costs)
    requires forall i, j :: 0 <= i < j < |odd| ==> odd[i] in costs && odd[j] in costs[odd[i]] && costs[odd[i]][odd[j]].Fin?
    ensures exists q :: q in Pairings(odd) && Priced(costs, q) && Cost(costs, q).Fin?
  {
    PairingsCount(odd);
    EvenCountPositive(|odd|);
    AllPriced(odd, costs);
    PairingsInOrder(odd);
    var q := Pairings(odd)[0];
    assert q in Pairings(odd);
    forall k | 0 <= k < |q| ensures costs[q[k].0][q[k].1].Fin? {
      assert InOrder(odd, q[k].0, q[k].1);
    }
    CostFinite(costs, q);
  }

  /** The inner loop of `find_min_weight_matching`: the cost of one pairing. */
  method PairingCost(q: Pairing, costs: map<Vertex, Dists>) returns (c: Dist)
    requires Priced(costs, q)
    ensures c == Cost(costs, q)
  {
    c := Fin(0);
    for k := 0 to |q|
      invariant Priced(costs, q[..k]) && c == Cost(costs, q[..k])
    {
      assert q[..k + 1][..k] == q[..k];
      c := Plus(c, costs[q[k].0][q[k].1]);
    }
    assert q[..|q|] == q;
  }

  /**
   * `best` is the first pairing, in the generator's order, whose cost is `m`,
   * and every pairing before it costs strictly more.
   */
  ghost predicate Earliest(all: seq<Pairing>, costs: map<Vertex, Dists>, best: Pairing, m: Dist, n: nat)
    requires n <= |all| && forall q :: q in all ==> Priced(costs, q)
  {
    exists j :: 0 <= j < n && all[j] == best && Cost(costs, all[j]) == m
      && forall i :: 0 <= i < j ==> Below(m, Cost(costs, all[i]))
  }

  /**
   * `find_min_weight_matching(odd_vertices, costs)`: no pairing yielded costs less than
   * `minCost`, nor, for distinct vertices and symmetric costs, any perfect pairing
   * at all; the first pairing found at that cost is `best`; `([], inf)` when
   * no pairing has a finite cost.
   */
  method FindMinWeightMatching(odd: seq<Vertex>, costs: map<Vertex, Dists>) returns (best: Pairing, minCost: Dist)
    requires |odd| % 2 == 0 ==> CostsKnown(odd, costs)
    ensures forall q :: q in Pairings(odd) ==> Priced(costs, q)
    ensures forall q :: q in Pairings(odd) ==> AtMost(minCost, Cost(costs, q))
    ensures Distinct(odd) && SymmetricOn(costs, odd) ==>
      forall q :: PerfectPairing(odd, q) ==> Priced(costs, q) && AtMost(minCost, Cost(costs, q))
    ensures minCost.Fin? ==> Earliest(Pairings(odd), costs, best, minCost, |Pairings(odd)|)
    ensures minCost.Inf? ==> best == []
  {
    var all := Pairings(odd);
    AllPriced(odd, costs);
    best, minCost := [], Inf;
    for k := 0 to |all|
      invariant forall i :: 0 <= i < k ==> AtMost(minCost, Cost(costs, all[i]))
      invariant minCost.Fin? ==> Earliest(all, costs, best, minCost, k)
      invariant minCost.Inf? ==> best == []
    {
      assert all[k] in all;
      var current := PairingCost(all[k], costs);
      if Below(current, minCost) {
        minCost := current;
        best := all[k];
      }
    }
    if Distinct(odd) && SymmetricOn(costs, odd) {
      MinimumOverAll(odd, costs, minCost);
    }
  }

  // ----- the order of the pairs and within a pair does not change the cost -----

  /** Every pair of `q` joins two of the nodes. */
  ghost predicate Within(q: Pairing, nodes: seq<Vertex>)
  {
    forall k :: 0 <= k < |q| ==> q[k].0 in nodes && q[k].1 in nodes
  }

  /** `costs[a][b]` is there for any two of the nodes, and the same both ways. */
  ghost predicate SymmetricOn(costs: map<Vertex, Dists>, nodes: seq<Vertex>)
  {
    forall a, b :: a in nodes && b in nodes ==>
      a in costs && b in costs && b in costs[a] && a in costs[b] && costs[a][b] == costs[b][a]
  }

  /** A perfect pairing only pairs up the nodes. */
  lemma PerfectWithin(nodes: seq<Vertex>, q: Pairing)
    requires PerfectPairing(nodes, q)
    ensures Within(q, nodes)
  {
    forall k | 0 <= k < |q| ensures q[k].0 in nodes && q[k].1 in nodes {
      FlatRemove(q, k);
      assert q[k].0 in multiset(nodes) && q[k].1 in multiset(nodes);
    }
  }

  /** Taking pair k out of a pairing takes its cost out of the total. */
  lemma {:induction false} CostRemove(costs: map<Vertex, Dists>, q: Pairing, k: nat)
    requires Priced(costs, q) && k < |q|
    ensures Priced(costs, q[..k] + q[k + 1..])
    ensures Cost(costs, q) == Plus(Cost(costs, q[..k] + q[k + 1..]), costs[q[k].0][q[k].1])
    decreases |q|
  {
    var d := q[..k] + q[k + 1..];
    assert Priced(costs, d) by {
      forall i | 0 <= i < |d| ensures d[i].0 in costs && d[i].1 in costs[d[i].0] {
        assert d[i] == q[if i < k then i else i + 1];
      }
    }
    var n := |q| - 1;
    if k == n {
      assert d == q[..n];
    } else {
      var q' := q[..n];
      assert Priced(costs, q') by {
        forall i | 0 <= i < |q'| ensures q'[i].0 in costs && q'[i].1 in costs[q'[i].0] {
          assert q'[i] == q[i];
        }
      }
      CostRemove(costs, q', k);
      var d' := q'[..k] + q'[k + 1..];
      assert d[..|d| - 1] == d' && d[|d| - 1] == q[n];
      assert q'[k] == q[k];
    }
  }

  /** Two pairs that join the same two nodes cost the same when costs are symmetric. */
  lemma SamePairCost(costs: map<Vertex, Dists>, nodes: seq<Vertex>, p: Pair, p': Pair)
    requires SymmetricOn(costs, nodes) && p.0 in nodes && p.1 in nodes
    requires PairSet(p) == PairSet(p')
    ensures p'.0 in costs && p'.1 in costs[p'.0] && costs[p.0][p.1] == costs[p'.0][p'.1]
  {
    assert p'.0 in PairSet(p) && p'.1 in PairSet(p);
    if p'.0 == p.0 {
      assert p.1 in PairSet(p');
    } else {
      assert p.0 in PairSet(p');
    }
  }

  /** Pairings with the same unordered pairs cost the same when costs are symmetric. */
  lemma {:induction false} CostUnordered(costs: map<Vertex, Dists>, nodes: seq<Vertex>, q: Pairing, r: Pairing)
    requires SymmetricOn(costs, nodes) && Within(q, nodes) && Within(r, nodes)
    requires Unordered(q) == Unordered(r)
    ensures Priced(costs, q) && Priced(costs, r) && Cost(costs, q) == Cost(costs, r)
    decreases |r|
  {
    if r == [] {
      assert q == [];
    } else {
      var n := |r| - 1;
      var k := MatchLast(q, r);
      var q', r' := q[..k] + q[k + 1..], r[..n] + r[n + 1..];
      WithinPriced(costs, nodes, q);
      WithinPriced(costs, nodes, r);
      WithinRemove(q, nodes, k);
      WithinRemove(r, nodes, n);
      CostUnordered(costs, nodes, q', r');
      CostRemove(costs, q, k);
      CostRemove(costs, r, n);
      SamePairCost(costs, nodes, q[k], r[n]);
    }
  }

  /** The last pair of r appears in q, and with it taken out of both the two still hold the same pairs. */
  lemma MatchLast(q: Pairing, r: Pairing) returns (k: nat)
    requires Unordered(q) == Unordered(r) && r != []
    ensures k < |q| && PairSet(q[k]) == PairSet(r[|r| - 1])
    ensures Unordered(q[..k] + q[k + 1..]) == Unordered(r[..|r| - 1] + r[|r|..])
  {
    var n := |r| - 1;
    UnorderedRemove(r, n);
    k := UnorderedHas(q, PairSet(r[n]));
    UnorderedRemove(q, k);
    Cancel(Unordered(q[..k] + q[k + 1..]), Unordered(r[..n] + r[n + 1..]), multiset{PairSet(r[n])});
  }

  lemma Cancel<T>(a: multiset<T>, b: multiset<T>, m: multiset<T>)
    requires a + m == b + m
    ensures a == b
  {
    assert a == (a + m) - m;
    assert b == (b + m) - m;
  }

  lemma WithinPriced(costs: map<Vertex, Dists>, nodes: seq<Vertex>, q: Pairing)
    requires SymmetricOn(costs, nodes) && Within(q, nodes)
    ensures Priced(costs, q)
  {
  }

  lemma WithinRemove(q: Pairing, nodes: seq<Vertex>, k: nat)
    requires Within(q, nodes) && k < |q|
    ensures Within(q[..k] + q[k + 1..], nodes)
  {
    var d := q[..k] + q[k + 1..];
    forall i | 0 <= i < |d| ensures d[i].0 in nodes && d[i].1 in nodes {
      assert d[i] == q[if i < k then i else i + 1];
    }
  }

  /**
   * A cost that no yielded pairing beats is beaten by no perfect pairing at all, when
   * the nodes are distinct and the costs symmetric.
   */
  lemma MinimumOverAll(nodes: seq<Vertex>, costs: map<Vertex, Dists>, m: Dist)
    requires Distinct(nodes) && SymmetricOn(costs, nodes)
    requires forall r :: r in Pairings(nodes) ==> Priced(costs, r) && AtMost(m, Cost(costs, r))
    ensures forall q :: PerfectPairing(nodes, q) ==> Priced(costs, q) && AtMost(m, Cost(costs, q))
  {
    PairingsPerfect(nodes);
    forall q | PerfectPairing(nodes, q) ensures Priced(costs, q) && AtMost(m, Cost(costs, q)) {
      PairingsComplete(nodes, q);
      var r :| r in Pairings(nodes) && Unordered(r) == Unordered(q);
      PerfectWithin(nodes, q);
      PerfectWithin(nodes, r);
      CostUnordered(costs, nodes, q, r);
    }
  }
}
