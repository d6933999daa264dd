/**
 * A `collections.Counter` of vertices is a map from vertex to count.
 * `SumValues` is `sum(counter.values())`; it visits the keys in a fixed
 * order so that it is a deterministic function, and the lemmas below show
 * that the order plays no role in the sum.
 */
module Counters {
  import opened Base
  import opened Order

  type Counter = map<Vertex, nat>

  /** `counter[k]`: a missing key counts as zero. */
  function Get(m: Counter, k: Vertex): nat
  {
    if k in m then m[k] else 0
  }

  function SumValues(m: Counter): nat
    decreases |m|
  {
    if m == map[] then 0
    else
      var k := Least(m.Keys);
      m[k] + SumValues(m - {k})
  }

  /** Any key can be taken out first: the sum does not depend on the order of the keys. */
  lemma {:induction false} SumValuesRemove(m: Counter, k: Vertex)
    requires k in m
    ensures SumValues(m) == m[k] + SumValues(m - {k})
    decreases |m|
  {
    var j := Least(m.Keys);
    if j != k {
      SumValuesRemove(m - {j}, k);
      SumValuesRemove(m - {k}, j);
      assert m - {j} - {k} == m - {k} - {j};
    }
  }

  /** Two counters that agree on every key (missing keys reading as zero) have the same sum. */
  lemma {:induction false} SumValuesGet(m: Counter, m': Counter)
    requires forall y :: Get(m, y) == Get(m', y)
    ensures SumValues(m) == SumValues(m')
    decreases |m| + |m'|
  {
    if k :| k in m && m[k] == 0 {
      SumValuesRemove(m, k);
      DropZero(m, m', k);
      SumValuesGet(m - {k}, m');
    } else if k :| k in m' && m'[k] == 0 {
      SumValuesRemove(m', k);
      DropZero(m', m, k);
      SumValuesGet(m, m' - {k});
    } else {
      PositiveEqual(m, m');
    }
  }

  lemma PositiveEqual(m: Counter, m': Counter)
    requires forall y :: y in m ==> m[y] > 0
    requires forall y :: y in m' ==> m'[y] > 0
    requires forall y :: Get(m, y) == Get(m', y)
    ensures m == m'
  {
    forall y | y in m ensures y in m' && m'[y] == m[y] { assert Get(m, y) == Get(m', y); }
    forall y | y in m' ensures y in m { assert Get(m, y) == Get(m', y); }
  }

  lemma DropZero(m: Counter, m': Counter, k: Vertex)
    requires k in m && m[k] == 0
    requires forall y :: Get(m, y) == Get(m', y)
    ensures forall y :: Get(m', y) == Get(m - {k}, y)
  {
    forall y ensures Get(m', y) == Get(m - {k}, y) {
      assert Get(m, y) == Get(m', y);
    }
  }

  /** Changing the count of one key changes the sum by the same amount. */
  lemma SumValuesChange(m: Counter, m': Counter, k: Vertex)
    requires forall y :: y != k ==> Get(m, y) == Get(m', y)
    ensures SumValues(m) + Get(m', k) == SumValues(m') + Get(m, k)
  {
    var a := m - {k};
    var b := m' - {k};
    forall y ensures Get(a, y) == Get(b, y) {
      if y != k { assert Get(m, y) == Get(m', y); }
    }
    SumValuesGet(a, b);
    if k in m { SumValuesRemove(m, k); } else { assert a == m; }
    if k in m' { SumValuesRemove(m', k); } else { assert b == m'; }
  }

  /** Each count is at most the sum; the sum is zero exactly when every count is. */
  lemma SumValuesBounds(m: Counter, k: Vertex)
    ensures Get(m, k) <= SumValues(m)
    ensures SumValues(m) == 0 ==> Get(m, k) == 0
  {
    if k in m { SumValuesRemove(m, k); }
  }

  lemma {:induction false} SumValuesPositive(m: Counter) returns (k: Vertex)
    requires SumValues(m) > 0
    ensures k in m && m[k] > 0
    decreases |m|
  {
    var j := Least(m.Keys);
    if m[j] > 0 {
      k := j;
    } else {
      k := SumValuesPositive(m - {j});
    }
  }

  lemma ParityStep(a: nat, b: nat, c: nat)
    requires b % 2 == c % 2
    ensures a % 2 == 1 ==> (a + b) % 2 == (c + 1) % 2
    ensures a % 2 == 0 ==> (a + b) % 2 == c % 2
  {
  }

  /** The keys whose count is odd. */
  function OddKeys(m: Counter): set<Vertex>
  {
    set k | k in m && m[k] % 2 == 1
  }

  /** A sum is even exactly when an even number of its terms are odd. */
  lemma {:induction false} SumValuesParity(m: Counter)
    ensures SumValues(m) % 2 == |OddKeys(m)| % 2
    decreases |m|
  {
    if m != map[] {
      var k := Least(m.Keys);
      var rest := m - {k};
      SumValuesParity(rest);
      OddKeysRemove(m, k);
      ParityStep(m[k], SumValues(rest), |OddKeys(rest)|);
    } else {
      assert OddKeys(m) == {};
    }
  }

  /** Taking out key k takes k out of the odd keys, and nothing else. */
  lemma OddKeysRemove(m: Counter, k: Vertex)
    requires k in m
    ensures m[k] % 2 == 1 ==> |OddKeys(m)| == |OddKeys(m - {k})| + 1
    ensures m[k] % 2 == 0 ==> |OddKeys(m)| == |OddKeys(m - {k})|
  {
    if m[k] % 2 == 1 {
      assert OddKeys(m) == OddKeys(m - {k}) + {k};
    } else {
      assert OddKeys(m) == OddKeys(m - {k});
    }
  }
}
