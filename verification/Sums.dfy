/** Sums over finite maps. */
module Sums {

  ghost function Sum<K>(m: map<K, nat>): nat
    decreases |m|
  {
    if m == map[] then 0
    else
      var k :| k in m;
      assert |m - {k}| < |m| by { assert m == (m - {k})[k := m[k]]; }
      m[k] + Sum(m - {k})
  }

  /** Any key may be taken out first. */
  lemma {:induction false} SumWithout<K>(m: map<K, nat>, k: K)
    requires k in m
    ensures Sum(m) == m[k] + Sum(m - {k})
    decreases |m|
  {
    var j :| j in m && Sum(m) == m[j] + Sum(m - {j});
    if j != k {
      assert m == (m - {j})[j := m[j]];
      assert m == (m - {k})[k := m[k]];
      SumWithout(m - {j}, k);
      SumWithout(m - {k}, j);
      assert m - {j} - {k} == m - {k} - {j};
    }
  }

  lemma SumUpdate<K>(m: map<K, nat>, k: K, v: nat)
    ensures Sum(m[k := v]) == Sum(m) - (if k in m then m[k] else 0) + v
  {
    SumWithout(m[k := v], k);
    if k in m {
      SumWithout(m, k);
      assert m[k := v] - {k} == m - {k};
    } else {
      assert m[k := v] - {k} == m;
    }
  }

  lemma SumIsAtLeast<K>(m: map<K, nat>, k: K)
    requires k in m
    ensures m[k] <= Sum(m)
  {
    SumWithout(m, k);
  }

  /** A sum is that over some keys and that over the others. */
  lemma {:induction false} SumInTwo<K>(m: map<K, nat>, part: map<K, nat>)
    requires part.Keys <= m.Keys && forall k <- part :: part[k] == m[k]
    ensures Sum(m) == Sum(part) + Sum(m - part.Keys)
    decreases |part|
  {
    if part == map[] {
      assert m - part.Keys == m;
    } else {
      var k :| k in part;
      SumWithout(m, k);
      SumWithout(part, k);
      FewerKeys(part, k);
      SumInTwo(m - {k}, part - {k});
      RestOfRest(m, part, k);
    }
  }

  lemma RestOfRest<K>(m: map<K, nat>, part: map<K, nat>, k: K)
    requires k in part
    ensures m - {k} - (part - {k}).Keys == m - part.Keys
  {
    assert (part - {k}).Keys + {k} == part.Keys;
  }

  lemma FewerKeys<K>(m: map<K, nat>, k: K)
    requires k in m
    ensures |m - {k}| < |m|
  {
    assert m == (m - {k})[k := m[k]];
  }

  lemma {:induction false} SumIsZero<K>(m: map<K, nat>)
    ensures Sum(m) == 0 <==> forall k <- m :: m[k] == 0
    decreases |m|
  {
    if m != map[] {
      var k :| k in m;
      FewerKeys(m, k);
      SumWithout(m, k);
      SumIsZero(m - {k});
      forall j | j in m && j != k ensures j in m - {k} && m[j] == (m - {k})[j] {
      }
    }
  }
}
