/** Sums over the values of a map, whatever order they are taken in. */
module MapSums {

  ghost function Total<K(!new)>(m: map<K, nat>): nat
    decreases m.Keys
  {
    if m == map[] then 0 else
      var k :| k in m;
      var rest := m - {k};
      assert rest.Keys == m.Keys - {k};
      m[k] + Total(rest)
  }

  lemma {:induction false} TotalRemove<K(!new)>(m: map<K, nat>, k: K)
    requires k in m
    ensures Total(m) == m[k] + Total(m - {k})
    decreases m.Keys
  {
    var first: K :| first in m && Total(m) == m[first] + Total(m - {first});
    var rest := m - {first};
    assert rest.Keys == m.Keys - {first};
    if first != k {
      TotalRemove(rest, k);
      var without := m - {k};
      assert without.Keys == m.Keys - {k};
      TotalRemove(without, first);
      assert rest - {k} == without - {first};
    }
  }

  lemma TotalEmpty<K(!new)>()
    ensures Total<K>(map[]) == 0
  {}

  lemma TotalUpdate<K(!new)>(m: map<K, nat>, k: K, v: nat)
    ensures Total(m[k := v]) == Total(m - {k}) + v
    ensures k in m ==> Total(m[k := v]) == Total(m) - m[k] + v
    ensures k !in m ==> Total(m[k := v]) == Total(m) + v
  {
    var updated := m[k := v];
    TotalRemove(updated, k);
    assert updated - {k} == m - {k};
    if k in m {
      TotalRemove(m, k);
    } else {
      assert m - {k} == m;
    }
  }

  lemma TotalAtLeast<K(!new)>(m: map<K, nat>, k: K)
    requires k in m
    ensures m[k] <= Total(m)
  {}

  /** A pointwise smaller map has a smaller total, and the difference is the total of the differences. */
  lemma {:induction false} TotalDifference<K(!new)>(small: map<K, nat>, large: map<K, nat>)
    requires small.Keys == large.Keys
    requires forall k :: k in small ==> small[k] <= large[k]
    ensures Total(small) <= Total(large)
    ensures forall k :: k in small ==> large[k] - small[k] <= Total(large) - Total(small)
    decreases small.Keys
  {
    if small.Keys != {} {
      var k :| k in small;
      TotalRemove(small, k);
      TotalRemove(large, k);
      assert (small - {k}).Keys == small.Keys - {k} && (large - {k}).Keys == large.Keys - {k};
      TotalDifference(small - {k}, large - {k});
      forall other | other in small
        ensures large[other] - small[other] <= Total(large) - Total(small)
      {
        if other != k {
          assert other in small - {k};
        }
      }
    }
  }

  /** The total of pointwise sums is the sum of the totals. */
  lemma {:induction false} TotalOfSums<K(!new)>(a: map<K, nat>, b: map<K, nat>, sums: map<K, nat>)
    requires a.Keys == sums.Keys && b.Keys == sums.Keys
    requires forall k :: k in sums ==> sums[k] == a[k] + b[k]
    ensures Total(sums) == Total(a) + Total(b)
    decreases sums.Keys
  {
    if sums.Keys != {} {
      var k :| k in sums;
      TotalRemove(a, k);
      TotalRemove(b, k);
      TotalRemove(sums, k);
      assert (sums - {k}).Keys == sums.Keys - {k};
      assert (a - {k}).Keys == sums.Keys - {k} && (b - {k}).Keys == sums.Keys - {k};
      TotalOfSums(a - {k}, b - {k}, sums - {k});
    }
  }
}
