/** Sums over the entries of a finite map. */
module MapSum {

  ghost function Pick<K(!new)>(m: map<K, int>): (k: K)
    requires m.Keys != {}
    ensures k in m
  {
    var k :| k in m; k
  }

  ghost function Sum<K(!new)>(m: map<K, int>): int
    decreases m.Keys
  {
    if m.Keys == {} then 0 else
    var k := Pick(m);
    m[k] + Sum(m - {k})
  }

  /** Any entry can be taken out first. */
  lemma {:induction false} SumWithout<K(!new)>(m: map<K, int>, k: K)
    requires k in m
    ensures Sum(m) == m[k] + Sum(m - {k})
    decreases m.Keys
  {
    var j := Pick(m);
    if j != k {
      SumWithout(m - {j}, k);
      assert m - {k} - {j} == m - {j} - {k};
      SumWithout(m - {k}, j);
    }
  }

  lemma SumUpdate<K(!new)>(m: map<K, int>, k: K, v: int)
    ensures Sum(m[k := v]) == Sum(m) + v - (if k in m then m[k] else 0)
  {
    SumWithout(m[k := v], k);
    assert m[k := v] - {k} == m - {k};
    if k in m {
      SumWithout(m, k);
    } else {
      assert m - {k} == m;
    }
  }

  lemma {:induction false} SumNonNegative<K(!new)>(m: map<K, int>)
    requires forall k :: k in m ==> m[k] >= 0
    ensures Sum(m) >= 0
    decreases m.Keys
  {
    if m.Keys != {} { SumNonNegative(m - {Pick(m)}); }
  }

  lemma SumAtLeast<K(!new)>(m: map<K, int>, k: K)
    requires k in m && forall j :: j in m ==> m[j] >= 0
    ensures Sum(m) >= m[k]
  {
    SumWithout(m, k);
    SumNonNegative(m - {k});
  }

  lemma {:induction false} SumZero<K(!new)>(m: map<K, int>)
    requires forall k :: k in m ==> m[k] == 0
    ensures Sum(m) == 0
    decreases m.Keys
  {
    if m.Keys != {} { SumZero(m - {Pick(m)}); }
  }
}
