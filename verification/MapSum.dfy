/** Sums over the values of a finite map, independent of any iteration order. */
module MapSum {

  ghost function Sum<K>(m: map<K, int>): int {
    if m == map[] then 0
    else
      var k :| k in m;
      m[k] + Sum(m - {k})
  }

  /** Any key can be taken out first. */
  lemma {:induction false} SumTake<K>(m: map<K, int>, k: K)
    requires k in m
    ensures Sum(m) == m[k] + Sum(m - {k})
    decreases |m|
  {
    var p :| p in m && Sum(m) == m[p] + Sum(m - {p});
    if p != k {
      SumTake(m - {p}, k);
      SumTake(m - {k}, p);
      assert m - {p} - {k} == m - {k} - {p};
    }
  }

  /** Writing one key moves the sum by exactly the change at that key. */
  lemma SumUpdate<K>(m: map<K, int>, k: K, v: int)
    ensures Sum(m[k := v]) == Sum(m) + v - (if k in m then m[k] else 0)
  {
    SumTake(m[k := v], k);
    if k in m {
      SumTake(m, k);
      assert m[k := v] - {k} == m - {k};
    } else {
      assert m[k := v] - {k} == m;
    }
  }

  lemma {:induction false} SumNonNegative<K>(m: map<K, int>)
    requires forall k :: k in m ==> m[k] >= 0
    ensures Sum(m) >= 0
    ensures forall k :: k in m ==> m[k] <= Sum(m)
    decreases |m|
  {
    forall k | k in m
      ensures 0 <= m[k] <= Sum(m)
    {
      SumTake(m, k);
      SumNonNegative(m - {k});
    }
  }

  lemma {:induction false} SumMonotone<K>(a: map<K, int>, b: map<K, int>)
    requires a.Keys == b.Keys && forall k :: k in a ==> a[k] <= b[k]
    ensures Sum(a) <= Sum(b)
    decreases |a|
  {
    if a != map[] {
      var k :| k in a;
      SumTake(a, k);
      SumTake(b, k);
      SumMonotone(a - {k}, b - {k});
    } else {
      assert b == map[];
    }
  }

  /** Where no value of `a` is above `b`'s, the sums meet only if the maps do. */
  lemma SumsMeetIff<K>(a: map<K, int>, b: map<K, int>)
    requires a.Keys == b.Keys && forall k :: k in a ==> a[k] <= b[k]
    ensures Sum(a) <= Sum(b) && (Sum(a) == Sum(b) <==> a == b)
  {
    SumMonotone(a, b);
    if a != b {
      var k :| k in a && a[k] != b[k];
      SumTake(a, k);
      SumTake(b, k);
      SumMonotone(a - {k}, b - {k});
    }
  }

  lemma {:induction false} SumAdds<K>(a: map<K, int>, b: map<K, int>, c: map<K, int>)
    requires a.Keys == b.Keys == c.Keys && forall k :: k in a ==> c[k] == a[k] + b[k]
    ensures Sum(c) == Sum(a) + Sum(b)
    decreases |a|
  {
    if a != map[] {
      var k :| k in a;
      SumTake(a, k);
      SumTake(b, k);
      SumTake(c, k);
      SumAdds(a - {k}, b - {k}, c - {k});
    } else {
      assert b == map[] && c == map[];
    }
  }
}
