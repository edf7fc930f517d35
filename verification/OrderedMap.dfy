/** Maps with integer keys, read in ascending key order. */
module OrderedMap {
  import opened Basics

  predicate IsLeast(keys: set<int>, k: int) {
    k in keys && forall j :: j in keys ==> k <= j
  }

  predicate IsGreatest(keys: set<int>, k: int) {
    k in keys && forall j :: j in keys ==> j <= k
  }

  lemma {:induction false} ExtremesExist(keys: set<int>) returns (least: int, greatest: int)
    requires keys != {}
    ensures IsLeast(keys, least) && IsGreatest(keys, greatest)
  {
    var x := Pick(keys);
    least, greatest := x, x;
    var rest := keys - {x};
    if rest != {} {
      var l, g := ExtremesExist(rest);
      least, greatest := Min(x, l), Max(x, g);
    }
    forall j | j in keys
      ensures least <= j <= greatest
    {
      assert j == x || j in rest;
    }
  }

  lemma LeastExists(keys: set<int>)
    requires keys != {}
    ensures exists k :: IsLeast(keys, k)
  {
    var _, _ := ExtremesExist(keys);
  }

  lemma GreatestExists(keys: set<int>)
    requires keys != {}
    ensures exists k :: IsGreatest(keys, k)
  {
    var _, _ := ExtremesExist(keys);
  }

  function Least(keys: set<int>): (k: int)
    requires keys != {}
    ensures IsLeast(keys, k)
  {
    LeastExists(keys);
    var k :| k in keys && IsLeast(keys, k);
    k
  }

  function Greatest(keys: set<int>): (k: int)
    requires keys != {}
    ensures IsGreatest(keys, k)
  {
    GreatestExists(keys);
    var k :| k in keys && IsGreatest(keys, k);
    k
  }

  /** The values of `m`, smallest key first. */
  function Ascending<V>(m: map<int, V>): seq<V>
    decreases |m|
  {
    if m == map[] then []
    else
      var k := Least(m.Keys);
      [m[k]] + Ascending(m - {k})
  }

  lemma LeastIs(keys: set<int>, k: int)
    requires k in keys && forall j :: j in keys ==> k <= j
    ensures Least(keys) == k
  {
    assert Least(keys) in keys;
  }

  lemma {:induction false} AscendingAppend<V>(m: map<int, V>, k: int, v: V)
    requires forall j :: j in m ==> j < k
    ensures Ascending(m[k := v]) == Ascending(m) + [v]
    decreases |m|
  {
    var longer := m[k := v];
    if m == map[] {
      assert longer - {k} == map[];
      assert Least(longer.Keys) == k;
    } else {
      var l := Least(m.Keys);
      LeastIs(longer.Keys, l);
      assert longer - {l} == (m - {l})[k := v];
      AscendingAppend(m - {l}, k, v);
    }
  }

  lemma {:induction false} AscendingMembers<V>(m: map<int, V>, v: V)
    ensures v in Ascending(m) <==> exists k :: k in m && m[k] == v
    decreases |m|
  {
    if m != map[] {
      var l := Least(m.Keys);
      AscendingMembers(m - {l}, v);
      assert Ascending(m) == [m[l]] + Ascending(m - {l});
      assert forall k :: k in m <==> k == l || k in m - {l};
    }
  }

  ghost predicate Injective<V>(m: map<int, V>) {
    forall i, j :: i in m && j in m && m[i] == m[j] ==> i == j
  }

  lemma {:induction false} AscendingDistinct<V>(m: map<int, V>)
    requires Injective(m)
    ensures Distinct(Ascending(m))
    decreases |m|
  {
    if m != map[] {
      var k := Least(m.Keys);
      AscendingDistinct(m - {k});
      AscendingMembers(m - {k}, m[k]);
    }
  }

  lemma {:induction false} AscendingRemove<V>(m: map<int, V>, k: int)
    requires Injective(m) && k in m
    ensures Ascending(m - {k}) == RemoveFirst(Ascending(m), m[k])
    decreases |m|
  {
    var l := Least(m.Keys);
    if k != l {
      AscendingRemove(m - {l}, k);
      assert m - {k} - {l} == m - {l} - {k};
      LeastIs((m - {k}).Keys, l);
    } else {
      assert ([m[l]] + Ascending(m - {l}))[1..] == Ascending(m - {l});
    }
  }

  /** The order of two values is the order of their keys. */
  lemma {:induction false} AscendingEqualMeansEqual<V>(a: map<int, V>, b: map<int, V>)
    requires forall k :: k in a && k in b ==> a[k] == b[k]
    requires forall i, j :: i in a && j in b && a[i] == b[j] ==> i == j
    ensures Ascending(a) == Ascending(b) <==> a == b
    decreases |a|
  {
    if Ascending(a) == Ascending(b) {
      if a == map[] {
        assert b == map[];
      } else {
        var k, l := Least(a.Keys), Least(b.Keys);
        assert Ascending(a)[0] == a[k] && Ascending(b)[0] == b[l];
        assert k == l;
        assert Ascending(a)[1..] == Ascending(a - {k}) && Ascending(b)[1..] == Ascending(b - {k});
        AscendingEqualMeansEqual(a - {k}, b - {k});
        assert a == (a - {k})[k := a[k]] && b == (b - {k})[k := b[k]];
      }
    }
  }
}
