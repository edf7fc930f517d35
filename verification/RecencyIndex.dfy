/** The least-recently-used side index of the cloud store (`crates/cloud/src/store.rs`)
    refines a duplicate-free list in last-touch order. */
module RecencyIndex {
  import opened Basics
  import opened OrderedMap

  /** `s` without `x`. */
  function Without<K(==)>(s: seq<K>, x: K): seq<K> {
    if s == [] then [] else (if s[0] == x then [] else [s[0]]) + Without(s[1..], x)
  }

  function Touched<K(==)>(order: seq<K>, key: K): seq<K> {
    Without(order, key) + [key]
  }

  /** The key to evict: the oldest that is not protected, or else simply the oldest. */
  function Victim<K(==)>(order: seq<K>, protected: set<K>): Option<K> {
    if order == [] then None
    else
      var v := OldestUnprotected(order, protected);
      if v.Some? then v else Some(order[0])
  }

  function OldestUnprotected<K(==)>(order: seq<K>, protected: set<K>): Option<K> {
    if order == [] then None
    else if order[0] !in protected then Some(order[0])
    else OldestUnprotected(order[1..], protected)
  }

  lemma {:induction false} WithoutMembers<K>(s: seq<K>, x: K)
    ensures x !in Without(s, x)
    ensures forall y :: y in Without(s, x) <==> y in s && y != x
    ensures Distinct(s) ==> Distinct(Without(s, x))
    ensures x !in s ==> Without(s, x) == s
    ensures Distinct(s) && x in s ==> |Without(s, x)| == |s| - 1
  {
    if s != [] {
      WithoutMembers(s[1..], x);
      assert s == [s[0]] + s[1..];
      if Distinct(s) {
        assert Distinct(s[1..]) && s[0] !in s[1..];
      }
    }
  }

  lemma {:induction false} RemoveFirstIsWithout<K>(s: seq<K>, x: K)
    requires Distinct(s)
    ensures RemoveFirst(s, x) == Without(s, x)
  {
    if s != [] {
      assert s[0] !in s[1..] && Distinct(s[1..]);
      if s[0] == x {
        WithoutMembers(s[1..], x);
      } else {
        RemoveFirstIsWithout(s[1..], x);
      }
    }
  }

  /** `a` stands somewhere before `b`. */
  ghost predicate Before<K(!new)>(s: seq<K>, a: K, b: K) {
    exists i, j :: 0 <= i < j < |s| && s[i] == a && s[j] == b
  }

  /** Taking a key out leaves the others in the order they had. */
  lemma {:induction false} WithoutKeepsOrder<K(!new)>(s: seq<K>, x: K, a: K, b: K)
    requires Before(Without(s, x), a, b)
    ensures Before(s, a, b) && a != x && b != x
  {
    var rest := Without(s[1..], x);
    var w := Without(s, x);
    var i, j :| 0 <= i < j < |w| && w[i] == a && w[j] == b;
    WithoutMembers(s, x);
    assert a in w && b in w;
    if s[0] == x || i > 0 {
      if s[0] != x {
        assert rest[i - 1] == a && rest[j - 1] == b;
      } else {
        assert rest[i] == a && rest[j] == b;
      }
      WithoutKeepsOrder(s[1..], x, a, b);
      var k, l :| 0 <= k < l < |s[1..]| && s[1..][k] == a && s[1..][l] == b;
      assert s[k + 1] == a && s[l + 1] == b;
    } else {
      assert rest[j - 1] == b && b in rest;
      WithoutMembers(s[1..], x);
      assert b in s[1..];
      var l :| 0 <= l < |s[1..]| && s[1..][l] == b;
      assert s[0] == a && s[l + 1] == b;
    }
  }

  /** Touching a key puts it last and leaves the others in the order they had. */
  lemma TouchKeepsOrder<K(!new)>(order: seq<K>, x: K, a: K, b: K)
    requires Before(Touched(order, x), a, b)
    ensures a != x && (b == x || Before(order, a, b))
  {
    var w := Without(order, x);
    WithoutMembers(order, x);
    var i, j :| 0 <= i < j < |w + [x]| && (w + [x])[i] == a && (w + [x])[j] == b;
    assert a == w[i] && a in w;
    if j < |w| {
      assert b == w[j] && Before(w, a, b);
      WithoutKeepsOrder(order, x, a, b);
    }
  }

  /** The order of a new index after the keys `ts` have been touched in turn. */
  function TouchedAll<K(==)>(ts: seq<K>): seq<K> {
    if ts == [] then [] else Touched(TouchedAll(ts[..|ts| - 1]), ts[|ts| - 1])
  }

  /** `i` is the last position of `key` in `ts`. */
  ghost predicate LastAt<K>(ts: seq<K>, key: K, i: int) {
    0 <= i < |ts| && ts[i] == key && forall j :: i < j < |ts| ==> ts[j] != key
  }

  /** The order lists exactly the touched keys, each once, and a key stands before another
      only if its last touch came earlier. */
  lemma {:induction false} OrderIsByLastTouch<K(!new)>(ts: seq<K>)
    ensures Distinct(TouchedAll(ts)) && forall k :: k in TouchedAll(ts) <==> k in ts
    ensures forall a, b, i, j :: LastAt(ts, a, i) && LastAt(ts, b, j) && Before(TouchedAll(ts), a, b) ==> i < j
  {
    if ts != [] {
      var init, x := ts[..|ts| - 1], ts[|ts| - 1];
      OrderIsByLastTouch(init);
      WithoutMembers(TouchedAll(init), x);
      assert ts == init + [x];
      forall a, b, i, j | LastAt(ts, a, i) && LastAt(ts, b, j) && Before(TouchedAll(ts), a, b)
        ensures i < j
      {
        TouchKeepsOrder(TouchedAll(init), x, a, b);
        LastAtInit(init, x, a, i);
        LastAtInit(init, x, b, j);
      }
    }
  }

  lemma LastAtInit<K>(init: seq<K>, x: K, key: K, i: int)
    requires LastAt(init + [x], key, i)
    ensures if key == x then i == |init| else LastAt(init, key, i)
  {
    var ts := init + [x];
    assert ts[|init|] == x;
    assert forall j :: 0 <= j < |init| ==> ts[j] == init[j];
  }

  /** The victim is a retained key; it is protected only if every retained key is, and
      every key older than an unprotected victim is protected. */
  lemma {:induction false} VictimIsJust<K>(order: seq<K>, protected: set<K>)
    ensures Victim(order, protected).None? <==> order == []
    ensures var v := Victim(order, protected);
            v.Some? ==>
              && v.value in order
              && (v.value in protected ==> v.value == order[0] && forall k :: k in order ==> k in protected)
              && (v.value !in protected ==>
                    exists i :: 0 <= i < |order| && order[i] == v.value && forall j :: 0 <= j < i ==> order[j] in protected)
  {
    if order != [] {
      OldestUnprotectedIsFirst(order, protected);
    }
  }

  lemma {:induction false} OldestUnprotectedIsFirst<K>(order: seq<K>, protected: set<K>)
    ensures var v := OldestUnprotected(order, protected);
            && (v.None? ==> forall k :: k in order ==> k in protected)
            && (v.Some? ==> v.value !in protected && exists i :: 0 <= i < |order| && order[i] == v.value
                                                                 && forall j :: 0 <= j < i ==> order[j] in protected)
  {
    if order != [] && order[0] in protected {
      OldestUnprotectedIsFirst(order[1..], protected);
      var v := OldestUnprotected(order[1..], protected);
      if v.Some? {
        var i :| 0 <= i < |order[1..]| && order[1..][i] == v.value && forall j :: 0 <= j < i ==> order[1..][j] in protected;
        assert order[i + 1] == v.value;
        forall j | 0 <= j < i + 1
          ensures order[j] in protected
        {
          assert j > 0 ==> order[1..][j - 1] in protected;
        }
      }
    }
  }

  /** The two maps undo each other, and every sequence number handed out is below `next`. */
  ghost predicate Inverses<K(!new)>(bySeq: map<int, K>, seqOf: map<K, int>, next: int) {
    && (forall s :: s in bySeq ==> 0 <= s < next && bySeq[s] in seqOf && seqOf[bySeq[s]] == s)
    && (forall k :: k in seqOf ==> seqOf[k] in bySeq && bySeq[seqOf[k]] == k)
  }

  class Recency<K(==,!new)> {
    /** Touch sequence number to key, and back. */
    var bySeq: map<int, K>
    var seqOf: map<K, int>
    var nextSeq: nat

    ghost predicate Consistent()
      reads this
    {
      Inverses(bySeq, seqOf, nextSeq)
    }

    /** The keys, least recently touched first. */
    ghost function Order(): seq<K>
      reads this
    {
      Ascending(bySeq)
    }

    constructor ()
      ensures Consistent() && Order() == []
    {
      bySeq, seqOf, nextSeq := map[], map[], 0;
    }

    lemma OrderIsTheKeys()
      requires Consistent()
      ensures Distinct(Order())
      ensures forall k :: k in Order() <==> k in seqOf
    {
      assert Injective(bySeq);
      AscendingDistinct(bySeq);
      forall k
        ensures k in Order() <==> k in seqOf
      {
        AscendingMembers(bySeq, k);
        if k in Order() {
          var s :| s in bySeq && bySeq[s] == k;
        }
        if k in seqOf {
          var s := seqOf[k];
          assert s in bySeq && bySeq[s] == k;
        }
      }
    }

    method Drop(s: int) returns (key: K)
      requires Consistent() && s in bySeq
      modifies this
      ensures nextSeq == old(nextSeq) && seqOf == old(seqOf) - {key}
      ensures Consistent() && key == old(bySeq)[s] && Order() == Without(old(Order()), key)
    {
      OrderIsTheKeys();
      AscendingRemove(bySeq, s);
      key := bySeq[s];
      RemoveFirstIsWithout(Order(), key);
      bySeq := bySeq - {s};
      seqOf := seqOf - {key};
    }

    method Touch(key: K)
      requires Consistent()
      modifies this
      ensures Consistent() && Order() == Touched(old(Order()), key)
    {
      if key in seqOf {
        var _ := Drop(seqOf[key]);
      } else {
        OrderIsTheKeys();
        WithoutMembers(Order(), key);
      }
      assert key !in seqOf;
      var s := nextSeq;
      nextSeq := nextSeq + 1;
      AscendingAppend(bySeq, s, key);
      bySeq := bySeq[s := key];
      seqOf := seqOf[key := s];
    }

    method EvictOldest() returns (evicted: Option<K>)
      requires Consistent()
      modifies this
      ensures Consistent() && evicted == Victim(old(Order()), {})
      ensures Order() == if evicted.Some? then Without(old(Order()), evicted.value) else old(Order())
    {
      if bySeq == map[] {
        return None;
      }
      var s := Least(bySeq.Keys);
      assert Order()[0] == bySeq[s];
      var key := Drop(s);
      evicted := Some(key);
    }

    method EvictOldestUnprotected(protected: set<K>) returns (evicted: Option<K>)
      requires Consistent()
      modifies this
      ensures Consistent() && evicted == Victim(old(Order()), protected)
      ensures Order() == if evicted.Some? then Without(old(Order()), evicted.value) else old(Order())
    {
      var fallback: Option<int> := None;
      var rest := bySeq;
      while rest != map[]
        invariant unchanged(this)
        invariant forall s :: s in rest ==> s in bySeq && rest[s] == bySeq[s]
        invariant fallback.None? ==> rest == bySeq
        invariant fallback.Some? ==> fallback.value in bySeq && Order() != [] && bySeq[fallback.value] == Order()[0]
        invariant OldestUnprotected(Order(), protected) == OldestUnprotected(Ascending(rest), protected)
        decreases |rest|
      {
        var s := Least(rest.Keys);
        if fallback.None? {
          fallback := Some(s);
        }
        var key := rest[s];
        assert Ascending(rest)[0] == key && Ascending(rest)[1..] == Ascending(rest - {s});
        if key !in protected {
          var dropped := Drop(s);
          return Some(dropped);
        }
        rest := rest - {s};
      }
      if fallback.None? {
        return None;
      }
      var oldest := Drop(fallback.value);
      evicted := Some(oldest);
    }
  }
}
