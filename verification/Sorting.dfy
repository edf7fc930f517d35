/** A stable sort, standing for the library's `sort_by` and `sort_by_key`. */
module Sorting {

  /** `le` is reflexive on comparable values, total and transitive. */
  ghost predicate TotalPreorder<T(!new)>(le: (T, T) -> bool) {
    && (forall a, b :: le(a, b) || le(b, a))
    && (forall a, b, c :: le(a, b) && le(b, c) ==> le(a, c))
  }

  ghost predicate Sorted<T>(le: (T, T) -> bool, s: seq<T>) {
    forall i, j :: 0 <= i < j < |s| ==> le(s[i], s[j])
  }

  /** `x` before the first element it does not have to follow. */
  function Insert<T>(le: (T, T) -> bool, x: T, s: seq<T>): seq<T> {
    if s == [] then [x]
    else if le(x, s[0]) then [x] + s
    else [s[0]] + Insert(le, x, s[1..])
  }

  function Sort<T>(le: (T, T) -> bool, s: seq<T>): seq<T> {
    if s == [] then [] else Insert(le, s[0], Sort(le, s[1..]))
  }

  lemma {:induction false} InsertKeeps<T>(le: (T, T) -> bool, x: T, s: seq<T>)
    ensures multiset(Insert(le, x, s)) == multiset{x} + multiset(s)
    ensures |Insert(le, x, s)| == |s| + 1
    ensures forall y :: y in Insert(le, x, s) <==> y == x || y in s
  {
    if s != [] && !le(x, s[0]) {
      InsertKeeps(le, x, s[1..]);
      assert s == [s[0]] + s[1..];
    }
  }

  lemma {:induction false} SortKeeps<T>(le: (T, T) -> bool, s: seq<T>)
    ensures multiset(Sort(le, s)) == multiset(s)
    ensures |Sort(le, s)| == |s|
    ensures forall y :: y in Sort(le, s) <==> y in s
  {
    if s != [] {
      SortKeeps(le, s[1..]);
      InsertKeeps(le, s[0], Sort(le, s[1..]));
      assert s == [s[0]] + s[1..];
    }
  }

  lemma {:induction false} InsertSorts<T(!new)>(le: (T, T) -> bool, x: T, s: seq<T>)
    requires TotalPreorder(le) && Sorted(le, s)
    ensures Sorted(le, Insert(le, x, s))
  {
    if s != [] && !le(x, s[0]) {
      InsertSorts(le, x, s[1..]);
      InsertKeeps(le, x, s[1..]);
      var rest := Insert(le, x, s[1..]);
      forall j | 0 <= j < |rest|
        ensures le(s[0], rest[j])
      {
        assert rest[j] in rest;
        if rest[j] != x {
          var k :| 0 <= k < |s[1..]| && s[1..][k] == rest[j];
          assert le(s[0], s[k + 1]);
        }
      }
    }
  }

  lemma {:induction false} SortSorts<T(!new)>(le: (T, T) -> bool, s: seq<T>)
    requires TotalPreorder(le)
    ensures Sorted(le, Sort(le, s))
  {
    if s != [] {
      SortSorts(le, s[1..]);
      InsertSorts(le, s[0], Sort(le, s[1..]));
    }
  }

  lemma NonEmptyHasMember<T>(s: seq<T>)
    ensures s != [] ==> exists x :: x in s
  {
    if s != [] {
      assert s[0] in s;
    }
  }

  /** Strict order leaves only one arrangement of the same elements. */
  lemma {:induction false} SortedUnique<T(!new)>(le: (T, T) -> bool, a: seq<T>, b: seq<T>)
    requires forall i, j :: 0 <= i < j < |a| ==> le(a[i], a[j]) && !le(a[j], a[i])
    requires forall i, j :: 0 <= i < j < |b| ==> le(b[i], b[j]) && !le(b[j], b[i])
    requires forall x :: x in a <==> x in b
    ensures a == b
  {
    if a == [] {
      NonEmptyHasMember(b);
    } else {
      assert a[0] in b && b[0] in a;
      var i :| 0 <= i < |b| && b[i] == a[0];
      var j :| 0 <= j < |a| && a[j] == b[0];
      assert i == 0;
      forall x
        ensures x in a[1..] <==> x in b[1..]
      {
        if x in a[1..] {
          assert x in b && x != a[0];
        }
        if x in b[1..] {
          assert x in a && x != b[0];
        }
      }
      SortedUnique(le, a[1..], b[1..]);
    }
  }

  predicate Similar<T>(le: (T, T) -> bool, c: T, x: T) {
    le(c, x) && le(x, c)
  }

  /** The elements equivalent to `c`, in order. */
  ghost function Like<T>(le: (T, T) -> bool, c: T, s: seq<T>): seq<T> {
    if s == [] then []
    else IfSimilar(le, c, s[0]) + Like(le, c, s[1..])
  }

  /** Elements equivalent to `c` are in order with each other. */
  ghost predicate Together<T>(le: (T, T) -> bool, c: T, x: T, y: T) {
    Similar(le, c, x) && Similar(le, c, y) ==> le(x, y)
  }

  ghost function IfSimilar<T>(le: (T, T) -> bool, c: T, x: T): seq<T> {
    if Similar(le, c, x) then [x] else []
  }

  lemma LikeFront<T>(le: (T, T) -> bool, c: T, x: T, s: seq<T>)
    ensures Like(le, c, [x] + s) == IfSimilar(le, c, x) + Like(le, c, s)
  {
    assert ([x] + s)[1..] == s;
  }

  lemma SwapIfOneIsEmpty<T>(a: seq<T>, b: seq<T>, s: seq<T>)
    requires a == [] || b == []
    ensures a + (b + s) == b + (a + s)
  {
    assert [] + s == s && [] + (b + s) == b + s && [] + (a + s) == a + s;
  }

  lemma {:induction false} InsertIsStable<T(!new)>(le: (T, T) -> bool, c: T, x: T, s: seq<T>)
    requires forall y :: Together(le, c, x, y)
    ensures Like(le, c, Insert(le, x, s)) == IfSimilar(le, c, x) + Like(le, c, s)
  {
    if s == [] || le(x, s[0]) {
      assert Insert(le, x, s) == [x] + s;
      LikeFront(le, c, x, s);
    } else {
      var y, rest := s[0], s[1..];
      assert s == [y] + rest;
      assert Together(le, c, x, y);
      InsertIsStable(le, c, x, rest);
      LikeFront(le, c, y, rest);
      LikeFront(le, c, y, Insert(le, x, rest));
      SwapIfOneIsEmpty(IfSimilar(le, c, x), IfSimilar(le, c, y), Like(le, c, rest));
    }
  }

  /** Equivalent elements keep the order they came in. */
  lemma {:induction false} SortIsStable<T(!new)>(le: (T, T) -> bool, c: T, s: seq<T>)
    requires forall x, y :: Together(le, c, x, y)
    ensures Like(le, c, Sort(le, s)) == Like(le, c, s)
  {
    if s != [] {
      SortIsStable(le, c, s[1..]);
      InsertIsStable(le, c, s[0], Sort(le, s[1..]));
    }
  }
}
