/** Vocabulary shared by every other module: optional values and the fixed-width
    integers of the modelled program. */
module Basics {

  datatype Option<+T> = None | Some(value: T)

  const U64_MAX: int := 0xFFFF_FFFF_FFFF_FFFF
  const U32_MODULUS: int := 0x1_0000_0000
  const I64_MAX: int := 0x7FFF_FFFF_FFFF_FFFF
  const I64_MIN: int := -0x8000_0000_0000_0000

  type u64 = x: int | 0 <= x <= U64_MAX
  type u32 = x: int | 0 <= x < U32_MODULUS
  type i64 = x: int | I64_MIN <= x <= I64_MAX

  /** `u64::saturating_add`. */
  function SatAdd(a: u64, b: u64): u64 {
    if a + b > U64_MAX then U64_MAX else a + b
  }

  /** `u64::saturating_sub`. */
  function SatSub(a: u64, b: u64): u64 {
    if a < b then 0 else a - b
  }

  /** `i64::saturating_add`. */
  function SatAddI64(a: i64, b: i64): i64 {
    Max(I64_MIN, Min(I64_MAX, a + b))
  }

  const I64_SPAN: int := 0x1_0000_0000_0000_0000

  /** The value an `i64` holds after an unchecked operation whose exact result is `x`. */
  function WrapI64(x: int): i64
    decreases Max(x - I64_MAX, Max(I64_MIN - x, 0))
  {
    if x > I64_MAX then WrapI64(x - I64_SPAN)
    else if x < I64_MIN then WrapI64(x + I64_SPAN)
    else x
  }

  lemma {:induction false} WrapIsPeriodic(x: int)
    ensures WrapI64(x + I64_SPAN) == WrapI64(x)
    decreases Max(x - I64_MAX, Max(I64_MIN - x, 0))
  {
    if x > I64_MAX {
      WrapIsPeriodic(x - I64_SPAN);
    } else if x < I64_MIN {
      assert WrapI64(x) == WrapI64(x + I64_SPAN);
    }
  }

  lemma OneSpanApart(x: int, y: int)
    requires y == x + I64_SPAN
    ensures WrapI64(x) == WrapI64(y)
  {
    WrapIsPeriodic(x);
  }

  lemma {:induction false} WrapAbsorbsInto(a: int, b: int, inner: int, sum: int)
    requires inner == WrapI64(a) + b && sum == a + b
    ensures WrapI64(inner) == WrapI64(sum)
    decreases Max(a - I64_MAX, Max(I64_MIN - a, 0))
  {
    if a > I64_MAX {
      WrapAbsorbsInto(a - I64_SPAN, b, inner, sum - I64_SPAN);
      OneSpanApart(sum - I64_SPAN, sum);
    } else if a < I64_MIN {
      WrapAbsorbsInto(a + I64_SPAN, b, inner, sum + I64_SPAN);
      OneSpanApart(sum, sum + I64_SPAN);
    }
  }

  /** Wrapping in the middle of a sum does not change where it ends up. */
  lemma WrapAbsorbs(a: int, b: int)
    ensures WrapI64(WrapI64(a) + b) == WrapI64(a + b)
  {
    WrapAbsorbsInto(a, b, WrapI64(a) + b, a + b);
  }

  /** How an `i64` holds an exact result: unchanged in range, and indifferent to whether
      the operands were reduced first. */
  type Wrapping = int -> i64

  ghost predicate Absorbs(wrap: Wrapping, a: int, b: int) {
    wrap(wrap(a) + b) == wrap(a + b)
  }

  ghost predicate IsWrapping(wrap: Wrapping) {
    && (forall x: i64 :: wrap(x) == x)
    && (forall a: int, b: int :: Absorbs(wrap, a, b))
  }

  lemma WrapI64IsWrapping()
    ensures IsWrapping(WrapI64)
  {
    forall a: int, b: int
      ensures Absorbs(WrapI64, a, b)
    {
      WrapAbsorbs(a, b);
    }
  }

  /** The value a `u32` counter holds after being incremented. */
  function IncU32(x: u32): u32 {
    (x + 1) % U32_MODULUS
  }

  /** `s` with its first occurrence of `x` removed. */
  function RemoveFirst<T(==)>(s: seq<T>, x: T): seq<T> {
    if s == [] then []
    else if s[0] == x then s[1..]
    else [s[0]] + RemoveFirst(s[1..], x)
  }

  predicate Distinct<T(==)>(s: seq<T>) {
    forall i, j :: 0 <= i < j < |s| ==> s[i] != s[j]
  }

  lemma Pick<T>(s: set<T>) returns (x: T)
    requires s != {}
    ensures x in s
  {
    x :| x in s;
  }

  /** Two parts of one map are equal when they keep the same keys. */
  lemma SubmapsEqualIff<K, V>(whole: map<K, V>, a: map<K, V>, b: map<K, V>)
    requires forall k :: k in a ==> k in whole && a[k] == whole[k]
    requires forall k :: k in b ==> k in whole && b[k] == whole[k]
    ensures a == b <==> forall k :: k in whole ==> (k in a <==> k in b)
  {
    if forall k :: k in whole ==> (k in a <==> k in b) {
      assert a.Keys == b.Keys;
    }
  }

  function Min(a: int, b: int): int { if a <= b then a else b }

  function Max(a: int, b: int): int { if a <= b then b else a }

  lemma OccursTwice<T>(s: seq<T>, i: nat, j: nat)
    requires i < j < |s| && s[i] == s[j]
    ensures multiset(s)[s[i]] >= 2
  {
    assert s == s[..j] + [s[j]] + s[j + 1..];
    assert s[..j][i] in multiset(s[..j]);
  }

  lemma OccursOnce<T>(s: seq<T>, i: nat)
    requires i < |s| && forall k :: 0 <= k < |s| && s[k] == s[i] ==> k == i
    ensures multiset(s)[s[i]] == 1
  {
    assert s == s[..i] + [s[i]] + s[i + 1..];
    assert s[i] !in s[..i] && s[i] !in s[i + 1..];
  }

  /** Rearranging distinct elements leaves them distinct. */
  lemma RearrangedDistinct<T>(s: seq<T>, t: seq<T>)
    requires multiset(s) == multiset(t) && Distinct(s)
    ensures Distinct(t) && forall x :: x in t <==> x in s
  {
    forall x
      ensures x in t <==> x in s
    {
      assert x in multiset(t) <==> x in multiset(s);
    }
    forall i, j | 0 <= i < j < |t|
      ensures t[i] != t[j]
    {
      assert t[i] in s;
      var k :| 0 <= k < |s| && s[k] == t[i];
      OccursOnce(s, k);
      if t[i] == t[j] {
        OccursTwice(t, i, j);
      }
    }
  }
}
