/** The card-number checksum (`luhn_valid` in `crates/core/src/dlp.rs`). */
module Luhn {
  import opened Decimal

  type digit = d: int | 0 <= d <= 9

  /** What a digit adds: itself, or the digit sum of its double. */
  function Weight(d: digit, doubled: bool): nat {
    if !doubled then d else if 2 * d > 9 then 2 * d - 9 else 2 * d
  }

  function Odd(n: nat): bool {
    n > 0 && !Odd(n - 1)
  }

  /** Every second digit from the right is doubled. */
  function Doubled(n: nat, i: nat): bool
    requires i < n
  {
    Odd(n - 1 - i)
  }

  function Checksum(ds: seq<digit>): nat {
    if ds == [] then 0 else Weight(ds[0], Doubled(|ds|, 0)) + Checksum(ds[1..])
  }

  predicate IsValid(ds: seq<digit>) {
    ds != [] && Checksum(ds) % 10 == 0
  }

  function Digits(s: string): seq<digit>
    requires AllDigits(s)
  {
    seq(|s|, i requires 0 <= i < |s| => DigitValue(s[i]))
  }

  method LuhnValid(s: string) returns (ok: bool)
    ensures ok <==> AllDigits(s) && IsValid(Digits(s))
  {
    if s == [] {
      return false;
    }
    var sum, double := 0, false;
    var i := |s|;
    while i > 0
      invariant 0 <= i <= |s| && AllDigits(s[i..])
      invariant sum == Checksum(Digits(s[i..]))
      invariant double == Odd(|s| - i)
    {
      i := i - 1;
      if !IsDigit(s[i]) {
        return false;
      }
      var d: digit := DigitValue(s[i]);
      assert AllDigits(s[i..]);
      assert Digits(s[i..])[1..] == Digits(s[i + 1..]);
      sum := sum + (if double then (if d * 2 > 9 then d * 2 - 9 else d * 2) else d);
      double := !double;
    }
    assert s[0..] == s;
    ok := sum % 10 == 0;
  }

  lemma SameParity(n: nat)
    ensures Odd(n + 2) == Odd(n)
  {
  }

  /** Counted from the right: the last digit counts as it is, the one before it by the digit
      sum of its double, and so on in pairs. */
  lemma {:induction false} PairsFromTheRight(ds: seq<digit>, c: digit, d: digit)
    ensures Checksum([]) == 0 && Checksum([d]) == d
    ensures Checksum(ds + [c, d]) == Checksum(ds) + (2 * c / 10 + 2 * c % 10) + d
  {
    assert Checksum([d]) == d + Checksum([]) by { assert [d][1..] == []; }
    if ds == [] {
      assert [] + [c, d] == [c, d] && [c, d][1..] == [d];
      assert Odd(1);
    } else {
      PairsFromTheRight(ds[1..], c, d);
      assert (ds + [c, d])[1..] == ds[1..] + [c, d];
      SameParity(|ds| - 1);
    }
  }

  /** Rewriting one digit moves the sum by the change of its weight. */
  lemma {:induction false} ChecksumUpdate(ds: seq<digit>, i: nat, d: digit)
    requires i < |ds|
    ensures Checksum(ds[i := d]) + Weight(ds[i], Doubled(|ds|, i)) == Checksum(ds) + Weight(d, Doubled(|ds|, i))
  {
    if i == 0 {
      assert ds[i := d][1..] == ds[1..];
    } else {
      ChecksumUpdate(ds[1..], i - 1, d);
      assert ds[i := d][1..] == ds[1..][i - 1 := d];
    }
  }

  lemma ResidueMoves(x: nat, y: nat, delta: int)
    requires y % 10 == 0 && x == y + delta
    ensures x % 10 == 0 <==> delta % 10 == 0
  {
  }

  lemma WeightsDiffer(a: digit, b: digit, doubled: bool)
    requires a != b
    ensures (Weight(a, doubled) - Weight(b, doubled)) % 10 != 0
  {
  }

  /** Mistyping any one digit of a valid number makes it invalid. */
  lemma SingleDigitChangeIsCaught(ds: seq<digit>, i: nat, d: digit)
    requires IsValid(ds) && i < |ds| && d != ds[i]
    ensures !IsValid(ds[i := d])
  {
    var doubled := Doubled(|ds|, i);
    ChecksumUpdate(ds, i, d);
    WeightsDiffer(d, ds[i], doubled);
    ResidueMoves(Checksum(ds[i := d]), Checksum(ds), Weight(d, doubled) - Weight(ds[i], doubled));
  }

  lemma LastDigitAdds(ds: seq<digit>, d: digit)
    ensures Checksum(ds + [d]) == Checksum(ds + [0]) + d
  {
    ChecksumUpdate(ds + [0], |ds|, d);
    assert (ds + [0])[|ds| := d] == ds + [d];
  }

  /** Every payload has exactly one check digit. */
  lemma ExactlyOneCheckDigit(ds: seq<digit>) returns (d: digit)
    ensures forall e: digit :: IsValid(ds + [e]) <==> e == d
  {
    var base := Checksum(ds + [0]);
    d := (10 - base % 10) % 10;
    forall e: digit
      ensures IsValid(ds + [e]) <==> e == d
    {
      LastDigitAdds(ds, e);
    }
  }

  function Swapped(ds: seq<digit>, i: nat): seq<digit>
    requires i + 1 < |ds|
  {
    ds[i := ds[i + 1]][i + 1 := ds[i]]
  }

  /** Equal digits, or 0 and 9 in either order. */
  predicate Weightless(a: digit, b: digit) {
    a == b || (a == 0 && b == 9) || (a == 9 && b == 0)
  }

  lemma SwapGain(a: digit, b: digit, doubled: bool) returns (gain: int)
    ensures gain + Weight(a, doubled) + Weight(b, !doubled) == Weight(b, doubled) + Weight(a, !doubled)
    ensures gain % 10 == 0 <==> Weightless(a, b)
  {
    ExcessTells(a, b);
    gain := if doubled then Excess(b) - Excess(a) else Excess(a) - Excess(b);
  }

  /** What doubling adds to a digit. */
  function Excess(d: digit): (e: int)
    ensures Weight(d, true) == d + e && -4 <= e <= 4
  {
    if d < 5 then d else d - 9
  }

  lemma ExcessTells(a: digit, b: digit)
    ensures (Excess(a) - Excess(b)) % 10 == 0 <==> Weightless(a, b)
    ensures (Excess(b) - Excess(a)) % 10 == 0 <==> Weightless(a, b)
  {
    assert Excess(a) == Excess(b) <==> Weightless(a, b);
  }

  lemma SwapMovesTheSum(ds: seq<digit>, i: nat) returns (gain: int)
    requires i + 1 < |ds|
    ensures Checksum(Swapped(ds, i)) == Checksum(ds) + gain
    ensures gain % 10 == 0 <==> Weightless(ds[i], ds[i + 1])
  {
    var a, b := ds[i], ds[i + 1];
    ChecksumUpdate(ds, i, b);
    ChecksumUpdate(ds[i := b], i + 1, a);
    assert Doubled(|ds|, i) == !Doubled(|ds|, i + 1);
    gain := SwapGain(a, b, Doubled(|ds|, i));
  }

  /** Swapping two neighbouring digits of a valid number is caught unless they are equal or
      are 0 and 9. */
  lemma AdjacentSwapIsCaughtExceptZeroNine(ds: seq<digit>, i: nat)
    requires IsValid(ds) && i + 1 < |ds|
    ensures IsValid(Swapped(ds, i)) <==> Weightless(ds[i], ds[i + 1])
  {
    var gain := SwapMovesTheSum(ds, i);
    ResidueMoves(Checksum(Swapped(ds, i)), Checksum(ds), gain);
  }
}
