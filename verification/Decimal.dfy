/** Printing integers in decimal and reading them back; padding; hexadecimal digits. */
module Decimal {

  predicate IsDigit(c: char) {
    '0' <= c <= '9'
  }

  predicate AllDigits(s: string) {
    forall i :: 0 <= i < |s| ==> IsDigit(s[i])
  }

  function Digit(d: nat): char
    requires d < 10
  {
    '0' + d as char
  }

  function DigitValue(c: char): nat
    requires IsDigit(c)
  {
    (c - '0') as nat
  }

  /** The number a digit string denotes. */
  function Value(s: string): nat
    requires AllDigits(s)
  {
    if s == [] then 0 else 10 * Value(s[..|s| - 1]) + DigitValue(s[|s| - 1])
  }

  function Dec(n: nat): string {
    if n < 10 then [Digit(n)] else Dec(n / 10) + [Digit(n % 10)]
  }

  function DecInt(i: int): string {
    if i < 0 then "-" + Dec(-i) else Dec(i)
  }

  lemma {:induction false} DecReadsBack(n: nat)
    ensures AllDigits(Dec(n)) && |Dec(n)| > 0 && Value(Dec(n)) == n
    ensures Dec(n)[0] == '0' ==> n == 0
  {
    if n < 10 {
      assert Value([Digit(n)]) == 10 * Value([]) + n;
    } else {
      DecReadsBack(n / 10);
      assert Dec(n)[..|Dec(n)| - 1] == Dec(n / 10);
    }
  }

  /** Different integers print differently. */
  lemma DecIntInjective(i: int, j: int)
    ensures DecInt(i) == DecInt(j) <==> i == j
  {
    DecReadsBack(if i < 0 then -i else i);
    DecReadsBack(if j < 0 then -j else j);
    if DecInt(i) == DecInt(j) {
      if i < 0 {
        assert DecInt(i)[1..] == Dec(-i);
        assert j < 0;
        assert DecInt(j)[1..] == Dec(-j);
      }
    }
  }

  /** A printed integer is a digit string with at most a leading minus. */
  lemma DecIntCharacters(i: int)
    ensures |DecInt(i)| > 0
    ensures forall k :: 0 <= k < |DecInt(i)| ==> IsDigit(DecInt(i)[k]) || (k == 0 && DecInt(i)[k] == '-')
  {
    DecReadsBack(if i < 0 then -i else i);
  }

  // ----- Padding ----------------------------------------------------------------

  function Zeros(n: nat): string {
    seq(n, _ => '0')
  }

  lemma {:induction false} LeadingZero(s: string)
    requires AllDigits(s)
    ensures AllDigits(['0'] + s) && Value(['0'] + s) == Value(s)
  {
    if s == "" {
      assert (['0'] + s)[..0] == "";
    } else {
      LeadingZero(s[..|s| - 1]);
      assert (['0'] + s)[..|s|] == ['0'] + s[..|s| - 1];
    }
  }

  lemma {:induction false} LeadingZeros(n: nat, s: string)
    requires AllDigits(s)
    ensures AllDigits(Zeros(n) + s) && Value(Zeros(n) + s) == Value(s)
  {
    if n == 0 {
      assert Zeros(0) + s == s;
    } else {
      LeadingZeros(n - 1, s);
      LeadingZero(Zeros(n - 1) + s);
      assert Zeros(n) + s == ['0'] + (Zeros(n - 1) + s);
    }
  }

  // ----- Hexadecimal ------------------------------------------------------------

  function HexDigit(d: nat): char
    requires d < 16
  {
    if d < 10 then '0' + d as char else 'a' + (d - 10) as char
  }

  lemma HexDigitIs(d: nat)
    requires d < 16
    ensures HexDigit(d) == "0123456789abcdef"[d]
  {
    assert "0123456789abcdef"[..10] == "0123456789" && "0123456789abcdef"[10..] == "abcdef";
    if d < 10 {
      DigitIs(d);
    }
  }

  lemma DigitIs(d: nat)
    requires d < 10
    ensures Digit(d) == "0123456789"[d] && DigitValue(Digit(d)) == d
  {
  }

  lemma HexDigitInjective(c: nat, d: nat)
    requires c < 16 && d < 16
    ensures HexDigit(c) == HexDigit(d) <==> c == d
  {
  }
}
