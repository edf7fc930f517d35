/** The number form of RFC 8785, section 3.2.2.3: re-placing the decimal point of an
    already shortest digit string (`es_number` in `crates/core/src/jcs.rs`). */
module EsNumber {
  import opened Basics
  import opened Decimal

  // ----- Decimal spellings ------------------------------------------------------

  /** An exponent as written: marker, optional sign, digits. */
  datatype Exponent = NoExponent | Exponent(marker: char, sign: string, digits: string)

  /** D[.D+][eE] with an optional leading minus; an empty fraction has no point. */
  datatype Spelling = Spelling(neg: bool, whole: string, frac: string, exp: Exponent)

  ghost predicate WellFormed(sp: Spelling) {
    && sp.whole != "" && AllDigits(sp.whole) && AllDigits(sp.frac)
    && (sp.exp.Exponent? ==>
          && (sp.exp.marker == 'e' || sp.exp.marker == 'E')
          && (sp.exp.sign == "" || sp.exp.sign == "+" || sp.exp.sign == "-")
          && sp.exp.digits != "" && AllDigits(sp.exp.digits)
          && Value(sp.exp.digits) <= I64_MAX)
  }

  function SpellExponent(x: Exponent): string {
    if x.NoExponent? then "" else [x.marker] + x.sign + x.digits
  }

  function Mantissa(whole: string, frac: string): string {
    if frac == "" then whole else whole + "." + frac
  }

  function Spell(sp: Spelling): string {
    (if sp.neg then "-" else "") + (Mantissa(sp.whole, sp.frac) + SpellExponent(sp.exp))
  }

  // ----- Taking a text apart ----------------------------------------------------

  function StripMinus(s: string): (bool, string) {
    if s != "" && s[0] == '-' then (true, s[1..]) else (false, s)
  }

  /** `split_once`: the text before and after the first character that is `a` or `b`. */
  function SplitOnce(s: string, a: char, b: char): Option<(string, string)> {
    if s == "" then None
    else if s[0] == a || s[0] == b then Some(("", s[1..]))
    else
      var rest := SplitOnce(s[1..], a, b);
      if rest.None? then None else Some(([s[0]] + rest.value.0, rest.value.1))
  }

  /** `parse::<i64>().unwrap_or(0)`. */
  function ParseI64(s: string): i64 {
    var digits := if s != "" && (s[0] == '-' || s[0] == '+') then s[1..] else s;
    if digits == "" || !AllDigits(digits) then 0
    else if s[0] == '-' then (if Value(digits) <= I64_MAX + 1 then -(Value(digits) as int) else 0)
    else if Value(digits) <= I64_MAX then Value(digits) else 0
  }

  datatype Parts = Parts(neg: bool, whole: string, frac: string, exp: int)

  function SplitExponent(body: string): (string, int) {
    var split := SplitOnce(body, 'e', 'E');
    if split.Some? then (split.value.0, ParseI64(split.value.1)) else (body, 0)
  }

  function SplitPoint(mantissa: string): (string, string) {
    var split := SplitOnce(mantissa, '.', '.');
    if split.Some? then split.value else (mantissa, "")
  }

  function TakeApart(text: string): Parts {
    var (neg, body) := StripMinus(text);
    var (mantissa, exp) := SplitExponent(body);
    var (whole, frac) := SplitPoint(mantissa);
    Parts(neg, whole, frac, exp)
  }

  // ----- What a text denotes ----------------------------------------------------

  /** `v` times ten to the power `e`. */
  function Scaled(v: nat, e: int): real
    decreases if e < 0 then -e else e
  {
    if e == 0 then v as real else if e > 0 then 10.0 * Scaled(v, e - 1) else Scaled(v, e + 1) / 10.0
  }

  function Raw(p: Parts): string {
    p.whole + p.frac
  }

  function Magnitude(p: Parts): real
    requires AllDigits(Raw(p))
  {
    Scaled(Value(Raw(p)), p.exp - |p.frac|)
  }

  /** The number a text denotes: digits, sign and the place of the point. */
  function Numeric(text: string): real {
    var p := TakeApart(text);
    if !AllDigits(Raw(p)) then 0.0 else if p.neg then -Magnitude(p) else Magnitude(p)
  }

  // ----- The printer ------------------------------------------------------------

  function TrimLeft(s: string): string {
    if s != "" && s[0] == '0' then TrimLeft(s[1..]) else s
  }

  function TrimRight(s: string): string {
    if s != "" && s[|s| - 1] == '0' then TrimRight(s[..|s| - 1]) else s
  }

  /** The digits `s` with the decimal point `n` places in (value 0.s x 10^n). */
  function Placed(s: string, n: int): string
    requires s != ""
  {
    var k := |s|;
    if k <= n <= 21 then s + Zeros(n - k)
    else if 0 < n <= 21 then s[..n] + "." + s[n..]
    else if -6 < n <= 0 then "0." + Zeros(-n) + s
    else
      var e := n - 1;
      var exp := if e >= 0 then "e+" + DecInt(e) else "e-" + DecInt(-e);
      if k == 1 then s + exp else s[..1] + "." + s[1..] + exp
  }

  /** The significant digits: zeros stripped on both sides. */
  function Digits(p: Parts): string {
    TrimRight(TrimLeft(Raw(p)))
  }

  /** Where the point stands relative to the first significant digit. */
  function PointAt(p: Parts): int {
    |p.whole| + p.exp - (|Raw(p)| - |TrimLeft(Raw(p))|)
  }

  function Signed(neg: bool, s: string, n: int): string
    requires s != ""
  {
    (if neg then "-" else "") + Placed(s, n)
  }

  function FormatParts(p: Parts): string {
    if Digits(p) == "" then "0" else Signed(p.neg, Digits(p), PointAt(p))
  }

  function Format(text: string): string {
    FormatParts(TakeApart(text))
  }

  // ----- Spelling and taking apart are inverse ------------------------------------

  lemma {:induction false} SplitAtFirst(x: string, c: char, y: string, a: char, b: char)
    requires c == a || c == b
    requires forall i :: 0 <= i < |x| ==> x[i] != a && x[i] != b
    ensures SplitOnce(x + [c] + y, a, b) == Some((x, y))
  {
    if x != "" {
      SplitAtFirst(x[1..], c, y, a, b);
      assert (x + [c] + y)[1..] == x[1..] + [c] + y;
      assert x == [x[0]] + x[1..];
    } else {
      assert (x + [c] + y)[1..] == y;
    }
  }

  lemma {:induction false} NothingToSplit(x: string, a: char, b: char)
    requires forall i :: 0 <= i < |x| ==> x[i] != a && x[i] != b
    ensures SplitOnce(x, a, b) == None
  {
    if x != "" {
      NothingToSplit(x[1..], a, b);
    }
  }

  function ExponentValue(x: Exponent): int
    requires x.Exponent? ==> AllDigits(x.digits)
  {
    if x.NoExponent? then 0 else if x.sign == "-" then -(Value(x.digits) as int) else Value(x.digits)
  }

  lemma ParseExponent(x: Exponent)
    requires x.Exponent? && (x.sign == "" || x.sign == "+" || x.sign == "-")
    requires x.digits != "" && AllDigits(x.digits) && Value(x.digits) <= I64_MAX
    ensures ParseI64(x.sign + x.digits) == ExponentValue(x)
  {
    var s := x.sign + x.digits;
    if x.sign == "" {
      assert s == x.digits && IsDigit(s[0]);
    } else {
      assert s[1..] == x.digits;
    }
  }

  lemma SplitSpelledExponent(mantissa: string, x: Exponent)
    requires forall i :: 0 <= i < |mantissa| ==> mantissa[i] != 'e' && mantissa[i] != 'E'
    requires x.Exponent? ==>
               && (x.marker == 'e' || x.marker == 'E')
               && (x.sign == "" || x.sign == "+" || x.sign == "-")
               && x.digits != "" && AllDigits(x.digits) && Value(x.digits) <= I64_MAX
    ensures SplitExponent(mantissa + SpellExponent(x)) == (mantissa, ExponentValue(x))
  {
    if x.NoExponent? {
      assert mantissa + SpellExponent(x) == mantissa;
      NothingToSplit(mantissa, 'e', 'E');
    } else {
      assert mantissa + SpellExponent(x) == mantissa + [x.marker] + (x.sign + x.digits);
      SplitAtFirst(mantissa, x.marker, x.sign + x.digits, 'e', 'E');
      ParseExponent(x);
    }
  }

  lemma SplitSpelledPoint(whole: string, frac: string)
    requires AllDigits(whole) && AllDigits(frac)
    ensures SplitPoint(Mantissa(whole, frac)) == (whole, frac)
  {
    if frac == "" {
      NothingToSplit(whole, '.', '.');
    } else {
      assert Mantissa(whole, frac) == whole + ['.'] + frac;
      SplitAtFirst(whole, '.', frac, '.', '.');
    }
  }

  lemma MantissaHasNoMarker(whole: string, frac: string)
    requires AllDigits(whole) && AllDigits(frac)
    ensures forall i :: 0 <= i < |Mantissa(whole, frac)| ==>
                          Mantissa(whole, frac)[i] != 'e' && Mantissa(whole, frac)[i] != 'E'
  {
  }

  lemma StripSpelledMinus(neg: bool, body: string)
    requires body != "" && body[0] != '-'
    ensures StripMinus((if neg then "-" else "") + body) == (neg, body)
  {
    assert ("-" + body)[1..] == body && "" + body == body;
  }

  lemma TakeApartSpelled(sp: Spelling)
    requires WellFormed(sp)
    ensures TakeApart(Spell(sp)) == Parts(sp.neg, sp.whole, sp.frac, ExponentValue(sp.exp))
  {
    var mantissa := Mantissa(sp.whole, sp.frac);
    var body := mantissa + SpellExponent(sp.exp);
    assert body != "" && body[0] != '-' by {
      assert body[0] == sp.whole[0] && IsDigit(sp.whole[0]);
    }
    StripSpelledMinus(sp.neg, body);
    MantissaHasNoMarker(sp.whole, sp.frac);
    SplitSpelledExponent(mantissa, sp.exp);
    SplitSpelledPoint(sp.whole, sp.frac);
  }

  // ----- Scaling ------------------------------------------------------------------

  lemma {:induction false} ScaledShift(v: nat, e: int)
    ensures Scaled(10 * v, e) == 10.0 * Scaled(v, e) == Scaled(v, e + 1)
    decreases if e < 0 then -e else e
  {
    if e > 0 {
      ScaledShift(v, e - 1);
    } else if e < 0 {
      ScaledShift(v, e + 1);
    }
  }

  lemma {:induction false} ScaledIsInjective(v: nat, w: nat, e: int)
    ensures Scaled(v, e) == Scaled(w, e) <==> v == w
    ensures Scaled(v, e) >= 0.0 && (Scaled(v, e) == 0.0 <==> v == 0)
    decreases if e < 0 then -e else e
  {
    if e > 0 {
      ScaledIsInjective(v, w, e - 1);
    } else if e < 0 {
      ScaledIsInjective(v, w, e + 1);
    }
  }

  lemma {:induction false} HigherScaleHasZeros(v: nat, e: int, w: nat, f: int)
    requires e < f && Scaled(v, e) == Scaled(w, f)
    ensures v % 10 == 0
    decreases f - e
  {
    ScaledShift(w, f - 1);
    if f == e + 1 {
      ScaledIsInjective(v, 10 * w, e);
    } else {
      HigherScaleHasZeros(v, e, 10 * w, f - 1);
    }
  }

  // ----- Zeros at either end ------------------------------------------------------

  lemma AppendedZero(s: string, e: int)
    requires AllDigits(s)
    ensures AllDigits(s + ['0']) && Scaled(Value(s + ['0']), e) == Scaled(Value(s), e + 1)
  {
    assert (s + ['0'])[..|s|] == s;
    ScaledShift(Value(s), e);
  }

  lemma OneZeroMore(s: string, n: nat)
    requires n > 0
    ensures s + Zeros(n) == s + Zeros(n - 1) + ['0']
  {
  }

  lemma {:induction false} TrailingZeros(s: string, n: nat, e: int)
    requires AllDigits(s)
    ensures AllDigits(s + Zeros(n)) && Scaled(Value(s + Zeros(n)), e) == Scaled(Value(s), e + n)
  {
    if n == 0 {
      assert s + Zeros(0) == s;
    } else {
      TrailingZeros(s, n - 1, e + 1);
      AppendedZero(s + Zeros(n - 1), e);
      OneZeroMore(s, n);
    }
  }

  lemma {:induction false} TrimLeftPeels(s: string)
    ensures |TrimLeft(s)| <= |s| && s == Zeros(|s| - |TrimLeft(s)|) + TrimLeft(s)
    ensures TrimLeft(s) != "" ==> TrimLeft(s)[0] != '0'
    ensures AllDigits(s) ==> AllDigits(TrimLeft(s))
  {
    if s != "" && s[0] == '0' {
      TrimLeftPeels(s[1..]);
      var n := |s| - |TrimLeft(s)|;
      assert Zeros(n) == ['0'] + Zeros(n - 1);
      assert s == [s[0]] + s[1..];
    } else {
      assert Zeros(0) + s == s;
    }
  }

  lemma {:induction false} TrimRightPeels(s: string)
    ensures |TrimRight(s)| <= |s| && s == TrimRight(s) + Zeros(|s| - |TrimRight(s)|)
    ensures TrimRight(s) != "" ==> TrimRight(s)[0] == s[0] && TrimRight(s)[|TrimRight(s)| - 1] != '0'
    ensures AllDigits(s) ==> AllDigits(TrimRight(s))
  {
    if s != "" && s[|s| - 1] == '0' {
      TrimRightPeels(s[..|s| - 1]);
      var n := |s| - |TrimRight(s)|;
      assert Zeros(n) == Zeros(n - 1) + ['0'];
      assert s == s[..|s| - 1] + [s[|s| - 1]];
    } else {
      assert s + Zeros(0) == s;
    }
  }

  /** Digits without zeros at either end. */
  ghost predicate Significant(s: string) {
    s != "" && AllDigits(s) && s[0] != '0' && s[|s| - 1] != '0'
  }

  lemma TrimLeftKeepsValue(s: string)
    requires AllDigits(s)
    ensures var left := TrimLeft(s);
            AllDigits(left) && Value(left) == Value(s) && |left| <= |s| && (left != "" ==> left[0] != '0')
  {
    TrimLeftPeels(s);
    LeadingZeros(|s| - |TrimLeft(s)|, TrimLeft(s));
  }

  lemma TrimRightKeepsValue(s: string, e: int)
    requires AllDigits(s) && (s != "" ==> s[0] != '0')
    ensures var t := TrimRight(s);
            && AllDigits(t) && (t != "" ==> Significant(t)) && |t| <= |s|
            && Scaled(Value(s), e) == Scaled(Value(t), e + (|s| - |t|))
  {
    TrimRightPeels(s);
    TrailingZeros(TrimRight(s), |s| - |TrimRight(s)|, e);
  }

  /** The printer's digits and point position denote the number it was given. */
  lemma StripKeepsValue(p: Parts)
    requires AllDigits(Raw(p))
    ensures AllDigits(Digits(p)) && (Digits(p) != "" ==> Significant(Digits(p)))
    ensures Magnitude(p) == Scaled(Value(Digits(p)), PointAt(p) - |Digits(p)|)
  {
    TrimLeftKeepsValue(Raw(p));
    TrimRightKeepsValue(TrimLeft(Raw(p)), p.exp - |p.frac|);
  }

  // ----- The output is a spelling of the same number ------------------------------

  function PlacedSpelling(neg: bool, s: string, n: int): Spelling
    requires s != ""
  {
    var k := |s|;
    if k <= n <= 21 then Spelling(neg, s + Zeros(n - k), "", NoExponent)
    else if 0 < n <= 21 then Spelling(neg, s[..n], s[n..], NoExponent)
    else if -6 < n <= 0 then Spelling(neg, ['0'], Zeros(-n) + s, NoExponent)
    else Spelling(neg, s[..1], s[1..], if n >= 1 then Exponent('e', "+", DecInt(n - 1)) else Exponent('e', "-", DecInt(1 - n)))
  }

  lemma PlacedIsWellFormed(neg: bool, s: string, n: int)
    requires Significant(s) && -I64_MAX < n <= I64_MAX
    ensures WellFormed(PlacedSpelling(neg, s, n))
  {
    if |s| <= n <= 21 {
      TrailingZeros(s, n - |s|, 0);
    } else if -6 < n <= 0 {
      LeadingZeros(-n, s);
    } else if !(0 < n <= 21) {
      DecReadsBack(if n >= 1 then n - 1 else 1 - n);
    }
  }

  lemma PlainIsSpelled(s: string, n: int)
    requires s != "" && -6 < n <= 21
    ensures var sp := PlacedSpelling(false, s, n);
            sp.exp == NoExponent && Placed(s, n) == Mantissa(sp.whole, sp.frac)
  {
    if n <= 0 {
      assert "0." + Zeros(-n) + s == ['0'] + "." + (Zeros(-n) + s);
    }
  }

  lemma ExponentIsSpelled(s: string, n: int)
    requires s != "" && (n <= -6 || 21 < n)
    ensures var sp := PlacedSpelling(false, s, n);
            Placed(s, n) == Mantissa(sp.whole, sp.frac) + SpellExponent(sp.exp)
  {
    var sp := PlacedSpelling(false, s, n);
    var exp := if n - 1 >= 0 then "e+" + DecInt(n - 1) else "e-" + DecInt(1 - n);
    assert exp == SpellExponent(sp.exp);
    assert |s| == 1 ==> s[..1] == s && s[1..] == "";
  }

  lemma PlacedIsSpelled(neg: bool, s: string, n: int)
    requires s != ""
    ensures Signed(neg, s, n) == Spell(PlacedSpelling(neg, s, n))
  {
    if -6 < n <= 21 {
      PlainIsSpelled(s, n);
      var m := Mantissa(PlacedSpelling(neg, s, n).whole, PlacedSpelling(neg, s, n).frac);
      assert m + "" == m;
    } else {
      ExponentIsSpelled(s, n);
    }
  }

  lemma PaddedMagnitude(p: Parts, s: string, zeros: nat)
    requires AllDigits(s) && p.whole == s + Zeros(zeros) && p.frac == "" && p.exp == 0
    ensures AllDigits(Raw(p)) && Magnitude(p) == Scaled(Value(s), zeros)
  {
    TrailingZeros(s, zeros, 0);
    assert Raw(p) == p.whole;
  }

  lemma SplitMagnitude(p: Parts, s: string, n: nat)
    requires AllDigits(s) && n <= |s| && p.whole == s[..n] && p.frac == s[n..]
    ensures AllDigits(Raw(p)) && Magnitude(p) == Scaled(Value(s), p.exp + n - |s|)
  {
    assert Raw(p) == s;
  }

  lemma FractionDigits(p: Parts, s: string, zeros: nat)
    requires AllDigits(s) && p.whole == ['0'] && p.frac == Zeros(zeros) + s && p.exp == 0
    ensures AllDigits(Raw(p)) && Value(Raw(p)) == Value(s) && p.exp - |p.frac| == -(zeros as int) - |s|
  {
    LeadingZeros(zeros, s);
    LeadingZero(Zeros(zeros) + s);
  }

  lemma FractionMagnitude(p: Parts, s: string, zeros: nat)
    requires AllDigits(s) && p.whole == ['0'] && p.frac == Zeros(zeros) + s && p.exp == 0
    ensures AllDigits(Raw(p)) && Magnitude(p) == Scaled(Value(s), -(zeros as int) - |s|)
  {
    FractionDigits(p, s, zeros);
  }

  lemma PlacedMagnitude(p: Parts, s: string, n: int)
    requires Significant(s) && -I64_MAX < n <= I64_MAX
    requires var sp := PlacedSpelling(p.neg, s, n);
             && WellFormed(sp) && p.whole == sp.whole && p.frac == sp.frac && p.exp == ExponentValue(sp.exp)
    ensures AllDigits(Raw(p)) && Magnitude(p) == Scaled(Value(s), n - |s|)
  {
    if |s| <= n <= 21 {
      PaddedMagnitude(p, s, n - |s|);
    } else if 0 < n <= 21 {
      SplitMagnitude(p, s, n);
    } else if -6 < n <= 0 {
      FractionMagnitude(p, s, -n);
    } else {
      DecReadsBack(if n >= 1 then n - 1 else 1 - n);
      SplitMagnitude(p, s, 1);
    }
  }

  lemma PlacedDenotes(neg: bool, s: string, n: int)
    requires Significant(s) && -I64_MAX < n <= I64_MAX
    ensures var p := TakeApart(Signed(neg, s, n));
            p.neg == neg && AllDigits(Raw(p)) && Magnitude(p) == Scaled(Value(s), n - |s|)
  {
    var sp := PlacedSpelling(neg, s, n);
    PlacedIsWellFormed(neg, s, n);
    PlacedIsSpelled(neg, s, n);
    TakeApartSpelled(sp);
    PlacedMagnitude(TakeApart(Spell(sp)), s, n);
  }

  /** A decimal text the printer is meant for: well formed, its point position an `i64`. */
  ghost predicate DecimalText(text: string) {
    && (exists sp :: WellFormed(sp) && text == Spell(sp))
    && -I64_MAX < PointAt(TakeApart(text)) <= I64_MAX
  }

  lemma DecimalTextDigits(text: string)
    requires DecimalText(text)
    ensures AllDigits(Raw(TakeApart(text)))
  {
    var sp :| WellFormed(sp) && text == Spell(sp);
    TakeApartSpelled(sp);
  }

  lemma ZeroDenotesZero()
    ensures var p := TakeApart("0"); AllDigits(Raw(p)) && Magnitude(p) == 0.0
  {
    var sp := Spelling(false, "0", "", NoExponent);
    assert Spell(sp) == "0";
    TakeApartSpelled(sp);
    assert "0" + "" == ['0'] + "";
    LeadingZero("");
    ScaledIsInjective(0, 0, 0);
  }

  lemma SignificantValue(s: string)
    requires AllDigits(s)
    ensures Significant(s) ==> Value(s) % 10 != 0
    ensures s == "" ==> Value(s) == 0
  {
    if s != "" {
      LastDigit(Value(s[..|s| - 1]), DigitValue(s[|s| - 1]));
    }
  }

  lemma LastDigit(v: nat, d: nat)
    requires d < 10
    ensures (10 * v + d) % 10 == d
  {
  }

  lemma NoDigitsIffZero(p: Parts)
    requires AllDigits(Raw(p))
    ensures Digits(p) == "" <==> Magnitude(p) == 0.0
  {
    var s, n := Digits(p), PointAt(p);
    StripKeepsValue(p);
    SignificantValue(s);
    ScaledIsInjective(Value(s), 0, n - |s|);
  }

  /** `q` denotes what `p` denotes. */
  ghost predicate SameNumber(p: Parts, q: Parts)
    requires AllDigits(Raw(p))
  {
    && AllDigits(Raw(q)) && Magnitude(q) == Magnitude(p)
    && (Magnitude(p) != 0.0 ==> q.neg == p.neg)
  }

  lemma PlacedIsSameNumber(p: Parts, s: string, n: int)
    requires AllDigits(Raw(p)) && Significant(s) && -I64_MAX < n <= I64_MAX
    requires Magnitude(p) == Scaled(Value(s), n - |s|)
    ensures SameNumber(p, TakeApart(Signed(p.neg, s, n)))
  {
    PlacedDenotes(p.neg, s, n);
  }

  lemma FormatPartsDenotes(p: Parts)
    requires AllDigits(Raw(p)) && -I64_MAX < PointAt(p) <= I64_MAX
    ensures SameNumber(p, TakeApart(FormatParts(p)))
  {
    if Digits(p) == "" {
      NoDigitsIffZero(p);
      ZeroDenotesZero();
    } else {
      StripKeepsValue(p);
      PlacedIsSameNumber(p, Digits(p), PointAt(p));
    }
  }

  /** The printed text denotes the same number as the text it was made from. */
  lemma FormatPreservesValue(text: string)
    requires DecimalText(text)
    ensures Numeric(Format(text)) == Numeric(text)
  {
    DecimalTextDigits(text);
    FormatPartsDenotes(TakeApart(text));
  }

  // ----- One number, one text -----------------------------------------------------

  lemma {:induction false} NoLeadingZeroMeansDec(s: string)
    requires AllDigits(s) && s != "" && s[0] != '0'
    ensures s == Dec(Value(s)) && Value(s) > 0
  {
    if |s| == 1 {
      assert s[..0] == "";
      assert s == [s[0]];
    } else {
      NoLeadingZeroMeansDec(s[..|s| - 1]);
      assert s == s[..|s| - 1] + [s[|s| - 1]];
    }
  }

  /** Normalised digits and point position are determined by the number. */
  lemma NormalFormUnique(s: string, n: int, t: string, m: int)
    requires Significant(s) && Significant(t)
    requires Scaled(Value(s), n - |s|) == Scaled(Value(t), m - |t|)
    ensures s == t && n == m
  {
    var e, f := n - |s|, m - |t|;
    SignificantValue(s);
    SignificantValue(t);
    if e < f {
      HigherScaleHasZeros(Value(s), e, Value(t), f);
    } else if f < e {
      HigherScaleHasZeros(Value(t), f, Value(s), e);
    }
    ScaledIsInjective(Value(s), Value(t), e);
    NoLeadingZeroMeansDec(s);
    NoLeadingZeroMeansDec(t);
  }

  lemma SameMagnitudeSameText(p: Parts, q: Parts)
    requires AllDigits(Raw(p)) && AllDigits(Raw(q))
    requires Magnitude(p) == Magnitude(q) != 0.0 && p.neg == q.neg
    ensures FormatParts(p) == FormatParts(q)
  {
    StripKeepsValue(p);
    StripKeepsValue(q);
    NoDigitsIffZero(p);
    NoDigitsIffZero(q);
    NormalFormUnique(Digits(p), PointAt(p), Digits(q), PointAt(q));
  }

  lemma MagnitudeIsNonNegative(p: Parts)
    requires AllDigits(Raw(p))
    ensures Magnitude(p) >= 0.0
  {
    ScaledIsInjective(Value(Raw(p)), 0, p.exp - |p.frac|);
  }

  /** Two spellings print alike exactly when they denote the same number. */
  lemma PrintsAlikeIff(a: string, b: string)
    requires DecimalText(a) && DecimalText(b)
    ensures Format(a) == Format(b) <==> Numeric(a) == Numeric(b)
  {
    FormatPreservesValue(a);
    FormatPreservesValue(b);
    if Numeric(a) == Numeric(b) {
      var p, q := TakeApart(a), TakeApart(b);
      DecimalTextDigits(a);
      DecimalTextDigits(b);
      MagnitudeIsNonNegative(p);
      MagnitudeIsNonNegative(q);
      if Magnitude(p) == 0.0 {
        NoDigitsIffZero(p);
        NoDigitsIffZero(q);
      } else {
        SameMagnitudeSameText(p, q);
      }
    }
  }

  // ----- The layout ---------------------------------------------------------------

  /** The layout ECMA-262 prescribes: plain up to 21 places, down to five zeros after
      the point, and otherwise one digit before the point and a signed exponent. */
  ghost predicate EsLayout(sp: Spelling) {
    && WellFormed(sp)
    && (sp.frac != "" ==> sp.frac[|sp.frac| - 1] != '0')
    && (match sp.exp
        case NoExponent =>
          && |sp.whole| <= 21
          && (sp.whole[0] == '0' ==> sp.whole == "0" && sp.frac != "" && exists i :: 0 <= i < 6 && i < |sp.frac| && sp.frac[i] != '0')
        case Exponent(marker, sign, digits) =>
          && |sp.whole| == 1 && sp.whole != "0"
          && marker == 'e' && digits[0] != '0'
          && ((sign == "+" && Value(digits) >= 21) || (sign == "-" && Value(digits) >= 7)))
  }

  lemma PlacedHasEsLayout(neg: bool, s: string, n: int)
    requires Significant(s) && -I64_MAX < n <= I64_MAX
    ensures EsLayout(PlacedSpelling(neg, s, n))
  {
    PlacedIsWellFormed(neg, s, n);
    var sp := PlacedSpelling(neg, s, n);
    if |s| <= n <= 21 {
      assert sp.whole[0] == s[0];
    } else if 0 < n <= 21 {
      assert sp.whole[0] == s[0] && sp.frac[|sp.frac| - 1] == s[|s| - 1];
    } else if -6 < n <= 0 {
      assert sp.frac[-n] == s[0] && sp.frac[|sp.frac| - 1] == s[|s| - 1];
    } else {
      ExponentHasEsLayout(neg, s, n);
    }
  }

  lemma ExponentHasEsLayout(neg: bool, s: string, n: int)
    requires Significant(s) && -I64_MAX < n <= I64_MAX && (n <= -6 || 21 < n)
    requires WellFormed(PlacedSpelling(neg, s, n))
    ensures EsLayout(PlacedSpelling(neg, s, n))
  {
    var sp := PlacedSpelling(neg, s, n);
    DecReadsBack(if n >= 1 then n - 1 else 1 - n);
    assert sp.whole == [s[0]];
    assert sp.frac != "" ==> sp.frac[|sp.frac| - 1] == s[|s| - 1];
  }

  /** Whatever is printed is "0" or has exactly that layout. */
  lemma FormatHasEsLayout(text: string)
    requires DecimalText(text)
    ensures Format(text) == "0" || exists sp :: EsLayout(sp) && Format(text) == Spell(sp)
  {
    var p := TakeApart(text);
    DecimalTextDigits(text);
    StripKeepsValue(p);
    if Digits(p) != "" {
      PlacedIsSpelled(p.neg, Digits(p), PointAt(p));
      PlacedHasEsLayout(p.neg, Digits(p), PointAt(p));
    }
  }

  /** The number grammar of JSON (section 6 of RFC 8259): no leading zero, a digit on
      both sides of any point, and an exponent with digits. */
  ghost predicate JsonNumber(s: string) {
    exists sp :: WellFormed(sp) && (sp.whole[0] == '0' ==> sp.whole == "0") && s == Spell(sp)
  }

  /** Nothing that ends a value inside a document, and no line break. */
  ghost predicate NoDelimiter(s: string) {
    forall i :: 0 <= i < |s| ==> s[i] !in {',', ']', '}', '\n'}
  }

  lemma NoDelimiterConcat(a: string, b: string)
    requires NoDelimiter(a) && NoDelimiter(b)
    ensures NoDelimiter(a + b)
  {
  }

  lemma SpellingCharacters(sp: Spelling)
    requires WellFormed(sp)
    ensures var s := Spell(sp); s != "" && (IsDigit(s[0]) || s[0] == '-') && NoDelimiter(s)
  {
    var sign, mantissa, exp := if sp.neg then "-" else "", Mantissa(sp.whole, sp.frac), SpellExponent(sp.exp);
    assert Spell(sp)[0] == if sp.neg then '-' else sp.whole[0];
    NoDelimiterConcat(sp.whole, ".");
    NoDelimiterConcat(sp.whole + ".", sp.frac);
    if sp.exp.Exponent? {
      NoDelimiterConcat([sp.exp.marker], sp.exp.sign);
      NoDelimiterConcat([sp.exp.marker] + sp.exp.sign, sp.exp.digits);
    }
    NoDelimiterConcat(mantissa, exp);
    NoDelimiterConcat(sign, mantissa + exp);
  }

  /** A JSON number starts like one and holds no delimiter of JSON. */
  lemma JsonNumberCharacters(s: string)
    requires JsonNumber(s)
    ensures s != "" && (IsDigit(s[0]) || s[0] == '-')
    ensures NoDelimiter(s)
  {
    var sp :| WellFormed(sp) && s == Spell(sp);
    SpellingCharacters(sp);
  }

  /** What is printed is a JSON number. */
  lemma FormatIsJsonNumber(text: string)
    requires DecimalText(text)
    ensures JsonNumber(Format(text))
  {
    FormatHasEsLayout(text);
    if Format(text) == "0" {
      assert Spell(Spelling(false, "0", "", NoExponent)) == "0";
    }
  }

  // ----- Integers -----------------------------------------------------------------

  function IntegerSpelling(i: int): Spelling {
    Spelling(i < 0, Dec(if i < 0 then -i else i), "", NoExponent)
  }

  /** A printed integer is a decimal spelling, and a JSON number. */
  lemma IntegerIsSpelled(i: int)
    ensures WellFormed(IntegerSpelling(i)) && DecInt(i) == Spell(IntegerSpelling(i)) && JsonNumber(DecInt(i))
  {
    var sp := IntegerSpelling(i);
    DecReadsBack(if i < 0 then -i else i);
    assert Mantissa(sp.whole, sp.frac) + SpellExponent(sp.exp) == sp.whole;
    assert sp.whole[0] == '0' ==> sp.whole == "0";
  }

  function Pow10(k: nat): nat {
    if k == 0 then 1 else 10 * Pow10(k - 1)
  }

  lemma {:induction false} DecIsShort(n: nat, k: nat)
    requires n < Pow10(k)
    ensures k > 0 ==> |Dec(n)| <= k
  {
    if k > 1 && n >= 10 {
      DecIsShort(n / 10, k - 1);
    }
  }

  /** Every machine integer prints in at most twenty digits. */
  lemma MachineIntegerIsShort(n: nat)
    requires n <= U64_MAX
    ensures |Dec(n)| <= 20
  {
    assert Pow10(10) == 10_000_000_000;
    assert Pow10(20) == 100_000_000_000_000_000_000;
    DecIsShort(n, 20);
  }

  lemma {:induction false} TrimLeftStops(s: string)
    requires s != "" && s[0] != '0'
    ensures TrimLeft(s) == s
  {
  }

  lemma AllZerosStartWithZero(s: string, n: nat)
    requires s != "" && s[0] != '0' && n <= |s|
    ensures s != "" + Zeros(n)
  {
    assert n > 0 ==> ("" + Zeros(n))[0] == '0';
  }

  /** A whole number of at most twenty digits stands as it is: its digits are printed
      with their trailing zeros put back. */
  lemma WholeStands(p: Parts)
    requires p.whole != "" && p.whole[0] != '0' && AllDigits(p.whole) && p.frac == "" && p.exp == 0 && |p.whole| <= 20
    ensures FormatParts(p) == (if p.neg then "-" else "") + p.whole
    ensures PointAt(p) == |p.whole|
  {
    assert Raw(p) == p.whole;
    TrimLeftStops(p.whole);
    TrimRightPeels(p.whole);
    assert Digits(p) == TrimRight(p.whole);
    AllZerosStartWithZero(p.whole, |p.whole| - |Digits(p)|);
    assert Placed(Digits(p), |p.whole|) == p.whole;
  }

  lemma ZeroStands(p: Parts)
    requires p.whole == "0" && p.frac == "" && p.exp == 0
    ensures FormatParts(p) == "0" && PointAt(p) == 0
  {
    assert Raw(p) == "0" && "0"[1..] == "";
    assert TrimLeft("0") == "";
  }

  lemma PlainPartsStand(i: int, p: Parts)
    requires -U64_MAX <= i <= U64_MAX && p == Parts(i < 0, Dec(if i < 0 then -i else i), "", 0)
    ensures FormatParts(p) == DecInt(i) && -I64_MAX < PointAt(p) <= I64_MAX
    ensures AllDigits(Raw(p)) && Magnitude(p) == (if i < 0 then -i else i) as real
  {
    var n: nat := if i < 0 then -i else i;
    DecReadsBack(n);
    MachineIntegerIsShort(n);
    assert Raw(p) == p.whole;
    if n == 0 {
      ZeroStands(p);
    } else {
      WholeStands(p);
    }
  }

  /** A printed machine integer denotes that integer, and re-printing does not touch it. */
  lemma IntegerStands(i: int)
    requires -U64_MAX <= i <= U64_MAX
    ensures DecimalText(DecInt(i)) && Format(DecInt(i)) == DecInt(i) && Numeric(DecInt(i)) == i as real
  {
    IntegerIsSpelled(i);
    TakeApartSpelled(IntegerSpelling(i));
    PlainPartsStand(i, TakeApart(DecInt(i)));
  }

  /** An integer and a decimal text print alike exactly when they are the same number. */
  lemma IntegerPrintsAlikeIff(i: int, text: string)
    requires -U64_MAX <= i <= U64_MAX && DecimalText(text)
    ensures DecInt(i) == Format(text) <==> i as real == Numeric(text)
  {
    IntegerStands(i);
    PrintsAlikeIff(DecInt(i), text);
  }
}
