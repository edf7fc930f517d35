/** The lexical half of RFC 8785: string escaping (section 3.2.2.2) and the order of
    member names by UTF-16 code units (section 3.2.3). */
module JcsText {
  import opened Basics
  import opened Decimal
  import opened Sorting

  // ----- Strings ----------------------------------------------------------------

  /** The two-character escapes, by their second character. */
  function Shorthand(c: char): Option<char> {
    if c == '"' || c == '\\' then Some(c)
    else if c == '\U{8}' then Some('b')
    else if c == '\U{9}' then Some('t')
    else if c == '\U{A}' then Some('n')
    else if c == '\U{C}' then Some('f')
    else if c == '\U{D}' then Some('r')
    else None
  }

  /** One character as the serialiser writes it inside quotes. */
  function EscapeChar(c: char): string {
    if Shorthand(c).Some? then ['\\', Shorthand(c).value]
    else if c < ' ' then ['\\', 'u', '0', '0', HexDigit(c as int / 16), HexDigit(c as int % 16)]
    else [c]
  }

  function Escaped(s: string): string {
    if s == "" then "" else EscapeChar(s[0]) + Escaped(s[1..])
  }

  function Quoted(s: string): string {
    ['"'] + Escaped(s) + ['"']
  }

  lemma ControlPrefixFree(c: char, x: string, d: char, y: string)
    requires c < ' ' && d < ' '
    requires [HexDigit(c as int / 16), HexDigit(c as int % 16)] + x == [HexDigit(d as int / 16), HexDigit(d as int % 16)] + y
    ensures c == d && x == y
  {
    var a, b := [HexDigit(c as int / 16), HexDigit(c as int % 16)] + x, [HexDigit(d as int / 16), HexDigit(d as int % 16)] + y;
    assert a[0] == b[0] && a[1] == b[1] && a[2..] == x && b[2..] == y;
    HexDigitInjective(c as int / 16, d as int / 16);
    HexDigitInjective(c as int % 16, d as int % 16);
  }

  /** An escaped character shows where it ends. */
  lemma EscapeCharPrefixFree(c: char, x: string, d: char, y: string)
    requires EscapeChar(c) + x == EscapeChar(d) + y
    ensures c == d && x == y
  {
    var a, b := EscapeChar(c) + x, EscapeChar(d) + y;
    assert a[0] == b[0] && EscapeChar(c)[0] == EscapeChar(d)[0];
    if |EscapeChar(c)| == 1 || |EscapeChar(d)| == 1 {
      assert a[1..] == x && b[1..] == y;
    } else {
      assert a[1] == b[1] && EscapeChar(c)[1] == EscapeChar(d)[1];
      if Shorthand(c).Some? {
        assert a[2..] == x && b[2..] == y;
      } else {
        assert Shorthand(d).None? by {
          if Shorthand(d).Some? {
          }
        }
        assert a[4..] == [HexDigit(c as int / 16), HexDigit(c as int % 16)] + x;
        assert b[4..] == [HexDigit(d as int / 16), HexDigit(d as int % 16)] + y;
        ControlPrefixFree(c, x, d, y);
      }
    }
  }

  lemma EscapedStartsOff(s: string, x: string)
    requires s != ""
    ensures Escaped(s) + ['"'] + x == EscapeChar(s[0]) + (Escaped(s[1..]) + ['"'] + x)
    ensures (Escaped(s) + ['"'] + x)[0] != '"'
  {
    var e, rest := EscapeChar(s[0]), Escaped(s[1..]);
    assert e + rest + ['"'] + x == e + (rest + ['"'] + x);
    assert (e + (rest + ['"'] + x))[0] == e[0];
  }

  /** Quoted strings are prefix-free and injective: reading one leaves no choice. */
  lemma {:induction false} EscapedPrefixFree(s: string, x: string, t: string, y: string)
    requires Escaped(s) + ['"'] + x == Escaped(t) + ['"'] + y
    ensures s == t && x == y
  {
    if s == "" || t == "" {
      if s != "" {
        EscapedStartsOff(s, x);
      }
      if t != "" {
        EscapedStartsOff(t, y);
      }
      assert (Escaped(s) + ['"'] + x)[0] == (Escaped(t) + ['"'] + y)[0];
      assert (Escaped(s) + ['"'] + x)[1..] == x && (Escaped(t) + ['"'] + y)[1..] == y;
    } else {
      EscapedStartsOff(s, x);
      EscapedStartsOff(t, y);
      EscapeCharPrefixFree(s[0], Escaped(s[1..]) + ['"'] + x, t[0], Escaped(t[1..]) + ['"'] + y);
      EscapedPrefixFree(s[1..], x, t[1..], y);
      assert s == [s[0]] + s[1..] && t == [t[0]] + t[1..];
    }
  }

  lemma QuotedPrefixFree(s: string, x: string, t: string, y: string)
    requires Quoted(s) + x == Quoted(t) + y
    ensures s == t && x == y
  {
    assert (Quoted(s) + x)[1..] == Escaped(s) + ['"'] + x;
    assert (Quoted(t) + y)[1..] == Escaped(t) + ['"'] + y;
    EscapedPrefixFree(s, x, t, y);
  }

  // ----- Member-name order --------------------------------------------------------

  /** The UTF-16 code units of one character. */
  function Units(c: char): seq<int> {
    var n := c as int;
    if n < 0x10000 then [n]
    else [0xD800 + (n - 0x10000) / 0x400, 0xDC00 + (n - 0x10000) % 0x400]
  }

  function Utf16(s: string): seq<int> {
    if s == "" then [] else Units(s[0]) + Utf16(s[1..])
  }

  /** Lexicographic order of code units. */
  predicate LexLe(a: seq<int>, b: seq<int>) {
    if a == [] then true
    else if b == [] then false
    else a[0] < b[0] || (a[0] == b[0] && LexLe(a[1..], b[1..]))
  }

  predicate KeyLe(a: string, b: string) {
    LexLe(Utf16(a), Utf16(b))
  }

  /** UTF-16: a code point below 0x10000 is one unit, any other a high and a low
      surrogate that together spell it. */
  lemma UnitsAreUtf16(c: char)
    ensures var n, u := c as int, Units(c);
            if n < 0x10000 then u == [n]
            else |u| == 2 && 0xD800 <= u[0] < 0xDC00 <= u[1] < 0xE000
                 && n == 0x10000 + 0x400 * (u[0] - 0xD800) + (u[1] - 0xDC00)
  {
  }

  lemma {:induction false} Utf16Joins(s: string, t: string)
    ensures Utf16(s + t) == Utf16(s) + Utf16(t)
    ensures |t| == 1 ==> Utf16(t) == Units(t[0])
  {
    if s == "" {
      assert s + t == t;
    } else {
      assert (s + t)[1..] == s[1..] + t;
      Utf16Joins(s[1..], t);
    }
  }

  /** `a` and `b` first differ at `i`, and `a` has the smaller unit there. */
  ghost predicate SmallerAt(a: seq<int>, b: seq<int>, i: nat) {
    && i < |a| && i < |b| && a[i] < b[i]
    && forall k :: 0 <= k < i ==> a[k] == b[k]
  }

  /** Where the name `a` stands before or at `b`: its code units are a prefix of the
      other's, or smaller at the first difference. */
  ghost predicate NameLe(a: string, b: string) {
    Utf16(a) <= Utf16(b) || exists i: nat :: SmallerAt(Utf16(a), Utf16(b), i)
  }

  lemma {:induction false} LexLeIsFirstDifference(a: seq<int>, b: seq<int>)
    ensures LexLe(a, b) <==> a <= b || exists i: nat :: SmallerAt(a, b, i)
  {
    if a != [] && b != [] {
      LexLeIsFirstDifference(a[1..], b[1..]);
      if a[0] < b[0] {
        assert SmallerAt(a, b, 0);
      }
      if a[0] == b[0] {
        assert a[1..] <= b[1..] <==> a <= b;
        forall i: nat
          ensures SmallerAt(a[1..], b[1..], i) <==> SmallerAt(a, b, i + 1)
        {
          assert SmallerAt(a[1..], b[1..], i) ==> forall k :: 0 < k <= i ==> a[k] == a[1..][k - 1] == b[1..][k - 1] == b[k];
          assert SmallerAt(a, b, i + 1) ==> forall k :: 0 <= k < i ==> a[1..][k] == a[k + 1] == b[k + 1] == b[1..][k];
        }
        if i: nat :| SmallerAt(a, b, i) {
          assert i > 0;
          assert SmallerAt(a[1..], b[1..], i - 1);
        }
        if i: nat :| SmallerAt(a[1..], b[1..], i) {
          assert SmallerAt(a, b, i + 1);
        }
      }
    }
  }

  /** The comparison of member names is the order of their code units. */
  lemma KeyLeIsUnitOrder(a: string, b: string)
    ensures KeyLe(a, b) <==> NameLe(a, b)
  {
    LexLeIsFirstDifference(Utf16(a), Utf16(b));
  }

  lemma UnitsPrefixFree(c: char, x: seq<int>, d: char, y: seq<int>)
    requires Units(c) + x == Units(d) + y
    ensures c == d && x == y
  {
    var a, b := Units(c), Units(d);
    assert a[0] == (a + x)[0] == (b + y)[0] == b[0];
    if |a| > 1 && |b| > 1 {
      assert a[1] == (a + x)[1] == (b + y)[1] == b[1];
    }
    assert c as int == d as int;
    assert (a + x)[|a|..] == x && (b + y)[|b|..] == y;
  }

  lemma {:induction false} Utf16Injective(s: string, t: string)
    requires Utf16(s) == Utf16(t)
    ensures s == t
  {
    if s != "" && t != "" {
      UnitsPrefixFree(s[0], Utf16(s[1..]), t[0], Utf16(t[1..]));
      Utf16Injective(s[1..], t[1..]);
      assert s == [s[0]] + s[1..] && t == [t[0]] + t[1..];
    } else {
      assert |Utf16(s)| == 0 <==> s == "";
      assert |Utf16(t)| == 0 <==> t == "";
    }
  }

  lemma {:induction false} LexTotal(a: seq<int>, b: seq<int>)
    ensures LexLe(a, b) || LexLe(b, a)
    ensures LexLe(a, b) && LexLe(b, a) ==> a == b
  {
    if a != [] && b != [] {
      LexTotal(a[1..], b[1..]);
      assert a == [a[0]] + a[1..] && b == [b[0]] + b[1..];
    }
  }

  lemma {:induction false} LexTransitive(a: seq<int>, b: seq<int>, c: seq<int>)
    requires LexLe(a, b) && LexLe(b, c)
    ensures LexLe(a, c)
  {
    if a != [] && a[0] == b[0] == c[0] {
      LexTransitive(a[1..], b[1..], c[1..]);
    }
  }

  /** Sorting by code units is a total order on member names: it never ties two. */
  lemma KeyLeIsTotalOrder()
    ensures TotalPreorder(KeyLe)
    ensures forall a, b :: KeyLe(a, b) && KeyLe(b, a) ==> a == b
  {
    forall a, b
      ensures KeyLe(a, b) || KeyLe(b, a)
      ensures KeyLe(a, b) && KeyLe(b, a) ==> a == b
    {
      LexTotal(Utf16(a), Utf16(b));
      if KeyLe(a, b) && KeyLe(b, a) {
        Utf16Injective(a, b);
      }
    }
    forall a, b, c | KeyLe(a, b) && KeyLe(b, c)
      ensures KeyLe(a, c)
    {
      LexTransitive(Utf16(a), Utf16(b), Utf16(c));
    }
  }
}
