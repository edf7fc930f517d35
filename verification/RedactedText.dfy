/** Redaction and UTF-8 (`crates/core/src/dlp.rs`): the byte test for a character boundary
    is right on every text, and a text stays a text whatever is redacted in it. */
module RedactedText {
  import opened Basics
  import opened Sorting
  import opened Redaction

  type codepoint = c: int | 0 <= c < 0x11_0000

  /** A character encoding, and a text in it. */
  type Encoding = codepoint -> seq<byte>

  /** The UTF-8 form of one character (section 3 of RFC 3629). */
  function Utf8(c: codepoint): seq<byte> {
    if c < 0x80 then [c]
    else if c < 0x800 then [0xC0 + c / 0x40, 0x80 + c % 0x40]
    else if c < 0x1_0000 then [0xE0 + c / 0x1000, 0x80 + c / 0x40 % 0x40, 0x80 + c % 0x40]
    else [0xF0 + c / 0x4_0000, 0x80 + c / 0x1000 % 0x40, 0x80 + c / 0x40 % 0x40, 0x80 + c % 0x40]
  }

  /** Of the bytes of a character only the first is not a continuation byte. */
  ghost predicate IsCharacter(u: seq<byte>) {
    && u != [] && !(0x80 <= u[0] < 0xC0)
    && forall i :: 0 < i < |u| ==> 0x80 <= u[i] < 0xC0
  }

  /** A self-synchronising encoding, with ASCII as it is. */
  ghost predicate Synchronises(enc: Encoding) {
    && (forall c: codepoint :: IsCharacter(enc(c)))
    && (forall c: codepoint :: c < 0x80 ==> enc(c) == [c])
  }

  lemma Utf8Synchronises()
    ensures Synchronises(Utf8)
  {
    forall c: codepoint
      ensures IsCharacter(Utf8(c))
    {
    }
  }

  function Encode(enc: Encoding, cs: seq<codepoint>): seq<byte> {
    if cs == [] then [] else Encode(enc, cs[..|cs| - 1]) + enc(cs[|cs| - 1])
  }

  /** Position `i` is where some number of whole characters end. */
  ghost predicate BetweenCharacters(enc: Encoding, cs: seq<codepoint>, i: nat) {
    exists k :: 0 <= k <= |cs| && |Encode(enc, cs[..k])| == i
  }

  lemma {:induction false} EncodeJoins(enc: Encoding, a: seq<codepoint>, b: seq<codepoint>)
    ensures Encode(enc, a + b) == Encode(enc, a) + Encode(enc, b)
  {
    if b == [] {
      assert a + b == a;
    } else {
      EncodeJoins(enc, a, b[..|b| - 1]);
      assert (a + b)[..|a + b| - 1] == a + b[..|b| - 1];
    }
  }

  lemma PrefixOfLonger(enc: Encoding, init: seq<codepoint>, c: codepoint, k: nat)
    requires k <= |init| + 1
    ensures Encode(enc, (init + [c])[..k]) == if k <= |init| then Encode(enc, init[..k]) else Encode(enc, init) + enc(c)
  {
    if k <= |init| {
      assert (init + [c])[..k] == init[..k];
    } else {
      assert (init + [c])[..k] == init + [c];
      assert (init + [c])[..|init|] == init;
    }
  }

  lemma BetweenInLonger(enc: Encoding, init: seq<codepoint>, c: codepoint, i: nat)
    ensures BetweenCharacters(enc, init + [c], i)
            <==> BetweenCharacters(enc, init, i) || i == |Encode(enc, init)| + |enc(c)|
  {
    var cs, n := init + [c], |init|;
    PrefixOfLonger(enc, init, c, n + 1);
    if BetweenCharacters(enc, cs, i) {
      var k :| 0 <= k <= |cs| && |Encode(enc, cs[..k])| == i;
      PrefixOfLonger(enc, init, c, k);
    }
    if BetweenCharacters(enc, init, i) {
      var k :| 0 <= k <= n && |Encode(enc, init[..k])| == i;
      PrefixOfLonger(enc, init, c, k);
    }
  }

  lemma {:induction false} BetweenIsWithin(enc: Encoding, cs: seq<codepoint>, i: nat)
    requires BetweenCharacters(enc, cs, i)
    ensures i <= |Encode(enc, cs)|
  {
    var k :| 0 <= k <= |cs| && |Encode(enc, cs[..k])| == i;
    EncodeJoins(enc, cs[..k], cs[k..]);
    assert cs[..k] + cs[k..] == cs;
  }

  lemma BoundaryInLonger(s: seq<byte>, u: seq<byte>, i: nat)
    requires IsCharacter(u)
    ensures IsBoundary(s + u, i) <==> IsBoundary(s, i) || i == |s| + |u|
  {
    assert i < |s| ==> (s + u)[i] == s[i];
    assert |s| <= i < |s| + |u| ==> (s + u)[i] == u[i - |s|];
  }

  lemma {:induction false} BoundariesOf(enc: Encoding, cs: seq<codepoint>, i: nat)
    requires Synchronises(enc)
    ensures IsBoundary(Encode(enc, cs), i) <==> BetweenCharacters(enc, cs, i)
  {
    if cs == [] {
      assert cs[..0] == [];
      assert BetweenCharacters(enc, cs, 0);
    } else {
      var init, c := cs[..|cs| - 1], cs[|cs| - 1];
      assert cs == init + [c];
      BoundariesOf(enc, init, i);
      BetweenInLonger(enc, init, c, i);
      BoundaryInLonger(Encode(enc, init), enc(c), i);
    }
  }

  /** A finding is applied to a UTF-8 text exactly when it covers whole characters of it. */
  lemma FitsIffWholeCharacters(cs: seq<codepoint>, f: Finding)
    ensures Fits(Encode(Utf8, cs), f) <==> BetweenCharacters(Utf8, cs, f.start) && BetweenCharacters(Utf8, cs, f.end)
  {
    Utf8Synchronises();
    BoundariesOf(Utf8, cs, f.start);
    BoundariesOf(Utf8, cs, f.end);
    if BetweenCharacters(Utf8, cs, f.end) {
      BetweenIsWithin(Utf8, cs, f.end);
    }
  }

  // ---- the tag ----

  predicate IsAscii(s: string) {
    forall i :: 0 <= i < |s| ==> s[i] < '\U{80}'
  }

  function Ascii(s: string): seq<codepoint>
    requires IsAscii(s)
  {
    seq(|s|, i requires 0 <= i < |s| => s[i] as int)
  }

  lemma {:induction false} AsciiIsItself(enc: Encoding, s: string)
    requires Synchronises(enc) && IsAscii(s)
    ensures Encode(enc, Ascii(s)) == Ascii(s)
  {
    if s != "" {
      var init := s[..|s| - 1];
      AsciiIsItself(enc, init);
      assert Ascii(s)[..|s| - 1] == Ascii(init);
      assert Ascii(s) == Ascii(init) + [s[|s| - 1] as int];
    }
  }

  lemma TagBytes(kind: seq<byte>)
    ensures Tag(kind) == Ascii("[REDACTED:") + kind + Ascii("]")
  {
    assert Ascii("[REDACTED:") == [91, 82, 69, 68, 65, 67, 84, 69, 68, 58];
    assert Ascii("]") == [93];
  }

  /** The tag of a kind is the text `[REDACTED:kind]`. */
  lemma TagIsText(enc: Encoding, kind: seq<codepoint>)
    requires Synchronises(enc)
    ensures Tag(Encode(enc, kind)) == Encode(enc, Ascii("[REDACTED:") + kind + Ascii("]"))
  {
    var opening, closing := Ascii("[REDACTED:"), Ascii("]");
    TagBytes(Encode(enc, kind));
    AsciiIsItself(enc, "[REDACTED:");
    AsciiIsItself(enc, "]");
    EncodeJoins(enc, opening, kind);
    EncodeJoins(enc, opening + kind, closing);
  }

  // ---- redaction keeps text ----

  ghost predicate IsText(enc: Encoding, s: seq<byte>) {
    exists cs :: Encode(enc, cs) == s
  }

  lemma SplitsBetween(enc: Encoding, cs: seq<codepoint>, i: nat) returns (k: nat)
    requires BetweenCharacters(enc, cs, i)
    ensures k <= |cs| && i <= |Encode(enc, cs)|
    ensures Encode(enc, cs)[..i] == Encode(enc, cs[..k]) && Encode(enc, cs)[i..] == Encode(enc, cs[k..])
  {
    k :| 0 <= k <= |cs| && |Encode(enc, cs[..k])| == i;
    EncodeJoins(enc, cs[..k], cs[k..]);
    assert cs[..k] + cs[k..] == cs;
  }

  lemma PutTogether(enc: Encoding, head: seq<codepoint>, tag: seq<codepoint>, tail: seq<codepoint>)
    ensures IsText(enc, Encode(enc, head) + Encode(enc, tag) + Encode(enc, tail))
  {
    EncodeJoins(enc, head, tag);
    EncodeJoins(enc, head + tag, tail);
  }

  lemma Replaced(enc: Encoding, cs: seq<codepoint>, tag: seq<codepoint>, start: nat, end: nat, s: seq<byte>, bytes: seq<byte>)
    requires s == Encode(enc, cs) && bytes == Encode(enc, tag)
    requires BetweenCharacters(enc, cs, start) && BetweenCharacters(enc, cs, end)
    ensures start <= |s| && end <= |s| && IsText(enc, s[..start] + bytes + s[end..])
  {
    var a := SplitsBetween(enc, cs, start);
    var b := SplitsBetween(enc, cs, end);
    PutTogether(enc, cs[..a], tag, cs[b..]);
  }

  lemma EditKeepsText(enc: Encoding, s: seq<byte>, f: Finding)
    requires Synchronises(enc) && IsText(enc, s) && IsText(enc, f.kind)
    ensures IsText(enc, Edit(s, f))
  {
    if f.start <= f.end && Fits(s, f) {
      var cs :| Encode(enc, cs) == s;
      var kind :| Encode(enc, kind) == f.kind;
      BoundariesOf(enc, cs, f.start);
      BoundariesOf(enc, cs, f.end);
      TagIsText(enc, kind);
      Replaced(enc, cs, Ascii("[REDACTED:") + kind + Ascii("]"), f.start, f.end, s, Tag(f.kind));
    }
  }

  lemma {:induction false} EditsKeepText(enc: Encoding, text: seq<byte>, ordered: seq<Finding>)
    requires Synchronises(enc) && IsText(enc, text) && forall f :: f in ordered ==> IsText(enc, f.kind)
    ensures IsText(enc, Edits(text, ordered))
  {
    if ordered != [] {
      var init, f := ordered[..|ordered| - 1], ordered[|ordered| - 1];
      assert ordered == init + [f];
      EditsKeepText(enc, text, init);
      assert f in ordered;
      EditKeepsText(enc, Edits(text, init), f);
    }
  }

  /** Redaction never cuts a character: whatever the findings, overlapping or not, a UTF-8
      text comes out as a UTF-8 text. */
  lemma RedactionKeepsText(text: seq<byte>, findings: seq<Finding>)
    requires IsText(Utf8, text) && forall f :: f in findings ==> IsText(Utf8, f.kind)
    ensures IsText(Utf8, Redacted(text, findings))
  {
    Utf8Synchronises();
    SortKeeps(Rightmost, findings);
    EditsKeepText(Utf8, text, Sort(Rightmost, findings));
  }
}
