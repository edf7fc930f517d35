/** A reader for compact JSON, written from the grammar of RFC 8259 and not from the
    writer. It fixes what the writer's texts mean: the canonical text of a value reads
    back as that value. */
module JsonReader {
  import opened Basics
  import opened Decimal
  import opened EsNumber
  import opened Sorting
  import opened JcsText
  import opened Jcs

  datatype Read<T> = Failed | Got(value: T, rest: string)

  // ----- Strings (section 7 of RFC 8259) ------------------------------------------

  /** What the character after a backslash stands for. */
  function Meaning(c: char): Option<char> {
    match c
    case '"' => Some('"')
    case '\\' => Some('\\')
    case '/' => Some('/')
    case 'b' => Some('\U{0008}')
    case 'f' => Some('\U{000C}')
    case 'n' => Some('\U{000A}')
    case 'r' => Some('\U{000D}')
    case 't' => Some('\U{0009}')
    case _ => None
  }

  function HexValue(c: char): Option<nat> {
    if '0' <= c <= '9' then Some((c - '0') as nat)
    else if 'a' <= c <= 'f' then Some(10 + (c - 'a') as nat)
    else if 'A' <= c <= 'F' then Some(10 + (c - 'A') as nat)
    else None
  }

  /** Four hexadecimal digits. */
  function Hex4(s: string): Option<nat>
    requires |s| == 4
  {
    var a, b, c, d := HexValue(s[0]), HexValue(s[1]), HexValue(s[2]), HexValue(s[3]);
    if a.None? || b.None? || c.None? || d.None? then None
    else Some(0x1000 * a.value + 0x100 * b.value + 0x10 * c.value + d.value)
  }

  function ReadEscape(text: string): (r: Read<char>)
    requires text != ""
    ensures r.Got? ==> |r.rest| < |text|
  {
    if |text| >= 6 && text[1] == 'u' then
      var code := Hex4(text[2..6]);
      if code.None? || 0xD800 <= code.value < 0xE000 || code.value >= 0x10000 then Failed
      else Got(code.value as char, text[6..])
    else if |text| >= 2 && Meaning(text[1]).Some? then Got(Meaning(text[1]).value, text[2..])
    else Failed
  }

  /** One character of a string body. */
  function ReadChar(text: string): (r: Read<char>)
    requires text != ""
    ensures r.Got? ==> |r.rest| < |text|
  {
    if text[0] == '\\' then ReadEscape(text)
    else if text[0] < ' ' || text[0] == '"' then Failed
    else Got(text[0], text[1..])
  }

  /** A string body up to and including the closing quote. */
  function ReadBody(text: string): (r: Read<string>)
    ensures r.Got? ==> |r.rest| < |text|
    decreases |text|
  {
    if text == "" then Failed
    else if text[0] == '"' then Got("", text[1..])
    else
      var c := ReadChar(text);
      if c.Failed? then Failed
      else
        var more := ReadBody(c.rest);
        if more.Failed? then Failed else Got([c.value] + more.value, more.rest)
  }

  lemma HexDigitReads(d: nat)
    requires d < 16
    ensures HexValue(HexDigit(d)) == Some(d)
  {
  }

  lemma CharReadsBack(c: char, x: string)
    ensures EscapeChar(c)[0] != '"'
    ensures ReadChar(EscapeChar(c) + x) == Got(c, x)
  {
    var e := EscapeChar(c);
    var text := e + x;
    assert text[|e|..] == x;
    if Shorthand(c).Some? {
      assert text[0] == '\\' && text[1] == Shorthand(c).value;
    } else if c < ' ' {
      HexDigitReads(c as int / 16);
      HexDigitReads(c as int % 16);
      var s := text[2..6];
      assert s == ['0', '0', HexDigit(c as int / 16), HexDigit(c as int % 16)];
    } else {
      assert text[0] == c;
    }
  }

  /** A quoted string reads back as the string. */
  lemma {:induction false} BodyReadsBack(s: string, x: string)
    ensures ReadBody(Escaped(s) + ['"'] + x) == Got(s, x)
  {
    var text := Escaped(s) + ['"'] + x;
    if s == "" {
      assert text[0] == '"' && text[1..] == x;
    } else {
      EscapedStartsOff(s, x);
      CharReadsBack(s[0], Escaped(s[1..]) + ['"'] + x);
      BodyReadsBack(s[1..], x);
      assert s == [s[0]] + s[1..];
    }
  }

  lemma CharIsShortest(text: string)
    requires text != "" && ReadChar(text).Got?
    ensures |EscapeChar(ReadChar(text).value)| + |ReadChar(text).rest| <= |text|
  {
  }

  /** Nothing is escaped that could stand for itself or be escaped more briefly: no JSON
      string with the same meaning is shorter. */
  lemma {:induction false} QuotedIsShortest(text: string, s: string)
    requires ReadBody(text) == Got(s, "")
    ensures |Quoted(s)| <= 1 + |text|
    decreases |text|
  {
    if text[0] != '"' {
      CharIsShortest(text);
      var c := ReadChar(text);
      var more := ReadBody(c.rest);
      assert s[0] == c.value && s[1..] == more.value;
      QuotedIsShortest(c.rest, s[1..]);
    }
  }

  // ----- Numbers (section 6) --------------------------------------------------------

  predicate NumberChar(c: char) {
    IsDigit(c) || c == '-' || c == '+' || c == '.' || c == 'e' || c == 'E'
  }

  predicate NumberChars(s: string) {
    forall i :: 0 <= i < |s| ==> NumberChar(s[i])
  }

  /** How far a number starting here can reach. */
  function NumberSpan(text: string): (n: nat)
    ensures n <= |text|
  {
    if text != "" && NumberChar(text[0]) then 1 + NumberSpan(text[1..]) else 0
  }

  lemma {:induction false} SpanStopsAt(s: string, r: string)
    requires NumberChars(s) && (r == "" || !NumberChar(r[0]))
    ensures NumberSpan(s + r) == |s|
  {
    if s == "" {
      assert s + r == r;
    } else {
      assert (s + r)[1..] == s[1..] + r;
      SpanStopsAt(s[1..], r);
    }
  }

  lemma NumberCharsConcat(a: string, b: string)
    requires NumberChars(a) && NumberChars(b)
    ensures NumberChars(a + b)
  {
  }

  lemma DigitsAreNumberChars(s: string)
    requires AllDigits(s)
    ensures NumberChars(s)
  {
  }

  lemma SpellingIsNumberChars(sp: Spelling)
    requires WellFormed(sp)
    ensures NumberChars(Spell(sp))
  {
    var sign, mantissa, exp := if sp.neg then "-" else "", Mantissa(sp.whole, sp.frac), SpellExponent(sp.exp);
    DigitsAreNumberChars(sp.whole);
    DigitsAreNumberChars(sp.frac);
    NumberCharsConcat(sp.whole, ".");
    NumberCharsConcat(sp.whole + ".", sp.frac);
    if sp.exp.Exponent? {
      DigitsAreNumberChars(sp.exp.digits);
      NumberCharsConcat([sp.exp.marker], sp.exp.sign);
      NumberCharsConcat([sp.exp.marker] + sp.exp.sign, sp.exp.digits);
    }
    NumberCharsConcat(mantissa, exp);
    NumberCharsConcat(sign, mantissa + exp);
  }

  lemma JsonNumberIsNumberChars(s: string)
    requires JsonNumber(s)
    ensures NumberChars(s)
  {
    var sp :| WellFormed(sp) && s == Spell(sp);
    SpellingIsNumberChars(sp);
  }

  // ----- Values (sections 3 to 5) ---------------------------------------------------

  ghost function ReadNumber(text: string): (r: Read<Json>)
    ensures r.Got? ==> |r.rest| < |text|
  {
    var n := NumberSpan(text);
    if n > 0 && JsonNumber(text[..n]) then Got(Num(Float(text[..n])), text[n..]) else Failed
  }

  ghost function ReadValue(text: string): (r: Read<Json>)
    ensures r.Got? ==> |r.rest| < |text|
    decreases |text|, 0
  {
    if text == "" then Failed
    else if text[0] == '"' then
      var s := ReadBody(text[1..]);
      if s.Failed? then Failed else Got(Str(s.value), s.rest)
    else if "[]" <= text then Got(Arr([]), text[2..])
    else if text[0] == '[' then
      var items := ReadItems(text[1..]);
      if items.Failed? then Failed else Got(Arr(items.value), items.rest)
    else if "{}" <= text then Got(Obj([]), text[2..])
    else if text[0] == '{' then
      var members := ReadMembers(text[1..]);
      if members.Failed? then Failed else Got(Obj(members.value), members.rest)
    else if "null" <= text then Got(Null, text[4..])
    else if "true" <= text then Got(Bool(true), text[4..])
    else if "false" <= text then Got(Bool(false), text[5..])
    else ReadNumber(text)
  }

  /** One or more elements and the closing bracket. */
  ghost function ReadItems(text: string): (r: Read<seq<Json>>)
    ensures r.Got? ==> |r.rest| < |text|
    decreases |text|, 1
  {
    var v := ReadValue(text);
    if v.Failed? || v.rest == "" then Failed
    else if v.rest[0] == ']' then Got([v.value], v.rest[1..])
    else if v.rest[0] == ',' then
      var more := ReadItems(v.rest[1..]);
      if more.Failed? then Failed else Got([v.value] + more.value, more.rest)
    else Failed
  }

  /** One or more members and the closing brace. */
  ghost function ReadMembers(text: string): (r: Read<seq<Member>>)
    ensures r.Got? ==> |r.rest| < |text|
    decreases |text|, 1
  {
    if text == "" || text[0] != '"' then Failed
    else
      var name := ReadBody(text[1..]);
      if name.Failed? || name.rest == "" || name.rest[0] != ':' then Failed
      else
        var v := ReadValue(name.rest[1..]);
        if v.Failed? || v.rest == "" then Failed
        else if v.rest[0] == '}' then Got([Member(name.value, v.value)], v.rest[1..])
        else if v.rest[0] == ',' then
          var more := ReadMembers(v.rest[1..]);
          if more.Failed? then Failed else Got([Member(name.value, v.value)] + more.value, more.rest)
        else Failed
  }

  /** Every object in the value lists its members strictly in the order of their names. */
  ghost predicate InOrder(v: Json) {
    match v
    case Arr(items) => forall i :: 0 <= i < |items| ==> InOrder(items[i])
    case Obj(members) =>
      && NamesInOrder(members)
      && forall i :: 0 <= i < |members| ==> InOrder(members[i].value)
    case _ => true
  }

  ghost predicate NamesInOrder(members: seq<Member>) {
    forall i, j :: 0 <= i < j < |members| ==>
      NameLe(members[i].key, members[j].key) && !NameLe(members[j].key, members[i].key)
  }

  /** `w` is the value `v` with every object in order. */
  ghost predicate Means(w: Json, v: Json) {
    Same(v, w) && InOrder(w)
  }

  // ----- The canonical text reads back ------------------------------------------------

  lemma NumberTextReads(t: string, r: string)
    requires JsonNumber(t) && Ends(r)
    ensures ReadNumber(t + r) == Got(Num(Float(t)), r)
    ensures t != "" && (IsDigit((t + r)[0]) || (t + r)[0] == '-')
  {
    JsonNumberIsNumberChars(t);
    JsonNumberCharacters(t);
    SpanStopsAt(t, r);
    assert (t + r)[..|t|] == t && (t + r)[|t|..] == r;
    assert (t + r)[0] == t[0];
  }

  lemma ValueIsNumber(text: string)
    requires text != "" && (IsDigit(text[0]) || text[0] == '-')
    ensures ReadValue(text) == ReadNumber(text)
  {
    assert !("null" <= text) && !("true" <= text) && !("false" <= text) && !("[]" <= text) && !("{}" <= text);
  }

  lemma PrintedIsSame(n: Number)
    requires Valid(Num(n))
    ensures Amount(n) == Numeric(NumberText(n))
  {
    match n
    case Integer(i) => IntegerStands(i);
    case Float(text) => FormatPreservesValue(text);
  }

  lemma NumberReadsBack(n: Number, r: string)
    requires Valid(Num(n)) && Ends(r)
    ensures ReadValue(NumberText(n) + r) == Got(Num(Float(NumberText(n))), r)
    ensures Same(Num(n), Num(Float(NumberText(n))))
  {
    NumberTextIsNumber(n);
    NumberTextReads(NumberText(n), r);
    ValueIsNumber(NumberText(n) + r);
    PrintedIsSame(n);
  }

  /** The canonical text of a value, followed by a delimiter or nothing, is JSON for that
      value, its objects in order, and reading it stops where it ends. */
  lemma {:induction false} CanonReadsBack(v: Json, r: string)
    requires Valid(v) && Ends(r)
    ensures var got := ReadValue(Canon(v) + r); got.Got? && got.rest == r && Means(got.value, v)
    decreases v, 3
  {
    match v
    case Null => assert ("null" + r)[4..] == r;
    case Bool(b) => BoolReadsBack(b, r);
    case Num(n) => NumberReadsBack(n, r);
    case Str(s) =>
      assert (Quoted(s) + r)[1..] == Escaped(s) + ['"'] + r;
      BodyReadsBack(s, r);
    case Arr(_) => ArrayReadsBack(v, r);
    case Obj(_) => ObjectReadsBack(v, r);
  }

  lemma BoolReadsBack(b: bool, r: string)
    ensures ReadValue(Canon(Bool(b)) + r) == Got(Bool(b), r)
  {
    var text := Canon(Bool(b)) + r;
    assert text[|Canon(Bool(b))|..] == r;
    assert text[0] == if b then 't' else 'f';
  }

  lemma ArrayReadsBack(v: Json, r: string)
    requires v.Arr? && Valid(v)
    ensures var got := ReadValue(Canon(v) + r); got.Got? && got.rest == r && Means(got.value, v)
    decreases v, 2
  {
    var text := Canon(v) + r;
    ArrayThen(v, r);
    if v.items == [] {
      assert text == ['['] + ([']'] + r);
      assert text[..2] == "[]" && text[2..] == r;
    } else {
      assert v.items[0..] == v.items;
      ItemsToAt(v.items, 0, false, [']'] + r);
      var inner := Canon(v.items[0]) + ItemsTo(v.items[1..], true, [']'] + r);
      assert Comma(false) + inner == inner;
      assert text[0] == '[' && text[1..] == inner;
      ItemsStartAt(v, 0, false, [']'] + r);
      assert text[1] != ']';
      ItemsReadBack(v, 0, [']'] + r, r);
      ItemsMean(v, ReadItems(inner).value);
    }
  }

  lemma ItemsMean(v: Json, got: seq<Json>)
    requires v.Arr? && ReadFrom(v, 0, got)
    ensures Means(Arr(got), v)
  {
    forall k | 0 <= k < |got|
      ensures Same(v.items[k], got[k]) && InOrder(got[k])
    {
      assert Means(got[k], v.items[k]);
    }
  }

  lemma ReadOneItem(text: string, v: Json, tail: string)
    requires ReadValue(text) == Got(v, tail) && tail != ""
    ensures var got := ReadItems(text);
            && (tail[0] == ']' ==> got == Got([v], tail[1..]))
            && (tail[0] == ',' && ReadItems(tail[1..]).Got? ==>
                  got == Got([v] + ReadItems(tail[1..]).value, ReadItems(tail[1..]).rest))
  {
  }

  lemma {:induction false} ItemsReadBack(v: Json, i: nat, rest: string, r: string)
    requires v.Arr? && Valid(v) && i < |v.items| && rest == [']'] + r
    ensures var got := ReadItems(Canon(v.items[i]) + ItemsTo(v.items[i + 1..], true, rest));
            got.Got? && got.rest == r && ReadFrom(v, i, got.value)
    decreases v, 1, |v.items| - i
  {
    var tail := ItemsTo(v.items[i + 1..], true, rest);
    ItemsStartAt(v, i + 1, true, rest);
    CanonReadsBack(v.items[i], tail);
    var first := ReadValue(Canon(v.items[i]) + tail).value;
    ReadOneItem(Canon(v.items[i]) + tail, first, tail);
    if i + 1 < |v.items| {
      ItemsToAt(v.items, i + 1, true, rest);
      assert tail[0] == ',' && tail[1..] == Canon(v.items[i + 1]) + ItemsTo(v.items[i + 2..], true, rest);
      ItemsReadBack(v, i + 1, rest, r);
      OneMoreMeans(v, i, first, ReadItems(tail[1..]).value);
    } else {
      assert tail == rest && tail[1..] == r;
      OneMoreMeans(v, i, first, []);
      assert [first] + [] == [first];
    }
  }

  /** The elements read are those of `v` from `i` on. */
  ghost predicate ReadFrom(v: Json, i: nat, got: seq<Json>)
    requires v.Arr?
  {
    i + |got| == |v.items| && forall k :: 0 <= k < |got| ==> Means(got[k], v.items[i + k])
  }

  lemma OneMoreMeans(v: Json, i: nat, first: Json, more: seq<Json>)
    requires v.Arr? && i < |v.items| && Means(first, v.items[i]) && ReadFrom(v, i + 1, more)
    ensures ReadFrom(v, i, [first] + more)
  {
    forall k | 0 <= k < |[first] + more|
      ensures Means(([first] + more)[k], v.items[i + k])
    {
      if k > 0 {
        assert Means(more[k - 1], v.items[i + 1 + (k - 1)]);
      }
    }
  }

  /** The members read are `ps`, name by name and value by value. */
  ghost predicate ReadAs(v: Json, ps: seq<Pair>, got: seq<Member>)
    requires v.Obj?
  {
    && |got| == |ps|
    && forall k :: 0 <= k < |ps| ==> got[k].key == ps[k].key && Holds(v, got[k])
  }

  ghost predicate Holds(v: Json, m: Member)
    requires v.Obj?
  {
    exists i :: 0 <= i < |v.members| && v.members[i].key == m.key && Means(m.value, v.members[i].value)
  }

  lemma MemberReadsBack(v: Json, p: Pair, tail: string)
    requires v.Obj? && Valid(v) && FromMember(v.members, p) && Ends(tail)
    ensures var got := ReadValue(p.text + tail); got.Got? && got.rest == tail && Holds(v, Member(p.key, got.value))
    decreases v, 0
  {
    var i :| 0 <= i < |v.members| && v.members[i].key == p.key && Canon(v.members[i].value) == p.text;
    CanonReadsBack(v.members[i].value, tail);
  }

  lemma ReadOneMember(name: string, value: string, v: Json, tail: string)
    requires ReadValue(value) == Got(v, tail) && tail != ""
    ensures var got := ReadMembers(Quoted(name) + ([':'] + value));
            && (tail[0] == '}' ==> got == Got([Member(name, v)], tail[1..]))
            && (tail[0] == ',' && ReadMembers(tail[1..]).Got? ==>
                  got == Got([Member(name, v)] + ReadMembers(tail[1..]).value, ReadMembers(tail[1..]).rest))
  {
    var text := Quoted(name) + ([':'] + value);
    assert text[0] == '"' && text[1..] == Escaped(name) + ['"'] + ([':'] + value);
    BodyReadsBack(name, [':'] + value);
    assert ([':'] + value)[1..] == value;
  }

  lemma PairsToAt(pairs: seq<Pair>, comma: bool, rest: string)
    requires pairs != []
    ensures PairsTo(pairs, comma, rest) == Comma(comma) + PairsTo(pairs, false, rest)
    ensures PairsTo(pairs, false, rest) == Quoted(pairs[0].key) + ([':'] + (pairs[0].text + PairsTo(pairs[1..], true, rest)))
  {
    var t := Quoted(pairs[0].key) + ([':'] + (pairs[0].text + PairsTo(pairs[1..], true, rest)));
    assert Comma(false) + t == t;
  }

  lemma OneMoreMember(v: Json, ps: seq<Pair>, first: Member, more: seq<Member>)
    requires v.Obj? && ps != [] && first.key == ps[0].key && Holds(v, first) && ReadAs(v, ps[1..], more)
    ensures ReadAs(v, ps, [first] + more)
  {
  }

  lemma {:induction false} MembersReadBack(v: Json, ps: seq<Pair>, rest: string, r: string)
    requires v.Obj? && Valid(v) && ps != [] && rest == ['}'] + r
    requires forall k :: 0 <= k < |ps| ==> FromMember(v.members, ps[k])
    ensures var got := ReadMembers(PairsTo(ps, false, rest)); got.Got? && got.rest == r && ReadAs(v, ps, got.value)
    decreases v, 1, |ps|
  {
    var tail := PairsTo(ps[1..], true, rest);
    PairsToAt(ps, false, rest);
    PairsStart(ps[1..], true, rest);
    assert FromMember(v.members, ps[0]);
    MemberReadsBack(v, ps[0], tail);
    var first := Member(ps[0].key, ReadValue(ps[0].text + tail).value);
    ReadOneMember(first.key, ps[0].text + tail, first.value, tail);
    if |ps| > 1 {
      PairsToAt(ps[1..], true, rest);
      assert tail[0] == ',' && tail[1..] == PairsTo(ps[1..], false, rest);
      MembersReadBack(v, ps[1..], rest, r);
      OneMoreMember(v, ps, first, ReadMembers(tail[1..]).value);
    } else {
      assert tail == rest && tail[1..] == r;
      OneMoreMember(v, ps, first, []);
      assert [first] + [] == [first];
    }
  }

  lemma ReadObject(text: string)
    requires |text| > 1 && text[0] == '{' && text[1] != '}' && ReadMembers(text[1..]).Got?
    ensures var ms := ReadMembers(text[1..]); ReadValue(text) == Got(Obj(ms.value), ms.rest)
  {
    assert !("[]" <= text) && !("{}" <= text);
  }

  lemma ReadEmptyObject(r: string)
    ensures ReadValue(['{'] + (['}'] + r)) == Got(Obj([]), r)
  {
    var text := ['{'] + (['}'] + r);
    assert text[0] == '{' && text[1] == '}' && text[2..] == r;
    assert text[..2] == "{}";
  }

  lemma ObjectReadsBack(v: Json, r: string)
    requires v.Obj? && Valid(v)
    ensures var got := ReadValue(Canon(v) + r); got.Got? && got.rest == r && Means(got.value, v)
    decreases v, 2
  {
    var ps, rest := Arranged(v.members), ['}'] + r;
    ObjectThen(v, r);
    SortedPairsAreMembers(v.members);
    if ps == [] {
      ReadEmptyObject(r);
      ReadMembersAreSame(v, ps, []);
    } else {
      var inner := PairsTo(ps, false, rest);
      PairsStart(ps, false, rest);
      var text := ['{'] + inner;
      assert text[1..] == inner && text[1] == inner[0];
      MembersReadBack(v, ps, rest, r);
      ReadObject(text);
      ReadMembersAreSame(v, ps, ReadMembers(inner).value);
    }
  }

  /** A member read is in the value, and every member of the value is read. */
  lemma ReadMembersAreSame(v: Json, ps: seq<Pair>, got: seq<Member>)
    requires v.Obj? && Valid(v) && ps == Arranged(v.members) && ReadAs(v, ps, got)
    ensures Means(Obj(got), v)
  {
    ReadNamesAreAll(v, ps, got);
    forall i, j | 0 <= i < |v.members| && 0 <= j < |got| && v.members[i].key == got[j].key
      ensures Same(v.members[i].value, got[j].value)
    {
      ReadMemberIsThatOne(v, ps, got, i, j);
    }
    ReadMembersInOrder(v, ps, got);
  }

  lemma NameIsRead(v: Json, ps: seq<Pair>, got: seq<Member>, i: nat)
    requires v.Obj? && ps == Arranged(v.members) && ReadAs(v, ps, got) && i < |v.members|
    ensures v.members[i].key in NameSet(got)
  {
    SortedPairsAreMembers(v.members);
    var p := Pair(v.members[i].key, Canon(v.members[i].value));
    var k :| 0 <= k < |ps| && ps[k] == p;
    assert got[k].key == p.key;
  }

  lemma ReadNamesAreAll(v: Json, ps: seq<Pair>, got: seq<Member>)
    requires v.Obj? && ps == Arranged(v.members) && ReadAs(v, ps, got)
    ensures NameSet(v.members) == NameSet(got)
  {
    forall i | 0 <= i < |v.members|
      ensures v.members[i].key in NameSet(got)
    {
      NameIsRead(v, ps, got, i);
    }
    forall j | 0 <= j < |got|
      ensures got[j].key in NameSet(v.members)
    {
      assert Holds(v, got[j]);
    }
  }

  lemma ReadMemberIsThatOne(v: Json, ps: seq<Pair>, got: seq<Member>, i: nat, j: nat)
    requires v.Obj? && Valid(v) && ReadAs(v, ps, got)
    requires i < |v.members| && j < |got| && v.members[i].key == got[j].key
    ensures Same(v.members[i].value, got[j].value)
  {
    assert Holds(v, got[j]);
    var k :| 0 <= k < |v.members| && v.members[k].key == got[j].key && Means(got[j].value, v.members[k].value);
    assert k == i;
  }

  lemma ReadMembersInOrder(v: Json, ps: seq<Pair>, got: seq<Member>)
    requires v.Obj? && Valid(v) && ps == Arranged(v.members) && ReadAs(v, ps, got)
    ensures InOrder(Obj(got))
  {
    NamesStandInOrder(v.members);
    forall j | 0 <= j < |got|
      ensures InOrder(got[j].value)
    {
      assert Holds(v, got[j]);
    }
    forall i, j | 0 <= i < j < |got|
      ensures NameLe(got[i].key, got[j].key) && !NameLe(got[j].key, got[i].key)
    {
      assert ps[i].key == got[i].key && ps[j].key == got[j].key;
    }
  }

  /** The whole canonical text is JSON for the value, with the members of every object in
      the order of their names' UTF-16 code units. */
  lemma CanonicalTextMeansTheValue(v: Json)
    requires Valid(v)
    ensures var got := ReadValue(Canon(v)); got.Got? && got.rest == "" && Means(got.value, v)
  {
    CanonReadsBack(v, "");
    assert Canon(v) + "" == Canon(v);
  }
}
