/** RFC 8785 canonical JSON (`crates/core/src/jcs.rs`): the writer, and why equal
    outputs mean equal values. */
module Jcs {
  import opened Basics
  import opened Decimal
  import opened EsNumber
  import opened Sorting
  import opened JcsText

  /** An integer that fits `i64` or `u64`, or a float by its shortest decimal text. */
  datatype Number = Integer(value: int) | Float(text: string)

  datatype Json =
    | Null
    | Bool(b: bool)
    | Num(n: Number)
    | Str(s: string)
    | Arr(items: seq<Json>)
    | Obj(members: seq<Member>)

  datatype Member = Member(key: string, value: Json)

  /** Member names are unique, integers are machine integers, floats are decimal texts. */
  ghost predicate Valid(v: Json) {
    match v
    case Num(Integer(i)) => I64_MIN <= i <= U64_MAX
    case Num(Float(text)) => DecimalText(text)
    case Arr(items) => forall i :: 0 <= i < |items| ==> Valid(items[i])
    case Obj(members) => DistinctKeys(members) && forall i :: 0 <= i < |members| ==> Valid(members[i].value)
    case _ => true
  }

  ghost predicate DistinctKeys(members: seq<Member>) {
    forall i, j :: 0 <= i < |members| && 0 <= j < |members| && members[i].key == members[j].key ==> i == j
  }

  // ----- The canonical text -------------------------------------------------------

  function NumberText(n: Number): string {
    match n
    case Integer(i) => DecInt(i)
    case Float(text) => Format(text)
  }

  /** A member already turned into text. */
  datatype Pair = Pair(key: string, text: string)

  predicate PairLe(p: Pair, q: Pair) {
    KeyLe(p.key, q.key)
  }

  function Canon(v: Json): string {
    match v
    case Null => "null"
    case Bool(b) => if b then "true" else "false"
    case Num(n) => NumberText(n)
    case Str(s) => Quoted(s)
    case Arr(items) => ['['] + Items(items, false) + [']']
    case Obj(members) => ['{'] + Pairs(Arranged(members), false) + ['}']
  }

  /** The remaining elements; `comma` says whether one has been written already. */
  function Items(items: seq<Json>, comma: bool): string {
    if items == [] then "" else Comma(comma) + Canon(items[0]) + Items(items[1..], true)
  }

  function Rendered(members: seq<Member>): seq<Pair>
    decreases members, 0
  {
    if members == [] then [] else [Pair(members[0].key, Canon(members[0].value))] + Rendered(members[1..])
  }

  /** The rendered members in the order of their names. */
  function Arranged(members: seq<Member>): seq<Pair>
    decreases members, 1
  {
    Sort(PairLe, Rendered(members))
  }

  function Pairs(pairs: seq<Pair>, comma: bool): string {
    if pairs == [] then ""
    else Comma(comma) + Quoted(pairs[0].key) + [':'] + pairs[0].text + Pairs(pairs[1..], true)
  }

  function Comma(comma: bool): string {
    if comma then [','] else []
  }

  lemma {:induction false} RenderedAt(members: seq<Member>)
    ensures |Rendered(members)| == |members|
    ensures forall i :: 0 <= i < |members| ==> Rendered(members)[i] == Pair(members[i].key, Canon(members[i].value))
  {
    if members != [] {
      RenderedAt(members[1..]);
    }
  }

  // ----- The writer ---------------------------------------------------------------

  function Names(members: seq<Member>): seq<string> {
    if members == [] then [] else [members[0].key] + Names(members[1..])
  }

  function Keys(pairs: seq<Pair>): seq<string> {
    if pairs == [] then [] else [pairs[0].key] + Keys(pairs[1..])
  }

  lemma {:induction false} KeysAt(pairs: seq<Pair>)
    ensures |Keys(pairs)| == |pairs|
    ensures forall i :: 0 <= i < |pairs| ==> Keys(pairs)[i] == pairs[i].key
  {
    if pairs != [] {
      KeysAt(pairs[1..]);
    }
  }

  lemma {:induction false} InsertByKey(p: Pair, pairs: seq<Pair>)
    ensures Keys(Insert(PairLe, p, pairs)) == Insert(KeyLe, p.key, Keys(pairs))
  {
    if pairs != [] && !PairLe(p, pairs[0]) {
      InsertByKey(p, pairs[1..]);
    }
  }

  /** Sorting the names is sorting the members by name. */
  lemma {:induction false} SortedKeysAreSortedPairs(members: seq<Member>)
    ensures Keys(Arranged(members)) == Sort(KeyLe, Names(members))
  {
    if members != [] {
      SortedKeysAreSortedPairs(members[1..]);
      InsertByKey(Pair(members[0].key, Canon(members[0].value)), Arranged(members[1..]));
    }
  }

  /** The sorted pairs are the members: each pair is one of them, and none is missing. */
  lemma SortedPairsAreMembers(members: seq<Member>)
    ensures var ps := Arranged(members);
            && |ps| == |members|
            && (forall k :: 0 <= k < |ps| ==> FromMember(members, ps[k]))
            && (forall i :: 0 <= i < |members| ==> Pair(members[i].key, Canon(members[i].value)) in ps)
  {
    var ps := Arranged(members);
    RenderedAt(members);
    SortKeeps(PairLe, Rendered(members));
    forall k | 0 <= k < |ps|
      ensures FromMember(members, ps[k])
    {
      assert ps[k] in Rendered(members);
      var i :| 0 <= i < |members| && Rendered(members)[i] == ps[k];
      assert members[i].key == ps[k].key;
    }
    forall i | 0 <= i < |members|
      ensures Pair(members[i].key, Canon(members[i].value)) in ps
    {
      assert Rendered(members)[i] in Rendered(members);
    }
  }

  ghost predicate FromMember(members: seq<Member>, p: Pair) {
    exists i :: 0 <= i < |members| && members[i].key == p.key && Canon(members[i].value) == p.text
  }

  method Canonicalize(v: Json) returns (out: string)
    requires Valid(v)
    ensures out == Canon(v)
  {
    out := WriteValue("", v);
    assert "" + Canon(v) == Canon(v);
  }

  method WriteValue(before: string, v: Json) returns (out: string)
    requires Valid(v)
    ensures out == before + Canon(v)
    decreases v, 2
  {
    match v
    case Null => out := before + "null";
    case Bool(b) => out := before + if b then "true" else "false";
    case Num(n) => out := before + NumberText(n);
    case Str(s) => out := before + Quoted(s);
    case Arr(_) => out := WriteArray(before, v);
    case Obj(_) => out := WriteObject(before, v);
  }

  lemma NextItem(out: string, items: seq<Json>, i: nat)
    requires i < |items|
    ensures out + Items(items[i..], i > 0) == out + Comma(i > 0) + Canon(items[i]) + Items(items[i + 1..], true)
  {
    assert items[i..][1..] == items[i + 1..];
    var c, t, m := Comma(i > 0), Canon(items[i]), Items(items[i + 1..], true);
    assert out + (c + t + m) == out + c + t + m;
  }

  method WriteArray(before: string, v: Json) returns (out: string)
    requires Valid(v) && v.Arr?
    ensures out == before + Canon(v)
    decreases v, 0
  {
    out := before + ['['];
    ghost var whole := out + Items(v.items, false);
    assert v.items[0..] == v.items;
    for i := 0 to |v.items|
      invariant out + Items(v.items[i..], i > 0) == whole
    {
      NextItem(out, v.items, i);
      if i > 0 {
        out := out + [','];
      } else {
        assert out + Comma(false) == out;
      }
      out := WriteValue(out, v.items[i]);
    }
    assert out + "" == out;
    out := out + [']'];
    assert whole + [']'] == before + (['['] + Items(v.items, false) + [']']);
  }

  lemma NextPair(out: string, pairs: seq<Pair>, i: nat)
    requires i < |pairs|
    ensures out + Pairs(pairs[i..], i > 0)
            == out + Comma(i > 0) + Quoted(pairs[i].key) + [':'] + pairs[i].text + Pairs(pairs[i + 1..], true)
  {
    assert pairs[i..][1..] == pairs[i + 1..];
    var c, k, t, m := Comma(i > 0), Quoted(pairs[i].key), pairs[i].text, Pairs(pairs[i + 1..], true);
    assert out + (c + k + [':'] + t + m) == out + c + k + [':'] + t + m;
  }

  lemma FoundIsThePair(members: seq<Member>, p: Pair, at: nat)
    requires DistinctKeys(members) && FromMember(members, p) && at < |members| && members[at].key == p.key
    ensures Canon(members[at].value) == p.text
  {
  }

  /** Sort the names; `ps` are the texts that belong under them. */
  method SortNames(members: seq<Member>) returns (keys: seq<string>, ghost ps: seq<Pair>)
    ensures ps == Arranged(members) && |ps| == |keys|
    ensures forall i :: 0 <= i < |ps| ==> ps[i].key == keys[i] && FromMember(members, ps[i])
  {
    keys := Sort(KeyLe, Names(members));
    ps := Arranged(members);
    SortedKeysAreSortedPairs(members);
    SortedPairsAreMembers(members);
    KeysAt(ps);
  }

  method WriteObject(before: string, v: Json) returns (out: string)
    requires Valid(v) && v.Obj?
    ensures out == before + Canon(v)
    decreases v, 1
  {
    ghost var ps: seq<Pair>;
    var keys: seq<string>;
    keys, ps := SortNames(v.members);
    out := WriteMembers(before + ['{'], v, keys, ps);
    out := out + ['}'];
    assert before + ['{'] + Pairs(ps, false) + ['}'] == before + (['{'] + Pairs(ps, false) + ['}']);
  }

  /** The member looked up under each name is the one whose text `ps` has there. */
  method WriteMembers(before: string, v: Json, keys: seq<string>, ghost ps: seq<Pair>) returns (out: string)
    requires Valid(v) && v.Obj? && |ps| == |keys|
    requires forall i :: 0 <= i < |ps| ==> ps[i].key == keys[i] && FromMember(v.members, ps[i])
    ensures out == before + Pairs(ps, false)
    decreases v, 0
  {
    out := before;
    assert ps[0..] == ps;
    for i := 0 to |keys|
      invariant out + Pairs(ps[i..], i > 0) == before + Pairs(ps, false)
    {
      NextPair(out, ps, i);
      assert FromMember(v.members, ps[i]);
      if i > 0 {
        out := out + [','];
      } else {
        assert out + Comma(false) == out;
      }
      var at := Find(v.members, keys[i]);
      FoundIsThePair(v.members, ps[i], at);
      out := out + Quoted(keys[i]) + [':'];
      out := WriteValue(out, v.members[at].value);
    }
    assert out + "" == out;
  }

  /** Look a member up by name. */
  method Find(members: seq<Member>, key: string) returns (at: nat)
    requires exists i :: 0 <= i < |members| && members[i].key == key
    ensures at < |members| && members[at].key == key
  {
    for i := 0 to |members|
      invariant forall k :: 0 <= k < i ==> members[k].key != key
    {
      if members[i].key == key {
        return i;
      }
    }
    assert false;
  }

  // ----- Equal values ---------------------------------------------------------------

  function NameSet(members: seq<Member>): set<string> {
    set i | 0 <= i < |members| :: members[i].key
  }

  /** The number itself, however it is held. */
  function Amount(n: Number): real {
    match n
    case Integer(i) => i as real
    case Float(text) => Numeric(text)
  }

  /** Two numbers print alike exactly when they are equal, integer or not. */
  lemma NumbersPrintAlikeIff(m: Number, n: Number)
    requires Valid(Num(m)) && Valid(Num(n))
    ensures NumberText(m) == NumberText(n) <==> Amount(m) == Amount(n)
  {
    match (m, n)
    case (Integer(i), Integer(j)) => DecIntInjective(i, j);
    case (Integer(i), Float(text)) => IntegerPrintsAlikeIff(i, text);
    case (Float(text), Integer(j)) => IntegerPrintsAlikeIff(j, text);
    case (Float(a), Float(b)) => PrintsAlikeIff(a, b);
  }

  /** The same value: members in any order, numbers equal as numbers. */
  ghost predicate Same(v: Json, w: Json) {
    match (v, w)
    case (Null, Null) => true
    case (Bool(a), Bool(b)) => a == b
    case (Num(m), Num(n)) => Amount(m) == Amount(n)
    case (Str(s), Str(t)) => s == t
    case (Arr(a), Arr(b)) => |a| == |b| && forall i :: 0 <= i < |a| ==> Same(a[i], b[i])
    case (Obj(a), Obj(b)) =>
      && NameSet(a) == NameSet(b)
      && forall i, j :: 0 <= i < |a| && 0 <= j < |b| && a[i].key == b[j].key ==> Same(a[i].value, b[j].value)
    case _ => false
  }

  // ----- Equal values have equal texts ------------------------------------------------

  lemma SortedPairsAreStrict(members: seq<Member>)
    requires DistinctKeys(members)
    ensures var ps := Arranged(members);
            forall i, j :: 0 <= i < j < |ps| ==> PairLe(ps[i], ps[j]) && !PairLe(ps[j], ps[i])
  {
    var ps := Arranged(members);
    KeyLeIsTotalOrder();
    SortSorts(PairLe, Rendered(members));
    forall i, j | 0 <= i < j < |ps|
      ensures PairLe(ps[i], ps[j]) && !PairLe(ps[j], ps[i])
    {
      SortedKeysDiffer(members, i, j);
    }
  }

  ghost predicate KeysDiffer(pairs: seq<Pair>) {
    forall i, j :: 0 <= i < |pairs| && 0 <= j < |pairs| && pairs[i].key == pairs[j].key ==> i == j
  }

  lemma RearrangedKeysDiffer(rs: seq<Pair>, ps: seq<Pair>, i: nat, j: nat)
    requires KeysDiffer(rs) && multiset(rs) == multiset(ps) && i < j < |ps|
    ensures ps[i].key != ps[j].key
  {
    RearrangedDistinct(rs, ps);
    assert ps[i] in rs && ps[j] in rs;
  }

  lemma SortedKeysDiffer(members: seq<Member>, i: nat, j: nat)
    requires DistinctKeys(members) && i < j < |Arranged(members)|
    ensures Arranged(members)[i].key != Arranged(members)[j].key
  {
    RenderedAt(members);
    assert KeysDiffer(Rendered(members));
    SortKeeps(PairLe, Rendered(members));
    RearrangedKeysDiffer(Rendered(members), Arranged(members), i, j);
  }

  ghost predicate NamesInOrder(pairs: seq<Pair>) {
    forall i, j :: 0 <= i < j < |pairs| ==> NameLe(pairs[i].key, pairs[j].key) && !NameLe(pairs[j].key, pairs[i].key)
  }

  lemma SortedNamesAt(members: seq<Member>, i: nat, j: nat)
    requires DistinctKeys(members) && i < j < |Arranged(members)|
    ensures var ps := Arranged(members);
            NameLe(ps[i].key, ps[j].key) && !NameLe(ps[j].key, ps[i].key)
  {
    var ps := Arranged(members);
    KeyLeIsTotalOrder();
    SortSorts(PairLe, Rendered(members));
    assert KeyLe(ps[i].key, ps[j].key);
    SortedKeysDiffer(members, i, j);
    KeyLeIsUnitOrder(ps[i].key, ps[j].key);
    KeyLeIsUnitOrder(ps[j].key, ps[i].key);
  }

  /** The members are written in the order of their names' code units, and that order
      never ties two of them. */
  lemma NamesStandInOrder(members: seq<Member>)
    requires DistinctKeys(members)
    ensures multiset(Arranged(members)) == multiset(Rendered(members)) && NamesInOrder(Arranged(members))
  {
    SortKeeps(PairLe, Rendered(members));
    forall i, j | 0 <= i < j < |Arranged(members)|
      ensures NameLe(Arranged(members)[i].key, Arranged(members)[j].key)
      ensures !NameLe(Arranged(members)[j].key, Arranged(members)[i].key)
    {
      SortedNamesAt(members, i, j);
    }
  }

  lemma {:induction false} SameHasSameText(v: Json, w: Json)
    requires Valid(v) && Valid(w) && Same(v, w)
    ensures Canon(v) == Canon(w)
    decreases v, 1
  {
    if v.Num? {
      NumbersPrintAlikeIff(v.n, w.n);
    } else if v.Arr? {
      forall i | 0 <= i < |v.items|
        ensures Canon(v.items[i]) == Canon(w.items[i])
      {
        SameHasSameText(v.items[i], w.items[i]);
      }
      SameItems(v.items, w.items, false);
    } else if v.Obj? {
      SameMembers(v, w);
    }
  }

  lemma {:induction false} SameItems(a: seq<Json>, b: seq<Json>, comma: bool)
    requires |a| == |b| && forall i :: 0 <= i < |a| ==> Canon(a[i]) == Canon(b[i])
    ensures Items(a, comma) == Items(b, comma)
  {
    if a != [] {
      SameItems(a[1..], b[1..], true);
    }
  }

  lemma SameMembers(v: Json, w: Json)
    requires v.Obj? && w.Obj? && Valid(v) && Valid(w) && Same(v, w)
    ensures Canon(v) == Canon(w)
    decreases v, 0
  {
    var a, b := v.members, w.members;
    var ps, qs := Arranged(a), Arranged(b);
    forall i, j | 0 <= i < |a| && 0 <= j < |b| && a[i].key == b[j].key
      ensures Canon(a[i].value) == Canon(b[j].value)
    {
      SameHasSameText(a[i].value, b[j].value);
    }
    SortedPairsAreMembers(a);
    SortedPairsAreMembers(b);
    OneSideInTheOther(a, b, ps, qs);
    OneSideInTheOther(b, a, qs, ps);
    SortedPairsAreStrict(a);
    SortedPairsAreStrict(b);
    SortedUnique(PairLe, ps, qs);
  }

  lemma OneSideInTheOther(a: seq<Member>, b: seq<Member>, ps: seq<Pair>, qs: seq<Pair>)
    requires forall k :: 0 <= k < |ps| ==> FromMember(a, ps[k])
    requires forall j :: 0 <= j < |b| ==> Pair(b[j].key, Canon(b[j].value)) in qs
    requires NameSet(a) == NameSet(b)
    requires forall i, j :: 0 <= i < |a| && 0 <= j < |b| && a[i].key == b[j].key ==> Canon(a[i].value) == Canon(b[j].value)
    ensures forall p :: p in ps ==> p in qs
  {
    forall p | p in ps
      ensures p in qs
    {
      var k :| 0 <= k < |ps| && ps[k] == p;
      assert FromMember(a, ps[k]);
      var i :| 0 <= i < |a| && a[i].key == p.key && Canon(a[i].value) == p.text;
      assert a[i].key in NameSet(b);
      var j :| 0 <= j < |b| && b[j].key == a[i].key;
      assert Pair(b[j].key, Canon(b[j].value)) in qs;
    }
  }

  // ----- Equal texts come from equal values --------------------------------------------

  /** What may follow a value inside a document. */
  predicate Ends(r: string) {
    r == "" || r[0] == ',' || r[0] == ']' || r[0] == '}'
  }

  /** The first character tells the kind of value. */
  function Opener(v: Json): string {
    match v
    case Null => "n"
    case Bool(b) => if b then "t" else "f"
    case Num(_) => "-0123456789"
    case Str(_) => "\""
    case Arr(_) => "["
    case Obj(_) => "{"
  }

  lemma NumberTextIsNumber(n: Number)
    requires Valid(Num(n))
    ensures JsonNumber(NumberText(n))
  {
    match n
    case Integer(i) => IntegerIsSpelled(i);
    case Float(text) => FormatIsJsonNumber(text);
  }

  lemma DigitIsOpener(c: char)
    requires IsDigit(c) || c == '-'
    ensures c in "-0123456789"
  {
    var all := "-0123456789";
    assert c != '-' ==> all[1 + (c - '0') as int] == c;
    assert all[0] == '-';
  }

  lemma CanonOpens(v: Json, r: string)
    requires Valid(v)
    ensures Canon(v) != "" && (Canon(v) + r)[0] in Opener(v)
  {
    if v.Num? {
      NumberTextIsNumber(v.n);
      JsonNumberCharacters(Canon(v));
      DigitIsOpener(Canon(v)[0]);
    }
    assert Canon(v) != "" ==> (Canon(v) + r)[0] == Canon(v)[0];
  }

  lemma OpenersDiffer(v: Json, w: Json, c: char)
    requires c in Opener(v) && c in Opener(w)
    ensures v.Null? <==> w.Null?
    ensures v.Bool? <==> w.Bool?
    ensures v.Bool? ==> v == w
    ensures v.Num? <==> w.Num?
    ensures v.Str? <==> w.Str?
    ensures v.Arr? <==> w.Arr?
    ensures v.Obj? <==> w.Obj?
    ensures c !in {',', ']', '}'}
  {
  }

  lemma NumberCannotBeCut(a: string, r: string, b: string, q: string)
    requires JsonNumber(b) && a + r == b + q && |a| < |b|
    ensures !Ends(r)
  {
    JsonNumberCharacters(b);
    assert (a + r)[|a|] == (b + q)[|a|];
    assert r[0] == b[|a|];
  }

  lemma NumbersEndAlike(a: string, r: string, b: string, q: string)
    requires JsonNumber(a) && JsonNumber(b) && Ends(r) && Ends(q) && a + r == b + q
    ensures a == b && r == q
  {
    if |a| < |b| {
      NumberCannotBeCut(a, r, b, q);
    } else if |b| < |a| {
      NumberCannotBeCut(b, q, a, r);
    }
    assert (a + r)[..|a|] == a && (b + q)[..|b|] == b;
    Peel(a, r, q);
  }

  lemma Peel(head: string, x: string, y: string)
    requires head + x == head + y
    ensures x == y
  {
    assert (head + x)[|head|..] == x && (head + y)[|head|..] == y;
  }

  // The same texts with what follows them folded in, nested to the right.

  function ItemsTo(items: seq<Json>, comma: bool, rest: string): string {
    if items == [] then rest else Comma(comma) + (Canon(items[0]) + ItemsTo(items[1..], true, rest))
  }

  function PairsTo(pairs: seq<Pair>, comma: bool, rest: string): string {
    if pairs == [] then rest
    else Comma(comma) + (Quoted(pairs[0].key) + ([':'] + (pairs[0].text + PairsTo(pairs[1..], true, rest))))
  }

  lemma Regroup(a: string, b: string, c: string, d: string)
    ensures a + b + c + d == a + (b + (c + d))
  {
  }

  lemma {:induction false} ItemsThen(items: seq<Json>, comma: bool, rest: string)
    ensures Items(items, comma) + rest == ItemsTo(items, comma, rest)
  {
    if items != [] {
      ItemsThen(items[1..], true, rest);
      Regroup(Comma(comma), Canon(items[0]), Items(items[1..], true), rest);
    } else {
      assert "" + rest == rest;
    }
  }

  lemma {:induction false} PairsThen(pairs: seq<Pair>, comma: bool, rest: string)
    ensures Pairs(pairs, comma) + rest == PairsTo(pairs, comma, rest)
  {
    if pairs != [] {
      PairsThen(pairs[1..], true, rest);
      var c, k, t, m := Comma(comma), Quoted(pairs[0].key), pairs[0].text, Pairs(pairs[1..], true);
      assert c + k + [':'] + t + m + rest == c + (k + ([':'] + (t + (m + rest))));
    } else {
      assert "" + rest == rest;
    }
  }

  /** A value's text, followed by a delimiter or nothing, determines the value and
      what follows it. */
  lemma {:induction false} CanonPrefixFree(v: Json, r: string, w: Json, q: string)
    requires Valid(v) && Valid(w) && Ends(r) && Ends(q) && Canon(v) + r == Canon(w) + q
    ensures Same(v, w) && r == q
    decreases v, 3
  {
    CanonOpens(v, r);
    CanonOpens(w, q);
    OpenersDiffer(v, w, (Canon(v) + r)[0]);
    match v
    case Null => Peel("null", r, q);
    case Bool(_) => Peel(Canon(v), r, q);
    case Num(m) =>
      NumberTextIsNumber(m);
      NumberTextIsNumber(w.n);
      NumbersEndAlike(NumberText(m), r, NumberText(w.n), q);
      NumbersPrintAlikeIff(m, w.n);
    case Str(s) => QuotedPrefixFree(s, r, w.s, q);
    case Arr(_) => ArraysPrefixFree(v, r, w, q);
    case Obj(_) => ObjectsPrefixFree(v, r, w, q);
  }

  lemma ArrayThen(v: Json, r: string)
    requires v.Arr?
    ensures Canon(v) + r == ['['] + ItemsTo(v.items, false, [']'] + r)
  {
    ItemsThen(v.items, false, [']'] + r);
    var m := Items(v.items, false);
    assert ['['] + m + [']'] + r == ['['] + (m + ([']'] + r));
  }

  lemma ArraysPrefixFree(v: Json, r: string, w: Json, q: string)
    requires v.Arr? && w.Arr? && Valid(v) && Valid(w) && Canon(v) + r == Canon(w) + q
    ensures Same(v, w) && r == q
    decreases v, 2
  {
    ArrayThen(v, r);
    ArrayThen(w, q);
    Peel(['['], ItemsTo(v.items, false, [']'] + r), ItemsTo(w.items, false, [']'] + q));
    assert v.items[0..] == v.items && w.items[0..] == w.items;
    ItemsPrefixFree(v, 0, [']'] + r, w, [']'] + q);
    Peel([']'], r, q);
  }

  /** A list of elements ends at its bracket and nowhere else. */
  lemma ItemsStart(items: seq<Json>, comma: bool, rest: string)
    requires (forall i :: 0 <= i < |items| ==> Valid(items[i])) && rest != "" && rest[0] == ']'
    ensures var t := ItemsTo(items, comma, rest);
            t != "" && (t[0] == ']' <==> items == []) && (comma ==> Ends(t))
  {
    if items != [] && !comma {
      var t := ItemsTo(items[1..], true, rest);
      CanonOpens(items[0], t);
      OpenersDiffer(items[0], items[0], (Canon(items[0]) + t)[0]);
      assert Comma(comma) + (Canon(items[0]) + t) == Canon(items[0]) + t;
    }
  }

  lemma ItemsStartAt(v: Json, i: nat, comma: bool, rest: string)
    requires v.Arr? && Valid(v) && i <= |v.items| && rest != "" && rest[0] == ']'
    ensures var t := ItemsTo(v.items[i..], comma, rest);
            t != "" && (t[0] == ']' <==> i == |v.items|) && (comma ==> Ends(t))
  {
    ItemsStart(v.items[i..], comma, rest);
  }

  lemma ItemHeadsAgree(v: Json, i: nat, x: string, w: Json, y: string, comma: bool)
    requires v.Arr? && w.Arr? && Valid(v) && Valid(w) && i < |v.items| && i < |w.items| && Ends(x) && Ends(y)
    requires Comma(comma) + (Canon(v.items[i]) + x) == Comma(comma) + (Canon(w.items[i]) + y)
    ensures Same(v.items[i], w.items[i]) && x == y
    decreases v, 0
  {
    Peel(Comma(comma), Canon(v.items[i]) + x, Canon(w.items[i]) + y);
    CanonPrefixFree(v.items[i], x, w.items[i], y);
  }

  lemma {:induction false} ItemsPrefixFree(v: Json, i: nat, r: string, w: Json, q: string)
    requires v.Arr? && w.Arr? && Valid(v) && Valid(w) && i <= |v.items| && i <= |w.items|
    requires r != "" && r[0] == ']' && q != "" && q[0] == ']'
    requires ItemsTo(v.items[i..], i > 0, r) == ItemsTo(w.items[i..], i > 0, q)
    ensures |v.items| == |w.items| && (forall k :: i <= k < |v.items| ==> Same(v.items[k], w.items[k]))
    ensures r == q
    decreases v, 1, |v.items| - i
  {
    ItemsStartAt(v, i, i > 0, r);
    ItemsStartAt(w, i, i > 0, q);
    if i < |v.items| {
      ItemsToAt(v.items, i, i > 0, r);
      ItemsToAt(w.items, i, i > 0, q);
      var x, y := ItemsTo(v.items[i + 1..], true, r), ItemsTo(w.items[i + 1..], true, q);
      ItemsStartAt(v, i + 1, true, r);
      ItemsStartAt(w, i + 1, true, q);
      ItemHeadsAgree(v, i, x, w, y, i > 0);
      ItemsPrefixFree(v, i + 1, r, w, q);
    }
  }

  lemma ItemsToAt(items: seq<Json>, i: nat, comma: bool, rest: string)
    requires i < |items|
    ensures ItemsTo(items[i..], comma, rest) == Comma(comma) + (Canon(items[i]) + ItemsTo(items[i + 1..], true, rest))
  {
    assert items[i..][1..] == items[i + 1..];
  }

  lemma ObjectThen(v: Json, r: string)
    requires v.Obj?
    ensures Canon(v) + r == ['{'] + PairsTo(Arranged(v.members), false, ['}'] + r)
  {
    var ps := Arranged(v.members);
    PairsThen(ps, false, ['}'] + r);
    var m := Pairs(ps, false);
    assert ['{'] + m + ['}'] + r == ['{'] + (m + (['}'] + r));
  }

  lemma ObjectsPrefixFree(v: Json, r: string, w: Json, q: string)
    requires v.Obj? && w.Obj? && Valid(v) && Valid(w) && Canon(v) + r == Canon(w) + q
    ensures Same(v, w) && r == q
    decreases v, 2
  {
    var ps, qs := Arranged(v.members), Arranged(w.members);
    ObjectThen(v, r);
    ObjectThen(w, q);
    Peel(['{'], PairsTo(ps, false, ['}'] + r), PairsTo(qs, false, ['}'] + q));
    SortedPairsAreMembers(v.members);
    SortedPairsAreMembers(w.members);
    PairsPrefixFree(v, ps, false, ['}'] + r, w, qs, ['}'] + q);
    Peel(['}'], r, q);
    MatchedMembersAreSame(v, ps, w, qs);
  }

  /** Some member of each object is called `key`, and the two hold the same value. */
  ghost predicate Matched(v: Json, w: Json, key: string)
    requires v.Obj? && w.Obj?
  {
    exists i, j :: 0 <= i < |v.members| && 0 <= j < |w.members|
                   && v.members[i].key == key && w.members[j].key == key
                   && Same(v.members[i].value, w.members[j].value)
  }

  lemma PairsStart(pairs: seq<Pair>, comma: bool, rest: string)
    requires rest != "" && rest[0] == '}'
    ensures var t := PairsTo(pairs, comma, rest);
            t != "" && (t[0] == '}' <==> pairs == []) && (comma ==> Ends(t))
  {
    if pairs != [] && !comma {
      var t := [':'] + (pairs[0].text + PairsTo(pairs[1..], true, rest));
      assert Comma(comma) + (Quoted(pairs[0].key) + t) == Quoted(pairs[0].key) + t;
      assert Quoted(pairs[0].key)[0] == '"';
    }
  }

  /** Two member lists that read alike begin with the same name. */
  lemma PairHeadsAgree(p: Pair, x: string, o: Pair, y: string, comma: bool)
    requires Comma(comma) + (Quoted(p.key) + ([':'] + (p.text + x))) == Comma(comma) + (Quoted(o.key) + ([':'] + (o.text + y)))
    ensures p.key == o.key && p.text + x == o.text + y
  {
    Peel(Comma(comma), Quoted(p.key) + ([':'] + (p.text + x)), Quoted(o.key) + ([':'] + (o.text + y)));
    QuotedPrefixFree(p.key, [':'] + (p.text + x), o.key, [':'] + (o.text + y));
    Peel([':'], p.text + x, o.text + y);
  }

  lemma PairValuesAgree(v: Json, p: Pair, x: string, w: Json, o: Pair, y: string)
    requires v.Obj? && w.Obj? && Valid(v) && Valid(w) && FromMember(v.members, p) && FromMember(w.members, o)
    requires p.key == o.key && p.text + x == o.text + y && Ends(x) && Ends(y)
    ensures Matched(v, w, p.key) && x == y
    decreases v, 0
  {
    var i :| 0 <= i < |v.members| && v.members[i].key == p.key && Canon(v.members[i].value) == p.text;
    var j :| 0 <= j < |w.members| && w.members[j].key == o.key && Canon(w.members[j].value) == o.text;
    CanonPrefixFree(v.members[i].value, x, w.members[j].value, y);
  }

  lemma {:induction false} PairsPrefixFree(v: Json, ps: seq<Pair>, comma: bool, r: string, w: Json, qs: seq<Pair>, q: string)
    requires v.Obj? && w.Obj? && Valid(v) && Valid(w)
    requires forall k :: 0 <= k < |ps| ==> FromMember(v.members, ps[k])
    requires forall k :: 0 <= k < |qs| ==> FromMember(w.members, qs[k])
    requires r != "" && r[0] == '}' && q != "" && q[0] == '}'
    requires PairsTo(ps, comma, r) == PairsTo(qs, comma, q)
    ensures |ps| == |qs| && (forall k :: 0 <= k < |ps| ==> ps[k].key == qs[k].key && Matched(v, w, ps[k].key))
    ensures r == q
    decreases v, 1, |ps|
  {
    PairsStart(ps, comma, r);
    PairsStart(qs, comma, q);
    if ps != [] {
      var x, y := PairsTo(ps[1..], true, r), PairsTo(qs[1..], true, q);
      PairHeadsAgree(ps[0], x, qs[0], y, comma);
      PairsStart(ps[1..], true, r);
      PairsStart(qs[1..], true, q);
      PairValuesAgree(v, ps[0], x, w, qs[0], y);
      PairsPrefixFree(v, ps[1..], true, r, w, qs[1..], q);
    }
  }

  lemma MatchedMembersAreSame(v: Json, ps: seq<Pair>, w: Json, qs: seq<Pair>)
    requires v.Obj? && w.Obj? && Valid(v) && Valid(w) && |ps| == |qs|
    requires forall k :: 0 <= k < |ps| ==> FromMember(v.members, ps[k]) && FromMember(w.members, qs[k])
    requires forall i :: 0 <= i < |v.members| ==> Pair(v.members[i].key, Canon(v.members[i].value)) in ps
    requires forall j :: 0 <= j < |w.members| ==> Pair(w.members[j].key, Canon(w.members[j].value)) in qs
    requires forall k :: 0 <= k < |ps| ==> ps[k].key == qs[k].key && Matched(v, w, ps[k].key)
    ensures Same(v, w)
  {
    var a, b := v.members, w.members;
    forall i | 0 <= i < |a|
      ensures Matched(v, w, a[i].key)
    {
      var k :| 0 <= k < |ps| && ps[k] == Pair(a[i].key, Canon(a[i].value));
      assert Matched(v, w, ps[k].key);
    }
    forall j | 0 <= j < |b|
      ensures Matched(v, w, b[j].key)
    {
      var k :| 0 <= k < |qs| && qs[k] == Pair(b[j].key, Canon(b[j].value));
      assert Matched(v, w, ps[k].key);
    }
    assert NameSet(a) == NameSet(b);
    forall i, j | 0 <= i < |a| && 0 <= j < |b| && a[i].key == b[j].key
      ensures Same(a[i].value, b[j].value)
    {
      assert Matched(v, w, a[i].key);
    }
  }

  /** Two documents have one canonical text exactly when they are the same value:
      member order never matters, and nothing but the spelling of a number is lost. */
  lemma CanonicalIff(v: Json, w: Json)
    requires Valid(v) && Valid(w)
    ensures Canon(v) == Canon(w) <==> Same(v, w)
  {
    if Canon(v) == Canon(w) {
      assert Canon(v) + "" == Canon(w) + "";
      CanonPrefixFree(v, "", w, "");
    }
    if Same(v, w) {
      SameHasSameText(v, w);
    }
  }

  /** Reordering the members of an object is one way of being the same value. */
  lemma MemberOrderIsIrrelevant(a: seq<Member>, b: seq<Member>)
    requires Valid(Obj(a)) && Valid(Obj(b)) && multiset(a) == multiset(b)
    ensures Canon(Obj(a)) == Canon(Obj(b))
  {
    forall i | 0 <= i < |a|
      ensures a[i] in b
    {
      assert a[i] in multiset(a);
    }
    forall j | 0 <= j < |b|
      ensures b[j] in a
    {
      assert b[j] in multiset(b);
    }
    forall i, j | 0 <= i < |a| && 0 <= j < |b| && a[i].key == b[j].key
      ensures a[i] == b[j]
    {
      var k :| 0 <= k < |b| && b[k] == a[i];
    }
    SameIsReflexiveOnMembers(a, b);
    SameHasSameText(Obj(a), Obj(b));
  }

  lemma SameIsReflexiveOnMembers(a: seq<Member>, b: seq<Member>)
    requires forall i :: 0 <= i < |a| ==> a[i] in b
    requires forall j :: 0 <= j < |b| ==> b[j] in a
    requires forall i, j :: 0 <= i < |a| && 0 <= j < |b| && a[i].key == b[j].key ==> a[i] == b[j]
    requires Valid(Obj(a)) && Valid(Obj(b))
    ensures Same(Obj(a), Obj(b))
  {
    assert NameSet(a) == NameSet(b);
    forall i, j | 0 <= i < |a| && 0 <= j < |b| && a[i].key == b[j].key
      ensures Same(a[i].value, b[j].value)
    {
      SameIsReflexive(a[i].value);
    }
  }

  lemma {:induction false} SameIsReflexive(v: Json)
    requires Valid(v)
    ensures Same(v, v)
  {
    if v.Arr? {
      forall i | 0 <= i < |v.items|
        ensures Same(v.items[i], v.items[i])
      {
        SameIsReflexive(v.items[i]);
      }
    } else if v.Obj? {
      forall i, j | 0 <= i < |v.members| && 0 <= j < |v.members| && v.members[i].key == v.members[j].key
        ensures Same(v.members[i].value, v.members[j].value)
      {
        SameIsReflexive(v.members[i].value);
      }
    }
  }

  // ----- One line ---------------------------------------------------------------------

  lemma {:induction false} EscapedOnOneLine(s: string)
    ensures '\n' !in Escaped(s)
  {
    if s != "" {
      EscapedOnOneLine(s[1..]);
      assert '\n' !in EscapeChar(s[0]);
    }
  }

  lemma NumberOnOneLine(n: Number)
    requires Valid(Num(n))
    ensures '\n' !in NumberText(n)
  {
    NumberTextIsNumber(n);
    JsonNumberCharacters(NumberText(n));
  }

  lemma {:induction false} ItemsOnOneLine(items: seq<Json>, comma: bool)
    requires forall i :: 0 <= i < |items| ==> '\n' !in Canon(items[i])
    ensures '\n' !in Items(items, comma)
  {
    if items != [] {
      ItemsOnOneLine(items[1..], true);
    }
  }

  lemma {:induction false} PairsOnOneLine(pairs: seq<Pair>, comma: bool)
    requires forall i :: 0 <= i < |pairs| ==> '\n' !in pairs[i].text
    ensures '\n' !in Pairs(pairs, comma)
  {
    if pairs != [] {
      EscapedOnOneLine(pairs[0].key);
      PairsOnOneLine(pairs[1..], true);
    }
  }

  /** A canonical text is one line. */
  lemma {:induction false} CanonOnOneLine(v: Json)
    requires Valid(v)
    ensures '\n' !in Canon(v)
    decreases v, 1
  {
    match v
    case Num(n) => NumberOnOneLine(n);
    case Str(s) => EscapedOnOneLine(s);
    case Arr(items) =>
      forall i | 0 <= i < |items|
        ensures '\n' !in Canon(items[i])
      {
        CanonOnOneLine(items[i]);
      }
      ItemsOnOneLine(items, false);
    case Obj(_) => ObjectOnOneLine(v);
    case _ =>
  }

  lemma ObjectOnOneLine(v: Json)
    requires v.Obj? && Valid(v)
    ensures '\n' !in Canon(v)
    decreases v, 0
  {
    var ps := Arranged(v.members);
    SortedPairsAreMembers(v.members);
    forall k | 0 <= k < |ps|
      ensures '\n' !in ps[k].text
    {
      assert FromMember(v.members, ps[k]);
      var i :| 0 <= i < |v.members| && v.members[i].key == ps[k].key && Canon(v.members[i].value) == ps[k].text;
      CanonOnOneLine(v.members[i].value);
    }
    PairsOnOneLine(ps, false);
  }
}
