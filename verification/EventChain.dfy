/** The chained event stream (`crates/core/src/agent_event.rs`): one file is one chain
    across restarts, recovered by scanning the file's tail. */
module EventChain {
  import opened Basics
  import opened Jcs
  import Audit

  /** The serialiser of a line, the JSON parser, the digest, and the texts of those
      floating-point numbers that come back from a line as they were. */
  datatype Codec = Codec(line: Json -> string, parse: string -> Option<Json>, digest: Audit.Digest,
                         floatComesBack: string -> bool)

  /** Every floating-point number in the value is one that comes back. */
  ghost predicate Carried(codec: Codec, v: Json) {
    match v
    case Num(Float(text)) => codec.floatComesBack(text)
    case Arr(items) => forall i :: 0 <= i < |items| ==> Carried(codec, items[i])
    case Obj(members) => forall i :: 0 <= i < |members| ==> Carried(codec, members[i].value)
    case _ => true
  }

  predicate IsBlank(c: char) {
    c == ' ' || c == '\t' || c == '\n' || c == '\r' || c == '\U{C}'
  }

  /** What reading a line may return: the same value, its members in any order and its
      numbers in any spelling. */
  ghost predicate ReadsAs(v: Json, back: Option<Json>) {
    back.Some? && back.value.Obj? && Valid(back.value) && Same(v, back.value)
  }

  /** No newline in it and no blank at either end. */
  predicate IsLine(t: string) {
    t != "" && '\n' !in t && !IsBlank(t[0]) && !IsBlank(t[|t| - 1])
  }

  /** An object's line is one, and reads back as the same value. */
  ghost predicate SoundFor(codec: Codec, v: Json) {
    IsLine(codec.line(v)) && ReadsAs(v, codec.parse(codec.line(v)))
  }

  ghost predicate Sound(codec: Codec) {
    forall v: Json :: v.Obj? && Valid(v) && Carried(codec, v) ==> SoundFor(codec, v)
  }

  /** Some object with this canonical text, whichever a reader picks. */
  ghost function AnyReading(t: string): Option<Json> {
    if v: Json :| v.Obj? && Valid(v) && Canon(v) == t then Some(v) else None
  }

  /** The contract can be met, and by a reader that keeps no order of members: canonical
      lines do. */
  lemma CanonicalLinesAreSound(digest: Audit.Digest)
    ensures Sound(Codec(Canon, AnyReading, digest, _ => true))
  {
    var codec := Codec(Canon, AnyReading, digest, _ => true);
    forall v: Json | v.Obj? && Valid(v) && Carried(codec, v)
      ensures SoundFor(codec, v)
    {
      CanonOnOneLine(v);
      var back := AnyReading(Canon(v));
      CanonicalIff(v, back.value);
    }
  }

  // ----- Chain hashes -------------------------------------------------------------

  const PREV := "prev_hash"

  /** The members without any called `prev_hash`. */
  function WithoutPrev(members: seq<Member>): seq<Member> {
    if members == [] then []
    else (if members[0].key == PREV then [] else [members[0]]) + WithoutPrev(members[1..])
  }

  function ChainHash(codec: Codec, v: Json): string {
    "sha256:" + Audit.Hex(codec.digest(Canon(Bare(v))))
  }

  /** The event with its link stamped in; the head of a chain carries none. */
  function Linked(event: seq<Member>, prev: Option<string>): Json {
    Obj(if prev.Some? then event + [Member(PREV, Str(prev.value))] else event)
  }

  function LinkOf(v: Json): Option<Json> {
    if v.Obj? then FindPrev(v.members) else None
  }

  function FindPrev(members: seq<Member>): Option<Json> {
    if members == [] then None
    else if members[0].key == PREV then Some(members[0].value)
    else FindPrev(members[1..])
  }

  /** An event as built: it has not been linked yet. */
  predicate Unlinked(event: seq<Member>) {
    forall i :: 0 <= i < |event| ==> event[i].key != PREV
  }

  /** An event the codec can write: unlinked, its members named once each. */
  ghost predicate IsEvent(codec: Codec, event: seq<Member>) {
    Unlinked(event) && Valid(Obj(event)) && Carried(codec, Obj(event))
  }

  lemma LinkedIsSound(codec: Codec, event: seq<Member>, prev: Option<string>)
    requires Sound(codec) && IsEvent(codec, event)
    ensures Valid(Linked(event, prev)) && SoundFor(codec, Linked(event, prev))
  {
    var members := Linked(event, prev).members;
    if prev.Some? {
      forall i, j | 0 <= i < |members| && 0 <= j < |members| && members[i].key == members[j].key
        ensures i == j
      {
      }
    }
    assert Carried(codec, Linked(event, prev));
  }

  lemma {:induction false} LinkIsSeparate(event: seq<Member>, prev: Option<string>)
    requires Unlinked(event)
    ensures WithoutPrev(Linked(event, prev).members) == event
    ensures LinkOf(Linked(event, prev)) == if prev.Some? then Some(Str(prev.value)) else None
  {
    if event == [] {
      if prev.Some? {
        assert Linked(event, prev).members == [Member(PREV, Str(prev.value))];
      }
    } else {
      LinkIsSeparate(event[1..], prev);
      var members := Linked(event, prev).members;
      assert members[1..] == Linked(event[1..], prev).members;
      assert event == [event[0]] + event[1..];
    }
  }

  /** A chained and an unchained copy of one event hash alike. */
  lemma HashIgnoresTheLink(codec: Codec, event: seq<Member>, p: Option<string>, q: Option<string>)
    requires Unlinked(event)
    ensures ChainHash(codec, Linked(event, p)) == ChainHash(codec, Linked(event, q)) == ChainHash(codec, Obj(event))
  {
    LinkIsSeparate(event, p);
    LinkIsSeparate(event, q);
    LinkIsSeparate(event, None);
    assert Linked(event, None) == Obj(event);
  }

  /** What a chain hash covers: the event without any link. */
  function Bare(v: Json): Json {
    if v.Obj? then Obj(WithoutPrev(v.members)) else v
  }

  lemma LinkedHasALine(codec: Codec, event: seq<Member>, prev: Option<string>)
    requires Sound(codec) && IsEvent(codec, event)
    ensures IsLine(codec.line(Linked(event, prev)))
  {
    LinkedIsSound(codec, event, prev);
  }

  lemma {:induction false} WithoutPrevKeepsTheRest(members: seq<Member>)
    ensures forall m :: m in WithoutPrev(members) <==> m in members && m.key != "prev_hash"
  {
    if members != [] {
      WithoutPrevKeepsTheRest(members[1..]);
      assert members == [members[0]] + members[1..];
    }
  }

  lemma {:induction false} BareIsValid(members: seq<Member>)
    requires Valid(Obj(members))
    ensures Valid(Obj(WithoutPrev(members)))
  {
    if members != [] {
      var head, tail := members[0], members[1..];
      BareIsValid(tail);
      WithoutPrevKeepsTheRest(tail);
      var rest := WithoutPrev(tail);
      forall i | 0 <= i < |rest|
        ensures rest[i].key != head.key
      {
        assert rest[i] in tail;
      }
    }
  }

  /** Equal values stay equal when their links are removed. */
  lemma SameBare(v: Json, w: Json)
    requires v.Obj? && w.Obj? && Valid(v) && Valid(w) && Same(v, w)
    ensures Valid(Bare(v)) && Valid(Bare(w)) && Same(Bare(v), Bare(w))
  {
    BareIsValid(v.members);
    BareIsValid(w.members);
    WithoutPrevKeepsTheRest(v.members);
    WithoutPrevKeepsTheRest(w.members);
    var a, b := WithoutPrev(v.members), WithoutPrev(w.members);
    NamesWithoutPrev(v.members);
    NamesWithoutPrev(w.members);
    forall i, j | 0 <= i < |a| && 0 <= j < |b| && a[i].key == b[j].key
      ensures Same(a[i].value, b[j].value)
    {
      assert a[i] in v.members && b[j] in w.members;
    }
  }

  lemma NamesWithoutPrev(members: seq<Member>)
    ensures NameSet(WithoutPrev(members)) == NameSet(members) - {PREV}
  {
    WithoutPrevKeepsTheRest(members);
    var rest := WithoutPrev(members);
    forall key | key in NameSet(members) - {PREV}
      ensures key in NameSet(rest)
    {
      var i :| 0 <= i < |members| && members[i].key == key;
      assert members[i] in rest;
    }
    forall key | key in NameSet(rest)
      ensures key in NameSet(members) - {PREV}
    {
      var i :| 0 <= i < |rest| && rest[i].key == key;
      assert rest[i] in members;
    }
  }

  /** A chain hash survives writing a line and reading it back. */
  lemma SameChainHash(codec: Codec, v: Json, w: Json)
    requires v.Obj? && w.Obj? && Valid(v) && Valid(w) && Same(v, w)
    ensures ChainHash(codec, v) == ChainHash(codec, w)
  {
    SameBare(v, w);
    CanonicalIff(Bare(v), Bare(w));
  }

  lemma {:induction false} FindPrevFinds(members: seq<Member>)
    ensures FindPrev(members).None? <==> PREV !in NameSet(members)
    ensures FindPrev(members).Some? ==> Member(PREV, FindPrev(members).value) in members
  {
    if members != [] {
      FindPrevFinds(members[1..]);
      assert members == [members[0]] + members[1..];
      assert NameSet(members) == {members[0].key} + NameSet(members[1..]);
    }
  }

  /** So does a link. */
  lemma SameLink(v: Json, w: Json)
    requires v.Obj? && w.Obj? && Same(v, w)
    requires LinkOf(v).Some? ==> LinkOf(v).value.Str?
    ensures LinkOf(w) == LinkOf(v)
  {
    FindPrevFinds(v.members);
    FindPrevFinds(w.members);
    if LinkOf(v).Some? {
      var i :| 0 <= i < |v.members| && v.members[i] == Member(PREV, LinkOf(v).value);
      var j :| 0 <= j < |w.members| && w.members[j] == Member(PREV, LinkOf(w).value);
      assert Same(v.members[i].value, w.members[j].value);
    }
  }

  /** Two events with one chain hash are the same value, whatever their links and the
      order of their members, or they exhibit a digest collision. */
  lemma ChainHashBinds(codec: Codec, v: Json, w: Json)
    requires Valid(Bare(v)) && Valid(Bare(w)) && ChainHash(codec, v) == ChainHash(codec, w)
    ensures Same(Bare(v), Bare(w))
            || (Canon(Bare(v)) != Canon(Bare(w)) && codec.digest(Canon(Bare(v))) == codec.digest(Canon(Bare(w))))
  {
    var a, b := Audit.Hex(codec.digest(Canon(Bare(v)))), Audit.Hex(codec.digest(Canon(Bare(w))));
    assert ("sha256:" + a)[7..] == a && ("sha256:" + b)[7..] == b;
    Audit.HexReadsBack(codec.digest(Canon(Bare(v))), codec.digest(Canon(Bare(w))));
    CanonicalIff(Bare(v), Bare(w));
  }

  /** A chain hash is the text "sha256:" and the lowercase digits of the digest, over the
      canonical text of the event without any link. */
  lemma ChainHashText(codec: Codec, event: seq<Member>, prev: Option<string>)
    requires Unlinked(event)
    ensures var h, bytes := ChainHash(codec, Linked(event, prev)), codec.digest(Canon(Obj(event)));
            |h| >= 7 && h[..7] == "sha256:" && Audit.SpellsBytes(h[7..], bytes)
  {
    HashIgnoresTheLink(codec, event, prev, None);
    LinkIsSeparate(event, None);
    Audit.HexSpellsBytes(codec.digest(Canon(Obj(event))));
  }

  // ----- Lines of a file ------------------------------------------------------------

  /** `split` on newlines: always at least one segment. */
  function Split(s: string): (r: seq<string>)
    ensures r != []
  {
    if s == "" then [""] else PutFront(s[0], Split(s[1..]))
  }

  function PutFront(c: char, segments: seq<string>): (r: seq<string>)
    requires segments != []
    ensures r != []
  {
    if c == '\n' then [""] + segments else [[c] + segments[0]] + segments[1..]
  }

  function TrimFront(s: string): string {
    if s != "" && IsBlank(s[0]) then TrimFront(s[1..]) else s
  }

  function TrimBack(s: string): string {
    if s != "" && IsBlank(s[|s| - 1]) then TrimBack(s[..|s| - 1]) else s
  }

  function Trim(s: string): string {
    TrimBack(TrimFront(s))
  }

  /** The last segment that is not blank, trimmed. */
  function LastLine(segments: seq<string>): Option<string> {
    if segments == [] then None
    else
      var t := Trim(segments[|segments| - 1]);
      if t != "" then Some(t) else LastLine(segments[..|segments| - 1])
  }

  /** What a scan of the whole file finds. */
  function LastLineOf(s: string): Option<string> {
    LastLine(Split(s))
  }

  function WindowStart(file: string, window: nat): nat {
    if |file| > window then |file| - window else 0
  }

  /** What the scan of the last `window` characters finds: unless it starts at the
      beginning of the file, its first segment may be cut and is skipped. */
  function LastLineInWindow(file: string, window: nat): Option<string> {
    var start := WindowStart(file, window);
    var segments := Split(file[start..]);
    LastLine(if start > 0 then segments[1..] else segments)
  }

  function HashOfLine(codec: Codec, line: Option<string>): Option<string> {
    if line.None? then None
    else
      var v := codec.parse(line.value);
      if v.Some? && v.value.Obj? then Some(ChainHash(codec, v.value)) else None
  }

  // ----- What the last line is ---------------------------------------------------------

  /** ASCII white space, as the standard library's `trim_ascii` has it. */
  ghost predicate Space(c: char) {
    c in {' ', '\t', '\n', '\U{C}', '\r'}
  }

  ghost predicate AllSpace(s: string, from: int, to: int)
    requires 0 <= from && to <= |s|
  {
    forall k :: from <= k < to ==> Space(s[k])
  }

  /** `s[i..j]` is text on one line, with nothing but space around it on that line and
      after it, down to the end. */
  ghost predicate IsLastText(s: string, i: nat, j: nat) {
    && i < j <= |s|
    && !Space(s[i]) && !Space(s[j - 1]) && '\n' !in s[i..j]
    && (exists k :: 0 <= k <= i && (k == 0 || s[k - 1] == '\n') && AllSpace(s, k, i))
    && AllSpace(s, j, |s|)
  }

  /** The last line of a text is its last text, or nothing if all is space. */
  ghost predicate IsLastLineOf(s: string, line: Option<string>) {
    match line
    case None => AllSpace(s, 0, |s|)
    case Some(t) => exists i: nat, j: nat :: IsLastText(s, i, j) && t == s[i..j]
  }

  lemma {:induction false} TrimFrontSpan(s: string) returns (i: nat)
    ensures i <= |s| && TrimFront(s) == s[i..] && AllSpace(s, 0, i) && (i < |s| ==> !Space(s[i]))
  {
    i := 0;
    if s != "" && IsBlank(s[0]) {
      var r := TrimFrontSpan(s[1..]);
      i := r + 1;
      assert forall k :: 0 < k < i ==> s[k] == s[1..][k - 1];
    }
  }

  lemma {:induction false} TrimBackSpan(s: string) returns (j: nat)
    ensures j <= |s| && TrimBack(s) == s[..j] && AllSpace(s, j, |s|) && (j > 0 ==> !Space(s[j - 1]))
  {
    j := |s|;
    if s != "" && IsBlank(s[|s| - 1]) {
      j := TrimBackSpan(s[..|s| - 1]);
      assert forall k :: j <= k < |s| - 1 ==> s[k] == s[..|s| - 1][k];
    }
  }

  /** Trimming a line finds its text, or that it is all space. */
  lemma TrimSpan(s: string) returns (i: nat, j: nat)
    ensures i <= j <= |s| && Trim(s) == s[i..j] && AllSpace(s, 0, i) && AllSpace(s, j, |s|)
    ensures i < j ==> !Space(s[i]) && !Space(s[j - 1])
  {
    i := TrimFrontSpan(s);
    var rest := s[i..];
    var n := TrimBackSpan(rest);
    j := i + n;
    assert rest[..n] == s[i..j];
    assert forall k :: j <= k < |s| ==> s[k] == rest[k - i];
    assert i < j ==> s[j - 1] == rest[n - 1];
  }

  lemma OneLineText(s: string)
    requires '\n' !in s
    ensures IsLastLineOf(s, LastLineOf(s))
  {
    NoNewlineOneSegment(s);
    LastOfOne(s);
    var i, j := TrimSpan(s);
    if i < j {
      assert IsLastText(s, i, j);
    } else {
      assert forall k :: 0 <= k < |s| ==> Space(s[k]);
    }
  }

  /** The last newline, if there is one. */
  lemma {:induction false} LastNewline(s: string) returns (q: nat)
    requires '\n' in s
    ensures q < |s| && s[q] == '\n' && '\n' !in s[q + 1..]
  {
    if s[|s| - 1] == '\n' {
      q := |s| - 1;
    } else {
      assert s == s[..|s| - 1] + [s[|s| - 1]];
      q := LastNewline(s[..|s| - 1]);
      assert s[q + 1..] == s[..|s| - 1][q + 1..] + [s[|s| - 1]];
    }
  }

  lemma TextBehindSpace(x: string, y: string, s: string)
    requires s == x + ['\n'] + y && AllSpace(y, 0, |y|) && IsLastLineOf(x, LastLineOf(x))
    ensures IsLastLineOf(s, LastLineOf(x))
  {
    assert forall k :: 0 <= k < |x| ==> s[k] == x[k];
    assert forall k :: 0 <= k < |y| ==> s[|x| + 1 + k] == y[k];
    forall k | |x| <= k < |s|
      ensures Space(s[k])
    {
      assert k == |x| || s[k] == y[k - |x| - 1];
    }
    if LastLineOf(x).Some? {
      var i: nat, j: nat :| IsLastText(x, i, j) && LastLineOf(x).value == x[i..j];
      assert s[i..j] == x[i..j];
      var k :| 0 <= k <= i && (k == 0 || x[k - 1] == '\n') && AllSpace(x, k, i);
      assert AllSpace(s, k, i);
      assert IsLastText(s, i, j);
    }
  }

  lemma TextOnTheLastLine(x: string, y: string, s: string)
    requires s == x + ['\n'] + y && LastLineOf(y).Some? && IsLastLineOf(y, LastLineOf(y))
    ensures IsLastLineOf(s, LastLineOf(y))
  {
    var n := |x| + 1;
    var i: nat, j: nat :| IsLastText(y, i, j) && LastLineOf(y).value == y[i..j];
    assert s[n..] == y;
    assert forall k :: n <= k < |s| ==> s[k] == y[k - n];
    assert s[n + i..n + j] == y[i..j];
    var k :| 0 <= k <= i && (k == 0 || y[k - 1] == '\n') && AllSpace(y, k, i);
    assert n + k - 1 == |x| || s[n + k - 1] == y[k - 1];
    assert AllSpace(s, n + k, n + i);
    assert IsLastText(s, n + i, n + j);
  }

  /** A scan of a whole file finds its last line that is not blank, without the space
      around it. */
  lemma {:induction false} LastLineIsTheLastText(s: string)
    ensures IsLastLineOf(s, LastLineOf(s))
    decreases |s|
  {
    if '\n' !in s {
      OneLineText(s);
    } else {
      var q := LastNewline(s);
      var x, y := s[..q], s[q + 1..];
      assert s == x + ['\n'] + y;
      LastLineAfterNewline(x, y);
      OneLineText(y);
      if LastLineOf(y).Some? {
        TextOnTheLastLine(x, y, s);
      } else {
        LastLineIsTheLastText(x);
        TextBehindSpace(x, y, s);
      }
    }
  }

  method TailChainHash(codec: Codec, file: string, window: nat) returns (hash: Option<string>)
    ensures hash == HashOfLine(codec, LastLineInWindow(file, window))
    ensures hash.Some? <==> && LastLineInWindow(file, window).Some?
                            && var v := codec.parse(LastLineInWindow(file, window).value); v.Some? && v.value.Obj?
    ensures hash.Some? ==> hash.value == ChainHash(codec, codec.parse(LastLineInWindow(file, window).value).value)
  {
    var len := |file|;
    var start := if len > window then len - window else 0;
    var segments := Split(file[start..]);
    var last: Option<string> := None;
    for i := 0 to |segments|
      invariant last == LastLine(if start > 0 && i > 0 then segments[1..i] else segments[..i])
    {
      assert segments[..i + 1][..i] == segments[..i];
      if i == 0 && start > 0 {
        continue;
      }
      assert i > 0 ==> segments[1..i + 1][..i - 1] == segments[1..i];
      var trimmed := Trim(segments[i]);
      if trimmed != "" {
        last := Some(trimmed);
      }
    }
    assert segments[..|segments|] == segments && segments[1..|segments|] == segments[1..];
    hash := HashOfLine(codec, last);
  }

  // ----- When the window is enough ---------------------------------------------------

  lemma PutFrontConcat(c: char, a: seq<string>, b: seq<string>)
    requires a != []
    ensures PutFront(c, a + b) == PutFront(c, a) + b
  {
    assert (a + b)[0] == a[0] && (a + b)[1..] == a[1..] + b;
  }

  lemma {:induction false} SplitAtNewline(x: string, y: string)
    ensures Split(x + ['\n'] + y) == Split(x) + Split(y)
  {
    var s := x + ['\n'] + y;
    if x == "" {
      assert s[1..] == y && s[0] == '\n';
      assert Split(x) == [""];
    } else {
      SplitAtNewline(x[1..], y);
      assert s[1..] == x[1..] + ['\n'] + y && s[0] == x[0];
      PutFrontConcat(x[0], Split(x[1..]), Split(y));
    }
  }

  lemma {:induction false} LastLineConcat(a: seq<string>, b: seq<string>)
    ensures LastLine(a + b) == if LastLine(b).Some? then LastLine(b) else LastLine(a)
  {
    if b == [] {
      assert a + b == a;
    } else {
      assert (a + b)[..|a + b| - 1] == a + b[..|b| - 1];
      LastLineConcat(a, b[..|b| - 1]);
    }
  }

  lemma LastLineAfterNewline(x: string, y: string)
    ensures LastLineOf(x + ['\n'] + y) == if LastLineOf(y).Some? then LastLineOf(y) else LastLineOf(x)
  {
    SplitAtNewline(x, y);
    LastLineConcat(Split(x), Split(y));
  }

  lemma {:induction false} NoNewlineOneSegment(s: string)
    requires '\n' !in s
    ensures Split(s) == [s]
  {
    if s != "" {
      NoNewlineOneSegment(s[1..]);
      assert s == [s[0]] + s[1..];
    }
  }

  /** Some newline inside the window still has a non-blank line behind it. */
  ghost predicate LineBreakInWindow(file: string, window: nat) {
    exists p :: && 0 <= p < |file| <= p + window
                && file[p] == '\n' && LastLineOf(file[p + 1..]).Some?
  }

  /** The first newline of the window, if there is one. */
  lemma {:induction false} FirstNewline(s: string) returns (q: nat)
    requires '\n' in s
    ensures q < |s| && s[q] == '\n' && '\n' !in s[..q]
  {
    if s[0] == '\n' {
      q := 0;
    } else {
      var r := FirstNewline(s[1..]);
      q := r + 1;
      assert s[..q] == [s[0]] + s[1..][..r];
    }
  }

  lemma NoNewlineNoBreak(file: string, window: nat)
    requires |file| > window && '\n' !in file[WindowStart(file, window)..]
    ensures LastLineInWindow(file, window) == None && !LineBreakInWindow(file, window)
  {
    var start := WindowStart(file, window);
    var buf := file[start..];
    NoNewlineOneSegment(buf);
    assert Split(buf)[1..] == [];
    forall p | start <= p < |file|
      ensures file[p] != '\n'
    {
      assert file[p] == buf[p - start];
    }
  }

  /** A scan that skips its first segment reads on from the first newline. */
  lemma SkippedSegment(file: string, window: nat, q: nat)
    requires |file| > window && WindowStart(file, window) + q < |file|
    requires var buf := file[WindowStart(file, window)..]; buf[q] == '\n' && '\n' !in buf[..q]
    ensures LastLineInWindow(file, window) == LastLineOf(file[WindowStart(file, window) + q + 1..])
  {
    var buf := file[WindowStart(file, window)..];
    var x, y := buf[..q], buf[q + 1..];
    assert buf == x + ['\n'] + y;
    NoNewlineOneSegment(x);
    SplitAtNewline(x, y);
    assert y == file[WindowStart(file, window) + q + 1..];
    assert Split(buf)[1..] == Split(y);
  }

  /** A line break further on leaves its line visible from here. */
  lemma LaterBreakCounts(file: string, first: nat, p: nat)
    requires first <= p < |file| && file[p] == '\n' && LastLineOf(file[p + 1..]).Some?
    ensures LastLineOf(file[first + 1..]).Some?
  {
    if p > first {
      var y := file[first + 1..];
      assert y == y[..p - first - 1] + ['\n'] + file[p + 1..];
      LastLineAfterNewline(y[..p - first - 1], file[p + 1..]);
    }
  }

  lemma LastLineInCutWindow(file: string, window: nat)
    requires |file| > window
    ensures LastLineInWindow(file, window).Some? <==> LineBreakInWindow(file, window)
    ensures LastLineInWindow(file, window).Some? ==> LastLineInWindow(file, window) == LastLineOf(file)
  {
    var start := WindowStart(file, window);
    var buf := file[start..];
    if '\n' !in buf {
      NoNewlineNoBreak(file, window);
    } else {
      var q := FirstNewline(buf);
      SkippedSegment(file, window, q);
      var first := start + q;
      assert file[first] == '\n' by {
        assert buf[q] == file[first];
      }
      assert file == file[..first] + ['\n'] + file[first + 1..];
      LastLineAfterNewline(file[..first], file[first + 1..]);
      forall i | start <= i < first
        ensures file[i] != '\n'
      {
        assert buf[..q][i - start] == file[i];
      }
      if p :| start <= p < |file| && file[p] == '\n' && LastLineOf(file[p + 1..]).Some? {
        LaterBreakCounts(file, first, p);
      }
    }
  }

  /** The windowed scan finds what a scan of the whole file finds exactly when the
      file fits, is blank, or has a line break before its last line in the window. */
  lemma WindowScanIsExactIff(file: string, window: nat)
    ensures LastLineInWindow(file, window) == LastLineOf(file)
            <==> |file| <= window || LastLineOf(file) == None || LineBreakInWindow(file, window)
  {
    if |file| > window {
      LastLineInCutWindow(file, window);
    } else {
      assert file[0..] == file;
    }
  }

  // ----- The exporter ------------------------------------------------------------------

  /** What the file system took of a line: all of it, or its first characters before it
      reported a failure. */
  datatype Write = Whole | Torn(kept: nat)

  datatype Outcome = Written | SkippedNoAgentId(total: nat) | WriteError(total: nat)

  /** The lines written for a sequence of events, each linked to the one before. */
  function LineOf(codec: Codec, events: seq<seq<Member>>, i: nat): string
    requires i < |events|
  {
    codec.line(Linked(events[i], NextLink(codec, events[..i])))
  }

  /** What the next event must carry: the hash of the last one. */
  function NextLink(codec: Codec, events: seq<seq<Member>>): Option<string> {
    if events == [] then None else Some(ChainHash(codec, Obj(events[|events| - 1])))
  }

  function FileOf(codec: Codec, events: seq<seq<Member>>): string {
    if events == [] then ""
    else FileOf(codec, events[..|events| - 1]) + LineOf(codec, events, |events| - 1) + ['\n']
  }

  class Exporter {
    const codec: Codec
    const window: nat
    var file: string
    var next: Option<string>
    var skipped: nat
    var writeErrors: nat

    /** Open a file and resume its chain. */
    constructor Open(codec: Codec, window: nat, contents: string)
      ensures this.codec == codec && this.window == window
      ensures file == contents && next == HashOfLine(codec, LastLineInWindow(contents, window))
      ensures skipped == 0 && writeErrors == 0
    {
      this.codec, this.window := codec, window;
      file := contents;
      skipped, writeErrors := 0, 0;
      next := None;
      new;
      next := TailChainHash(codec, contents, window);
    }

    /** Link and write one event; `None` has no agent to speak for, and `write` is what
        the file system makes of the line. */
    method Emit(event: Option<seq<Member>>, write: Write) returns (outcome: Outcome)
      requires event.Some? ==> Unlinked(event.value)
      modifies this
      ensures (file, next) == Emitted(codec, old(file), old(next), event, write)
      ensures event.None? ==> file == old(file) && next == old(next)
      ensures event.Some? ==>
                var stamp := if old(next).None? then [] else [Member("prev_hash", Str(old(next).value))];
                var line := codec.line(Obj(event.value + stamp));
                && (write.Whole? ==> file == old(file) + line + "\n" && next == Some(ChainHash(codec, Obj(event.value))))
                && (write.Torn? ==> file == old(file) + line[..Min(write.kept, |line|)] && next == old(next))
      ensures skipped == old(skipped) + (if outcome.SkippedNoAgentId? then 1 else 0)
      ensures writeErrors == old(writeErrors) + (if outcome.WriteError? then 1 else 0)
      ensures outcome == if event.None? then SkippedNoAgentId(skipped) else if write.Whole? then Written else WriteError(writeErrors)
    {
      if event.None? {
        skipped := skipped + 1;
        return SkippedNoAgentId(skipped);
      }
      var linked := Linked(event.value, next);
      var line := codec.line(linked);
      assert linked.members == event.value + if next.None? then [] else [Member("prev_hash", Str(next.value))];
      if write.Whole? {
        assert file + (line + ['\n']) == file + line + "\n";
        file := file + (line + ['\n']);
        HashIgnoresTheLink(codec, event.value, next, None);
        next := Some(ChainHash(codec, linked));
        outcome := Written;
      } else {
        file := file + Started(line, write.kept);
        writeErrors := writeErrors + 1;
        outcome := WriteError(writeErrors);
      }
    }
  }

  /** The part of a line that a failed write leaves in the file. */
  function Started(line: string, kept: nat): string {
    line[..Min(kept, |line|)]
  }

  /** The file and the pending link after one call of `Emit`. */
  function Emitted(codec: Codec, file: string, next: Option<string>, event: Option<seq<Member>>, write: Write): (string, Option<string>) {
    if event.None? then (file, next)
    else
      var line := codec.line(Linked(event.value, next));
      match write
      case Whole => (file + (line + ['\n']), Some(ChainHash(codec, Obj(event.value))))
      case Torn(kept) => (file + Started(line, kept), next)
  }

  // ----- Whole histories ----------------------------------------------------------------

  datatype Op =
    | Emit(event: Option<seq<Member>>, write: Write)
    | Restart

  function Stepped(codec: Codec, window: nat, s: (string, Option<string>), op: Op): (string, Option<string>) {
    match op
    case Emit(event, write) => Emitted(codec, s.0, s.1, event, write)
    case Restart => (s.0, HashOfLine(codec, LastLineInWindow(s.0, window)))
  }

  /** A process history on a file that starts empty. */
  function After(codec: Codec, window: nat, ops: seq<Op>): (string, Option<string>) {
    if ops == [] then ("", None) else Stepped(codec, window, After(codec, window, ops[..|ops| - 1]), ops[|ops| - 1])
  }

  /** The events whose lines reached the file. */
  function WrittenEvents(ops: seq<Op>): seq<seq<Member>> {
    if ops == [] then [] else WrittenEvents(ops[..|ops| - 1]) + WrittenBy(ops[|ops| - 1])
  }

  function WrittenBy(op: Op): seq<seq<Member>> {
    if op.Emit? && op.event.Some? && op.write.Whole? then [op.event.value] else []
  }

  ghost predicate Fits(codec: Codec, window: nat, events: seq<seq<Member>>) {
    forall i :: 0 <= i < |events| ==> IsEvent(codec, events[i]) && |LineOf(codec, events, i)| + 2 <= window
  }

  lemma LastOfOne(segment: string)
    ensures LastLine([segment]) == if Trim(segment) != "" then Some(Trim(segment)) else None
  {
    assert [segment][..0] == [];
  }

  /** A line without blanks at its ends is its own last line. */
  lemma OneLine(line: string)
    requires IsLine(line)
    ensures LastLineOf(line + ['\n']) == Some(line)
  {
    LastLineAfterNewline(line, "");
    assert line + ['\n'] + "" == line + ['\n'];
    NoNewlineOneSegment("");
    NoNewlineOneSegment(line);
    LastOfOne("");
    LastOfOne(line);
  }

  lemma LineIsItsLast(codec: Codec, event: seq<Member>, prev: Option<string>)
    requires Sound(codec) && IsEvent(codec, event)
    ensures var line := codec.line(Linked(event, prev)); LastLineOf(line + ['\n']) == Some(line)
  {
    LinkedHasALine(codec, event, prev);
    OneLine(codec.line(Linked(event, prev)));
  }

  lemma {:induction false} FileEndsWithNewline(codec: Codec, events: seq<seq<Member>>)
    ensures events != [] ==> FileOf(codec, events) != "" && FileOf(codec, events)[|FileOf(codec, events)| - 1] == '\n'
  {
  }

  /** The scan recovers the hash of the last event. */
  lemma RestartResumes(codec: Codec, window: nat, events: seq<seq<Member>>)
    requires Sound(codec) && Fits(codec, window, events)
    ensures HashOfLine(codec, LastLineInWindow(FileOf(codec, events), window)) == NextLink(codec, events)
  {
    var file := FileOf(codec, events);
    if events == [] {
      NoNewlineOneSegment("");
      assert [""][..0] == [];
    } else {
      var n := |events| - 1;
      var line := LineOf(codec, events, n);
      var before := FileOf(codec, events[..n]);
      var tail := line + ['\n'];
      assert file == before + tail;
      LineIsItsLast(codec, events[n], NextLink(codec, events[..n]));
      FileEndsWithNewline(codec, events[..n]);
      if before == "" {
        assert file == tail;
        WindowScanIsExactIff(file, window);
      } else {
        var p := |before| - 1;
        assert file == before[..p] + ['\n'] + tail;
        LastLineAfterNewline(before[..p], tail);
        assert file[p + 1..] == tail;
        assert |file| > window ==> WindowStart(file, window) <= p;
        assert |file| > window ==> LineBreakInWindow(file, window);
        WindowScanIsExactIff(file, window);
      }
      assert LastLineInWindow(file, window) == Some(line);
      var prev := NextLink(codec, events[..n]);
      LinkedIsSound(codec, events[n], prev);
      SameChainHash(codec, Linked(events[n], prev), codec.parse(line).value);
      HashIgnoresTheLink(codec, events[n], prev, None);
    }
  }

  lemma FitsPrefix(codec: Codec, window: nat, events: seq<seq<Member>>, n: nat)
    requires Fits(codec, window, events) && n <= |events|
    ensures Fits(codec, window, events[..n])
  {
    forall i | 0 <= i < n
      ensures IsEvent(codec, events[..n][i]) && |LineOf(codec, events[..n], i)| + 2 <= window
    {
      assert events[..n][..i] == events[..i];
      assert |LineOf(codec, events, i)| + 2 <= window;
    }
  }

  lemma WrittenExtendsFile(codec: Codec, events: seq<seq<Member>>, event: seq<Member>)
    ensures Emitted(codec, FileOf(codec, events), NextLink(codec, events), Some(event), Whole)
            == (FileOf(codec, events + [event]), NextLink(codec, events + [event]))
  {
    var longer := events + [event];
    var n := |events|;
    assert longer[..n] == events;
    var line := LineOf(codec, longer, n);
    assert FileOf(codec, events) + (line + ['\n']) == FileOf(codec, events) + line + ['\n'];
  }

  lemma StepChains(codec: Codec, window: nat, events: seq<seq<Member>>, op: Op)
    requires Sound(codec) && Fits(codec, window, events) && LeavesNoPart(op)
    ensures var longer := events + WrittenBy(op);
            Stepped(codec, window, (FileOf(codec, events), NextLink(codec, events)), op)
            == (FileOf(codec, longer), NextLink(codec, longer))
  {
    if op.Restart? {
      RestartResumes(codec, window, events);
      assert events + [] == events;
    } else if op.event.Some? && op.write.Whole? {
      WrittenExtendsFile(codec, events, op.event.value);
    } else {
      assert FileOf(codec, events) + "" == FileOf(codec, events);
      assert events + [] == events;
    }
  }

  /** A failed write leaves no part of its line in the file. */
  predicate LeavesNoPart(op: Op) {
    op.Emit? && op.event.Some? && op.write.Torn? ==> op.write.kept == 0
  }

  predicate NoPartsLeft(ops: seq<Op>) {
    forall i :: 0 <= i < |ops| ==> LeavesNoPart(ops[i])
  }

  ghost predicate EmitsEvents(codec: Codec, ops: seq<Op>) {
    forall i :: 0 <= i < |ops| && ops[i].Emit? && ops[i].event.Some? ==> IsEvent(codec, ops[i].event.value)
  }

  /** The file is one chain of exactly the written events, and the pending link is the
      hash of the last of them. */
  ghost predicate IsOneChain(codec: Codec, window: nat, ops: seq<Op>) {
    After(codec, window, ops) == (FileOf(codec, WrittenEvents(ops)), NextLink(codec, WrittenEvents(ops)))
  }

  /** Over any history of successful and skipped emits, of emits that failed before
      anything was written, and of restarts, the file is one chain of exactly the written
      events, and a restart recovers the very link the process would have used next. */
  lemma {:induction false} OneFileIsOneChain(codec: Codec, window: nat, ops: seq<Op>)
    requires Sound(codec) && Fits(codec, window, WrittenEvents(ops))
    requires NoPartsLeft(ops)
    ensures IsOneChain(codec, window, ops)
  {
    if ops != [] {
      var init := ops[..|ops| - 1];
      var events := WrittenEvents(init);
      assert WrittenEvents(ops)[..|events|] == events;
      FitsPrefix(codec, window, WrittenEvents(ops), |events|);
      OneFileIsOneChain(codec, window, init);
      StepChains(codec, window, events, ops[|ops| - 1]);
    }
  }

  /** Part of a line left behind: the file is no chain any more. */
  lemma TornLineBreaksTheChain(codec: Codec, window: nat, init: seq<Op>, op: Op, line: string)
    requires !LeavesNoPart(op) && IsOneChain(codec, window, init)
    requires line == codec.line(Linked(op.event.value, NextLink(codec, WrittenEvents(init)))) && line != ""
    ensures !IsOneChain(codec, window, init + [op])
  {
    var longer := init + [op];
    assert longer[..|longer| - 1] == init && longer[|longer| - 1] == op;
    var events := WrittenEvents(init);
    var part := Started(line, op.write.kept);
    assert WrittenEvents(longer) == events + [] == events;
    assert After(codec, window, longer).0 == FileOf(codec, events) + part;
    assert |part| > 0;
  }

  /** At every moment of the history. */
  ghost predicate OneChainThroughout(codec: Codec, window: nat, ops: seq<Op>) {
    IsOneChain(codec, window, ops) && (ops == [] || OneChainThroughout(codec, window, ops[..|ops| - 1]))
  }

  lemma FitsBefore(codec: Codec, window: nat, ops: seq<Op>)
    requires ops != [] && Fits(codec, window, WrittenEvents(ops))
    ensures Fits(codec, window, WrittenEvents(ops[..|ops| - 1]))
  {
    var events := WrittenEvents(ops[..|ops| - 1]);
    assert WrittenEvents(ops)[..|events|] == events;
    FitsPrefix(codec, window, WrittenEvents(ops), |events|);
  }

  lemma AllButTheLast(codec: Codec, ops: seq<Op>, init: seq<Op>, op: Op)
    requires ops != [] && init == ops[..|ops| - 1] && op == ops[|ops| - 1]
    ensures ops == init + [op] && (NoPartsLeft(ops) <==> NoPartsLeft(init) && LeavesNoPart(op))
    ensures EmitsEvents(codec, ops) ==> EmitsEvents(codec, init)
    ensures EmitsEvents(codec, ops) && op.Emit? && op.event.Some? ==> IsEvent(codec, op.event.value)
  {
    assert forall i :: 0 <= i < |ops| ==> ops[i] == if i < |init| then init[i] else op;
  }

  lemma LastStepKeepsTheChainIff(codec: Codec, window: nat, ops: seq<Op>, init: seq<Op>, op: Op)
    requires ops == init + [op] && NoPartsLeft(init) && IsOneChain(codec, window, init)
    requires Sound(codec) && Fits(codec, window, WrittenEvents(ops))
    requires op.Emit? && op.event.Some? ==> IsEvent(codec, op.event.value)
    ensures IsOneChain(codec, window, ops) <==> LeavesNoPart(op)
  {
    if LeavesNoPart(op) {
      OneFileIsOneChain(codec, window, ops);
    } else {
      var prev := NextLink(codec, WrittenEvents(init));
      LinkedHasALine(codec, op.event.value, prev);
      TornLineBreaksTheChain(codec, window, init, op, codec.line(Linked(op.event.value, prev)));
    }
  }

  /** The file stays one chain throughout a history exactly when no failed write leaves
      part of a line in it. */
  lemma {:induction false} OneChainThroughoutIff(codec: Codec, window: nat, ops: seq<Op>)
    requires Sound(codec) && EmitsEvents(codec, ops) && Fits(codec, window, WrittenEvents(ops))
    ensures OneChainThroughout(codec, window, ops) <==> NoPartsLeft(ops)
  {
    if ops != [] {
      var init, op := ops[..|ops| - 1], ops[|ops| - 1];
      AllButTheLast(codec, ops, init, op);
      FitsBefore(codec, window, ops);
      OneChainThroughoutIff(codec, window, init);
      if NoPartsLeft(init) {
        LastStepKeepsTheChainIff(codec, window, ops, init, op);
      }
    }
  }

  // ----- What a verifier sees ---------------------------------------------------------

  lemma LineReadsBack(codec: Codec, events: seq<seq<Member>>, i: nat)
    requires Sound(codec) && i < |events| && IsEvent(codec, events[i])
    ensures var v := Linked(events[i], NextLink(codec, events[..i]));
            var back := codec.parse(LineOf(codec, events, i));
            ReadsAs(v, back) && LinkOf(back.value) == LinkOf(v) && ChainHash(codec, back.value) == ChainHash(codec, v)
  {
    var prev := NextLink(codec, events[..i]);
    var v, back := Linked(events[i], prev), codec.parse(LineOf(codec, events, i));
    LinkedIsSound(codec, events[i], prev);
    SameChainHash(codec, v, back.value);
    LinkIsSeparate(events[i], prev);
    SameLink(v, back.value);
  }

  lemma LinkIsHashOfPrevious(codec: Codec, events: seq<seq<Member>>, i: nat)
    requires 0 < i < |events| && Unlinked(events[i - 1])
    ensures NextLink(codec, events[..i]) == Some(ChainHash(codec, Linked(events[i - 1], NextLink(codec, events[..i - 1]))))
  {
    assert events[..i][i - 1] == events[i - 1];
    HashIgnoresTheLink(codec, events[i - 1], NextLink(codec, events[..i - 1]), None);
  }

  /** What a verifier sees of line `i`: it parses; the first line carries no link, and
      every other line's link is the chain hash of the line before it as read. */
  lemma LinesAreChained(codec: Codec, events: seq<seq<Member>>, i: nat)
    requires Sound(codec) && i < |events| && forall k :: 0 <= k < |events| ==> IsEvent(codec, events[k])
    ensures codec.parse(LineOf(codec, events, i)).Some?
    ensures i == 0 ==> LinkOf(codec.parse(LineOf(codec, events, i)).value) == None
    ensures i > 0 ==> codec.parse(LineOf(codec, events, i - 1)).Some?
                      && LinkOf(codec.parse(LineOf(codec, events, i)).value)
                         == Some(Str(ChainHash(codec, codec.parse(LineOf(codec, events, i - 1)).value)))
  {
    LineReadsBack(codec, events, i);
    LinkIsSeparate(events[i], NextLink(codec, events[..i]));
    if i > 0 {
      LineReadsBack(codec, events, i - 1);
      LinkIsHashOfPrevious(codec, events, i);
    }
  }
}
