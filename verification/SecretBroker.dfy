/** Swapping secret handles for secrets in one pass (`crates/core/src/secretbroker.rs`). */
module SecretBroker {
  import opened Basics

  const OPEN: string := "{{secret:"
  const CLOSE: string := "}}"

  type Vault = map<string, string>

  // ---- leftmost occurrence ----

  predicate At(s: string, p: string, i: nat) {
    i + |p| <= |s| && s[i..i + |p|] == p
  }

  function Find(s: string, p: string): Option<nat>
  {
    if At(s, p, 0) then Some(0)
    else if s == [] then None
    else
      var rest := Find(s[1..], p);
      if rest.Some? then Some(rest.value + 1) else None
  }

  lemma {:induction false} FindIsLeftmost(s: string, p: string)
    ensures var found := Find(s, p);
            && (found.None? ==> forall i :: 0 <= i <= |s| ==> !At(s, p, i))
            && (found.Some? ==> At(s, p, found.value) && forall i :: 0 <= i < found.value ==> !At(s, p, i))
  {
    if !At(s, p, 0) && s != [] {
      FindIsLeftmost(s[1..], p);
      forall i | 1 <= i <= |s|
        ensures At(s, p, i) <==> At(s[1..], p, i - 1)
      {
        if i + |p| <= |s| {
          assert s[1..][i - 1..i - 1 + |p|] == s[i..i + |p|];
        }
      }
    }
  }

  /** A text cut around the first occurrence of `p`. */
  datatype Halves = NotFound | Halves(before: string, after: string)

  function SplitOnce(s: string, p: string): (h: Halves)
    ensures h.Halves? ==> s == h.before + (p + h.after)
  {
    if |p| <= |s| && s[..|p|] == p then Halves("", s[|p|..])
    else if s == [] then NotFound
    else
      var rest := SplitOnce(s[1..], p);
      if rest.Halves? then Halves([s[0]] + rest.before, rest.after) else NotFound
  }

  /** That is `find` and two slices. */
  lemma {:induction false} SplitOnceIsFind(s: string, p: string)
    ensures var found := Find(s, p);
            && (found.None? <==> SplitOnce(s, p).NotFound?)
            && (found.Some? ==> found.value + |p| <= |s|
                                && SplitOnce(s, p) == Halves(s[..found.value], s[found.value + |p|..]))
  {
    assert At(s, p, 0) <==> |p| <= |s| && s[..|p|] == p;
    if !At(s, p, 0) && s != [] {
      SplitOnceIsFind(s[1..], p);
    }
  }

  // ---- tokens ----

  /** The first thing in a text: nothing to replace, an opening never closed, or a handle. */
  datatype Piece = Whole | Dangling(before: string, after: string) | Closed(before: string, name: string, rest: string)

  function Cut(s: string, open: string, close: string): (p: Piece)
    ensures p.Dangling? ==> s == p.before + (open + p.after)
    ensures p.Closed? ==> s == p.before + (open + (p.name + (close + p.rest)))
  {
    match SplitOnce(s, open)
    case NotFound => Whole
    case Halves(before, after) =>
      match SplitOnce(after, close)
      case NotFound => Dangling(before, after)
      case Halves(name, rest) => Closed(before, name, rest)
  }

  /** A text is plain stretches and closed handles in turn, ending in a plain stretch or in
      an opening that is never closed. */
  datatype Text =
    | Plain(text: string)
    | Handle(before: string, name: string, rest: Text)
    | Unclosed(before: string, after: string)

  function Tokens(s: string, open: string, close: string): Text
    requires open != []
    decreases |s|
  {
    match Cut(s, open, close)
    case Whole => Plain(s)
    case Dangling(before, after) => Unclosed(before, after)
    case Closed(before, name, rest) => Handle(before, name, Tokens(rest, open, close))
  }

  /** A handle as it is written, in front of what follows it. */
  function Written(before: string, name: string, rest: string, open: string, close: string): string {
    before + (open + (name + (close + rest)))
  }

  function Show(t: Text, open: string, close: string): string {
    match t
    case Plain(text) => text
    case Handle(before, name, rest) => Written(before, name, Show(rest, open, close), open, close)
    case Unclosed(before, after) => before + (open + after)
  }

  /** Every closed handle the vault knows becomes its secret; the rest stays as it is. */
  function Render(t: Text, vault: Vault, open: string, close: string): string {
    match t
    case Plain(text) => text
    case Handle(before, name, rest) =>
      var tail := Render(rest, vault, open, close);
      if name in vault then before + (vault[name] + tail) else Written(before, name, tail, open, close)
    case Unclosed(before, after) => before + (open + after)
  }

  function Names(t: Text): seq<string> {
    if t.Handle? then [t.name] + Names(t.rest) else []
  }

  // ---- substitution, said on stretches and fills ----

  /** The text around the handles: one stretch before each, and one after the last. */
  function Stretches(t: Text, open: string): (r: seq<string>)
    ensures |r| == |Names(t)| + 1
  {
    match t
    case Plain(text) => [text]
    case Handle(before, _, rest) => [before] + Stretches(rest, open)
    case Unclosed(before, after) => [before + (open + after)]
  }

  /** Stretches and fills in turn. */
  function Woven(stretches: seq<string>, fills: seq<string>): string
    requires |stretches| == |fills| + 1
  {
    if fills == [] then stretches[0] else stretches[0] + (fills[0] + Woven(stretches[1..], fills[1..]))
  }

  function HandleText(name: string, open: string, close: string): string {
    open + name + close
  }

  ghost predicate AreHandles(fills: seq<string>, names: seq<string>, open: string, close: string) {
    |fills| == |names| && forall i :: 0 <= i < |names| ==> fills[i] == HandleText(names[i], open, close)
  }

  /** The secret of every name the vault knows, and the handle as written of any other. */
  ghost predicate AreFills(fills: seq<string>, names: seq<string>, vault: Vault, open: string, close: string) {
    && |fills| == |names|
    && forall i :: 0 <= i < |names| ==>
         fills[i] == if names[i] in vault then vault[names[i]] else HandleText(names[i], open, close)
  }

  /** `s` weaves stretches of text with handles; `t` weaves the same stretches with the
      secrets of those that are known. */
  ghost predicate Weaves(s: string, t: string, stretches: seq<string>, names: seq<string>, vault: Vault, open: string, close: string) {
    exists handles: seq<string>, fills: seq<string> ::
      && |stretches| == |names| + 1
      && AreHandles(handles, names, open, close) && s == Woven(stretches, handles)
      && AreFills(fills, names, vault, open, close) && t == Woven(stretches, fills)
  }

  /** `t` is `s` with the known handles replaced. */
  ghost predicate Substituted(s: string, t: string, vault: Vault, open: string, close: string)
    requires open != []
  {
    var text := Tokens(s, open, close);
    Weaves(s, t, Stretches(text, open), Names(text), vault, open, close)
  }

  lemma WovenFirst(before: string, fill: string, stretches: seq<string>, fills: seq<string>)
    requires |stretches| == |fills| + 1
    ensures Woven([before] + stretches, [fill] + fills) == before + (fill + Woven(stretches, fills))
  {
    assert ([before] + stretches)[1..] == stretches && ([fill] + fills)[1..] == fills;
  }

  lemma WrittenIsHandleText(before: string, name: string, tail: string, open: string, close: string)
    ensures Written(before, name, tail, open, close) == before + (HandleText(name, open, close) + tail)
  {
    assert open + (name + (close + tail)) == open + name + close + tail;
  }

  lemma FillsFirst(
    name: string, names: seq<string>, handles: seq<string>, fills: seq<string>, vault: Vault, open: string, close: string)
    requires AreHandles(handles, names, open, close) && AreFills(fills, names, vault, open, close)
    ensures var text := HandleText(name, open, close);
            && AreHandles([text] + handles, [name] + names, open, close)
            && AreFills([if name in vault then vault[name] else text] + fills, [name] + names, vault, open, close)
  {
  }

  lemma {:induction false} TokensWeave(t: Text, vault: Vault, open: string, close: string)
    returns (handles: seq<string>, fills: seq<string>)
    ensures AreHandles(handles, Names(t), open, close) && Show(t, open, close) == Woven(Stretches(t, open), handles)
    ensures AreFills(fills, Names(t), vault, open, close) && Render(t, vault, open, close) == Woven(Stretches(t, open), fills)
  {
    handles, fills := [], [];
    if t.Handle? {
      var h, f := TokensWeave(t.rest, vault, open, close);
      var text := HandleText(t.name, open, close);
      var fill := if t.name in vault then vault[t.name] else text;
      var stretches := Stretches(t.rest, open);
      FillsFirst(t.name, Names(t.rest), h, f, vault, open, close);
      WovenFirst(t.before, text, stretches, h);
      WovenFirst(t.before, fill, stretches, f);
      WrittenIsHandleText(t.before, t.name, Show(t.rest, open, close), open, close);
      WrittenIsHandleText(t.before, t.name, Render(t.rest, vault, open, close), open, close);
      handles, fills := [text] + h, [fill] + f;
    }
  }

  /** Rendering a text replaces each known handle by its secret where it stands and keeps
      everything else. */
  lemma RenderSubstitutes(s: string, vault: Vault, open: string, close: string)
    requires open != []
    ensures Substituted(s, Render(Tokens(s, open, close), vault, open, close), vault, open, close)
  {
    var _, _ := TokensWeave(Tokens(s, open, close), vault, open, close);
    TokensShowTheText(s, open, close);
  }

  function Known(names: seq<string>, vault: Vault): nat {
    if names == [] then 0 else (if names[0] in vault then 1 else 0) + Known(names[1..], vault)
  }

  function Unknown(names: seq<string>, vault: Vault): seq<string> {
    if names == [] then []
    else if names[0] in vault then Unknown(names[1..], vault)
    else [names[0]] + Unknown(names[1..], vault)
  }

  /** Splitting a text into tokens loses nothing. */
  lemma {:induction false} TokensShowTheText(s: string, open: string, close: string)
    requires open != []
    ensures Show(Tokens(s, open, close), open, close) == s
    decreases |s|
  {
    var p := Cut(s, open, close);
    if p.Closed? {
      TokensShowTheText(p.rest, open, close);
    }
  }

  ghost predicate Absent(s: string, p: string) {
    forall i :: 0 <= i <= |s| ==> !At(s, p, i)
  }

  /** In `before` + `p` + `after`, `p` occurs nowhere earlier than after `before`. */
  ghost predicate Leftmost(before: string, after: string, p: string) {
    forall i :: 0 <= i < |before| ==> !At(before + (p + after), p, i)
  }

  /** Cutting finds nothing exactly where `p` does not occur, */
  lemma NotFoundIffAbsent(s: string, p: string)
    ensures SplitOnce(s, p).NotFound? <==> Absent(s, p)
  {
    FindIsLeftmost(s, p);
    SplitOnceIsFind(s, p);
  }

  lemma ThreeParts(before: string, after: string, p: string, s: string)
    requires s == before + (p + after)
    ensures var n := |before|;
            n + |p| <= |s| && s[..n] == before && s[n + |p|..] == after && At(s, p, n)
  {
    assert s[|before|..|before| + |p|] == p;
  }

  /** and cuts between two texts exactly where `p` occurs no earlier. */
  lemma CutsThereIffLeftmost(before: string, after: string, p: string, s: string)
    requires s == before + (p + after)
    ensures SplitOnce(s, p) == Halves(before, after) <==> Leftmost(before, after, p)
  {
    FindIsLeftmost(s, p);
    SplitOnceIsFind(s, p);
    ThreeParts(before, after, p, s);
    var found := Find(s, p).value;
    if found == |before| {
      assert SplitOnce(s, p) == Halves(before, after);
    } else {
      assert |s[..found]| != |before|;
    }
  }

  /** Tokens in which no delimiter could have been read earlier, and none was overlooked. */
  ghost predicate Canonical(t: Text, open: string, close: string) {
    match t
    case Plain(text) => Absent(text, open)
    case Handle(before, name, rest) =>
      var tail := Show(rest, open, close);
      Leftmost(before, name + (close + tail), open) && Leftmost(name, tail, close) && Canonical(rest, open, close)
    case Unclosed(before, after) => Leftmost(before, after, open) && Absent(after, close)
  }

  /** A canonical list of tokens is what its text splits into, */
  lemma {:induction false} TokensReadBack(t: Text, open: string, close: string)
    requires open != [] && Canonical(t, open, close)
    ensures Tokens(Show(t, open, close), open, close) == t
  {
    var s := Show(t, open, close);
    match t
    case Plain(_) => NotFoundIffAbsent(s, open);
    case Handle(before, name, rest) =>
      var tail := Show(rest, open, close);
      var after := name + (close + tail);
      CutsThereIffLeftmost(before, after, open, s);
      CutsThereIffLeftmost(name, tail, close, after);
      TokensReadBack(rest, open, close);
    case Unclosed(before, after) =>
      CutsThereIffLeftmost(before, after, open, s);
      NotFoundIffAbsent(after, close);
  }

  /** and what a text splits into is canonical: the opening of each handle is the leftmost
      one ahead, its closing the leftmost behind the opening. */
  lemma {:induction false} TokensAreCanonical(s: string, open: string, close: string)
    requires open != []
    ensures Canonical(Tokens(s, open, close), open, close)
    decreases |s|
  {
    match Cut(s, open, close)
    case Whole => NotFoundIffAbsent(s, open);
    case Dangling(before, after) =>
      CutsThereIffLeftmost(before, after, open, s);
      NotFoundIffAbsent(after, close);
    case Closed(before, name, rest) =>
      var after := name + (close + rest);
      TokensShowTheText(rest, open, close);
      TokensAreCanonical(rest, open, close);
      CutsThereIffLeftmost(before, after, open, s);
      CutsThereIffLeftmost(name, rest, close, after);
  }

  /** So each text has one canonical reading, and the tokeniser finds it. */
  lemma TheOneCanonicalReading(s: string, t: Text, open: string, close: string)
    requires open != []
    ensures t == Tokens(s, open, close) <==> Show(t, open, close) == s && Canonical(t, open, close)
  {
    TokensShowTheText(s, open, close);
    TokensAreCanonical(s, open, close);
    if Canonical(t, open, close) {
      TokensReadBack(t, open, close);
    }
  }

  /** Every closed handle is either replaced or reported. */
  lemma {:induction false} EveryHandleIsAccountedFor(names: seq<string>, vault: Vault)
    ensures Known(names, vault) + |Unknown(names, vault)| == |names|
    ensures forall n :: n in Unknown(names, vault) <==> n in names && n !in vault
  {
    if names != [] {
      EveryHandleIsAccountedFor(names[1..], vault);
      assert names == [names[0]] + names[1..];
    }
  }

  /** The unknown names are reported one by one, in the order of the text. */
  lemma {:induction false} UnknownInOrder(names: seq<string>, name: string, vault: Vault)
    ensures Unknown(names + [name], vault) == Unknown(names, vault) + (if name in vault then [] else [name])
    ensures Known(names + [name], vault) == Known(names, vault) + (if name in vault then 1 else 0)
  {
    if names == [] {
      assert (names + [name])[1..] == [];
    } else {
      UnknownInOrder(names[1..], name, vault);
      assert (names + [name])[1..] == names[1..] + [name];
    }
  }

  /** A text none of whose handles the vault knows comes back unchanged. */
  lemma {:induction false} NothingKnownNothingChanged(t: Text, vault: Vault, open: string, close: string)
    requires forall n :: n in Names(t) ==> n !in vault
    ensures Render(t, vault, open, close) == Show(t, open, close)
  {
    if t.Handle? {
      assert Names(t) == [t.name] + Names(t.rest);
      assert t.name in Names(t) && forall n :: n in Names(t.rest) ==> n in Names(t);
      NothingKnownNothingChanged(t.rest, vault, open, close);
    }
  }

  // ---- the loop ----

  datatype Injection = Injection(replaced: nat, missing: seq<string>)

  /** What one text adds to the injection report. */
  function Reported(inj: Injection, names: seq<string>, vault: Vault): Injection {
    Injection(inj.replaced + Known(names, vault), inj.missing + Unknown(names, vault))
  }

  function Noted(inj: Injection, name: string, vault: Vault): Injection {
    if name in vault then inj.(replaced := inj.replaced + 1) else inj.(missing := inj.missing + [name])
  }

  lemma NoteFirst(inj: Injection, name: string, names: seq<string>, vault: Vault)
    ensures Reported(Noted(inj, name, vault), names, vault) == Reported(inj, [name] + names, vault)
  {
    assert ([name] + names)[1..] == names;
    if name !in vault {
      assert inj.missing + ([name] + Unknown(names, vault)) == inj.missing + [name] + Unknown(names, vault);
    }
  }

  /** The output so far plus the rendering of what is left. */
  ghost predicate Progress(done: string, ahead: Text, all: string, vault: Vault, open: string, close: string) {
    done + Render(ahead, vault, open, close) == all
  }

  /** What the loop appends for one handle. */
  function Emitted(before: string, name: string, vault: Vault, open: string, close: string): string {
    before + (if name in vault then vault[name] else open + name + close)
  }

  lemma ProgressStep(done: string, t: Text, all: string, vault: Vault, open: string, close: string)
    requires t.Handle? && Progress(done, t, all, vault, open, close)
    ensures Progress(done + Emitted(t.before, t.name, vault, open, close), t.rest, all, vault, open, close)
  {
    var tail := Render(t.rest, vault, open, close);
    if t.name in vault {
    } else {
      assert open + (t.name + (close + tail)) == open + t.name + close + tail;
    }
  }

  method ReplaceHandles(s: string, vault: Vault, start: Injection) returns (out: string, inj: Injection)
    ensures var text := Tokens(s, OPEN, CLOSE);
            out == Render(text, vault, OPEN, CLOSE) && inj == Reported(start, Names(text), vault)
    ensures Substituted(s, out, vault, "{{secret:", "}}")
  {
    out, inj := Replace(s, vault, start, OPEN, CLOSE);
  }

  /** `find`, then the two slices around what was found. */
  method Split(s: string, p: string) returns (h: Halves)
    ensures h == SplitOnce(s, p)
  {
    SplitOnceIsFind(s, p);
    var at := Find(s, p);
    h := NotFound;
    if at.Some? {
      h := Halves(s[..at.value], s[at.value + |p|..]);
    }
  }

  method FirstPiece(s: string, open: string, close: string) returns (p: Piece)
    ensures p == Cut(s, open, close)
  {
    var first := Split(s, open);
    if first.NotFound? {
      return Whole;
    }
    var second := Split(first.after, close);
    if second.NotFound? {
      return Dangling(first.before, first.after);
    }
    p := Closed(first.before, second.before, second.after);
  }

  method Replace(s: string, vault: Vault, start: Injection, open: string, close: string) returns (out: string, inj: Injection)
    requires open != []
    ensures var text := Tokens(s, open, close);
            out == Render(text, vault, open, close) && inj == Reported(start, Names(text), vault)
    ensures Substituted(s, out, vault, open, close)
  {
    RenderSubstitutes(s, vault, open, close);
    out, inj := "", start;
    var rest := s;
    ghost var text := Tokens(s, open, close);
    ghost var all := Render(text, vault, open, close);
    assert "" + all == all;
    while true
      invariant Progress(out, Tokens(rest, open, close), all, vault, open, close)
      invariant Reported(inj, Names(Tokens(rest, open, close)), vault) == Reported(start, Names(text), vault)
      decreases |rest|
    {
      var p := FirstPiece(rest, open, close);
      match p {
        case Whole =>
          out := out + rest;
          return;
        case Dangling(before, after) =>
          out := out + (before + (open + after));
          return;
        case Closed(before, name, tail) =>
          ProgressStep(out, Tokens(rest, open, close), all, vault, open, close);
          NoteFirst(inj, name, Names(Tokens(tail, open, close)), vault);
          out := out + Emitted(before, name, vault, open, close);
          inj := Noted(inj, name, vault);
          rest := tail;
      }
    }
  }
}
