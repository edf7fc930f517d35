/** De-overlapping findings and redacting them (`crates/core/src/dlp.rs`). Pattern matching
    itself is not modelled: findings are inputs. */
module Redaction {
  import opened Basics
  import opened Sorting

  type byte = x: int | 0 <= x < 256

  /** A match of some pattern: `start..end` in bytes. */
  datatype Finding = Finding(kind: seq<byte>, start: nat, end: nat)

  // ---- de-overlapping ----

  /** Leftmost first, longer on a tie. */
  function Earlier(a: Finding, b: Finding): bool {
    a.start < b.start || (a.start == b.start && a.end >= b.end)
  }

  ghost predicate Proper(findings: seq<Finding>) {
    forall f :: f in findings ==> f.start <= f.end
  }

  ghost predicate NonEmpty(findings: seq<Finding>) {
    forall f :: f in findings ==> f.start < f.end
  }

  /** In order, each ending before the next begins. */
  ghost predicate Disjoint(kept: seq<Finding>) {
    forall i, j :: 0 <= i < j < |kept| ==> kept[i].end <= kept[j].start
  }

  /** `k` was kept in preference to `f`, which starts inside it. */
  predicate Covers(k: Finding, f: Finding) {
    k.start <= f.start < k.end && (k.start < f.start || f.end <= k.end)
  }

  ghost predicate IsCovered(f: Finding, kept: seq<Finding>) {
    f in kept || exists k :: k in kept && Covers(k, f)
  }

  lemma EarlierIsAnOrder()
    ensures TotalPreorder(Earlier)
  {
  }

  function LastEnd(kept: seq<Finding>): nat {
    if kept == [] then 0 else kept[|kept| - 1].end
  }

  /** The scan over findings already in order. */
  function Kept(sorted: seq<Finding>): seq<Finding> {
    if sorted == [] then []
    else
      var kept, f := Kept(sorted[..|sorted| - 1]), sorted[|sorted| - 1];
      if f.start >= LastEnd(kept) then kept + [f] else kept
  }

  method DedupOverlaps(found: seq<Finding>) returns (result: seq<Finding>)
    ensures result == Kept(Sort(Earlier, found))
  {
    var sorted := Sort(Earlier, found);
    result := [];
    var lastEnd := 0;
    for i := 0 to |sorted|
      invariant result == Kept(sorted[..i]) && lastEnd == LastEnd(result)
    {
      assert sorted[..i + 1][..i] == sorted[..i];
      if sorted[i].start >= lastEnd {
        lastEnd := sorted[i].end;
        result := result + [sorted[i]];
      }
    }
    assert sorted[..|sorted|] == sorted;
  }

  lemma {:induction false} KeptIsDisjoint(sorted: seq<Finding>)
    requires Proper(sorted)
    ensures var kept := Kept(sorted);
            Disjoint(kept) && forall k :: k in kept ==> k in sorted && k.end <= LastEnd(kept)
  {
    if sorted != [] {
      var before, f := sorted[..|sorted| - 1], sorted[|sorted| - 1];
      assert sorted == before + [f];
      KeptIsDisjoint(before);
      var was := Kept(before);
      assert forall i :: 0 <= i < |was| ==> was[i] in was;
    }
  }

  lemma InOrderOf(sorted: seq<Finding>, i: nat, j: nat)
    requires Sorted(Earlier, sorted) && i < j < |sorted|
    ensures Earlier(sorted[i], sorted[j])
  {
  }

  lemma CoverGrows(g: Finding, kept: seq<Finding>, f: Finding)
    requires IsCovered(g, kept)
    ensures IsCovered(g, kept + [f])
  {
    if g !in kept {
      var k :| k in kept && Covers(k, g);
      assert k in kept + [f];
    }
  }

  lemma {:induction false} KeptCovers(sorted: seq<Finding>, g: Finding)
    requires Sorted(Earlier, sorted) && Proper(sorted) && g in sorted
    ensures IsCovered(g, Kept(sorted))
  {
    var before, f := sorted[..|sorted| - 1], sorted[|sorted| - 1];
    var was := Kept(before);
    assert sorted == before + [f];
    if g in before {
      KeptCovers(before, g);
      CoverGrows(g, was, f);
    } else if f.start < LastEnd(was) {
      KeptIsDisjoint(before);
      var k := was[|was| - 1];
      assert k in was && k in before;
      var a :| 0 <= a < |before| && before[a] == k;
      InOrderOf(sorted, a, |sorted| - 1);
    }
  }

  /** The result is a selection of the findings, in order and pairwise disjoint; every finding
      is kept, or starts inside a kept one that begins further left or is at least as long. */
  lemma DedupIsDisjointAndCovering(found: seq<Finding>)
    requires Proper(found)
    ensures var kept := Kept(Sort(Earlier, found));
            && Disjoint(kept) && (forall k :: k in kept ==> k in found)
            && (forall f :: f in found ==> IsCovered(f, kept))
  {
    EarlierIsAnOrder();
    SortKeeps(Earlier, found);
    SortSorts(Earlier, found);
    var sorted := Sort(Earlier, found);
    KeptIsDisjoint(sorted);
    forall f | f in found
      ensures IsCovered(f, Kept(sorted))
    {
      KeptCovers(sorted, f);
    }
  }

  // ---- ties ----

  /** The finding that first reported a span. */
  function FirstReport(found: seq<Finding>, start: nat, end: nat): Option<Finding> {
    if found == [] then None
    else if found[0].start == start && found[0].end == end then Some(found[0])
    else FirstReport(found[1..], start, end)
  }

  lemma {:induction false} FirstReportIsFirstLike(found: seq<Finding>, c: Finding)
    ensures var like := Like(Earlier, c, found);
            FirstReport(found, c.start, c.end) == if like == [] then None else Some(like[0])
  {
    if found != [] {
      FirstReportIsFirstLike(found[1..], c);
    }
  }

  /** No later finding is kept for a span that was already reported. */
  lemma SpanIsTaken(sorted: seq<Finding>, g: Finding)
    requires Sorted(Earlier, sorted) && NonEmpty(sorted) && g in sorted
    ensures g.start < LastEnd(Kept(sorted))
  {
    KeptIsDisjoint(sorted);
    KeptCovers(sorted, g);
  }

  lemma {:induction false} KeptIsFirstReport(sorted: seq<Finding>, k: Finding)
    requires Sorted(Earlier, sorted) && NonEmpty(sorted) && k in Kept(sorted)
    ensures FirstReport(sorted, k.start, k.end) == Some(k)
  {
    var before, f := sorted[..|sorted| - 1], sorted[|sorted| - 1];
    assert sorted == before + [f];
    FirstReportOfPrefix(before, f, k.start, k.end);
    if k in Kept(before) {
      KeptIsFirstReport(before, k);
    } else {
      FirstReportIsAReport(before, k.start, k.end);
      forall g | g in before
        ensures g.start < LastEnd(Kept(before))
      {
        SpanIsTaken(before, g);
      }
    }
  }

  lemma {:induction false} FirstReportIsAReport(found: seq<Finding>, start: nat, end: nat)
    ensures var g := FirstReport(found, start, end);
            g.Some? ==> g.value in found && g.value.start == start && g.value.end == end
  {
    if found != [] {
      FirstReportIsAReport(found[1..], start, end);
    }
  }

  lemma {:induction false} FirstReportOfPrefix(found: seq<Finding>, last: Finding, start: nat, end: nat)
    ensures FirstReport(found + [last], start, end)
            == if FirstReport(found, start, end).Some? then FirstReport(found, start, end)
               else if last.start == start && last.end == end then Some(last) else None
  {
    if found == [] {
      assert (found + [last])[1..] == [];
    } else {
      FirstReportOfPrefix(found[1..], last, start, end);
      assert (found + [last])[1..] == found[1..] + [last];
    }
  }

  /** When several patterns match one span, the one reported first names it. */
  lemma EarliestPatternWins(found: seq<Finding>, k: Finding)
    requires NonEmpty(found) && k in Kept(Sort(Earlier, found))
    ensures FirstReport(found, k.start, k.end) == Some(k)
  {
    var sorted := Sort(Earlier, found);
    EarlierIsAnOrder();
    SortKeeps(Earlier, found);
    SortSorts(Earlier, found);
    KeptIsFirstReport(sorted, k);
    assert forall x, y :: Together(Earlier, k, x, y);
    SortIsStable(Earlier, k, found);
    FirstReportIsFirstLike(found, k);
    FirstReportIsFirstLike(sorted, k);
  }

  // ---- redaction ----

  /** `[REDACTED:kind]` in bytes. */
  function Tag(kind: seq<byte>): seq<byte> {
    [91, 82, 69, 68, 65, 67, 84, 69, 68, 58] + kind + [93]
  }

  /** `is_char_boundary`: not in the middle of a UTF-8 sequence. */
  predicate IsBoundary(s: seq<byte>, i: nat) {
    i == 0 || i == |s| || (i < |s| && !(0x80 <= s[i] < 0xC0))
  }

  predicate Fits(s: seq<byte>, f: Finding) {
    f.end <= |s| && IsBoundary(s, f.start) && IsBoundary(s, f.end)
  }

  /** The text from `from` on, left to right: each applicable span replaced by its tag and
      everything between copied. */
  function Splice(text: seq<byte>, spans: seq<Finding>, from: nat): seq<byte>
    requires from <= |text|
  {
    if spans == [] then text[from..]
    else
      var f := spans[0];
      if from <= f.start <= f.end && Fits(text, f) then text[from..f.start] + Tag(f.kind) + Splice(text, spans[1..], f.end)
      else Splice(text, spans[1..], from)
  }

  function Rightmost(a: Finding, b: Finding): bool {
    a.start >= b.start
  }

  function Reversed(s: seq<Finding>): seq<Finding> {
    if s == [] then [] else Reversed(s[1..]) + [s[0]]
  }

  /** One replacement, if the span still fits the text as rewritten so far. */
  function Edit(s: seq<byte>, f: Finding): seq<byte> {
    if f.start <= f.end && Fits(s, f) then s[..f.start] + Tag(f.kind) + s[f.end..] else s
  }

  function Edits(text: seq<byte>, ordered: seq<Finding>): seq<byte> {
    if ordered == [] then text else Edit(Edits(text, ordered[..|ordered| - 1]), ordered[|ordered| - 1])
  }

  /** The replacements made from the right. */
  function Redacted(text: seq<byte>, findings: seq<Finding>): seq<byte> {
    Edits(text, Sort(Rightmost, findings))
  }

  /** No finding twice, and no two of them share a byte. */
  ghost predicate Apart(findings: seq<Finding>) {
    Distinct(findings) && forall f, g :: f in findings && g in findings && f != g ==> !Overlap(f, g)
  }

  /** `spans_overlap`. */
  predicate Overlap(a: Finding, b: Finding) {
    a.start < b.end && b.start < a.end
  }

  /** Right-to-left, in place, so that the offsets still to come stay good. */
  method Redact(text: seq<byte>, findings: seq<Finding>) returns (s: seq<byte>)
    requires Proper(findings)
    ensures s == Redacted(text, findings)
    ensures NonEmpty(findings) && Apart(findings) ==> s == Splice(text, Sort(Earlier, findings), 0)
  {
    s := text;
    var ordered := Sort(Rightmost, findings);
    SortKeeps(Rightmost, findings);
    for i := 0 to |ordered|
      invariant s == Edits(text, ordered[..i])
    {
      assert ordered[..i + 1][..i] == ordered[..i];
      var f := ordered[i];
      assert f in findings;
      if Fits(s, f) {
        s := s[..f.start] + Tag(f.kind) + s[f.end..];
      }
    }
    assert ordered[..|ordered|] == ordered;
    if NonEmpty(findings) && Apart(findings) {
      RedactionIsTheSplice(text, findings);
    }
  }

  lemma HeadAndLater(spans: seq<Finding>, f: Finding, later: seq<Finding>)
    requires NonEmpty(spans) && Disjoint(spans) && spans != [] && f == spans[0] && later == spans[1..]
    ensures spans == [f] + later && NonEmpty(later) && Disjoint(later)
    ensures f.start < f.end && forall g :: g in later ==> f.end <= g.start < g.end
  {
    assert f in spans;
    forall i | 0 <= i < |later|
      ensures later[i] in spans && f.end <= later[i].start
    {
      assert later[i] == spans[i + 1];
    }
  }

  /** Editing disjoint spans from the right is splicing them from the left. */
  lemma {:induction false} EditsAreTheSplice(text: seq<byte>, spans: seq<Finding>)
    requires NonEmpty(spans) && Disjoint(spans)
    ensures Edits(text, Reversed(spans)) == Splice(text, spans, 0)
  {
    if spans != [] {
      var f, later := spans[0], spans[1..];
      HeadAndLater(spans, f, later);
      EditsAreTheSplice(text, later);
      SpliceOneMore(text, f, later, Splice(text, later, 0));
      assert (Reversed(later) + [f])[..|Reversed(later)|] == Reversed(later);
    }
  }

  /** Findings that share no byte are disjoint spans once they are in order. */
  lemma ApartIsDisjoint(findings: seq<Finding>)
    requires NonEmpty(findings) && Apart(findings)
    ensures var spans := Sort(Earlier, findings);
            NonEmpty(spans) && Disjoint(spans) && multiset(spans) == multiset(findings)
  {
    EarlierIsAnOrder();
    SortKeeps(Earlier, findings);
    SortSorts(Earlier, findings);
    OrderedApartIsDisjoint(findings, Sort(Earlier, findings));
  }

  lemma OrderedApartIsDisjoint(findings: seq<Finding>, spans: seq<Finding>)
    requires NonEmpty(findings) && Apart(findings) && multiset(spans) == multiset(findings) && Sorted(Earlier, spans)
    ensures NonEmpty(spans) && Disjoint(spans)
  {
    RearrangedDistinct(findings, spans);
    forall i, j | 0 <= i < j < |spans|
      ensures spans[i].end <= spans[j].start
    {
      InOrderOf(spans, i, j);
      assert spans[i] in spans && spans[j] in spans;
      assert !Overlap(spans[i], spans[j]);
    }
  }

  /** Whatever order the findings come in: if none is empty and no two share a byte, the
      result is the text with each applicable one replaced where it stands. */
  lemma RedactionIsTheSplice(text: seq<byte>, findings: seq<Finding>)
    requires NonEmpty(findings) && Apart(findings)
    ensures Redacted(text, findings) == Splice(text, Sort(Earlier, findings), 0)
  {
    var spans := Sort(Earlier, findings);
    ApartIsDisjoint(findings);
    RightmostIsReversed(findings, spans);
    EditsAreTheSplice(text, spans);
  }

  /** What one scan reports is redacted span by span. */
  lemma RedactingOneScan(text: seq<byte>, found: seq<Finding>)
    requires NonEmpty(found)
    ensures var kept := Kept(Sort(Earlier, found));
            Redacted(text, kept) == Splice(text, kept, 0)
  {
    var kept := Kept(Sort(Earlier, found));
    DedupIsDisjointAndCovering(found);
    RightmostIsReversed(kept, kept);
    EditsAreTheSplice(text, kept);
  }

  // ---- two scans ----

  predicate InSpan(f: Finding, i: int) {
    f.start <= i < f.end
  }

  /** Overlapping is sharing a byte. */
  lemma OverlapIsSharing(a: Finding, b: Finding)
    requires a.start < a.end && b.start < b.end
    ensures Overlap(a, b) <==> exists i :: InSpan(a, i) && InSpan(b, i)
  {
    var i := Max(a.start, b.start);
    assert Overlap(a, b) ==> InSpan(a, i) && InSpan(b, i);
  }

  /** The personal-data findings that no secret finding overlaps. */
  function Outside(pii: seq<Finding>, secrets: seq<Finding>): seq<Finding> {
    if pii == [] then []
    else Outside(pii[..|pii| - 1], secrets)
         + (if exists f :: f in secrets && Overlap(f, pii[|pii| - 1]) then [] else [pii[|pii| - 1]])
  }

  lemma {:induction false} OutsideSelects(pii: seq<Finding>, secrets: seq<Finding>)
    ensures forall p :: p in Outside(pii, secrets) <==> p in pii && forall f :: f in secrets ==> !Overlap(f, p)
    ensures Distinct(pii) ==> Distinct(Outside(pii, secrets))
  {
    if pii != [] {
      var init, p := pii[..|pii| - 1], pii[|pii| - 1];
      OutsideSelects(init, secrets);
      assert pii == init + [p];
      if Distinct(pii) {
        assert p !in init;
        assert p !in Outside(init, secrets);
      }
    }
  }

  lemma DisjointIsApart(kept: seq<Finding>)
    requires NonEmpty(kept) && Disjoint(kept)
    ensures Apart(kept)
  {
    forall i, j | 0 <= i < j < |kept|
      ensures kept[i] != kept[j] && !Overlap(kept[i], kept[j]) && !Overlap(kept[j], kept[i])
    {
      assert kept[i] in kept && kept[j] in kept;
    }
  }

  lemma MergeIsApart(secrets: seq<Finding>, pii: seq<Finding>)
    requires NonEmpty(secrets) && NonEmpty(pii) && Apart(secrets) && Apart(pii)
    ensures NonEmpty(secrets + Outside(pii, secrets)) && Apart(secrets + Outside(pii, secrets))
  {
    var outside := Outside(pii, secrets);
    OutsideSelects(pii, secrets);
    forall i, j | 0 <= i < |secrets| && 0 <= j < |outside|
      ensures secrets[i] != outside[j]
    {
      assert secrets[i] in secrets && outside[j] in outside;
      assert !Overlap(secrets[i], outside[j]);
    }
  }

  /** Secrets and personal data found by two scans are redacted in one pass, each where it
      stands, once the personal data that overlaps a secret has been dropped. */
  lemma RedactingTwoScans(text: seq<byte>, foundSecrets: seq<Finding>, foundPii: seq<Finding>)
    requires NonEmpty(foundSecrets) && NonEmpty(foundPii)
    ensures var secrets, pii := Kept(Sort(Earlier, foundSecrets)), Kept(Sort(Earlier, foundPii));
            var merged := secrets + Outside(pii, secrets);
            && Redacted(text, merged) == Splice(text, Sort(Earlier, merged), 0)
            && Disjoint(Sort(Earlier, merged))
  {
    var secrets, pii := Kept(Sort(Earlier, foundSecrets)), Kept(Sort(Earlier, foundPii));
    DedupIsDisjointAndCovering(foundSecrets);
    DedupIsDisjointAndCovering(foundPii);
    DisjointIsApart(secrets);
    DisjointIsApart(pii);
    MergeIsApart(secrets, pii);
    var merged := secrets + Outside(pii, secrets);
    ApartIsDisjoint(merged);
    RedactionIsTheSplice(text, merged);
  }

  // ---- splicing ----

  /** One step further left: the rewritten text is edited where the original would be. */
  lemma SpliceOneMore(text: seq<byte>, f: Finding, later: seq<Finding>, s: seq<byte>)
    requires f.start < f.end && (forall g :: g in later ==> f.end <= g.start < g.end)
    requires s == Splice(text, later, 0)
    ensures Splice(text, [f] + later, 0) == Edit(s, f)
  {
    assert ([f] + later)[1..] == later;
    SameFit(text, f, later);
    if Fits(text, f) {
      SpliceFrom(text, later, f.end);
      assert s[..f.start] == text[0..f.start];
      assert s[f.end..] == Splice(text, later, f.end);
    }
  }

  /** Splicing spans that all start at or after `e` leaves the text before `e` alone. */
  lemma {:induction false} SpliceFrom(text: seq<byte>, later: seq<Finding>, e: nat)
    requires e <= |text| && forall g :: g in later ==> e <= g.start
    ensures Splice(text, later, 0) == text[..e] + Splice(text, later, e)
  {
    if later == [] {
      assert text[0..] == text[..e] + text[e..];
    } else {
      var f := later[0];
      if f.start <= f.end && Fits(text, f) {
        assert text[0..f.start] == text[..e] + text[e..f.start];
      } else {
        SpliceFrom(text, later[1..], e);
      }
    }
  }

  /** A span that lies left of every replaced one fits the rewritten text exactly when it
      fitted the original. */
  lemma {:induction false} SameFit(text: seq<byte>, f: Finding, later: seq<Finding>)
    requires f.start <= f.end && forall g :: g in later ==> f.end <= g.start < g.end
    ensures Fits(Splice(text, later, 0), f) <==> Fits(text, f)
  {
    if later == [] {
      assert text[0..] == text;
    } else {
      var g := later[0];
      if Fits(text, g) {
        var s := Splice(text, later, 0);
        assert s == text[..g.start] + Tag(g.kind) + Splice(text, later[1..], g.end);
        assert s[g.start] == 91;
        assert forall i :: 0 <= i < g.start ==> s[i] == text[i];
      } else {
        SameFit(text, f, later[1..]);
      }
    }
  }

  lemma {:induction false} ReversedAt(s: seq<Finding>)
    ensures |Reversed(s)| == |s|
    ensures forall i :: 0 <= i < |s| ==> Reversed(s)[i] == s[|s| - 1 - i]
  {
    if s != [] {
      ReversedAt(s[1..]);
    }
  }

  lemma {:induction false} ReversedKeeps(s: seq<Finding>)
    ensures multiset(Reversed(s)) == multiset(s)
  {
    if s != [] {
      ReversedKeeps(s[1..]);
      assert s == [s[0]] + s[1..];
    }
  }

  /** Sorting by descending start is reversing the ordered spans. */
  lemma RightmostIsReversed(findings: seq<Finding>, spans: seq<Finding>)
    requires NonEmpty(spans) && Disjoint(spans) && multiset(findings) == multiset(spans)
    ensures Sort(Rightmost, findings) == Reversed(spans)
  {
    var sorted, reversed := Sort(Rightmost, findings), Reversed(spans);
    ReversedAt(spans);
    ReversedKeeps(spans);
    SortKeeps(Rightmost, findings);
    SortSorts(Rightmost, findings);
    forall i, j | 0 <= i < j < |reversed|
      ensures Rightmost(reversed[i], reversed[j]) && !Rightmost(reversed[j], reversed[i])
    {
      assert spans[|spans| - 1 - j] in spans;
    }
    assert multiset(sorted) == multiset(reversed);
    StrictArrangement(sorted, reversed);
    SortedUnique(Rightmost, sorted, reversed);
  }

  lemma StrictArrangement(sorted: seq<Finding>, reversed: seq<Finding>)
    requires multiset(sorted) == multiset(reversed) && Sorted(Rightmost, sorted)
    requires forall i, j :: 0 <= i < j < |reversed| ==> !Rightmost(reversed[j], reversed[i])
    ensures forall x :: x in sorted <==> x in reversed
    ensures forall i, j :: 0 <= i < j < |sorted| ==> Rightmost(sorted[i], sorted[j]) && !Rightmost(sorted[j], sorted[i])
  {
    forall x
      ensures x in sorted <==> x in reversed
    {
      assert x in multiset(sorted) <==> x in multiset(reversed);
    }
    forall i, j | 0 <= i < j < |sorted|
      ensures !Rightmost(sorted[j], sorted[i])
    {
      if sorted[i].start == sorted[j].start {
        assert sorted[i] in reversed && sorted[j] in reversed;
        var a :| 0 <= a < |reversed| && reversed[a] == sorted[i];
        var b :| 0 <= b < |reversed| && reversed[b] == sorted[j];
        assert a == b;
        OccursOnce(reversed, a);
        OccursTwice(sorted, i, j);
      }
    }
  }
}
