/** The hash-chained audit log (`crates/core/src/audit.rs`). The digest is any
    function into non-empty byte strings; a collision is exhibited, not assumed away. */
module Audit {
  import opened Basics
  import opened Decimal

  const SEP: char := '\U{1F}'
  const REPLACEMENT: char := '\U{FFFD}'

  type Byte = x: int | 0 <= x < 256

  type Digest = string -> seq<Byte>

  datatype AuditEntry = AuditEntry(
    seqNo: nat, tsMillis: i64, actor: string, action: string, subject: string, detail: string,
    prevHash: string, entryHash: string)

  /** What a caller asks to have recorded. */
  datatype Record = Record(tsMillis: i64, actor: string, action: string, subject: string, detail: string)

  // ----- Fields and the pre-image ---------------------------------------------

  function Sanitize(s: string): string {
    if s == [] then [] else [if s[0] < ' ' then REPLACEMENT else s[0]] + Sanitize(s[1..])
  }

  function Hex(bytes: seq<Byte>): string {
    if bytes == [] then []
    else Hex(bytes[..|bytes| - 1]) + [HexDigit(bytes[|bytes| - 1] / 16), HexDigit(bytes[|bytes| - 1] % 16)]
  }

  /** The two lowercase digits of each byte, high half first, in the order of the bytes. */
  ghost predicate SpellsBytes(s: string, bytes: seq<Byte>) {
    && |s| == 2 * |bytes|
    && forall i :: 0 <= i < |bytes| ==>
         s[2 * i] == "0123456789abcdef"[bytes[i] / 16] && s[2 * i + 1] == "0123456789abcdef"[bytes[i] % 16]
  }

  lemma {:induction false} HexSpellsBytes(bytes: seq<Byte>)
    ensures SpellsBytes(Hex(bytes), bytes)
  {
    if bytes != [] {
      HexSpellsBytes(bytes[..|bytes| - 1]);
      HexDigitIs(bytes[|bytes| - 1] / 16);
      HexDigitIs(bytes[|bytes| - 1] % 16);
    }
  }

  method HexLower(bytes: seq<Byte>) returns (s: string)
    ensures s == Hex(bytes) && SpellsBytes(s, bytes)
  {
    HexSpellsBytes(bytes);
    s := [];
    for i := 0 to |bytes|
      invariant s == Hex(bytes[..i])
    {
      assert bytes[..i + 1][..i] == bytes[..i];
      s := s + [HexDigit(bytes[i] / 16), HexDigit(bytes[i] % 16)];
    }
    assert bytes[..|bytes|] == bytes;
  }

  /** The fields joined by the separator. */
  function Join(fields: seq<string>): string
    requires fields != []
  {
    if |fields| == 1 then fields[0]
    else Join(fields[..|fields| - 1]) + [SEP] + fields[|fields| - 1]
  }

  function Fields(e: AuditEntry): seq<string> {
    [Dec(e.seqNo), DecInt(e.tsMillis), e.actor, e.action, e.subject, e.detail, e.prevHash]
  }

  function PreImage(e: AuditEntry): string {
    Join(Fields(e))
  }

  function HashOf(digest: Digest, e: AuditEntry): string {
    Hex(digest(PreImage(e)))
  }

  // ----- Separators can be counted --------------------------------------------

  function Seps(s: string): nat {
    if s == [] then 0 else Seps(s[..|s| - 1]) + if s[|s| - 1] == SEP then 1 else 0
  }

  lemma {:induction false} SepsConcat(a: string, b: string)
    ensures Seps(a + b) == Seps(a) + Seps(b)
  {
    if b == [] {
      assert a + b == a;
    } else {
      assert (a + b)[..|a + b| - 1] == a + b[..|b| - 1];
      SepsConcat(a, b[..|b| - 1]);
    }
  }

  /** A text splits at the separator that leaves a given number of separators on its
      right in only one way. */
  lemma SplitFromRight(x: string, g: string, y: string, h: string)
    requires x + [SEP] + g == y + [SEP] + h && Seps(g) == Seps(h)
    ensures x == y && g == h
  {
    if |g| != |h| {
      if |g| < |h| {
        ShorterTailHasFewerSeps(x, g, y, h);
      } else {
        ShorterTailHasFewerSeps(y, h, x, g);
      }
    }
    assert (x + [SEP] + g)[..|x|] == x && (y + [SEP] + h)[..|y|] == y;
    assert (x + [SEP] + g)[|x| + 1..] == g && (y + [SEP] + h)[|y| + 1..] == h;
  }

  lemma ShorterTailHasFewerSeps(x: string, g: string, y: string, h: string)
    requires x + [SEP] + g == y + [SEP] + h && |g| < |h|
    ensures Seps(g) < Seps(h)
  {
    var whole := x + [SEP] + g;
    var z := h[..|h| - |g| - 1];
    assert h == whole[|y| + 1..];
    assert h == z + [SEP] + g by {
      assert h[|z|] == whole[|x|] == SEP;
      assert h[|z| + 1..] == whole[|x| + 1..] == g;
    }
    SepsConcat(z + [SEP], g);
    SepsConcat(z, [SEP]);
    assert Seps([SEP]) == 1 by {
      assert [SEP][..0] == [];
    }
  }

  function TotalSeps(fields: seq<string>): nat {
    if fields == [] then 0 else TotalSeps(fields[..|fields| - 1]) + Seps(fields[|fields| - 1])
  }

  lemma {:induction false} SepsOfJoin(fields: seq<string>)
    requires fields != []
    ensures Seps(Join(fields)) == |fields| - 1 + TotalSeps(fields)
  {
    if |fields| == 1 {
      assert fields[..0] == [] && TotalSeps(fields[..0]) == 0;
    } else {
      var init := fields[..|fields| - 1];
      SepsOfJoin(init);
      SepsConcat(Join(init) + [SEP], fields[|fields| - 1]);
      SepsConcat(Join(init), [SEP]);
      assert Seps([SEP]) == 1 by {
        assert [SEP][..0] == [];
      }
    }
  }

  /** Joining is injective as soon as one side's fields carry no separator. */
  lemma {:induction false} JoinInjective(a: seq<string>, b: seq<string>)
    requires a != [] && |a| == |b| && TotalSeps(a) == 0 && Join(a) == Join(b)
    ensures a == b
  {
    SepsOfJoin(a);
    SepsOfJoin(b);
    if |a| == 1 {
      assert a == [a[0]] && b == [b[0]];
    } else {
      var n := |a| - 1;
      SplitFromRight(Join(a[..n]), a[n], Join(b[..n]), b[n]);
      JoinInjective(a[..n], b[..n]);
      assert a == a[..n] + [a[n]] && b == b[..n] + [b[n]];
    }
  }

  /** The seven fields of the pre-image, in order. */
  lemma PreImageText(e: AuditEntry)
    ensures PreImage(e)
            == Dec(e.seqNo) + "\U{1F}" + DecInt(e.tsMillis) + "\U{1F}" + e.actor + "\U{1F}" + e.action + "\U{1F}"
               + e.subject + "\U{1F}" + e.detail + "\U{1F}" + e.prevHash
  {
    var f := Fields(e);
    JoinUnfold(f, 7);
    JoinUnfold(f, 6);
    JoinUnfold(f, 5);
    JoinUnfold(f, 4);
    JoinUnfold(f, 3);
    JoinUnfold(f, 2);
    assert f[..7] == f && f[..1] == [f[0]];
  }

  lemma JoinUnfold(fields: seq<string>, n: nat)
    requires 1 < n <= |fields|
    ensures Join(fields[..n]) == Join(fields[..n - 1]) + [SEP] + fields[n - 1]
  {
    assert fields[..n][..n - 1] == fields[..n - 1];
  }

  // ----- Which texts are free of separators ------------------------------------

  lemma {:induction false} NoSepMeansNoSeps(s: string)
    ensures Seps(s) == 0 <==> SEP !in s
  {
    if s != [] {
      NoSepMeansNoSeps(s[..|s| - 1]);
      assert s == s[..|s| - 1] + [s[|s| - 1]];
    }
  }

  lemma {:induction false} SanitizedHasNoControl(s: string)
    ensures |Sanitize(s)| == |s|
    ensures forall i :: 0 <= i < |s| ==> Sanitize(s)[i] == if s[i] < ' ' then '\U{FFFD}' else s[i]
  {
    if s != [] {
      SanitizedHasNoControl(s[1..]);
    }
  }

  lemma SanitizedHasNoSeps(s: string)
    ensures Seps(Sanitize(s)) == 0
  {
    SanitizedHasNoControl(s);
    NoSepMeansNoSeps(Sanitize(s));
  }

  lemma {:induction false} HexIsClean(a: seq<Byte>)
    ensures SEP !in Hex(a) && |Hex(a)| == 2 * |a|
  {
    if a != [] {
      HexIsClean(a[..|a| - 1]);
    }
  }

  lemma {:induction false} HexReadsBack(a: seq<Byte>, b: seq<Byte>)
    ensures Hex(a) == Hex(b) <==> a == b
  {
    HexIsClean(a);
    HexIsClean(b);
    if Hex(a) == Hex(b) && a != [] {
      var n := |a| - 1;
      HexEnds(a, n);
      HexEnds(b, n);
      HexReadsBack(a[..n], b[..n]);
      DigitPairInjective(a[n], b[n]);
    }
  }

  lemma HexEnds(a: seq<Byte>, n: nat)
    requires |a| == n + 1
    ensures |Hex(a)| == 2 * n + 2 && Hex(a)[..2 * n] == Hex(a[..n])
    ensures Hex(a)[2 * n] == HexDigit(a[n] / 16) && Hex(a)[2 * n + 1] == HexDigit(a[n] % 16)
    ensures a == a[..n] + [a[n]]
  {
    HexIsClean(a[..n]);
  }

  lemma DigitPairInjective(c: Byte, d: Byte)
    requires HexDigit(c / 16) == HexDigit(d / 16) && HexDigit(c % 16) == HexDigit(d % 16)
    ensures c == d
  {
    HexDigitInjective(c / 16, d / 16);
    HexDigitInjective(c % 16, d % 16);
  }

  lemma DecHasNoSeps(i: int)
    ensures Seps(DecInt(i)) == 0
  {
    DecIntCharacters(i);
    NoSepMeansNoSeps(DecInt(i));
  }

  /** Two entries with one pre-image are the same entry (up to the stored hash) when
      one of them holds only sanitised fields: no edit can re-partition it. */
  lemma PreImageInjective(a: AuditEntry, b: AuditEntry)
    requires SEP !in a.actor && SEP !in a.action && SEP !in a.subject && SEP !in a.detail && SEP !in a.prevHash
    requires PreImage(a) == PreImage(b)
    ensures a == b.(entryHash := a.entryHash)
  {
    var f, g := Fields(a), Fields(b);
    DecHasNoSeps(a.seqNo);
    DecHasNoSeps(a.tsMillis);
    NoSepMeansNoSeps(a.actor);
    NoSepMeansNoSeps(a.action);
    NoSepMeansNoSeps(a.subject);
    NoSepMeansNoSeps(a.detail);
    NoSepMeansNoSeps(a.prevHash);
    assert forall i :: 0 <= i < 7 ==> Seps(f[i]) == 0;
    NothingToCount(f);
    JoinInjective(f, g);
    assert f[0] == g[0] && f[1] == g[1] && f[2] == g[2] && f[3] == g[3] && f[4] == g[4] && f[5] == g[5] && f[6] == g[6];
    DecReadsBack(a.seqNo);
    DecReadsBack(b.seqNo);
    DecIntInjective(a.tsMillis, b.tsMillis);
  }

  lemma {:induction false} NothingToCount(fields: seq<string>)
    requires forall i :: 0 <= i < |fields| ==> Seps(fields[i]) == 0
    ensures TotalSeps(fields) == 0
  {
    if fields != [] {
      NothingToCount(fields[..|fields| - 1]);
    }
  }

  // ----- The chain -------------------------------------------------------------

  /** How one entry is hashed; chains are stated over any such function. */
  type Hasher = AuditEntry -> string

  function ComputeHash(digest: Digest): Hasher {
    (e: AuditEntry) => HashOf(digest, e)
  }

  function Unhashed(prev: Option<AuditEntry>, r: Record): AuditEntry {
    AuditEntry(if prev.Some? then prev.value.seqNo + 1 else 0,
               r.tsMillis, Sanitize(r.actor), Sanitize(r.action), Sanitize(r.subject), Sanitize(r.detail),
               if prev.Some? then prev.value.entryHash else "", "")
  }

  function Appended(hash: Hasher, prev: Option<AuditEntry>, r: Record): AuditEntry {
    var e := Unhashed(prev, r);
    e.(entryHash := hash(e))
  }

  function Previous(chain: seq<AuditEntry>, i: nat): Option<AuditEntry>
    requires i <= |chain|
  {
    if i == 0 then None else Some(chain[i - 1])
  }

  /** The chain after recording each request in turn. */
  function Built(hash: Hasher, records: seq<Record>): seq<AuditEntry> {
    if records == [] then []
    else
      var chain := Built(hash, records[..|records| - 1]);
      chain + [Appended(hash, Previous(chain, |chain|), records[|records| - 1])]
  }

  /** Entry `e` may follow `prev`: numbered next, linked to it, and hashed over itself. */
  predicate Follows(hash: Hasher, prev: Option<AuditEntry>, e: AuditEntry) {
    && e.seqNo == (if prev.Some? then prev.value.seqNo + 1 else 0)
    && e.prevHash == (if prev.Some? then prev.value.entryHash else "")
    && hash(e) == e.entryHash
  }

  ghost predicate Intact(hash: Hasher, chain: seq<AuditEntry>) {
    forall i {:trigger Previous(chain, i)} :: 0 <= i < |chain| ==> Follows(hash, Previous(chain, i), chain[i])
  }

  lemma IntactPrefixes(hash: Hasher, chain: seq<AuditEntry>, n: nat)
    requires n <= |chain|
    ensures Intact(hash, chain[..n]) <==> forall i {:trigger Previous(chain, i)} :: 0 <= i < n ==> Follows(hash, Previous(chain, i), chain[i])
  {
    var init := chain[..n];
    assert forall i {:trigger Previous(init, i)} {:trigger Previous(chain, i)} :: 0 <= i < n ==> Previous(init, i) == Previous(chain, i);
  }

  /** `None` for an intact chain, otherwise the first entry that fails: the shortest
      prefix that is not intact ends with it. */
  method VerifyChain(hash: Hasher, chain: seq<AuditEntry>) returns (broken: Option<nat>)
    ensures broken.None? <==> Intact(hash, chain)
    ensures broken.Some? ==>
              && broken.value < |chain|
              && Intact(hash, chain[..broken.value])
              && !Intact(hash, chain[..broken.value + 1])
  {
    var prev: Option<AuditEntry> := None;
    for i := 0 to |chain|
      invariant prev == Previous(chain, i)
      invariant forall j {:trigger Previous(chain, j)} :: 0 <= j < i ==> Follows(hash, Previous(chain, j), chain[j])
    {
      var e := chain[i];
      var expectedSeq := if prev.Some? then prev.value.seqNo + 1 else 0;
      var expectedPrevHash := if prev.Some? then prev.value.entryHash else "";
      if e.seqNo != expectedSeq || e.prevHash != expectedPrevHash {
        IntactPrefixes(hash, chain, i);
        IntactPrefixes(hash, chain, i + 1);
        return Some(i);
      }
      if hash(e) != e.entryHash {
        IntactPrefixes(hash, chain, i);
        IntactPrefixes(hash, chain, i + 1);
        return Some(i);
      }
      prev := Some(e);
    }
    return None;
  }

  lemma {:induction false} IntactIsNumbered(hash: Hasher, chain: seq<AuditEntry>, i: nat)
    requires Intact(hash, chain) && i < |chain|
    ensures chain[i].seqNo == i
  {
    assert Follows(hash, Previous(chain, i), chain[i]);
    if i > 0 {
      IntactIsNumbered(hash, chain, i - 1);
    }
  }

  function TipHash(chain: seq<AuditEntry>): string {
    if chain == [] then "" else chain[|chain| - 1].entryHash
  }

  /** Equal hashes across the two chains come from equal entries. */
  ghost predicate Binds(hash: Hasher, chain: seq<AuditEntry>, other: seq<AuditEntry>) {
    forall i, j :: 0 <= i < |chain| && 0 <= j < |other| && hash(chain[i]) == hash(other[j]) ==>
                     chain[i] == other[j].(entryHash := chain[i].entryHash)
  }

  /** Backward induction over the links. */
  lemma {:induction false} EqualFromTheTip(hash: Hasher, chain: seq<AuditEntry>, other: seq<AuditEntry>, i: nat)
    requires Intact(hash, chain) && Intact(hash, other) && Binds(hash, chain, other)
    requires i < |chain| == |other| && TipHash(chain) == TipHash(other)
    ensures chain[i] == other[i]
    decreases |chain| - i
  {
    assert Follows(hash, Previous(chain, i), chain[i]) && Follows(hash, Previous(other, i), other[i]);
    if i + 1 < |chain| {
      EqualFromTheTip(hash, chain, other, i + 1);
      assert Follows(hash, Previous(chain, i + 1), chain[i + 1]);
      assert Follows(hash, Previous(other, i + 1), other[i + 1]);
    }
    assert hash(chain[i]) == hash(other[i]);
  }

  lemma SameTipSameChain(hash: Hasher, chain: seq<AuditEntry>, other: seq<AuditEntry>)
    requires Intact(hash, chain) && Intact(hash, other) && Binds(hash, chain, other)
    requires TipHash(chain) == TipHash(other) && forall e :: hash(e) != ""
    ensures chain == other
  {
    var n, m := |chain| - 1, |other| - 1;
    if chain != [] {
      assert Follows(hash, Previous(chain, n), chain[n]);
    }
    if other != [] {
      assert Follows(hash, Previous(other, m), other[m]);
    }
    if chain != [] {
      assert hash(chain[n]) == hash(other[m]);
      IntactIsNumbered(hash, chain, n);
      IntactIsNumbered(hash, other, m);
    }
    forall i | 0 <= i < |chain|
      ensures chain[i] == other[i]
    {
      EqualFromTheTip(hash, chain, other, i);
    }
  }

  // ----- Chains that were built by appending -----------------------------------

  ghost predicate Clean(e: AuditEntry) {
    SEP !in e.actor && SEP !in e.action && SEP !in e.subject && SEP !in e.detail && SEP !in e.prevHash
  }

  /** The hash neither depends on the stored hash nor contains a separator. */
  ghost predicate ProperHasher(hash: Hasher) {
    && (forall e: AuditEntry, h :: hash(e.(entryHash := h)) == hash(e))
    && (forall e :: SEP !in hash(e) && hash(e) != "")
  }

  lemma AppendedFollows(hash: Hasher, prev: Option<AuditEntry>, r: Record)
    requires ProperHasher(hash) && (prev.Some? ==> SEP !in prev.value.entryHash)
    ensures var e := Appended(hash, prev, r);
            Follows(hash, prev, e) && Clean(e) && SEP !in e.entryHash
  {
    var e := Unhashed(prev, r);
    assert hash(e.(entryHash := hash(e))) == hash(e);
    SanitizedHasNoSeps(r.actor);
    SanitizedHasNoSeps(r.action);
    SanitizedHasNoSeps(r.subject);
    SanitizedHasNoSeps(r.detail);
    NoSepMeansNoSeps(e.actor);
    NoSepMeansNoSeps(e.action);
    NoSepMeansNoSeps(e.subject);
    NoSepMeansNoSeps(e.detail);
  }

  /** A chain built by appending verifies, and its entries carry no separators. */
  lemma {:induction false} BuiltIsIntact(hash: Hasher, records: seq<Record>)
    requires ProperHasher(hash)
    ensures var chain := Built(hash, records);
            && |chain| == |records| && Intact(hash, chain)
            && forall i :: 0 <= i < |chain| ==> Clean(chain[i]) && SEP !in chain[i].entryHash
  {
    if records != [] {
      var n := |records| - 1;
      var chain := Built(hash, records[..n]);
      BuiltIsIntact(hash, records[..n]);
      AppendedFollows(hash, Previous(chain, n), records[n]);
      var longer := Built(hash, records);
      assert forall i {:trigger Previous(longer, i)} :: 0 <= i <= n ==> Previous(longer, i) == Previous(chain, i);
    }
  }

  /** Entry `e` records the request `r`. */
  ghost predicate Records(e: AuditEntry, r: Record) {
    && e.tsMillis == r.tsMillis && e.actor == Sanitize(r.actor) && e.action == Sanitize(r.action)
    && e.subject == Sanitize(r.subject) && e.detail == Sanitize(r.detail)
  }

  /** Nothing recorded is lost, changed or moved: entry `i` is number `i`, carries request
      `i` and links to the entry before it. */
  lemma {:induction false} BuiltRecordsEveryRequest(hash: Hasher, records: seq<Record>, i: nat)
    requires i < |records|
    ensures var chain := Built(hash, records);
            && |chain| == |records| && chain[i].seqNo == i && Records(chain[i], records[i])
            && chain[i].prevHash == (if i == 0 then "" else chain[i - 1].entryHash)
            && chain[i].entryHash == hash(chain[i].(entryHash := ""))
    decreases |records|
  {
    var n := |records| - 1;
    var chain := Built(hash, records[..n]);
    BuiltHasOneEach(hash, records[..n]);
    AppendedRecords(hash, Previous(chain, n), records[n]);
    if i < n {
      BuiltRecordsEveryRequest(hash, records[..n], i);
    } else if n > 0 {
      BuiltRecordsEveryRequest(hash, records[..n], n - 1);
    }
  }

  lemma AppendedRecords(hash: Hasher, prev: Option<AuditEntry>, r: Record)
    ensures var e := Appended(hash, prev, r);
            && Records(e, r) && e.entryHash == hash(e.(entryHash := ""))
            && e.seqNo == (if prev.Some? then prev.value.seqNo + 1 else 0)
            && e.prevHash == (if prev.Some? then prev.value.entryHash else "")
  {
    var e := Appended(hash, prev, r);
    assert e.(entryHash := "") == Unhashed(prev, r);
  }

  lemma {:induction false} BuiltHasOneEach(hash: Hasher, records: seq<Record>)
    ensures |Built(hash, records)| == |records|
  {
    if records != [] {
      BuiltHasOneEach(hash, records[..|records| - 1]);
    }
  }

  lemma ComputeHashIsProper(digest: Digest)
    requires forall s :: digest(s) != []
    ensures ProperHasher(ComputeHash(digest))
  {
    var hash := ComputeHash(digest);
    forall e: AuditEntry, h
      ensures hash(e.(entryHash := h)) == hash(e)
    {
      assert Fields(e.(entryHash := h)) == Fields(e);
    }
    forall e: AuditEntry
      ensures SEP !in hash(e) && hash(e) != ""
    {
      HexIsClean(digest(PreImage(e)));
    }
  }

  /** Two different texts, one from each chain, with one digest. */
  ghost predicate Collide(digest: Digest, a: seq<AuditEntry>, b: seq<AuditEntry>) {
    exists i, j :: 0 <= i < |a| && 0 <= j < |b| && PreImage(a[i]) != PreImage(b[j])
                   && digest(PreImage(a[i])) == digest(PreImage(b[j]))
  }

  lemma NoCollisionBinds(digest: Digest, chain: seq<AuditEntry>, other: seq<AuditEntry>)
    requires !Collide(digest, chain, other) && forall i :: 0 <= i < |chain| ==> Clean(chain[i])
    ensures Binds(ComputeHash(digest), chain, other)
  {
    forall i, j | 0 <= i < |chain| && 0 <= j < |other| && ComputeHash(digest)(chain[i]) == ComputeHash(digest)(other[j])
      ensures chain[i] == other[j].(entryHash := chain[i].entryHash)
    {
      HexReadsBack(digest(PreImage(chain[i])), digest(PreImage(other[j])));
      PreImageInjective(chain[i], other[j]);
    }
  }

  /** Any chain that verifies and ends in the hash of a chain built by appending is
      that chain, entry for entry, unless the two exhibit a digest collision. */
  lemma TamperEvident(digest: Digest, records: seq<Record>, other: seq<AuditEntry>)
    requires forall s :: digest(s) != []
    requires Intact(ComputeHash(digest), other)
    requires TipHash(other) == TipHash(Built(ComputeHash(digest), records))
    ensures other == Built(ComputeHash(digest), records) || Collide(digest, Built(ComputeHash(digest), records), other)
  {
    var hash := ComputeHash(digest);
    ComputeHashIsProper(digest);
    BuiltIsIntact(hash, records);
    if !Collide(digest, Built(hash, records), other) {
      NoCollisionBinds(digest, Built(hash, records), other);
      SameTipSameChain(hash, Built(hash, records), other);
    }
  }

  // ----- The signed manifest ---------------------------------------------------

  datatype Manifest = Manifest(org: string, tipSeq: nat, tipHash: string, entryCount: nat, signedAt: i64)

  function SigningBytes(m: Manifest): string {
    Join([m.org, Dec(m.tipSeq), m.tipHash, Dec(m.entryCount), DecInt(m.signedAt)])
  }

  lemma SigningBytesUnfold(m: Manifest)
    ensures SigningBytes(m)
            == m.org + "\U{1F}" + Dec(m.tipSeq) + "\U{1F}" + m.tipHash + "\U{1F}" + Dec(m.entryCount) + "\U{1F}" + DecInt(m.signedAt)
  {
    var f := [m.org, Dec(m.tipSeq), m.tipHash, Dec(m.entryCount), DecInt(m.signedAt)];
    assert f[..4] == [m.org, Dec(m.tipSeq), m.tipHash, Dec(m.entryCount)];
    assert f[..4][..3] == [m.org, Dec(m.tipSeq), m.tipHash];
    assert f[..4][..3][..2] == [m.org, Dec(m.tipSeq)];
    assert f[..4][..3][..2][..1] == [m.org];
    assert Join(f[..4][..3][..2]) == m.org + [SEP] + Dec(m.tipSeq);
    assert Join(f[..4][..3]) == m.org + [SEP] + Dec(m.tipSeq) + [SEP] + m.tipHash;
    assert Join(f[..4]) == m.org + [SEP] + Dec(m.tipSeq) + [SEP] + m.tipHash + [SEP] + Dec(m.entryCount);
  }

  /** Manifests with the same signed bytes are the same manifest exactly when their tip
      hashes hold equally many separators; for hex tip hashes that is always so. */
  lemma ManifestBytesDetermineFieldsIff(a: Manifest, b: Manifest)
    requires SigningBytes(a) == SigningBytes(b)
    ensures a == b <==> Seps(a.tipHash) == Seps(b.tipHash)
  {
    SigningBytesUnfold(a);
    SigningBytesUnfold(b);
    if Seps(a.tipHash) == Seps(b.tipHash) {
      DecHasNoSeps(a.signedAt);
      DecHasNoSeps(b.signedAt);
      DecHasNoSeps(a.entryCount);
      DecHasNoSeps(b.entryCount);
      DecHasNoSeps(a.tipSeq);
      DecHasNoSeps(b.tipSeq);
      var x3 := a.org + [SEP] + Dec(a.tipSeq) + [SEP] + a.tipHash + [SEP] + Dec(a.entryCount);
      var y3 := b.org + [SEP] + Dec(b.tipSeq) + [SEP] + b.tipHash + [SEP] + Dec(b.entryCount);
      SplitFromRight(x3, DecInt(a.signedAt), y3, DecInt(b.signedAt));
      var x2 := a.org + [SEP] + Dec(a.tipSeq) + [SEP] + a.tipHash;
      var y2 := b.org + [SEP] + Dec(b.tipSeq) + [SEP] + b.tipHash;
      SplitFromRight(x2, DecInt(a.entryCount), y2, DecInt(b.entryCount));
      SplitFromRight(a.org + [SEP] + Dec(a.tipSeq), a.tipHash, b.org + [SEP] + Dec(b.tipSeq), b.tipHash);
      SplitFromRight(a.org, DecInt(a.tipSeq), b.org, DecInt(b.tipSeq));
      DecIntInjective(a.signedAt, b.signedAt);
      DecIntInjective(a.entryCount, b.entryCount);
      DecIntInjective(a.tipSeq, b.tipSeq);
    }
  }

  /** A tip hash that is not hex can be re-partitioned into the organisation's name. */
  lemma UncheckedTipHashIsAmbiguous()
    ensures var a := Manifest("o", 1, "x" + [SEP] + "2" + [SEP] + "h", 3, 4);
            var b := Manifest("o" + [SEP] + "1" + [SEP] + "x", 2, "h", 3, 4);
            a != b && SigningBytes(a) == SigningBytes(b)
  {
    var a := Manifest("o", 1, "x" + [SEP] + "2" + [SEP] + "h", 3, 4);
    var b := Manifest("o" + [SEP] + "1" + [SEP] + "x", 2, "h", 3, 4);
    SigningBytesUnfold(a);
    SigningBytesUnfold(b);
    assert Dec(1) == "1" && Dec(2) == "2";
    assert a.tipSeq != b.tipSeq;
  }
}
