/** The log vocabulary of the replicated store: log ids, entries, bounds and the
    committed log that the consensus layer is trusted to deliver. */
module RaftTypes {
  import opened Basics
  import opened ReplicatedLedger

  datatype LogId = LogId(leader: nat, index: u64)

  type Membership = set<nat>

  datatype Payload = Blank | Normal(req: Request) | Members(nodes: Membership)

  datatype Entry = Entry(logId: LogId, payload: Payload)

  /** The membership last applied and the entry that carried it. */
  datatype StoredMembership = StoredMembership(logId: Option<LogId>, nodes: Membership)

  const DEFAULT_MEMBERSHIP := StoredMembership(None, {})

  const DEFAULT_RESPONSE := Response(false, 0, 0, 0, 0, None, NoReason)

  /** What applying entries changes: the last applied id, the membership, the ledger. */
  datatype Applied3 = Applied3(lastApplied: Option<LogId>, membership: StoredMembership, ledger: Runs)

  const INITIAL := Applied3(None, DEFAULT_MEMBERSHIP, map[])

  function ApplyEntry(s: Applied3, e: Entry): (Applied3, Response) {
    match e.payload
    case Blank => (s.(lastApplied := Some(e.logId)), DEFAULT_RESPONSE)
    case Normal(req) =>
      var out := Applied(s.ledger, req);
      (s.(lastApplied := Some(e.logId), ledger := out.runs), out.response)
    case Members(nodes) =>
      (s.(lastApplied := Some(e.logId), membership := StoredMembership(Some(e.logId), nodes)), DEFAULT_RESPONSE)
  }

  /** The fold of a whole log prefix. */
  function Folded(s: Applied3, entries: seq<Entry>): Applied3 {
    if entries == [] then s else ApplyEntry(Folded(s, entries[..|entries| - 1]), entries[|entries| - 1]).0
  }

  function Responses(s: Applied3, entries: seq<Entry>): seq<Response> {
    if entries == [] then []
    else
      var init := entries[..|entries| - 1];
      Responses(s, init) + [ApplyEntry(Folded(s, init), entries[|entries| - 1]).1]
  }

  lemma {:induction false} FoldedConcat(s: Applied3, a: seq<Entry>, b: seq<Entry>)
    ensures Folded(s, a + b) == Folded(Folded(s, a), b)
  {
    if b == [] {
      assert a + b == a;
    } else {
      var init := b[..|b| - 1];
      FoldedConcat(s, a, init);
      assert (a + b)[..|a + b| - 1] == a + init;
    }
  }

  // ----- What applying entries amounts to --------------------------------------

  /** The ledger requests carried by a stretch of the log, in order. */
  function Requests(entries: seq<Entry>): seq<Request> {
    if entries == [] then []
    else
      var e := entries[|entries| - 1];
      Requests(entries[..|entries| - 1]) + if e.payload.Normal? then [e.payload.req] else []
  }

  /** From any state, applying entries runs their requests, and only those, through the
      ledger. */
  lemma {:induction false} FoldIsTheLedger(s: Applied3, entries: seq<Entry>)
    ensures Folded(s, entries).ledger == AppliedAll(s.ledger, Requests(entries))
  {
    if entries != [] {
      var init, e := entries[..|entries| - 1], entries[|entries| - 1];
      FoldIsTheLedger(s, init);
      if e.payload.Normal? {
        assert Requests(entries)[..|Requests(entries)| - 1] == Requests(init);
      } else {
        assert Requests(entries) == Requests(init);
      }
    }
  }

  /** What entry `e` is answered with when the ledger stands at `runs`. */
  ghost predicate Answers(runs: Runs, e: Entry, r: Response) {
    match e.payload
    case Normal(req) => r == Applied(runs, req).response
    case _ => r == Response(false, 0, 0, 0, 0, None, NoReason)
  }

  ghost predicate Answered(runs: Runs, entries: seq<Entry>, responses: seq<Response>) {
    && |responses| == |entries|
    && forall i :: 0 <= i < |entries| ==> Answers(AppliedAll(runs, Requests(entries[..i])), entries[i], responses[i])
  }

  /** One answer per entry, in order: a request gets the ledger's answer after exactly
      the requests before it, everything else the empty refusal. */
  lemma {:induction false} EveryEntryIsAnswered(s: Applied3, entries: seq<Entry>)
    ensures Answered(s.ledger, entries, Responses(s, entries))
  {
    if entries != [] {
      var init := entries[..|entries| - 1];
      EveryEntryIsAnswered(s, init);
      FoldIsTheLedger(s, init);
      forall i | 0 <= i < |entries|
        ensures Answers(AppliedAll(s.ledger, Requests(entries[..i])), entries[i], Responses(s, entries)[i])
      {
        if i < |init| {
          assert init[..i] == entries[..i];
        } else {
          assert entries[..i] == init;
        }
      }
    }
  }

  /** `at` is the last membership change among the entries. */
  ghost predicate LastMembership(entries: seq<Entry>, at: nat) {
    && at < |entries| && entries[at].payload.Members?
    && forall i :: at < i < |entries| ==> !entries[i].payload.Members?
  }

  /** The position is the last entry's whole log id, and the membership is the one of
      the last membership entry, under that entry's log id. */
  lemma {:induction false} PositionAndMembershipAreTheLast(s: Applied3, entries: seq<Entry>)
    ensures var t := Folded(s, entries);
            && t.lastApplied == (if entries == [] then s.lastApplied else Some(entries[|entries| - 1].logId))
            && (forall at: nat :: LastMembership(entries, at) ==>
                  t.membership == StoredMembership(Some(entries[at].logId), entries[at].payload.nodes))
            && ((forall i :: 0 <= i < |entries| ==> !entries[i].payload.Members?) ==> t.membership == s.membership)
  {
    if entries != [] {
      var init, e := entries[..|entries| - 1], entries[|entries| - 1];
      PositionAndMembershipAreTheLast(s, init);
      forall at: nat | LastMembership(entries, at)
        ensures Folded(s, entries).membership == StoredMembership(Some(entries[at].logId), entries[at].payload.nodes)
      {
        if at < |init| {
          assert LastMembership(init, at) && !entries[|init|].payload.Members?;
        }
      }
    }
  }

  // ----- The committed log ------------------------------------------------------

  /** One committed log: entry `i` carries index `i`. */
  ghost predicate CommittedLog(log: seq<Entry>) {
    && |log| <= U64_MAX
    && forall i :: 0 <= i < |log| ==> log[i].logId.index == i
  }

  /** `s` is the state reached by applying the first `n` entries of `log`. */
  ghost predicate DescribesPrefix(log: seq<Entry>, n: nat, s: Applied3) {
    n <= |log| && s == Folded(INITIAL, log[..n])
  }

  /** The number of entries a last-applied id says have been applied. */
  function AppliedCount(lastApplied: Option<LogId>): nat {
    if lastApplied.None? then 0 else lastApplied.value.index + 1
  }

  /** Feeding a state the next stretch of the log lands it on the longer prefix. */
  lemma NextStretch(log: seq<Entry>, n: nat, m: nat, s: Applied3)
    requires DescribesPrefix(log, n, s) && n <= m <= |log|
    ensures DescribesPrefix(log, m, Folded(s, log[n..m]))
  {
    FoldedConcat(INITIAL, log[..n], log[n..m]);
    assert log[..n] + log[n..m] == log[..m];
  }

  /** `s` is the state at its own position in the log. */
  ghost predicate OnTheLog(log: seq<Entry>, s: Applied3) {
    DescribesPrefix(log, AppliedCount(s.lastApplied), s)
  }

  lemma {:induction false} FoldedCounts(log: seq<Entry>, n: nat)
    requires CommittedLog(log) && n <= |log|
    ensures AppliedCount(Folded(INITIAL, log[..n]).lastApplied) == n
  {
    if n > 0 {
      assert log[..n][..n - 1] == log[..n - 1] && log[..n][n - 1] == log[n - 1];
    }
  }

  /** A state fed the log from its own position on stays on the log. */
  lemma StretchStaysOnTheLog(log: seq<Entry>, upTo: nat, s: Applied3)
    requires CommittedLog(log) && OnTheLog(log, s) && AppliedCount(s.lastApplied) <= upTo <= |log|
    ensures OnTheLog(log, Folded(s, log[AppliedCount(s.lastApplied)..upTo]))
  {
    NextStretch(log, AppliedCount(s.lastApplied), upTo, s);
    FoldedCounts(log, upTo);
  }
}
