/** What enforcement saved: the batch report of `crates/core/src/savings.rs` and the live
    fold of `crates/cloud/src/store.rs`, with its bounded set of broken runs. */
module Savings {
  import opened Basics
  import opened CloudRecords
  import opened MapSum
  import opened RecencyIndex

  const MAX_BREAK_KEYS: nat := 10_000

  datatype Call = Call(run: string, decision: Decision, cost: i64, saved: i64)

  // ---- the exact quantities ----

  /** Exact integer sums over a trace, the runs stopped at least once and the reasons seen. */
  datatype Tally = Tally(
    blocked: int, cacheSaved: int, routerSaved: int, blockedCalls: nat, broken: set<string>, reasons: set<Reason>)

  function Added(t: Tally, c: Call): Tally {
    var stops := c.decision.Protection?;
    Tally(
      t.blocked + (if stops then c.cost else 0),
      t.cacheSaved + (if c.decision.CacheHit? then c.saved else 0),
      t.routerSaved + (if c.decision.Allow? then c.saved else 0),
      t.blockedCalls + (if stops then 1 else 0),
      t.broken + (if stops then {c.run} else {}),
      t.reasons + (if stops then {c.decision.reason} else {}))
  }

  function Sums(calls: seq<Call>): Tally {
    if calls == [] then Tally(0, 0, 0, 0, {}, {}) else Added(Sums(calls[..|calls| - 1]), calls[|calls| - 1])
  }

  function ReasonCost(calls: seq<Call>, reason: Reason): int {
    if calls == [] then 0
    else ReasonCost(calls[..|calls| - 1], reason)
         + (if calls[|calls| - 1].decision == Protection(reason) then calls[|calls| - 1].cost else 0)
  }

  lemma SumsStep(calls: seq<Call>, c: Call)
    ensures Sums(calls + [c]) == Added(Sums(calls), c)
  {
    assert (calls + [c])[..|calls|] == calls;
  }

  lemma ReasonStep(calls: seq<Call>, c: Call, reason: Reason)
    ensures ReasonCost(calls + [c], reason) == ReasonCost(calls, reason) + (if c.decision == Protection(reason) then c.cost else 0)
  {
    assert (calls + [c])[..|calls|] == calls;
  }

  /** Some call of the run was stopped by budget protection. */
  ghost predicate WasStopped(calls: seq<Call>, run: string) {
    exists c :: c in calls && c.run == run && c.decision.Protection?
  }

  /** Some call was stopped for the reason. */
  ghost predicate WasSeen(calls: seq<Call>, reason: Reason) {
    exists c :: c in calls && c.decision == Protection(reason)
  }

  lemma {:induction false} BrokenRunsAreThoseStopped(calls: seq<Call>, run: string)
    ensures run in Sums(calls).broken <==> WasStopped(calls, run)
  {
    if calls != [] {
      var before, last := calls[..|calls| - 1], calls[|calls| - 1];
      BrokenRunsAreThoseStopped(before, run);
      assert calls == before + [last];
    }
  }

  lemma {:induction false} ReasonsAreThoseSeen(calls: seq<Call>, reason: Reason)
    ensures reason in Sums(calls).reasons <==> WasSeen(calls, reason)
  {
    if calls != [] {
      var before, last := calls[..|calls| - 1], calls[|calls| - 1];
      ReasonsAreThoseSeen(before, reason);
      assert calls == before + [last];
    }
  }

  /** What the calls with this decision saved. */
  function SavedBy(calls: seq<Call>, decision: Decision): int {
    if calls == [] then 0
    else SavedBy(calls[..|calls| - 1], decision)
         + (if calls[|calls| - 1].decision == decision then calls[|calls| - 1].saved else 0)
  }

  ghost function StoppedAt(calls: seq<Call>): set<int> {
    set i | 0 <= i < |calls| && calls[i].decision.Protection?
  }

  lemma StoppedStep(calls: seq<Call>, c: Call)
    ensures |StoppedAt(calls + [c])| == |StoppedAt(calls)| + if c.decision.Protection? then 1 else 0
  {
    var longer := calls + [c];
    if c.decision.Protection? {
      assert StoppedAt(longer) == StoppedAt(calls) + {|calls|};
    } else {
      assert StoppedAt(longer) == StoppedAt(calls);
    }
  }

  /** The sums by decision: cache hits and settled calls save, stopped calls are counted. */
  lemma {:induction false} SumsGoByDecision(calls: seq<Call>)
    ensures Sums(calls).cacheSaved == SavedBy(calls, CacheHit)
    ensures Sums(calls).routerSaved == SavedBy(calls, Allow)
    ensures Sums(calls).blockedCalls == |StoppedAt(calls)|
  {
    if calls != [] {
      var before, last := calls[..|calls| - 1], calls[|calls| - 1];
      SumsGoByDecision(before);
      StoppedStep(before, last);
      assert calls == before + [last];
    } else {
      assert StoppedAt(calls) == {};
    }
  }

  // ---- the batch report ----

  datatype Report = Report(
    blockedSpend: i64, breaks: nat, blockedCalls: nat, byReason: map<Reason, i64>,
    cacheSaved: i64, routerSaved: i64)

  ghost function Widened(m: map<Reason, i64>): map<Reason, int> {
    map k | k in m :: m[k]
  }

  /** The breakdown lists the budget-protection reasons that occur, each with its wrapped
      sum, and adds up to the blocked spend. */
  ghost predicate BreaksDown(byReason: map<Reason, i64>, calls: seq<Call>, wrap: Wrapping) {
    && byReason.Keys == Sums(calls).reasons
    && Entries(byReason, calls, wrap)
    && Balanced(byReason, Sums(calls).blocked, wrap)
  }

  ghost predicate Entries(byReason: map<Reason, i64>, calls: seq<Call>, wrap: Wrapping) {
    forall reason :: reason in byReason ==> byReason[reason] == wrap(ReasonCost(calls, reason))
  }

  lemma {:induction false} AbsentReason(calls: seq<Call>, reason: Reason)
    requires reason !in Sums(calls).reasons
    ensures ReasonCost(calls, reason) == 0
  {
    if calls != [] {
      AbsentReason(calls[..|calls| - 1], reason);
    }
  }

  function SoFar(byReason: map<Reason, i64>, reason: Reason): i64 {
    if reason in byReason then byReason[reason] else 0
  }

  /** The breakdown after one more blocked call. */
  function Entered(byReason: map<Reason, i64>, reason: Reason, cost: i64, wrap: Wrapping): map<Reason, i64> {
    byReason[reason := wrap(SoFar(byReason, reason) + cost)]
  }

  lemma EnteredMovesTheSum(byReason: map<Reason, i64>, reason: Reason, cost: i64, wrap: Wrapping)
    requires IsWrapping(wrap)
    ensures wrap(Sum(Widened(Entered(byReason, reason, cost, wrap)))) == wrap(Sum(Widened(byReason)) + cost)
  {
    var sum, soFar := Sum(Widened(byReason)), SoFar(byReason, reason);
    var entry := wrap(soFar + cost);
    SumUpdate(Widened(byReason), reason, entry);
    assert Widened(byReason[reason := entry]) == Widened(byReason)[reason := entry];
    assert Sum(Widened(byReason[reason := entry])) == entry + (sum - soFar);
    assert Absorbs(wrap, soFar + cost, sum - soFar);
    assert soFar + cost + (sum - soFar) == sum + cost;
  }

  /** Sums that agree after wrapping still do once both grow by the same amount. */
  lemma WrapFollows(a: int, b: int, cost: int, wrap: Wrapping)
    requires IsWrapping(wrap) && wrap(a) == wrap(b)
    ensures wrap(a + cost) == wrap(b + cost)
  {
    assert Absorbs(wrap, a, cost) && Absorbs(wrap, b, cost);
  }

  lemma EntriesStep(byReason: map<Reason, i64>, calls: seq<Call>, c: Call, wrap: Wrapping)
    requires IsWrapping(wrap) && c.decision.Protection?
    requires byReason.Keys == Sums(calls).reasons && Entries(byReason, calls, wrap)
    ensures Entries(Entered(byReason, c.decision.reason, c.cost, wrap), calls + [c], wrap)
  {
    var longer := Entered(byReason, c.decision.reason, c.cost, wrap);
    forall reason | reason in longer
      ensures longer[reason] == wrap(ReasonCost(calls + [c], reason))
    {
      ReasonStep(calls, c, reason);
      if reason !in byReason {
        AbsentReason(calls, reason);
      } else {
        assert Absorbs(wrap, ReasonCost(calls, reason), c.cost);
      }
    }
  }

  ghost predicate Balanced(byReason: map<Reason, i64>, blocked: int, wrap: Wrapping) {
    wrap(Sum(Widened(byReason))) == wrap(blocked)
  }

  lemma BalancedStep(byReason: map<Reason, i64>, blocked: int, reason: Reason, cost: i64, wrap: Wrapping)
    requires IsWrapping(wrap) && Balanced(byReason, blocked, wrap)
    ensures Balanced(Entered(byReason, reason, cost, wrap), blocked + cost, wrap)
  {
    EnteredMovesTheSum(byReason, reason, cost, wrap);
    WrapFollows(Sum(Widened(byReason)), blocked, cost, wrap);
  }

  lemma BreaksDownStep(byReason: map<Reason, i64>, calls: seq<Call>, c: Call, wrap: Wrapping)
    requires IsWrapping(wrap) && BreaksDown(byReason, calls, wrap)
    ensures BreaksDown(if c.decision.Protection? then Entered(byReason, c.decision.reason, c.cost, wrap) else byReason, calls + [c], wrap)
  {
    SumsStep(calls, c);
    if c.decision.Protection? {
      EntriesStep(byReason, calls, c, wrap);
      BalancedStep(byReason, Sums(calls).blocked, c.decision.reason, c.cost, wrap);
    } else {
      forall reason | reason in byReason
        ensures ReasonCost(calls + [c], reason) == ReasonCost(calls, reason)
      {
        ReasonStep(calls, c, reason);
      }
    }
  }

  ghost predicate Holds(blocked: i64, cache: i64, router: i64, t: Tally, wrap: Wrapping) {
    blocked == wrap(t.blocked) && cache == wrap(t.cacheSaved) && router == wrap(t.routerSaved)
  }

  lemma HoldsStep(blocked: i64, cache: i64, router: i64, t: Tally, c: Call, wrap: Wrapping)
    requires IsWrapping(wrap) && Holds(blocked, cache, router, t, wrap)
    ensures Holds(
              if c.decision.Protection? then wrap(blocked + c.cost) else blocked,
              if c.decision.CacheHit? then wrap(cache + c.saved) else cache,
              if c.decision.Allow? then wrap(router + c.saved) else router,
              Added(t, c), wrap)
  {
    assert Absorbs(wrap, t.blocked, c.cost) && Absorbs(wrap, t.cacheSaved, c.saved) && Absorbs(wrap, t.routerSaved, c.saved);
  }

  /** Every figure of the report is the one the trace determines. */
  ghost predicate IsReportOf(report: Report, calls: seq<Call>, wrap: Wrapping) {
    && Holds(report.blockedSpend, report.cacheSaved, report.routerSaved, Sums(calls), wrap)
    && report.breaks == |Sums(calls).broken| && report.blockedCalls == Sums(calls).blockedCalls
    && BreaksDown(report.byReason, calls, wrap)
  }

  /** The runs counted as broken are those that were stopped, and the breakdown names the
      reasons that were seen. */
  ghost predicate NamesWhatWasSeen(report: Report, calls: seq<Call>) {
    && (exists runs: set<string> :: report.breaks == |runs| && forall run :: run in runs <==> WasStopped(calls, run))
    && (forall reason :: reason in report.byReason <==> WasSeen(calls, reason))
  }

  /** The savings are those of the cache hits and of the settled calls, and the blocked
      calls are those that were stopped. */
  ghost predicate GoesByDecision(report: Report, calls: seq<Call>, wrap: Wrapping) {
    && report.cacheSaved == wrap(SavedBy(calls, CacheHit)) && report.routerSaved == wrap(SavedBy(calls, Allow))
    && report.blockedCalls == |StoppedAt(calls)|
  }

  lemma ReportNamesWhatWasSeen(report: Report, calls: seq<Call>, wrap: Wrapping)
    requires IsReportOf(report, calls, wrap)
    ensures NamesWhatWasSeen(report, calls)
  {
    var runs := Sums(calls).broken;
    forall run
      ensures run in runs <==> WasStopped(calls, run)
    {
      BrokenRunsAreThoseStopped(calls, run);
    }
    forall reason
      ensures reason in report.byReason <==> WasSeen(calls, reason)
    {
      ReasonsAreThoseSeen(calls, reason);
    }
  }

  /** The batch report, in the arithmetic of the build. */
  method ComputeSavings(calls: seq<Call>, wrap: Wrapping) returns (report: Report)
    requires IsWrapping(wrap)
    ensures IsReportOf(report, calls, wrap) && NamesWhatWasSeen(report, calls) && GoesByDecision(report, calls, wrap)
  {
    var blocked: i64, blockedCalls, breaks: set<string> := 0, 0, {};
    var byReason: map<Reason, i64> := map[];
    var cache: i64, router: i64 := 0, 0;
    assert Widened(byReason) == map[];
    for n := 0 to |calls|
      invariant Holds(blocked, cache, router, Sums(calls[..n]), wrap)
      invariant breaks == Sums(calls[..n]).broken && blockedCalls == Sums(calls[..n]).blockedCalls
      invariant BreaksDown(byReason, calls[..n], wrap)
    {
      var c := calls[n];
      assert calls[..n + 1] == calls[..n] + [c];
      SumsStep(calls[..n], c);
      HoldsStep(blocked, cache, router, Sums(calls[..n]), c, wrap);
      BreaksDownStep(byReason, calls[..n], c, wrap);
      match c.decision {
        case CacheHit => cache := wrap(cache + c.saved);
        case Allow => router := wrap(router + c.saved);
        case _ =>
      }
      if c.decision.Protection? {
        blocked := wrap(blocked + c.cost);
        blockedCalls := blockedCalls + 1;
        breaks := breaks + {c.run};
        byReason := Entered(byReason, c.decision.reason, c.cost, wrap);
      }
    }
    assert calls[..|calls|] == calls;
    report := Report(blocked, |breaks|, blockedCalls, byReason, cache, router);
    ReportNamesWhatWasSeen(report, calls, wrap);
    SumsGoByDecision(calls);
  }

  // ---- the live fold ----

  /** `order` is the recency of the broken runs this process has seen; `count` never shrinks. */
  datatype Live = Live(
    blocked: i64, cacheSaved: i64, routerSaved: i64, breaks: set<string>, count: u64, order: seq<string>)

  const NOTHING_SAVED: Live := Live(0, 0, 0, {}, 0, [])

  /** A recorded call, with the hash set's arbitrary choice should one be needed; or a
      restart, which loses the recency order and backfills the counter. */
  datatype Event = Recorded(call: Call, spare: string) | Restarted

  /** The run to forget: the least recently broken, or any when the order is empty. */
  ghost function Forgotten(s: Live, spare: string): string
    requires s.breaks != {}
  {
    if s.order != [] then s.order[0]
    else if spare in s.breaks then spare
    else (var any :| any in s.breaks; any)
  }

  ghost function WithRoom(s: Live, spare: string): Live {
    if |s.breaks| < MAX_BREAK_KEYS then s
    else
      var gone := Forgotten(s, spare);
      s.(breaks := s.breaks - {gone}, order := Without(s.order, gone))
  }

  ghost function Broken(s: Live, c: Call, spare: string): Live {
    var counted := if c.run in s.breaks then s
                   else
                     var room := WithRoom(s, spare);
                     room.(breaks := room.breaks + {c.run}, count := SatAdd(room.count, 1));
    counted.(blocked := SatAddI64(counted.blocked, Clamped(c.cost)), order := Touched(counted.order, c.run))
  }

  ghost function Saved(s: Live, c: Call): Live {
    if c.decision.CacheHit? then s.(cacheSaved := SatAddI64(s.cacheSaved, Clamped(c.saved)))
    else if c.decision.Allow? then s.(routerSaved := SatAddI64(s.routerSaved, Clamped(c.saved)))
    else s
  }

  ghost function Next(s: Live, e: Event): Live {
    match e
    case Recorded(c, spare) => Saved(if c.decision.Protection? then Broken(s, c, spare) else s, c)
    case Restarted => s.(order := [], count := if |s.breaks| <= U64_MAX then Max(s.count, |s.breaks|) else s.count)
  }

  ghost function After(s: Live, events: seq<Event>): Live {
    if events == [] then s else Next(After(s, events[..|events| - 1]), events[|events| - 1])
  }

  function Calls(events: seq<Event>): seq<Call> {
    if events == [] then []
    else Calls(events[..|events| - 1]) +
         (if events[|events| - 1].Recorded? then [events[|events| - 1].call] else [])
  }

  /** Feeding two batches in turn is feeding their concatenation. */
  lemma {:induction false} BatchesConcatenate(s: Live, first: seq<Event>, second: seq<Event>)
    ensures After(s, first + second) == After(After(s, first), second)
    ensures Calls(first + second) == Calls(first) + Calls(second)
  {
    if second == [] {
      assert first + second == first;
    } else {
      var n := |second| - 1;
      BatchesConcatenate(s, first, second[..n]);
      assert (first + second)[..|first + second| - 1] == first + second[..n];
      assert (first + second)[|first + second| - 1] == second[n];
    }
  }

  // ---- the bounded memory of broken runs ----

  ghost predicate Bounded(s: Live) {
    && |s.breaks| <= 10_000 && |s.breaks| <= s.count
    && Distinct(s.order) && forall k :: k in s.order ==> k in s.breaks
  }

  lemma {:induction false} BrokenKeepsBounds(s: Live, c: Call, spare: string)
    requires Bounded(s)
    ensures Bounded(Broken(s, c, spare))
    ensures c.run in Broken(s, c, spare).breaks && Broken(s, c, spare).breaks <= s.breaks + {c.run}
    ensures Broken(s, c, spare).count == if c.run in s.breaks then s.count else SatAdd(s.count, 1)
    ensures |s.breaks| < MAX_BREAK_KEYS ==> Broken(s, c, spare).breaks == s.breaks + {c.run}
  {
    if c.run in s.breaks {
      WithoutMembers(s.order, c.run);
    } else {
      RoomKeepsBounds(s, spare);
      WithoutMembers(WithRoom(s, spare).order, c.run);
    }
  }

  lemma RoomKeepsBounds(s: Live, spare: string)
    requires Bounded(s)
    ensures var room := WithRoom(s, spare);
            && |room.breaks| < MAX_BREAK_KEYS && |room.breaks| <= room.count && room.breaks <= s.breaks && room.count == s.count
            && Distinct(room.order) && (forall k :: k in room.order ==> k in room.breaks)
  {
    if |s.breaks| >= MAX_BREAK_KEYS {
      WithoutMembers(s.order, Forgotten(s, spare));
    }
  }

  lemma OneMoreBroken(broken: set<string>, run: string)
    ensures |broken + {run}| == |broken| + if run in broken then 0 else 1
  {
    assert run in broken ==> broken + {run} == broken;
  }

  lemma BreakKeepsBounds(s: Live, c: Call, spare: string, broken: set<string>)
    requires Bounded(s) && s.breaks <= broken && s.count >= Min(U64_MAX, |broken|)
    ensures var t := Broken(s, c, spare);
            Bounded(t) && t.breaks <= broken + {c.run} && t.count >= Min(U64_MAX, |broken + {c.run}|)
  {
    BrokenKeepsBounds(s, c, spare);
    OneMoreBroken(broken, c.run);
  }

  lemma {:induction false} NextKeepsBounds(s: Live, e: Event, broken: set<string>)
    requires Bounded(s) && s.breaks <= broken && s.count >= Min(U64_MAX, |broken|)
    ensures var stops := e.Recorded? && e.call.decision.Protection?;
            var after := broken + (if stops then {e.call.run} else {});
            Bounded(Next(s, e)) && Next(s, e).breaks <= after && Next(s, e).count >= Min(U64_MAX, |after|)
  {
    if e.Recorded? && e.call.decision.Protection? {
      BreakKeepsBounds(s, e.call, e.spare, broken);
    } else {
      assert broken + {} == broken;
    }
  }

  /** The set of broken runs stays capped, its recency keys stay a subset of it, and the
      counter never falls below the number of distinct runs ever broken; so the backfill at
      a restart changes nothing. */
  lemma {:induction false} BreaksAreBoundedAndNeverUndercounted(events: seq<Event>)
    ensures var s, broken := After(NOTHING_SAVED, events), Sums(Calls(events)).broken;
            && Bounded(s) && s.breaks <= broken && s.count >= Min(U64_MAX, |broken|)
            && Next(s, Restarted) == s.(order := [])
  {
    if events != [] {
      var before, e := events[..|events| - 1], events[|events| - 1];
      BreaksAreBoundedAndNeverUndercounted(before);
      NextKeepsBounds(After(NOTHING_SAVED, before), e, Sums(Calls(before)).broken);
      if e.Recorded? {
        SumsStep(Calls(before), e.call);
      } else {
        assert Calls(events) == Calls(before);
        assert Sums(Calls(events)).broken + {} == Sums(Calls(events)).broken;
      }
    }
  }

  lemma NextIsExactBelowTheCap(s: Live, e: Event)
    requires Bounded(s) && s.count == |s.breaks|
    requires e.Recorded? && e.call.decision.Protection? ==> |s.breaks + {e.call.run}| <= MAX_BREAK_KEYS
    ensures var stops := e.Recorded? && e.call.decision.Protection?;
            Next(s, e).breaks == s.breaks + (if stops then {e.call.run} else {}) && Next(s, e).count == |Next(s, e).breaks|
  {
    if e.Recorded? && e.call.decision.Protection? {
      BrokenKeepsBounds(s, e.call, e.spare);
      if e.call.run in s.breaks {
        assert s.breaks + {e.call.run} == s.breaks;
      } else {
        assert |s.breaks + {e.call.run}| == |s.breaks| + 1;
      }
    }
  }

  /** As long as the history breaks no more distinct runs than the cap, the counter is exact. */
  lemma {:induction false} BreaksAreExactBelowTheCap(events: seq<Event>)
    requires |Sums(Calls(events)).broken| <= MAX_BREAK_KEYS
    ensures var s := After(NOTHING_SAVED, events);
            s.breaks == Sums(Calls(events)).broken && s.count == |s.breaks|
  {
    if events != [] {
      var before, e := events[..|events| - 1], events[|events| - 1];
      var less, more := Sums(Calls(before)).broken, Sums(Calls(events)).broken;
      if e.Recorded? {
        SumsStep(Calls(before), e.call);
      } else {
        assert Calls(events) == Calls(before);
      }
      assert less <= more;
      assert |less| <= |less + (more - less)| && less + (more - less) == more;
      BreaksAreExactBelowTheCap(before);
      BreaksAreBoundedAndNeverUndercounted(before);
      NextIsExactBelowTheCap(After(NOTHING_SAVED, before), e);
      assert more + {} == more;
    }
  }

  // ---- which broken run is forgotten ----

  predicate Stops(e: Event, run: string) {
    e.Recorded? && e.call.decision.Protection? && e.call.run == run
  }

  /** The position of the last event that stopped `run` since the last restart, or -1. */
  function LastBreak(events: seq<Event>, run: string): int {
    if events == [] || events[|events| - 1].Restarted? then -1
    else if Stops(events[|events| - 1], run) then |events| - 1
    else LastBreak(events[..|events| - 1], run)
  }

  lemma {:induction false} LastBreakIsPast(events: seq<Event>, run: string)
    ensures -1 <= LastBreak(events, run) < |events|
  {
    if events != [] {
      LastBreakIsPast(events[..|events| - 1], run);
    }
  }

  /** The recency keys are the remembered runs stopped since the last restart. */
  ghost predicate KeysAreRecent(s: Live, events: seq<Event>) {
    forall k :: k in s.order <==> k in s.breaks && LastBreak(events, k) >= 0
  }

  lemma SavedKeepsBreaks(s: Live, c: Call)
    ensures Saved(s, c).breaks == s.breaks && Saved(s, c).order == s.order && Saved(s, c).count == s.count
  {
  }

  lemma BrokenKeys(s: Live, c: Call, spare: string, k: string)
    requires Bounded(s)
    ensures var t := Broken(s, c, spare);
            && (k == c.run ==> k in t.order && k in t.breaks)
            && (k != c.run && k in t.breaks ==> k in s.breaks && (k in t.order <==> k in s.order))
            && (k != c.run && k in t.order ==> k in t.breaks)
  {
    BrokenKeepsBounds(s, c, spare);
    var room := if c.run in s.breaks then s else WithRoom(s, spare);
    WithoutMembers(room.order, c.run);
    if c.run !in s.breaks && |s.breaks| >= MAX_BREAK_KEYS {
      WithoutMembers(s.order, Forgotten(s, spare));
    }
  }

  lemma LastBreakStep(before: seq<Event>, e: Event, run: string)
    ensures LastBreak(before + [e], run) == if e.Restarted? then -1 else if Stops(e, run) then |before| else LastBreak(before, run)
  {
    assert (before + [e])[..|before|] == before;
  }

  lemma KeyStaysRecent(s: Live, before: seq<Event>, e: Event, k: string)
    requires Bounded(s) && (k in s.order <==> k in s.breaks && LastBreak(before, k) >= 0)
    ensures k in Next(s, e).order <==> k in Next(s, e).breaks && LastBreak(before + [e], k) >= 0
  {
    LastBreakStep(before, e, k);
    if e.Recorded? {
      SavedKeepsBreaks(if e.call.decision.Protection? then Broken(s, e.call, e.spare) else s, e.call);
      if e.call.decision.Protection? {
        BrokenKeys(s, e.call, e.spare, k);
      }
    }
  }

  lemma {:induction false} KeysStayRecent(events: seq<Event>)
    ensures KeysAreRecent(After(NOTHING_SAVED, events), events)
  {
    if events != [] {
      var before, e := events[..|events| - 1], events[|events| - 1];
      var s := After(NOTHING_SAVED, before);
      assert events == before + [e];
      KeysStayRecent(before);
      BreaksAreBoundedAndNeverUndercounted(before);
      forall k
        ensures k in Next(s, e).order <==> k in Next(s, e).breaks && LastBreak(events, k) >= 0
      {
        KeyStaysRecent(s, before, e, k);
      }
    }
  }

  lemma BrokenKeepsOrder(s: Live, c: Call, spare: string, p: string, q: string)
    requires Before(Broken(s, c, spare).order, p, q)
    ensures p != c.run && (q == c.run || Before(s.order, p, q))
  {
    var room := if c.run in s.breaks then s else WithRoom(s, spare);
    TouchKeepsOrder(room.order, c.run, p, q);
    if q != c.run && c.run !in s.breaks && |s.breaks| >= MAX_BREAK_KEYS {
      WithoutKeepsOrder(s.order, Forgotten(s, spare), p, q);
    }
  }

  lemma {:induction false} BreakOrderIsByLastBreak(events: seq<Event>, p: string, q: string)
    requires Before(After(NOTHING_SAVED, events).order, p, q)
    ensures LastBreak(events, p) < LastBreak(events, q)
  {
    var before, e := events[..|events| - 1], events[|events| - 1];
    var s := After(NOTHING_SAVED, before);
    if e.Recorded? && e.call.decision.Protection? {
      BrokenKeepsOrder(s, e.call, e.spare, p, q);
      LastBreakIsPast(before, p);
      if q != e.call.run {
        BreakOrderIsByLastBreak(before, p, q);
      }
    } else {
      BreakOrderIsByLastBreak(before, p, q);
    }
  }

  /** `gone` makes room: remembered, and stopped longest ago if any remembered run was
      stopped since the last restart. */
  ghost predicate LeastRecentlyBroken(s: Live, events: seq<Event>, gone: string) {
    && gone in s.breaks
    && forall k :: k in s.breaks && k != gone && LastBreak(events, k) >= 0 ==>
                     0 <= LastBreak(events, gone) < LastBreak(events, k)
  }

  lemma HeadIsOldest(events: seq<Event>, order: seq<string>, k: string)
    requires order == After(NOTHING_SAVED, events).order && k in order && k != order[0]
    requires LastBreak(events, order[0]) >= 0
    ensures 0 <= LastBreak(events, order[0]) < LastBreak(events, k)
  {
    var j :| 0 <= j < |order| && order[j] == k;
    assert Before(order, order[0], k);
    BreakOrderIsByLastBreak(events, order[0], k);
  }

  lemma ForgottenIsOldest(events: seq<Event>, s: Live, spare: string)
    requires s == After(NOTHING_SAVED, events) && s.breaks != {} && KeysAreRecent(s, events)
    ensures LeastRecentlyBroken(s, events, Forgotten(s, spare))
  {
    var gone := Forgotten(s, spare);
    assert s.order != [] ==> s.order[0] in s.order;
    forall k | k in s.breaks && k != gone && LastBreak(events, k) >= 0
      ensures 0 <= LastBreak(events, gone) < LastBreak(events, k)
    {
      assert k in s.order;
      HeadIsOldest(events, s.order, k);
    }
  }

  lemma BrokenMakesRoom(s: Live, c: Call, spare: string)
    requires c.decision.Protection? && c.run !in s.breaks && |s.breaks| >= 10_000
    ensures Next(s, Recorded(c, spare)).breaks == s.breaks - {Forgotten(s, spare)} + {c.run}
  {
  }

  /** A new broken run at a full set pushes out the one stopped longest ago, and only it. */
  lemma OldestBreakMakesRoom(events: seq<Event>, c: Call, spare: string)
    requires var s := After(NOTHING_SAVED, events);
             c.decision.Protection? && c.run !in s.breaks && |s.breaks| >= 10_000
    ensures var s := After(NOTHING_SAVED, events);
            exists gone :: && LeastRecentlyBroken(s, events, gone)
                           && Next(s, Recorded(c, spare)).breaks == s.breaks - {gone} + {c.run}
  {
    var s := After(NOTHING_SAVED, events);
    KeysStayRecent(events);
    ForgottenIsOldest(events, s, spare);
    BrokenMakesRoom(s, c, spare);
  }

  // ---- live equals batch ----

  function ClampedCall(c: Call): Call {
    c.(cost := Clamped(c.cost), saved := Clamped(c.saved))
  }

  function ClampedCalls(calls: seq<Call>): seq<Call> {
    if calls == [] then [] else ClampedCalls(calls[..|calls| - 1]) + [ClampedCall(calls[|calls| - 1])]
  }

  lemma ClampedStep(calls: seq<Call>, c: Call)
    ensures Sums(ClampedCalls(calls + [c])) == Added(Sums(ClampedCalls(calls)), ClampedCall(c))
  {
    assert (calls + [c])[..|calls|] == calls;
    SumsStep(ClampedCalls(calls), ClampedCall(c));
  }

  ghost predicate CappedSums(s: Live, t: Tally) {
    && s.blocked == Min(I64_MAX, t.blocked) && s.cacheSaved == Min(I64_MAX, t.cacheSaved)
    && s.routerSaved == Min(I64_MAX, t.routerSaved)
    && t.blocked >= 0 && t.cacheSaved >= 0 && t.routerSaved >= 0
  }

  lemma NextAddsUp(s: Live, e: Event, t: Tally)
    requires CappedSums(s, t)
    ensures CappedSums(Next(s, e), if e.Recorded? then Added(t, ClampedCall(e.call)) else t)
  {
  }

  /** The live sums are the capped sums of the clamped amounts, over any history. */
  lemma {:induction false} LiveSumsAreCapped(events: seq<Event>)
    ensures CappedSums(After(NOTHING_SAVED, events), Sums(ClampedCalls(Calls(events))))
  {
    if events != [] {
      var before, e := events[..|events| - 1], events[|events| - 1];
      LiveSumsAreCapped(before);
      NextAddsUp(After(NOTHING_SAVED, before), e, Sums(ClampedCalls(Calls(before))));
      if e.Recorded? {
        ClampedStep(Calls(before), e.call);
      } else {
        assert Calls(events) == Calls(before);
      }
    }
  }

  ghost predicate NonNegative(calls: seq<Call>) {
    forall c :: c in calls ==> c.cost >= 0 && c.saved >= 0
  }

  lemma {:induction false} ClampingNonNegative(calls: seq<Call>)
    requires NonNegative(calls)
    ensures ClampedCalls(calls) == calls
  {
    if calls != [] {
      ClampingNonNegative(calls[..|calls| - 1]);
      assert calls[|calls| - 1] in calls;
      assert calls == calls[..|calls| - 1] + [calls[|calls| - 1]];
    }
  }

  ghost predicate Fits(t: Tally) {
    t.blocked <= I64_MAX && t.cacheSaved <= I64_MAX && t.routerSaved <= I64_MAX && |t.broken| <= MAX_BREAK_KEYS
  }

  /** However a history is split into batches, and through any restarts, the live rollup
      shows what the batch report computes from the whole trace. */
  lemma LiveEqualsBatch(events: seq<Event>, report: Report, wrap: Wrapping)
    requires IsWrapping(wrap) && IsReportOf(report, Calls(events), wrap)
    requires NonNegative(Calls(events)) && Fits(Sums(Calls(events)))
    ensures var live := After(NOTHING_SAVED, events);
            && live.blocked == report.blockedSpend
            && live.cacheSaved == report.cacheSaved
            && live.routerSaved == report.routerSaved
            && live.count == report.breaks
  {
    LiveSumsAreCapped(events);
    ClampingNonNegative(Calls(events));
    BreaksAreExactBelowTheCap(events);
  }
}
