/** The capped run map of one organisation (`crates/cloud/src/store.rs`, `ingest_at`): the
    recency order stays in step with it, alerting runs are evicted last, and the running
    totals stay exact whatever is evicted. */
module OrgRuns {
  import opened Basics
  import opened CloudRecords
  import opened MapSum
  import opened RecencyIndex

  const MAX_RUNS_PER_ORG: nat := 50_000

  datatype RunAgg = RunAgg(
    model: string, agent: string, unit: string, spent: i64, calls: nat, cacheHits: nat,
    steps: u32, lastSeen: i64, tools: u64)

  const NEW_RUN: RunAgg := RunAgg("", "", "", 0, 0, 0, 0, 0, 0)

  datatype Totals = Totals(calls: nat, spent: i64, tools: u64)

  /** The run map, its recency order (oldest first), the totals and the central budgets. */
  datatype RunBook = RunBook(runs: map<string, RunAgg>, order: seq<string>, totals: Totals, budgets: map<string, i64>)

  const EMPTY_BOOK: RunBook := RunBook(map[], [], Totals(0, 0, 0), map[])

  datatype Event =
    | Ingested(record: CallRecord)
    | Budgeted(run: string, micros: i64)
      /** A restart: the order is rebuilt as some listing of the loaded runs. */
    | Reloaded(order: seq<string>)

  /** The floating-point test `spent / budget >= alert_pct`, left abstract. */
  type AlertTest = (i64, i64) -> bool

  predicate Overspent(runs: map<string, RunAgg>, budgets: map<string, i64>, run: string, hot: AlertTest) {
    && run in budgets && budgets[run] > 0
    && hot(if run in runs then runs[run].spent else 0, budgets[run])
  }

  function AllOverspent(runs: map<string, RunAgg>, budgets: map<string, i64>, hot: AlertTest): set<string> {
    set k | k in runs && Overspent(runs, budgets, k, hot)
  }

  /** A retained run with a positive central budget whose own spend passes the test. */
  predicate IsAlerting(b: RunBook, run: string, hot: AlertTest) {
    && run in b.runs && run in b.budgets && b.budgets[run] > 0
    && hot(b.runs[run].spent, b.budgets[run])
  }

  function AlertingRuns(b: RunBook, hot: AlertTest): set<string> {
    AllOverspent(b.runs, b.budgets, hot)
  }

  function LastNonEmpty(old_: string, new_: string): string {
    if new_ == "" then old_ else new_
  }

  function Updated(a: RunAgg, r: CallRecord): RunAgg {
    RunAgg(
      LastNonEmpty(a.model, r.model), LastNonEmpty(a.agent, r.agent), LastNonEmpty(a.unit, r.unit),
      SatAddI64(a.spent, Spend(r)), a.calls + 1, a.cacheHits + (if r.decision.CacheHit? then 1 else 0),
      Max(a.steps, r.step), Max(a.lastSeen, r.ts), SatAdd(a.tools, SettledTools(r)))
  }

  function Counted(t: Totals, r: CallRecord): Totals {
    Totals(t.calls + 1, SatAddI64(t.spent, Spend(r)), SatAdd(t.tools, SettledTools(r)))
  }

  /** The run a record pushes out: only a new run arriving at a full map evicts. */
  function Evictee(b: RunBook, run: string, hot: AlertTest): Option<string> {
    if run in b.runs || |b.runs| < MAX_RUNS_PER_ORG then None
    else Victim(b.order, AlertingRuns(b, hot))
  }

  function Evicted(b: RunBook, run: string, hot: AlertTest): RunBook {
    var v := Evictee(b, run, hot);
    if v.None? then b else b.(runs := b.runs - {v.value}, order := Without(b.order, v.value))
  }

  function Tallied(b: RunBook, r: CallRecord): RunBook {
    b.(runs := b.runs[r.run := Updated(if r.run in b.runs then b.runs[r.run] else NEW_RUN, r)],
       order := Touched(b.order, r.run),
       totals := Counted(b.totals, r))
  }

  function Next(b: RunBook, e: Event, hot: AlertTest): RunBook {
    match e
    case Ingested(r) => Tallied(Evicted(b, r.run, hot), r)
    case Budgeted(run, micros) => b.(budgets := b.budgets[run := micros])
    case Reloaded(order) => b.(order := order)
  }

  function After(b: RunBook, events: seq<Event>, hot: AlertTest): RunBook {
    if events == [] then b else Next(After(b, events[..|events| - 1], hot), events[|events| - 1], hot)
  }

  function Records(events: seq<Event>): seq<CallRecord> {
    if events == [] then []
    else Records(events[..|events| - 1]) +
         (if events[|events| - 1].Ingested? then [events[|events| - 1].record] else [])
  }

  /** `order` lists exactly the keys of `runs`, each once. */
  ghost predicate Lists(order: seq<string>, runs: map<string, RunAgg>) {
    Distinct(order) && forall k :: k in order <==> k in runs
  }

  ghost predicate InStep(b: RunBook) {
    Lists(b.order, b.runs)
  }

  /** Every restart in the history lists the runs it finds. */
  ghost predicate Possible(b: RunBook, events: seq<Event>, hot: AlertTest) {
    events == [] ||
    (var before, e := events[..|events| - 1], events[|events| - 1];
     && Possible(b, before, hot)
     && (e.Reloaded? ==> Lists(e.order, After(b, before, hot).runs)))
  }

  // ---- lock-step and the bound ----

  lemma {:induction false} TouchedMembers(order: seq<string>, key: string)
    requires Distinct(order)
    ensures Distinct(Touched(order, key))
    ensures forall k :: k in Touched(order, key) <==> k == key || k in order
  {
    WithoutMembers(order, key);
  }

  /** The eviction of one ingest: it finds a victim exactly when the map is full and the
      run is new (so the source's fallback branch is never taken), and removes only it. */
  lemma {:induction false} EvictionKeepsStep(b: RunBook, run: string, hot: AlertTest)
    requires InStep(b)
    ensures Evictee(b, run, hot).Some? <==> run !in b.runs && |b.runs| >= 50_000
    ensures Evictee(b, run, hot).Some? ==> Evictee(b, run, hot).value in b.runs
    ensures var a := Evicted(b, run, hot);
            && InStep(a)
            && (run !in b.runs ==> run !in a.runs && |a.runs| < Max(|b.runs|, MAX_RUNS_PER_ORG))
            && (run in b.runs ==> a == b)
  {
    var v := Evictee(b, run, hot);
    if run !in b.runs && |b.runs| >= MAX_RUNS_PER_ORG {
      VictimIsJust(b.order, AlertingRuns(b, hot));
      var k := Pick(b.runs.Keys);
      assert k in b.order;
      WithoutMembers(b.order, v.value);
      assert (b.runs - {v.value}).Keys == b.runs.Keys - {v.value};
    }
  }

  lemma TallyKeepsStep(b: RunBook, r: CallRecord)
    requires InStep(b)
    ensures InStep(Tallied(b, r))
    ensures |Tallied(b, r).runs| == |b.runs| + if r.run in b.runs then 0 else 1
  {
    TouchedMembers(b.order, r.run);
    assert Tallied(b, r).runs.Keys == b.runs.Keys + {r.run};
    assert r.run in b.runs ==> b.runs.Keys + {r.run} == b.runs.Keys;
  }

  lemma {:induction false} NextKeepsStep(b: RunBook, e: Event, hot: AlertTest)
    requires InStep(b) && (e.Reloaded? ==> Lists(e.order, b.runs))
    ensures InStep(Next(b, e, hot))
    ensures |Next(b, e, hot).runs| <= Max(|b.runs|, MAX_RUNS_PER_ORG)
  {
    if e.Ingested? {
      EvictionKeepsStep(b, e.record.run, hot);
      TallyKeepsStep(Evicted(b, e.record.run, hot), e.record);
    }
  }

  /** The recency order and the run map hold the same keys through every ingest, budget
      change and restart, and a map within the bound stays within it. */
  lemma {:induction false} OrderStaysInStep(b: RunBook, events: seq<Event>, hot: AlertTest)
    requires InStep(b) && Possible(b, events, hot)
    ensures InStep(After(b, events, hot))
    ensures |After(b, events, hot).runs| <= Max(|b.runs|, 50_000)
  {
    if events != [] {
      OrderStaysInStep(b, events[..|events| - 1], hot);
      NextKeepsStep(After(b, events[..|events| - 1], hot), events[|events| - 1], hot);
    }
  }

  // ---- who is evicted ----

  /** A run disappears only when a new run meets a full map; it is alerting only if every
      retained run is, and otherwise every run touched less recently is alerting. All other
      runs keep their aggregates. */
  lemma {:induction false} EvictionIsJust(b: RunBook, r: CallRecord, gone: string, hot: AlertTest)
    requires InStep(b) && gone in b.runs && gone !in Next(b, Ingested(r), hot).runs
    ensures r.run !in b.runs && |b.runs| >= 50_000
    ensures IsAlerting(b, gone, hot) ==> b.order[0] == gone && forall k :: k in b.runs ==> IsAlerting(b, k, hot)
    ensures !IsAlerting(b, gone, hot) ==>
              exists i :: 0 <= i < |b.order| && b.order[i] == gone && forall j :: 0 <= j < i ==> IsAlerting(b, b.order[j], hot)
    ensures forall k :: k in b.runs && k != gone ==>
                          k in Next(b, Ingested(r), hot).runs && Next(b, Ingested(r), hot).runs[k] == b.runs[k]
  {
    EvictionKeepsStep(b, r.run, hot);
    VictimIsJust(b.order, AlertingRuns(b, hot));
  }

  ghost predicate Monotone(hot: AlertTest) {
    forall s: i64, t: i64, budget: i64 :: s <= t && hot(s, budget) ==> hot(t, budget)
  }

  /** Before every event some retained run is not alerting, and nobody rewrites the budget of `run`. */
  ghost predicate HasASpare(b: RunBook, events: seq<Event>, run: string, hot: AlertTest) {
    events == [] ||
    (var before, e := events[..|events| - 1], events[|events| - 1];
     && HasASpare(b, before, run, hot)
     && SpareFor(After(b, before, hot), hot)
     && (e.Budgeted? ==> e.run != run))
  }

  ghost predicate SpareFor(b: RunBook, hot: AlertTest) {
    exists k :: k in b.runs && !IsAlerting(b, k, hot)
  }

  lemma {:induction false} AlertingRunStaysOneStep(b: RunBook, e: Event, run: string, hot: AlertTest)
    requires InStep(b) && Monotone(hot) && run in b.runs && IsAlerting(b, run, hot)
    requires e.Budgeted? ==> e.run != run
    requires SpareFor(b, hot)
    ensures run in Next(b, e, hot).runs && IsAlerting(Next(b, e, hot), run, hot)
  {
    var spare :| spare in b.runs && !IsAlerting(b, spare, hot);
    if e.Ingested? {
      EvictionKeepsStep(b, e.record.run, hot);
      VictimIsJust(b.order, AlertingRuns(b, hot));
      assert spare in b.order;
    }
  }

  /** No flood of fresh runs drops an alerting run, as long as some other run could go
      instead and nobody rewrites its budget. */
  lemma {:induction false} AlertingRunSurvives(b: RunBook, events: seq<Event>, run: string, hot: AlertTest)
    requires InStep(b) && Possible(b, events, hot) && Monotone(hot)
    requires run in b.runs && IsAlerting(b, run, hot)
    requires HasASpare(b, events, run, hot)
    ensures run in After(b, events, hot).runs && IsAlerting(After(b, events, hot), run, hot)
  {
    if events != [] {
      var before := events[..|events| - 1];
      AlertingRunSurvives(b, before, run, hot);
      OrderStaysInStep(b, before, hot);
      AlertingRunStaysOneStep(After(b, before, hot), events[|events| - 1], run, hot);
    }
  }

  // ---- the order is the order of last ingest ----

  /** The position of the last record of `run` since the last restart, or -1. */
  function LastIngest(events: seq<Event>, run: string): int {
    if events == [] then -1
    else
      var e := events[|events| - 1];
      if e.Reloaded? then -1
      else if e.Ingested? && e.record.run == run then |events| - 1
      else LastIngest(events[..|events| - 1], run)
  }

  /** The listing the last restart found, or `start` if there was none. */
  function LastListing(start: seq<string>, events: seq<Event>): seq<string> {
    if events == [] then start
    else if events[|events| - 1].Reloaded? then events[|events| - 1].order
    else LastListing(start, events[..|events| - 1])
  }

  /** `p` may stand before `q`: it was ingested earlier, or neither was ingested since the
      last restart and the listing had them so. */
  ghost predicate Earlier(start: seq<string>, events: seq<Event>, p: string, q: string) {
    var s, t := LastIngest(events, p), LastIngest(events, q);
    s < t || (s == t == -1 && Before(LastListing(start, events), p, q))
  }

  lemma {:induction false} LastIngestIsPast(events: seq<Event>, run: string)
    ensures -1 <= LastIngest(events, run) < |events|
    ensures var t := LastIngest(events, run); t >= 0 ==> events[t].Ingested? && events[t].record.run == run
  {
    if events != [] {
      LastIngestIsPast(events[..|events| - 1], run);
    }
  }

  /** Least recently used: whatever was evicted, budgeted or restarted in between, a
      retained run stands before another only if its last record is the older one. */
  lemma {:induction false} OrderIsByLastIngest(b: RunBook, events: seq<Event>, hot: AlertTest, p: string, q: string)
    requires Before(After(b, events, hot).order, p, q)
    ensures Earlier(b.order, events, p, q)
  {
    if events != [] {
      var before, e := events[..|events| - 1], events[|events| - 1];
      var mid := After(b, before, hot);
      match e
      case Ingested(r) =>
        IngestKeepsOrder(mid, r, hot, p, q);
        LastIngestIsPast(before, p);
        if q != r.run {
          OrderIsByLastIngest(b, before, hot, p, q);
        }
      case Budgeted(_, _) => OrderIsByLastIngest(b, before, hot, p, q);
      case Reloaded(_) =>
    }
  }

  lemma IngestKeepsOrder(b: RunBook, r: CallRecord, hot: AlertTest, p: string, q: string)
    requires Before(Tallied(Evicted(b, r.run, hot), r).order, p, q)
    ensures p != r.run && (q == r.run || Before(b.order, p, q))
  {
    var left := Evicted(b, r.run, hot);
    TouchKeepsOrder(left.order, r.run, p, q);
    var v := Evictee(b, r.run, hot);
    if q != r.run && v.Some? {
      WithoutKeepsOrder(b.order, v.value, p, q);
    }
  }

  // ---- the totals ----

  /** `t` is `base` with so many calls, so much spend and so many tool calls added, capped. */
  ghost predicate IsExactly(t: Totals, base: Totals, calls: nat, spent: nat, tools: nat) {
    && t.calls == base.calls + calls
    && t.spent == Min(I64_MAX, base.spent + spent) && t.tools == Min(U64_MAX, base.tools + tools)
  }

  lemma CountedIsExact(t: Totals, base: Totals, calls: nat, spent: nat, tools: nat, r: CallRecord)
    requires IsExactly(t, base, calls, spent, tools)
    ensures IsExactly(Counted(t, r), base, calls + 1, spent + CostOf(r), tools + ToolsOf(r))
  {
    SettledCallsCount(r);
  }

  /** `t` is `base` with exactly these records counted. */
  ghost predicate Counts(t: Totals, base: Totals, rs: seq<CallRecord>) {
    IsExactly(t, base, |rs|, Spends(rs), ToolSum(rs))
  }

  lemma CountsOneMore(t: Totals, base: Totals, rs: seq<CallRecord>, r: CallRecord)
    requires Counts(t, base, rs)
    ensures Counts(Counted(t, r), base, rs + [r])
  {
    AmountsStep(rs, r);
    CountedIsExact(t, base, |rs|, Spends(rs), ToolSum(rs), r);
  }

  lemma TotalsStep(b: RunBook, e: Event, hot: AlertTest)
    ensures Next(b, e, hot).totals == if e.Ingested? then Counted(b.totals, e.record) else b.totals
  {
  }

  lemma RecordsStep(before: seq<Event>, e: Event)
    ensures Records(before + [e]) == if e.Ingested? then Records(before) + [e.record] else Records(before)
  {
    assert (before + [e])[..|before|] == before;
  }

  /** Whatever is evicted, the totals are the exact counts and capped sums of every record. */
  lemma {:induction false} TotalsAreExact(b: RunBook, events: seq<Event>, hot: AlertTest)
    ensures Counts(After(b, events, hot).totals, b.totals, Records(events))
  {
    if events != [] {
      var before, e := events[..|events| - 1], events[|events| - 1];
      TotalsAreExact(b, before, hot);
      TotalsStep(After(b, before, hot), e, hot);
      assert events == before + [e];
      RecordsStep(before, e);
      if e.Ingested? {
        CountsOneMore(After(b, before, hot).totals, b.totals, Records(before), e.record);
      }
    }
  }

  function Calls(runs: map<string, RunAgg>): map<string, int> {
    map k | k in runs :: runs[k].calls
  }

  function Spent(runs: map<string, RunAgg>): map<string, int> {
    map k | k in runs :: runs[k].spent
  }

  function EvictedCalls(b: RunBook, run: string, hot: AlertTest): nat {
    var v := Evictee(b, run, hot);
    if v.Some? && v.value in b.runs then b.runs[v.value].calls else 0
  }

  /** The calls of all aggregates evicted over the history. */
  function LostCalls(b: RunBook, events: seq<Event>, hot: AlertTest): nat {
    if events == [] then 0
    else
      var before, e := events[..|events| - 1], events[|events| - 1];
      LostCalls(b, before, hot) + CallsLostAt(After(b, before, hot), e, hot)
  }

  ghost predicate NothingEvicted(b: RunBook, events: seq<Event>, hot: AlertTest) {
    events == [] ||
    (var before, e := events[..|events| - 1], events[|events| - 1];
     && NothingEvicted(b, before, hot)
     && (e.Ingested? ==> Evictee(After(b, before, hot), e.record.run, hot).None?))
  }

  ghost predicate EveryRunWasCalled(b: RunBook) {
    forall k :: k in b.runs ==> b.runs[k].calls >= 1
  }

  lemma {:induction false} EvictionMovesCalls(b: RunBook, run: string, hot: AlertTest)
    requires InStep(b)
    ensures Sum(Calls(Evicted(b, run, hot).runs)) + EvictedCalls(b, run, hot) == Sum(Calls(b.runs))
  {
    EvictionKeepsStep(b, run, hot);
    var v := Evictee(b, run, hot);
    if v.Some? {
      CallsWithout(b.runs, v.value);
    }
  }

  lemma CallsWithout(runs: map<string, RunAgg>, run: string)
    requires run in runs
    ensures Sum(Calls(runs - {run})) + runs[run].calls == Sum(Calls(runs))
  {
    SumTake(Calls(runs), run);
    assert Calls(runs - {run}) == Calls(runs) - {run};
  }

  lemma {:induction false} TallyAddsOneCall(b: RunBook, r: CallRecord)
    ensures Sum(Calls(Tallied(b, r).runs)) == Sum(Calls(b.runs)) + 1
  {
    var calls := Tallied(b, r).runs[r.run].calls;
    SumUpdate(Calls(b.runs), r.run, calls);
    assert Calls(Tallied(b, r).runs) == Calls(b.runs)[r.run := calls];
  }

  function CallsLostAt(b: RunBook, e: Event, hot: AlertTest): nat {
    if e.Ingested? then EvictedCalls(b, e.record.run, hot) else 0
  }

  lemma NextConservesCalls(b: RunBook, e: Event, hot: AlertTest)
    requires InStep(b) && EveryRunWasCalled(b)
    ensures EveryRunWasCalled(Next(b, e, hot))
    ensures Sum(Calls(Next(b, e, hot).runs)) + CallsLostAt(b, e, hot) == Sum(Calls(b.runs)) + (if e.Ingested? then 1 else 0)
    ensures CallsLostAt(b, e, hot) == 0 <==> (e.Ingested? ==> Evictee(b, e.record.run, hot).None?)
  {
    if e.Ingested? {
      EvictionKeepsStep(b, e.record.run, hot);
      EvictionMovesCalls(b, e.record.run, hot);
      TallyAddsOneCall(Evicted(b, e.record.run, hot), e.record);
    }
  }

  /** Conservation: every counted call is in a retained aggregate or in an evicted one; the
      retained ones account for all calls exactly when nothing was evicted. */
  lemma {:induction false} CallsAreConserved(b: RunBook, events: seq<Event>, hot: AlertTest)
    requires InStep(b) && Possible(b, events, hot) && EveryRunWasCalled(b)
    ensures EveryRunWasCalled(After(b, events, hot))
    ensures Sum(Calls(After(b, events, hot).runs)) + LostCalls(b, events, hot) == Sum(Calls(b.runs)) + |Records(events)|
    ensures LostCalls(b, events, hot) == 0 <==> NothingEvicted(b, events, hot)
  {
    if events != [] {
      var before, e := events[..|events| - 1], events[|events| - 1];
      CallsAreConserved(b, before, hot);
      OrderStaysInStep(b, before, hot);
      NextConservesCalls(After(b, before, hot), e, hot);
      assert |Records(events)| == |Records(before)| + (if e.Ingested? then 1 else 0);
    }
  }

  /** Over the whole life of an organisation the retained calls never exceed the total, and
      equal it exactly when no run was ever evicted. */
  lemma {:induction false} RetainedCallsNeverExceedTheTotal(events: seq<Event>, hot: AlertTest)
    requires Possible(EMPTY_BOOK, events, hot)
    ensures var a := After(EMPTY_BOOK, events, hot);
            && Sum(Calls(a.runs)) <= a.totals.calls
            && (Sum(Calls(a.runs)) == a.totals.calls <==> NothingEvicted(EMPTY_BOOK, events, hot))
  {
    CallsAreConserved(EMPTY_BOOK, events, hot);
    TotalsAreExact(EMPTY_BOOK, events, hot);
    assert Calls(EMPTY_BOOK.runs) == map[];
  }

  ghost predicate SpentInRange(b: RunBook) {
    forall k :: k in b.runs ==> 0 <= b.runs[k].spent
  }

  lemma {:induction false} TallyKeepsSpend(b: RunBook, r: CallRecord)
    requires SpentInRange(b) && b.totals.spent == Min(I64_MAX, Sum(Spent(b.runs)))
    ensures SpentInRange(Tallied(b, r))
    ensures Tallied(b, r).totals.spent == Min(I64_MAX, Sum(Spent(Tallied(b, r).runs)))
  {
    var a := Tallied(b, r);
    SumNonNegative(Spent(b.runs));
    SumUpdate(Spent(b.runs), r.run, a.runs[r.run].spent);
    assert Spent(a.runs) == Spent(b.runs)[r.run := a.runs[r.run].spent];
    assert r.run in b.runs ==> Spent(b.runs)[r.run] == b.runs[r.run].spent;
  }

  /** While nothing has been evicted, adding up the run map recovers the exact totals. */
  lemma {:induction false} RunMapRecoversTotals(events: seq<Event>, hot: AlertTest)
    requires Possible(EMPTY_BOOK, events, hot) && NothingEvicted(EMPTY_BOOK, events, hot)
    ensures var a := After(EMPTY_BOOK, events, hot);
            && a.totals.calls == Sum(Calls(a.runs))
            && a.totals.spent == Min(I64_MAX, Sum(Spent(a.runs)))
            && SpentInRange(a)
  {
    RetainedCallsNeverExceedTheTotal(events, hot);
    RunMapRecoversSpend(events, hot);
  }

  lemma {:induction false} RunMapRecoversSpend(events: seq<Event>, hot: AlertTest)
    requires NothingEvicted(EMPTY_BOOK, events, hot)
    ensures var a := After(EMPTY_BOOK, events, hot);
            a.totals.spent == Min(I64_MAX, Sum(Spent(a.runs))) && SpentInRange(a)
  {
    if events == [] {
      assert Spent(EMPTY_BOOK.runs) == map[];
    } else {
      var before, e := events[..|events| - 1], events[|events| - 1];
      RunMapRecoversSpend(before, hot);
      if e.Ingested? {
        TallyKeepsSpend(After(EMPTY_BOOK, before, hot), e.record);
      }
    }
  }

  // ---- what one aggregate says ----

  /** The records folded into the aggregate of `run` since it last entered the map. */
  function Own(events: seq<Event>, run: string, hot: AlertTest): seq<CallRecord> {
    if events == [] then []
    else
      var before, e := events[..|events| - 1], events[|events| - 1];
      if !e.Ingested? then Own(before, run, hot)
      else
        var left := Evicted(After(EMPTY_BOOK, before, hot), e.record.run, hot);
        (if run in left.runs then Own(before, run, hot) else [])
        + (if e.record.run == run then [e.record] else [])
  }

  function OfRun(records: seq<CallRecord>, run: string): seq<CallRecord> {
    if records == [] then []
    else OfRun(records[..|records| - 1], run)
         + (if records[|records| - 1].run == run then [records[|records| - 1]] else [])
  }

  function CacheHits(records: seq<CallRecord>): nat {
    if records == [] then 0
    else CacheHits(records[..|records| - 1]) + (if records[|records| - 1].decision.CacheHit? then 1 else 0)
  }

  /** `v` is the last non-empty text of the list, or empty if there is none. */
  ghost predicate IsLastNonEmpty(v: string, texts: seq<string>) {
    || (v == "" && forall t :: t in texts ==> t == "")
    || (v != "" && exists i :: 0 <= i < |texts| && texts[i] == v && forall j :: i < j < |texts| ==> texts[j] == "")
  }

  /** `v` is the largest of the values, or 0 if none is positive. */
  ghost predicate IsHighest(v: int, values: seq<int>) {
    (v == 0 || v in values) && v >= 0 && forall x :: x in values ==> x <= v
  }

  ghost predicate Describes(a: RunAgg, rs: seq<CallRecord>) {
    && a.calls == |rs|
    && a.spent == Min(I64_MAX, Spends(rs)) && a.tools == Min(U64_MAX, ToolSum(rs))
    && a.cacheHits == CacheHits(rs)
    && IsHighest(a.steps, Column(rs, STEP)) && IsHighest(a.lastSeen, Column(rs, TIME))
    && IsLastNonEmpty(a.model, Column(rs, MODEL)) && IsLastNonEmpty(a.agent, Column(rs, AGENT))
    && IsLastNonEmpty(a.unit, Column(rs, UNIT))
  }

  const STEP: CallRecord -> int := (r: CallRecord) => r.step
  const TIME: CallRecord -> int := (r: CallRecord) => r.ts
  const MODEL: CallRecord -> string := (r: CallRecord) => r.model
  const AGENT: CallRecord -> string := (r: CallRecord) => r.agent
  const UNIT: CallRecord -> string := (r: CallRecord) => r.unit

  /** One field of every record. */
  function Column<T>(rs: seq<CallRecord>, field: CallRecord -> T): seq<T> {
    seq(|rs|, i requires 0 <= i < |rs| => field(rs[i]))
  }

  lemma ColumnStep<T>(rs: seq<CallRecord>, r: CallRecord, field: CallRecord -> T)
    ensures Column(rs + [r], field) == Column(rs, field) + [field(r)]
  {
  }

  lemma LastNonEmptyStep(v: string, texts: seq<string>, t: string)
    requires IsLastNonEmpty(v, texts)
    ensures IsLastNonEmpty(LastNonEmpty(v, t), texts + [t])
  {
    var longer := texts + [t];
    if t != "" {
      assert longer[|texts|] == t;
    } else if v != "" {
      var i :| 0 <= i < |texts| && texts[i] == v && forall j :: i < j < |texts| ==> texts[j] == "";
      assert longer[i] == v;
    }
  }

  lemma HighestStep(v: int, values: seq<int>, x: int)
    requires IsHighest(v, values)
    ensures IsHighest(Max(v, x), values + [x])
  {
    assert x in values + [x] && forall y :: y in values ==> y in values + [x];
  }

  lemma DescribesStep(a: RunAgg, rs: seq<CallRecord>, r: CallRecord)
    requires Describes(a, rs)
    ensures Describes(Updated(a, r), rs + [r])
  {
    AmountsStep(rs, r);
    SettledCallsCount(r);
    HighestStep(a.steps, Column(rs, STEP), r.step);
    HighestStep(a.lastSeen, Column(rs, TIME), r.ts);
    LastNonEmptyStep(a.model, Column(rs, MODEL), r.model);
    LastNonEmptyStep(a.agent, Column(rs, AGENT), r.agent);
    LastNonEmptyStep(a.unit, Column(rs, UNIT), r.unit);
    ColumnStep(rs, r, STEP);
    ColumnStep(rs, r, TIME);
    ColumnStep(rs, r, MODEL);
    ColumnStep(rs, r, AGENT);
    ColumnStep(rs, r, UNIT);
  }

  lemma AmountsStep(rs: seq<CallRecord>, r: CallRecord)
    ensures Spends(rs + [r]) == Spends(rs) + CostOf(r) && ToolSum(rs + [r]) == ToolSum(rs) + ToolsOf(r)
    ensures CacheHits(rs + [r]) == CacheHits(rs) + (if r.decision.CacheHit? then 1 else 0)
  {
    assert (rs + [r])[..|rs|] == rs;
  }

  /** Each retained aggregate is exactly the summary of its own run's records since the run
      last entered the map, whatever happened to other runs in between. */
  lemma {:induction false} RunsAreTheirOwnHistory(events: seq<Event>, run: string, hot: AlertTest)
    requires run in After(EMPTY_BOOK, events, hot).runs
    ensures Describes(After(EMPTY_BOOK, events, hot).runs[run], Own(events, run, hot))
  {
    var before, e := events[..|events| - 1], events[|events| - 1];
    var mid := After(EMPTY_BOOK, before, hot);
    if run in mid.runs {
      RunsAreTheirOwnHistory(before, run, hot);
    }
    if e.Ingested? && e.record.run == run {
      var left := Evicted(mid, run, hot);
      if run in left.runs {
        DescribesStep(mid.runs[run], Own(before, run, hot), e.record);
        assert Own(events, run, hot) == Own(before, run, hot) + [e.record];
      } else {
        DescribesStep(NEW_RUN, [], e.record);
        assert Own(events, run, hot) == [] + [e.record];
      }
    } else {
      assert Own(events, run, hot) == Own(before, run, hot);
      assert After(EMPTY_BOOK, events, hot).runs[run] == mid.runs[run];
    }
  }

  /** With no eviction that is every record the run ever had, and a run is retained exactly
      when it has one. */
  lemma {:induction false} OwnIsEveryRecord(events: seq<Event>, run: string, hot: AlertTest)
    requires NothingEvicted(EMPTY_BOOK, events, hot)
    ensures Own(events, run, hot) == OfRun(Records(events), run)
    ensures run in After(EMPTY_BOOK, events, hot).runs <==> Own(events, run, hot) != []
  {
    if events != [] {
      var before, e := events[..|events| - 1], events[|events| - 1];
      OwnIsEveryRecord(before, run, hot);
      if e.Ingested? {
        var records := Records(events);
        assert records == Records(before) + [e.record];
        assert records[..|records| - 1] == Records(before);
      } else {
        assert Records(events) == Records(before);
      }
    }
  }
}
