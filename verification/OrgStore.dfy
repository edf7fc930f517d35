/** One organisation's live aggregates (`crates/cloud/src/store.rs`): ingest, budgets and
    restarts keep every accumulator equal to the fold of its whole history. */
module OrgStore {
  import opened Basics
  import opened CloudRecords
  import opened OrderedMap
  import opened RecencyIndex
  import opened Sorting
  import opened MapSum
  import MonthKey
  import Runs = OrgRuns
  import Units = UnitMonths
  import Savings
  import Series

  const SERIES_CAP: nat := 100_000

  function AsCall(r: CallRecord): Savings.Call {
    Savings.Call(r.run, r.decision, r.cost, r.saved)
  }

  function AsSample(r: CallRecord): Series.Sample {
    Series.Sample(r.ts, r.run, Clamped(r.cost), IsBlocked(r.decision), ToolCalls(r))
  }

  function AsSamples(records: seq<CallRecord>): seq<Series.Sample> {
    seq(|records|, i requires 0 <= i < |records| => AsSample(records[i]))
  }

  /** What the sample log and the savings are told about a record: only a call that was
      settled, itself or from the cache, is not blocked. */
  lemma RecordsAreReadAsTheyAre(r: CallRecord)
    ensures var s := AsSample(r);
            && s.ts == r.ts && s.run == r.run && s.cost == Max(0, r.cost)
            && (s.blocked <==> r.decision.Protection? || r.decision.Other?)
            && s.tools == (match r.tools case Some(n) => n case None => 0)
    ensures var c := AsCall(r);
            c.run == r.run && c.decision == r.decision && c.cost == r.cost && c.saved == r.saved
  {
  }

  /** The newest samples that fit. */
  function Kept(log: seq<Series.Sample>): seq<Series.Sample> {
    if |log| <= SERIES_CAP then log else log[|log| - SERIES_CAP..]
  }

  /** Capping after every batch keeps what capping once at the end would. */
  lemma CappingComposes(a: seq<Series.Sample>, b: seq<Series.Sample>)
    ensures Kept(Kept(a) + b) == Kept(a + b)
    ensures |Kept(a)| == Min(|a|, 100_000) && Kept(a) == a[|a| - |Kept(a)|..]
  {
    if |a| > SERIES_CAP {
      assert Kept(a) + b == (a + b)[|a| - SERIES_CAP..];
    }
  }

  // ---- the run map ----

  lemma RunsGrow(events: seq<Runs.Event>, e: Runs.Event, hot: Runs.AlertTest, before: Runs.RunBook, after: Runs.RunBook)
    requires Runs.Possible(Runs.EMPTY_BOOK, events, hot) && before == Runs.After(Runs.EMPTY_BOOK, events, hot)
    requires after == Runs.Next(before, e, hot) && (e.Reloaded? ==> Runs.Lists(e.order, before.runs))
    ensures Runs.Possible(Runs.EMPTY_BOOK, events + [e], hot) && after == Runs.After(Runs.EMPTY_BOOK, events + [e], hot)
  {
    assert (events + [e])[..|events|] == events;
  }

  /** A new run meeting a full map always finds a victim. */
  lemma VictimExists(b: Runs.RunBook, run: string, hot: Runs.AlertTest)
    requires Runs.InStep(b) && run !in b.runs && |b.runs| >= Runs.MAX_RUNS_PER_ORG
    ensures Runs.Evictee(b, run, hot).Some?
  {
    Runs.EvictionKeepsStep(b, run, hot);
  }

  lemma OldIsTouchedOnce(order: seq<string>, key: string)
    requires key !in order
    ensures Touched(order, key) == order + [key]
  {
    WithoutMembers(order, key);
  }

  function LastSeen(runs: map<string, Runs.RunAgg>, run: string): i64 {
    if run in runs then runs[run].lastSeen else 0
  }

  /** `sort_by_key(last_seen)` on the listing of a run map. */
  function ByLastSeen(runs: map<string, Runs.RunAgg>): (string, string) -> bool {
    (a, b) => LastSeen(runs, a) <= LastSeen(runs, b)
  }

  /** No run stands before one that was last seen earlier. */
  ghost predicate OldestFirst(runs: map<string, Runs.RunAgg>, order: seq<string>) {
    forall i, j :: 0 <= i < j < |order| && order[i] in runs && order[j] in runs ==>
      runs[order[i]].lastSeen <= runs[order[j]].lastSeen
  }

  lemma SortedIsOldestFirst(runs: map<string, Runs.RunAgg>, order: seq<string>)
    requires Sorted(ByLastSeen(runs), order)
    ensures OldestFirst(runs, order)
  {
    var le := ByLastSeen(runs);
    forall i, j | 0 <= i < j < |order| && order[i] in runs && order[j] in runs
      ensures runs[order[i]].lastSeen <= runs[order[j]].lastSeen
    {
      assert le(order[i], order[j]);
    }
  }

  lemma SortingAListing(runs: map<string, Runs.RunAgg>, ids: seq<string>)
    requires Runs.Lists(ids, runs)
    ensures var sorted := Sort(ByLastSeen(runs), ids);
            Runs.Lists(sorted, runs) && Sorted(ByLastSeen(runs), sorted)
  {
    var sorted := Sort(ByLastSeen(runs), ids);
    SortKeeps(ByLastSeen(runs), ids);
    SortSorts(ByLastSeen(runs), ids);
    RearrangedDistinct(ids, sorted);
  }

  /** The keys of a run map, in whatever order the map gives them. */
  method Listing(runs: map<string, Runs.RunAgg>) returns (ids: seq<string>)
    ensures Runs.Lists(ids, runs)
  {
    ids := [];
    var rest := runs;
    while rest != map[]
      invariant Distinct(ids) && forall k :: k in runs <==> k in ids || k in rest
      invariant forall k :: k in ids ==> k !in rest
      decreases |rest|
    {
      var k :| k in rest;
      ids := ids + [k];
      rest := rest - {k};
    }
  }

  /** A fresh recency index over loaded runs, oldest `last_seen` first. */
  method Seed(runs: map<string, Runs.RunAgg>) returns (recency: Recency<string>)
    ensures fresh(recency) && recency.Consistent()
    ensures Runs.Lists(recency.Order(), runs) && Sorted(ByLastSeen(runs), recency.Order())
    ensures OldestFirst(runs, recency.Order())
  {
    var ids := Listing(runs);
    SortingAListing(runs, ids);
    ids := Sort(ByLastSeen(runs), ids);
    SortedIsOldestFirst(runs, ids);
    recency := TouchAll(ids);
  }

  method TouchAll(ids: seq<string>) returns (recency: Recency<string>)
    requires Distinct(ids)
    ensures fresh(recency) && recency.Consistent() && recency.Order() == ids
  {
    recency := new Recency();
    for i := 0 to |ids|
      invariant recency.Consistent() && fresh(recency) && recency.Order() == ids[..i]
    {
      OldIsTouchedOnce(ids[..i], ids[i]);
      recency.Touch(ids[i]);
      assert ids[..i + 1] == ids[..i] + [ids[i]];
    }
    assert ids[..|ids|] == ids;
  }

  lemma TakeRun(rest: map<string, Runs.RunAgg>, k: string)
    requires k in rest
    ensures Sum(Runs.Calls(rest)) == rest[k].calls + Sum(Runs.Calls(rest - {k}))
    ensures Sum(Runs.Spent(rest)) == rest[k].spent + Sum(Runs.Spent(rest - {k}))
  {
    SumTake(Runs.Calls(rest), k);
    SumTake(Runs.Spent(rest), k);
    assert Runs.Calls(rest - {k}) == Runs.Calls(rest) - {k};
    assert Runs.Spent(rest - {k}) == Runs.Spent(rest) - {k};
  }

  ghost predicate NoNegativeSpend(runs: map<string, Runs.RunAgg>) {
    forall k :: k in runs ==> runs[k].spent >= 0
  }

  /** The totals a snapshot from before the totals were kept is given: sums over its runs. */
  method Backfill(runs: map<string, Runs.RunAgg>) returns (t: Runs.Totals)
    ensures t.calls == Sum(Runs.Calls(runs)) && t.tools == 0
    ensures NoNegativeSpend(runs) ==> t.spent == Min(I64_MAX, Sum(Runs.Spent(runs)))
  {
    t := Runs.Totals(0, 0, 0);
    var rest := runs;
    ghost var done := 0;
    while rest != map[]
      invariant NoNegativeSpend(runs) ==> NoNegativeSpend(rest) && done >= 0 && t.spent == Min(I64_MAX, done)
      invariant t.tools == 0 && t.calls + Sum(Runs.Calls(rest)) == Sum(Runs.Calls(runs))
      invariant done + Sum(Runs.Spent(rest)) == Sum(Runs.Spent(runs))
      decreases |rest|
    {
      var k :| k in rest;
      TakeRun(rest, k);
      done := done + rest[k].spent;
      t := t.(calls := t.calls + rest[k].calls, spent := SatAddI64(t.spent, rest[k].spent));
      rest := rest - {k};
    }
    assert Runs.Calls(rest) == map[] && Runs.Spent(rest) == map[];
  }

  class RunFold {
    const alertTest: Runs.AlertTest
    var runs: map<string, Runs.RunAgg>
    var totals: Runs.Totals
    var budgets: map<string, i64>
    var recency: Recency<string>
    ghost var events: seq<Runs.Event>

    ghost function Book(): Runs.RunBook
      reads this, recency
    {
      Runs.RunBook(runs, recency.Order(), totals, budgets)
    }

    /** The state is the fold of the history from an empty book. */
    ghost predicate Valid()
      reads this, recency
    {
      && recency.Consistent()
      && Runs.Possible(Runs.EMPTY_BOOK, events, alertTest)
      && Book() == Runs.After(Runs.EMPTY_BOOK, events, alertTest)
    }

    constructor (hot: Runs.AlertTest)
      ensures Valid() && fresh(recency) && alertTest == hot && events == []
    {
      alertTest := hot;
      runs, totals, budgets, events := map[], Runs.Totals(0, 0, 0), map[], [];
      recency := new Recency();
    }

    lemma BookIsInStep()
      requires Valid()
      ensures Runs.InStep(Book()) && |runs| <= Runs.MAX_RUNS_PER_ORG
    {
      Runs.OrderStaysInStep(Runs.EMPTY_BOOK, events, alertTest);
    }

    /** A new run arriving at a full map pushes out the least recently touched run that is not
        alerting, or the oldest if all are. The source's fallback for an empty index is dead code. */
    method MakeRoom(run: string)
      requires recency.Consistent() && Runs.InStep(Book())
      modifies this`runs, recency
      ensures recency.Consistent() && Book() == Runs.Evicted(old(Book()), run, alertTest)
    {
      if run !in runs && |runs| >= Runs.MAX_RUNS_PER_ORG {
        ghost var before := Book();
        VictimExists(before, run, alertTest);
        var evicted := recency.EvictOldestUnprotected(Runs.AllOverspent(runs, budgets, alertTest));
        assert evicted == Runs.Evictee(before, run, alertTest);
        if evicted.Some? {
          runs := runs - {evicted.value};
          assert recency.Order() == Without(before.order, evicted.value);
        } else {
          assert false;
        }
      }
    }

    /** Fold one record into its run's aggregate and the totals. */
    method Tally(r: CallRecord)
      requires recency.Consistent()
      modifies this`runs, this`totals, recency
      ensures recency.Consistent() && Book() == Runs.Tallied(old(Book()), r)
    {
      var agg := if r.run in runs then runs[r.run] else Runs.NEW_RUN;
      recency.Touch(r.run);
      agg := Absorb(agg, r);
      totals := Count(totals, r);
      runs := runs[r.run := agg];
    }

    static method Count(t: Runs.Totals, r: CallRecord) returns (after: Runs.Totals)
      ensures after == Runs.Counted(t, r)
    {
      after := t;
      if !IsBlocked(r.decision) {
        after := after.(spent := SatAddI64(t.spent, Clamped(r.cost)), tools := SatAdd(t.tools, ToolCalls(r)));
      }
      after := after.(calls := after.calls + 1);
    }

    static method Absorb(a: Runs.RunAgg, r: CallRecord) returns (agg: Runs.RunAgg)
      ensures agg == Runs.Updated(a, r)
    {
      agg := a;
      if !IsBlocked(r.decision) {
        agg := agg.(spent := SatAddI64(agg.spent, Clamped(r.cost)), tools := SatAdd(agg.tools, ToolCalls(r)));
      }
      agg := agg.(calls := agg.calls + 1);
      if r.decision.CacheHit? {
        agg := agg.(cacheHits := agg.cacheHits + 1);
      }
      if r.model != "" {
        agg := agg.(model := r.model);
      }
      if r.agent != "" {
        agg := agg.(agent := r.agent);
      }
      if r.unit != "" {
        agg := agg.(unit := r.unit);
      }
      if r.step > agg.steps {
        agg := agg.(steps := r.step);
      }
      if r.ts > agg.lastSeen {
        agg := agg.(lastSeen := r.ts);
      }
    }

    method Fold(r: CallRecord)
      requires Valid()
      modifies this`runs, this`totals, this`events, recency
      ensures Valid() && events == old(events) + [Runs.Ingested(r)]
    {
      ghost var before := Book();
      BookIsInStep();
      MakeRoom(r.run);
      Tally(r);
      RunsGrow(events, Runs.Ingested(r), alertTest, before, Book());
      events := events + [Runs.Ingested(r)];
    }

    method SetBudget(run: string, micros: i64)
      requires Valid()
      modifies this`budgets, this`events
      ensures Valid() && events == old(events) + [Runs.Budgeted(run, micros)]
    {
      ghost var before := Book();
      budgets := budgets[run := micros];
      RunsGrow(events, Runs.Budgeted(run, micros), alertTest, before, Book());
      events := events + [Runs.Budgeted(run, micros)];
    }

    /** A restart rebuilds the recency order from the runs' own timestamps. */
    method Reload()
      requires Valid()
      modifies this
      ensures Valid() && fresh(recency) && runs == old(runs) && totals == old(totals)
      ensures OldestFirst(runs, recency.Order()) && Sorted(ByLastSeen(runs), recency.Order())
      ensures events == old(events) + [Runs.Reloaded(recency.Order())]
    {
      ghost var before := Book();
      recency := Seed(runs);
      RunsGrow(events, Runs.Reloaded(recency.Order()), alertTest, before, Book());
      events := events + [Runs.Reloaded(recency.Order())];
    }

    /** The backfill recovers the exact calls and spend as long as nothing has been evicted. */
    method RecoverTotals() returns (t: Runs.Totals)
      requires Valid() && Runs.NothingEvicted(Runs.EMPTY_BOOK, events, alertTest)
      ensures t.calls == totals.calls && t.spent == totals.spent
    {
      Runs.RunMapRecoversTotals(events, alertTest);
      t := Backfill(runs);
    }

    /** `summary`: exact over the whole history, whatever has been evicted. */
    method Summary() returns (retained: nat, calls: nat, spent: i64, tools: u64)
      requires Valid()
      ensures retained == |runs| <= Runs.MAX_RUNS_PER_ORG
      ensures calls == |Runs.Records(events)|
      ensures spent == Min(I64_MAX, Spends(Runs.Records(events)))
      ensures tools == Min(U64_MAX, ToolSum(Runs.Records(events)))
    {
      BookIsInStep();
      Runs.TotalsAreExact(Runs.EMPTY_BOOK, events, alertTest);
      retained, calls, spent, tools := |runs|, totals.calls, totals.spent, totals.tools;
    }
  }

  // ---- the unit months ----

  lemma UnitsGrow(stamps: seq<Units.Stamped>, s: Units.Stamped)
    ensures Units.After(stamps + [s]) == Units.Folded(Units.After(stamps), s)
  {
    assert (stamps + [s])[..|stamps|] == stamps;
  }

  class UnitFold {
    var accs: Units.Accs
    ghost var stamps: seq<Units.Stamped>

    ghost predicate Valid()
      reads this
    {
      accs == Units.After(stamps)
    }

    constructor ()
      ensures Valid() && stamps == []
    {
      accs, stamps := map[], [];
    }

    /** The record's own unit while there is room for it, else "unassigned". */
    method BucketOf(unit: string) returns (bucket: string)
      ensures bucket == Units.Bucket(accs.Keys, unit)
    {
      assert |accs| == |accs.Keys|;
      bucket := if unit == "" then Units.UNASSIGNED else unit;
      if !(bucket in accs || |accs| < Units.MAX_UNIT_MONTH_KEYS) {
        bucket := Units.UNASSIGNED;
      }
    }

    /** Roll the bucket over if it is stale or new, then count the record. */
    method Credit(bucket: string, r: CallRecord, month: string) returns (acc: Units.Acc)
      ensures acc == Units.Credited(Units.Rolled(accs, bucket, month), r)
    {
      acc := if bucket in accs then accs[bucket] else Units.Acc("", 0, 0);
      if acc.window != month || bucket !in accs {
        acc := Units.Acc(month, 0, 0);
      }
      acc := acc.(calls := acc.calls + 1);
      if !IsBlocked(r.decision) {
        acc := acc.(spent := SatAddI64(acc.spent, Clamped(r.cost)));
      }
    }

    method Fold(r: CallRecord, month: string)
      requires Valid()
      modifies this
      ensures Valid() && stamps == old(stamps) + [Units.Stamped(r, month)]
    {
      var bucket := BucketOf(r.unit);
      var acc := Credit(bucket, r, month);
      UnitsGrow(stamps, Units.Stamped(r, month));
      accs := accs[bucket := acc];
      stamps := stamps + [Units.Stamped(r, month)];
    }

    /** The month-to-date column of `units_at`: never more than the unit owns this month,
        and exactly that if and only if its records never left the month. */
    method ToDate(unit: string, month: string) returns (spent: i64, calls: nat)
      requires Valid()
      ensures calls <= Units.CallsOf(stamps, accs.Keys, unit, month)
      ensures spent <= Min(I64_MAX, Units.SpendOf(stamps, accs.Keys, unit, month))
      ensures calls == Units.CallsOf(stamps, accs.Keys, unit, month) <==> !Units.Leaves(stamps, accs.Keys, unit, month)
      ensures !Units.Leaves(stamps, accs.Keys, unit, month) ==>
                spent == Min(I64_MAX, Units.SpendOf(stamps, accs.Keys, unit, month))
      ensures var since := Units.Since(stamps, accs.Keys, unit, month);
              && calls == Units.CallsFrom(stamps, since, accs.Keys, unit, month)
              && spent == Min(I64_MAX, Units.SpendFrom(stamps, since, accs.Keys, unit, month))
    {
      Units.MonthToDateIsExactIff(stamps, unit, month);
      Units.MonthToDateIsTheLastStretch(stamps, unit, month);
      if !Units.Leaves(stamps, accs.Keys, unit, month) {
        Units.StayingIsExact(stamps, unit, month);
      }
      spent, calls := 0, 0;
      if unit in accs && accs[unit].window == month {
        spent, calls := accs[unit].spent, accs[unit].calls;
      }
    }
  }

  // ---- the savings ----

  lemma SavingsGrow(events: seq<Savings.Event>, e: Savings.Event)
    ensures Savings.Calls(events + [e]) == Savings.Calls(events) + (if e.Recorded? then [e.call] else [])
    ensures Savings.After(Savings.NOTHING_SAVED, events + [e]) == Savings.Next(Savings.After(Savings.NOTHING_SAVED, events), e)
  {
    assert (events + [e])[..|events|] == events;
  }

  lemma RestartKeepsTheCount(events: seq<Savings.Event>, live: Savings.Live)
    requires live == Savings.After(Savings.NOTHING_SAVED, events)
    ensures Max(|live.breaks|, live.count) == live.count
    ensures Savings.After(Savings.NOTHING_SAVED, events + [Savings.Restarted]) == live.(order := [])
  {
    Savings.BreaksAreBoundedAndNeverUndercounted(events);
    SavingsGrow(events, Savings.Restarted);
  }

  class SavingFold {
    var blocked: i64
    var cacheSaved: i64
    var routerSaved: i64
    var breaks: set<string>
    var budgetBreaks: u64
    var recency: Recency<string>
    ghost var events: seq<Savings.Event>

    ghost function Live(): Savings.Live
      reads this, recency
    {
      Savings.Live(blocked, cacheSaved, routerSaved, breaks, budgetBreaks, recency.Order())
    }

    ghost predicate Valid()
      reads this, recency
    {
      recency.Consistent() && Live() == Savings.After(Savings.NOTHING_SAVED, events)
    }

    constructor ()
      ensures Valid() && fresh(recency) && events == []
    {
      blocked, cacheSaved, routerSaved, breaks, budgetBreaks, events := 0, 0, 0, {}, 0, [];
      recency := new Recency();
    }

    /** Remember a run that budget protection stopped, forgetting another if the set is full. */
    method Break(run: string, cost: i64) returns (ghost spare: string)
      requires recency.Consistent()
      modifies this`blocked, this`breaks, this`budgetBreaks, recency
      ensures recency.Consistent()
      ensures forall c: Savings.Call :: c.run == run && c.cost == cost ==> Live() == Savings.Broken(old(Live()), c, spare)
    {
      spare := "";
      blocked := SatAddI64(blocked, Clamped(cost));
      if run !in breaks {
        if |breaks| >= Savings.MAX_BREAK_KEYS {
          var evicted := recency.EvictOldest();
          if evicted.Some? {
            breaks := breaks - {evicted.value};
          } else {
            var any :| any in breaks;
            breaks := breaks - {any};
            spare := any;
          }
        }
        breaks := breaks + {run};
        budgetBreaks := SatAdd(budgetBreaks, 1);
      }
      recency.Touch(run);
    }

    method Fold(r: CallRecord)
      requires Valid()
      modifies this, recency
      ensures Valid() && recency == old(recency)
      ensures |events| == |old(events)| + 1 && old(events) <= events
      ensures Savings.Calls(events) == old(Savings.Calls(events)) + [AsCall(r)]
    {
      ghost var spare := "";
      if r.decision.Protection? {
        spare := Break(r.run, r.cost);
      }
      match r.decision {
        case CacheHit => cacheSaved := SatAddI64(cacheSaved, Clamped(r.saved));
        case Allow => routerSaved := SatAddI64(routerSaved, Clamped(r.saved));
        case _ =>
      }
      SavingsGrow(events, Savings.Recorded(AsCall(r), spare));
      events := events + [Savings.Recorded(AsCall(r), spare)];
    }

    /** A restart drops the recency order and backfills the counter from the loaded set. */
    method Reload()
      requires Valid()
      modifies this
      ensures Valid() && fresh(recency) && events == old(events) + [Savings.Restarted]
      ensures budgetBreaks == old(budgetBreaks)
    {
      RestartKeepsTheCount(events, Live());
      recency := new Recency();
      budgetBreaks := Max(|breaks|, budgetBreaks);
      events := events + [Savings.Restarted];
    }
  }

  // ---- the store ----

  /** The histories after a batch: one entry per record, in order. */
  function Ingests(before: seq<Runs.Event>, records: seq<CallRecord>): seq<Runs.Event> {
    if records == [] then before else Ingests(before, records[..|records| - 1]) + [Runs.Ingested(records[|records| - 1])]
  }

  function Stamps(before: seq<Units.Stamped>, records: seq<CallRecord>, month: string): seq<Units.Stamped> {
    if records == [] then before
    else Stamps(before, records[..|records| - 1], month) + [Units.Stamped(records[|records| - 1], month)]
  }

  function AsCalls(before: seq<Savings.Call>, records: seq<CallRecord>): seq<Savings.Call> {
    if records == [] then before else AsCalls(before, records[..|records| - 1]) + [AsCall(records[|records| - 1])]
  }

  /** A batch extends the stamped history by its records in order, all under one month, and
      the run history by one ingest each. */
  lemma {:induction false} BatchesExtend(
    stamps: seq<Units.Stamped>, events: seq<Runs.Event>, records: seq<CallRecord>, month: string)
    ensures var ss := Stamps(stamps, records, month);
            && |ss| == |stamps| + |records| && stamps <= ss
            && forall i :: 0 <= i < |records| ==> ss[|stamps| + i] == Units.Stamped(records[i], month)
    ensures var es := Ingests(events, records);
            && |es| == |events| + |records| && events <= es
            && forall i :: 0 <= i < |records| ==> es[|events| + i] == Runs.Ingested(records[i])
  {
    if records != [] {
      BatchesExtend(stamps, events, records[..|records| - 1], month);
    }
  }

  /** All three histories saw the same records in the same order. */
  ghost predicate Agree(events: seq<Runs.Event>, stamps: seq<Units.Stamped>, calls: seq<Savings.Call>) {
    var records := Runs.Records(events);
    && |stamps| == |calls| == |records|
    && forall i :: 0 <= i < |records| ==> stamps[i].record == records[i] && calls[i] == AsCall(records[i])
  }

  lemma AgreementGrows(
    events: seq<Runs.Event>, stamps: seq<Units.Stamped>, calls: seq<Savings.Call>, r: CallRecord, month: string)
    requires Agree(events, stamps, calls)
    ensures Agree(events + [Runs.Ingested(r)], stamps + [Units.Stamped(r, month)], calls + [AsCall(r)])
    ensures Runs.Records(events + [Runs.Ingested(r)]) == Runs.Records(events) + [r]
  {
    assert (events + [Runs.Ingested(r)])[..|events|] == events;
  }

  lemma {:induction false} BatchesKeepAgreement(
    events: seq<Runs.Event>, stamps: seq<Units.Stamped>, calls: seq<Savings.Call>, records: seq<CallRecord>, month: string)
    requires Agree(events, stamps, calls)
    ensures Agree(Ingests(events, records), Stamps(stamps, records, month), AsCalls(calls, records))
    ensures Runs.Records(Ingests(events, records)) == Runs.Records(events) + records
  {
    if records == [] {
      assert Runs.Records(events) + records == Runs.Records(events);
    } else {
      var before, r := records[..|records| - 1], records[|records| - 1];
      BatchesKeepAgreement(events, stamps, calls, before, month);
      AgreementGrows(Ingests(events, before), Stamps(stamps, before, month), AsCalls(calls, before), r, month);
      assert Runs.Records(events) + before + [r] == Runs.Records(events) + records;
    }
  }

  lemma PrefixGrows(records: seq<CallRecord>, i: nat)
    requires i < |records|
    ensures records[..i + 1] != [] && records[..i + 1][..i] == records[..i]
  {
  }

  // ---- the series against the summary ----

  /** The cost of the records that were not settled; the totals leave it out. */
  function UnsettledCost(records: seq<CallRecord>): nat {
    if records == [] then 0
    else UnsettledCost(records[..|records| - 1])
         + (if records[|records| - 1].decision.Allow? || records[|records| - 1].decision.CacheHit? then 0
            else Max(0, records[|records| - 1].cost))
  }

  ghost predicate Covers(v: Series.View, records: seq<CallRecord>) {
    v.run.None? && forall r :: r in records ==> v.start <= r.ts <= v.now
  }

  lemma SamplesGrow(records: seq<CallRecord>, r: CallRecord)
    ensures AsSamples(records + [r]) == AsSamples(records) + [AsSample(r)]
  {
  }

  lemma {:induction false} WindowOverAll(v: Series.View, records: seq<CallRecord>)
    requires Covers(v, records)
    ensures var t := Series.InWindow(v, AsSamples(records));
            t.calls == |records| && t.cost == Spends(records) + UnsettledCost(records)
  {
    if records != [] {
      var init, r := records[..|records| - 1], records[|records| - 1];
      assert records == init + [r] && r in records;
      WindowOverAll(v, init);
      SamplesGrow(init, r);
      assert AsSamples(records)[..|records| - 1] == AsSamples(init);
    }
  }

  /** A series over every record shows as many calls as the summary, and as much spend
      exactly when no call that was stopped carried a cost, or the spend is at its cap. */
  lemma SeriesAddsUpToTheSummaryIff(v: Series.View, records: seq<CallRecord>, buckets: seq<Series.Bucket>)
    requires Series.WellFormed(v) && Covers(v, records) && Series.IsSeries(buckets, v, AsSamples(records))
    ensures Series.ShownCalls(buckets) == |records|
    ensures Min(I64_MAX, Series.ShownCost(buckets)) == Min(I64_MAX, Spends(records))
            <==> UnsettledCost(records) == 0 || Spends(records) >= I64_MAX
  {
    WindowOverAll(v, records);
    Series.BucketsPartitionTheWindow(v, AsSamples(records));
    Series.ShownAddsUp(v, AsSamples(records), buckets);
  }

  class OrgStore {
    const runs: RunFold
    const units: UnitFold
    const savings: SavingFold
    var samples: seq<Series.Sample>

    ghost predicate Valid()
      reads this, runs, units, savings, runs.recency, savings.recency
    {
      runs.recency != savings.recency && runs.Valid() && units.Valid() && savings.Valid()
    }

    constructor (hot: Runs.AlertTest)
      ensures Valid() && fresh(runs) && fresh(units) && fresh(savings) && fresh(runs.recency) && fresh(savings.recency)
      ensures runs.alertTest == hot && runs.events == [] && units.stamps == [] && savings.events == [] && samples == []
    {
      runs := new RunFold(hot);
      units := new UnitFold();
      savings := new SavingFold();
      samples := [];
    }

    method FoldRecord(r: CallRecord, month: string)
      requires Valid()
      modifies runs, units, savings, runs.recency, savings.recency
      ensures Valid() && runs.recency == old(runs.recency) && savings.recency == old(savings.recency)
      ensures runs.events == old(runs.events) + [Runs.Ingested(r)]
      ensures units.stamps == old(units.stamps) + [Units.Stamped(r, month)]
      ensures Savings.Calls(savings.events) == old(Savings.Calls(savings.events)) + [AsCall(r)]
    {
      runs.Fold(r);
      units.Fold(r, month);
      savings.Fold(r);
    }

    method FoldRecords(records: seq<CallRecord>, month: string)
      requires Valid()
      modifies runs, units, savings, runs.recency, savings.recency
      ensures Valid() && runs.recency == old(runs.recency) && savings.recency == old(savings.recency)
      ensures runs.events == Ingests(old(runs.events), records)
      ensures units.stamps == Stamps(old(units.stamps), records, month)
      ensures Savings.Calls(savings.events) == AsCalls(old(Savings.Calls(savings.events)), records)
    {
      for i := 0 to |records|
        invariant Valid() && runs.recency == old(runs.recency) && savings.recency == old(savings.recency)
        invariant runs.events == Ingests(old(runs.events), records[..i])
        invariant units.stamps == Stamps(old(units.stamps), records[..i], month)
        invariant Savings.Calls(savings.events) == AsCalls(old(Savings.Calls(savings.events)), records[..i])
      {
        PrefixGrows(records, i);
        FoldRecord(records[i], month);
      }
      assert records[..|records|] == records;
    }

    /** `ingest_at`: the batch is folded record by record into every accumulator, all stamped
        with the month of the plane's clock, and appended to the capped sample log. */
    method IngestAt(records: seq<CallRecord>, now: int)
      requires Valid()
      modifies this, runs, units, savings, runs.recency, savings.recency
      ensures Valid() && runs.recency == old(runs.recency) && savings.recency == old(savings.recency)
      ensures runs.events == Ingests(old(runs.events), records)
      ensures units.stamps == Stamps(old(units.stamps), records, MonthKey.KeyOf(now))
      ensures Savings.Calls(savings.events) == AsCalls(old(Savings.Calls(savings.events)), records)
      ensures samples == Kept(old(samples) + AsSamples(records))
      ensures |samples| == Min(|old(samples)| + |records|, 100_000)
      ensures samples == (old(samples) + AsSamples(records))[|old(samples)| + |records| - |samples|..]
    {
      FoldRecords(records, MonthKey.KeyOf(now));
      Append(records);
    }

    method Append(records: seq<CallRecord>)
      modifies this`samples
      ensures samples == Kept(old(samples) + AsSamples(records))
    {
      for i := 0 to |records|
        invariant samples == old(samples) + AsSamples(records[..i])
      {
        samples := samples + [AsSample(records[i])];
        assert AsSamples(records[..i + 1]) == AsSamples(records[..i]) + [AsSample(records[i])];
      }
      assert records[..|records|] == records;
      ghost var all := samples;
      while |samples| > SERIES_CAP
        invariant |samples| <= |all| && samples == all[|all| - |samples|..]
        invariant |samples| >= Min(|all|, SERIES_CAP)
        decreases |samples|
      {
        samples := samples[1..];
      }
    }
  }
}
