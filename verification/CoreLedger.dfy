/** The in-process reserve/settle ledger in signed microdollars
    (`crates/core/src/ledger.rs`). Its plain additions wrap; its subtraction clamps
    at zero. */
module CoreLedger {
  import opened Basics
  import opened ReplicatedLedger

  datatype CoreRun = CoreRun(budget: i64, reserved: i64, spent: i64, steps: u32, parent: Option<RunId>)

  type CoreRuns = map<RunId, CoreRun>

  datatype BudgetError =
    | Unknown(run: RunId)
    | Exceeded(run: RunId, budget: i64, spent: i64, would: i64)

  datatype Reservation = Reservation(run: RunId, amount: i64, step: u32)

  datatype Reply = Granted(reservation: Reservation) | Refused(error: BudgetError)

  function AddMicros(a: i64, b: i64): i64 {
    WrapI64(a + b)
  }

  function ReleaseMicros(a: i64, b: i64): i64 {
    Min(Max(a - b, 0), I64_MAX)
  }

  /** The parent links alone: all that the ancestor walk reads. */
  function Links(runs: CoreRuns): Runs {
    map id | id in runs :: DEFAULT_RUN.(parent := runs[id].parent)
  }

  function CoreChain(runs: CoreRuns, run: RunId): seq<RunId> {
    Chain(Links(runs), run)
  }

  function Would(s: CoreRun, estimate: i64): i64 {
    AddMicros(AddMicros(s.spent, s.reserved), estimate)
  }

  /** The first level, leaf upwards, whose budget the estimate would exceed. */
  function FirstExceeded(runs: CoreRuns, ids: seq<RunId>, estimate: i64): Option<RunId>
    requires forall id :: id in ids ==> id in runs
  {
    if ids == [] then None
    else if Would(runs[ids[0]], estimate) > runs[ids[0]].budget then Some(ids[0])
    else FirstExceeded(runs, ids[1..], estimate)
  }

  function CoreRaised(runs: CoreRuns, ids: seq<RunId>, estimate: i64): CoreRuns {
    map id | id in runs ::
      if id in ids then runs[id].(reserved := AddMicros(runs[id].reserved, estimate)) else runs[id]
  }

  function CoreCharged(runs: CoreRuns, ids: seq<RunId>, amount: i64, actual: i64): CoreRuns {
    map id | id in runs ::
      if id in ids
      then runs[id].(reserved := ReleaseMicros(runs[id].reserved, amount), spent := AddMicros(runs[id].spent, actual))
      else runs[id]
  }

  function CoreOpen(runs: CoreRuns, run: RunId, budget: i64, parent: Option<RunId>): CoreRuns {
    if run in runs then runs[run := runs[run].(budget := budget)]
    else runs[run := CoreRun(budget, 0, 0, 0, parent)]
  }

  function CoreClosed(runs: CoreRuns, run: RunId): CoreRuns {
    runs - {run}
  }

  /** A closed run is on nobody's chain any more: its descendants stop rolling up there. */
  lemma ClosedRunIsOffEveryChain(runs: CoreRuns, run: RunId, id: RunId)
    ensures run !in CoreChain(CoreClosed(runs, run), id)
    ensures CoreReserve(CoreClosed(runs, run), run, 0).1 == Refused(Unknown(run))
  {
    CoreChainMembers(CoreClosed(runs, run), id);
  }

  lemma CoreChainMembers(runs: CoreRuns, run: RunId)
    ensures forall id :: id in CoreChain(runs, run) ==> id in runs
    ensures Distinct(CoreChain(runs, run))
    ensures run in runs ==> run in CoreChain(runs, run)
  {
    ChainMembers(Links(runs), run);
  }

  /** Reserve on every level and count one step on the leaf. */
  function Take(runs: CoreRuns, run: RunId, estimate: i64): (CoreRuns, Reply)
    requires run in runs
  {
    var raised := CoreRaised(runs, CoreChain(runs, run), estimate);
    var leaf := raised[run].(steps := IncU32(raised[run].steps));
    (raised[run := leaf], Granted(Reservation(run, estimate, leaf.steps)))
  }

  function CoreReserve(runs: CoreRuns, run: RunId, estimate: i64): (CoreRuns, Reply) {
    if run !in runs then (runs, Refused(Unknown(run)))
    else
      CoreChainMembers(runs, run);
      var blocked := FirstExceeded(runs, CoreChain(runs, run), estimate);
      if blocked.Some? && blocked.value in runs then
        var s := runs[blocked.value];
        (runs, Refused(Exceeded(blocked.value, s.budget, s.spent, Would(s, estimate))))
      else Take(runs, run, estimate)
  }

  function CoreReserveUnchecked(runs: CoreRuns, run: RunId, estimate: i64): (CoreRuns, Reply) {
    Take(if run in runs then runs else runs[run := CoreRun(0, 0, 0, 0, None)], run, estimate)
  }

  function CoreSettle(runs: CoreRuns, reservation: Reservation, actual: i64): CoreRuns {
    CoreCharged(runs, CoreChain(runs, reservation.run), reservation.amount, actual)
  }

  // ----- What the operations change, run by run ---------------------------------

  /** `after` is `before` with `estimate` more reserved along the chain of `run` and one
      step more counted on `run`. */
  ghost predicate Reserved(after: CoreRuns, before: CoreRuns, run: RunId, estimate: i64) {
    && after.Keys == before.Keys
    && forall id :: id in before ==>
         && after[id].reserved == (if id in CoreChain(before, run) then WrapI64(before[id].reserved + estimate)
                                   else before[id].reserved)
         && after[id].steps == (if id == run then (before[id].steps + 1) % 0x1_0000_0000 else before[id].steps)
         && after[id].spent == before[id].spent && after[id].budget == before[id].budget
         && after[id].parent == before[id].parent
  }

  /** What level `s` would commit to, in the wrapping arithmetic of the build. */
  function Commitment(s: CoreRun, estimate: i64): i64 {
    WrapI64(WrapI64(s.spent + s.reserved) + estimate)
  }

  ghost predicate ExceededAt(runs: CoreRuns, ids: seq<RunId>, estimate: i64, k: nat) {
    && k < |ids| && ids[k] in runs && Commitment(runs[ids[k]], estimate) > runs[ids[k]].budget
    && forall j :: 0 <= j < k ==> ids[j] in runs && Commitment(runs[ids[j]], estimate) <= runs[ids[j]].budget
  }

  lemma {:induction false} FirstExceededIsFirst(runs: CoreRuns, ids: seq<RunId>, estimate: i64)
    requires forall id :: id in ids ==> id in runs
    ensures var r := FirstExceeded(runs, ids, estimate);
            && (r.Some? ==> exists k: nat :: ExceededAt(runs, ids, estimate, k) && ids[k] == r.value)
            && (r.None? ==> forall id :: id in ids ==> Commitment(runs[id], estimate) <= runs[id].budget)
  {
    if ids != [] {
      if Would(runs[ids[0]], estimate) > runs[ids[0]].budget {
        assert ExceededAt(runs, ids, estimate, 0);
      } else {
        FirstExceededIsFirst(runs, ids[1..], estimate);
        var r := FirstExceeded(runs, ids[1..], estimate);
        if r.Some? {
          var k: nat :| ExceededAt(runs, ids[1..], estimate, k) && ids[1..][k] == r.value;
          assert forall j :: 0 < j <= k ==> ids[j] == ids[1..][j - 1];
          assert ExceededAt(runs, ids, estimate, k + 1) && ids[k + 1] == r.value;
        }
      }
    }
  }

  ghost predicate CoreRefusedAt(runs: CoreRuns, ids: seq<RunId>, estimate: i64, error: BudgetError, k: nat) {
    && ExceededAt(runs, ids, estimate, k)
    && var s := runs[ids[k]]; error == Exceeded(ids[k], s.budget, s.spent, Commitment(s, estimate))
  }

  /** Taking reserves along the chain and counts the step that the reply names. */
  lemma TakeReserves(runs: CoreRuns, run: RunId, estimate: i64)
    requires run in runs
    ensures Reserved(Take(runs, run, estimate).0, runs, run, estimate)
    ensures Take(runs, run, estimate).1 == Granted(Reservation(run, estimate, (runs[run].steps + 1) % 0x1_0000_0000))
  {
  }

  /** A known run is refused exactly when some level of its chain would go over its budget;
      the reply then names the lowest such level and nothing changes. */
  lemma CoreRefusalNamesTheLowestLevel(runs: CoreRuns, run: RunId, estimate: i64)
    requires run in runs
    ensures var (after, reply) := CoreReserve(runs, run, estimate);
            if reply.Granted? then (after, reply) == Take(runs, run, estimate) && AllWithin(runs, CoreChain(runs, run), estimate)
            else after == runs && exists k: nat :: CoreRefusedAt(runs, CoreChain(runs, run), estimate, reply.error, k)
  {
    var ids := CoreChain(runs, run);
    CoreChainMembers(runs, run);
    FirstExceededIsFirst(runs, ids, estimate);
    var blocked := FirstExceeded(runs, ids, estimate);
    if blocked.Some? {
      var k: nat :| ExceededAt(runs, ids, estimate, k) && ids[k] == blocked.value;
      assert CoreRefusedAt(runs, ids, estimate, CoreReserve(runs, run, estimate).1.error, k);
    }
  }

  ghost predicate AllWithin(runs: CoreRuns, ids: seq<RunId>, estimate: i64) {
    forall id :: id in ids ==> id in runs && Commitment(runs[id], estimate) <= runs[id].budget
  }

  /** A reserve is refused for an unknown run, or at the lowest level it would take over
      its budget, and then changes nothing; otherwise it is granted in full. */
  lemma CoreReserveIsAllOrNothing(runs: CoreRuns, run: RunId, estimate: i64)
    ensures var (after, reply) := CoreReserve(runs, run, estimate);
            && (run !in runs ==> after == runs && reply == Refused(Unknown(run)))
            && (run in runs && reply.Granted? ==>
                  && reply.reservation == Reservation(run, estimate, (runs[run].steps + 1) % 0x1_0000_0000)
                  && Reserved(after, runs, run, estimate) && AllWithin(runs, CoreChain(runs, run), estimate))
            && (run in runs && reply.Refused? ==>
                  && after == runs
                  && exists k: nat :: CoreRefusedAt(runs, CoreChain(runs, run), estimate, reply.error, k))
  {
    if run in runs {
      CoreRefusalNamesTheLowestLevel(runs, run, estimate);
      TakeReserves(runs, run, estimate);
    }
  }

  /** Without the check every reserve is granted; an unknown run starts with nothing. */
  lemma UncheckedAlwaysGrants(runs: CoreRuns, run: RunId, estimate: i64)
    ensures var (after, reply) := CoreReserveUnchecked(runs, run, estimate);
            var start := if run in runs then runs else runs[run := CoreRun(0, 0, 0, 0, None)];
            && reply == Granted(Reservation(run, estimate, (start[run].steps + 1) % 0x1_0000_0000))
            && Reserved(after, start, run, estimate)
  {
    TakeReserves(if run in runs then runs else runs[run := CoreRun(0, 0, 0, 0, None)], run, estimate);
  }

  /** A settle releases and charges every level of the chain, and nothing else. */
  lemma CoreSettleChargesTheChain(runs: CoreRuns, reservation: Reservation, actual: i64)
    ensures var after := CoreSettle(runs, reservation, actual);
            && after.Keys == runs.Keys
            && forall id :: id in runs ==>
                 if id in CoreChain(runs, reservation.run)
                 then after[id] == runs[id].(reserved := Min(I64_MAX, Max(0, runs[id].reserved - reservation.amount)),
                                             spent := WrapI64(runs[id].spent + actual))
                 else after[id] == runs[id]
  {
  }

  /** Opening and closing touch one run. */
  lemma OpenAndCloseTouchOneRun(runs: CoreRuns, run: RunId, budget: i64, parent: Option<RunId>)
    ensures var after := CoreOpen(runs, run, budget, parent);
            && after.Keys == runs.Keys + {run}
            && (forall id :: id in runs && id != run ==> after[id] == runs[id])
            && after[run] == if run in runs then runs[run].(budget := budget) else CoreRun(budget, 0, 0, 0, parent)
    ensures var after := CoreClosed(runs, run);
            && after.Keys == runs.Keys - {run} && forall id :: id in after ==> after[id] == runs[id]
  {
  }

  class Ledger {
    var runs: CoreRuns

    constructor ()
      ensures runs == map[]
    {
      runs := map[];
    }

    method OpenRun(run: RunId, budget: i64, parent: Option<RunId>)
      modifies this
      ensures runs == CoreOpen(old(runs), run, budget, parent)
    {
      if run in runs {
        runs := runs[run := runs[run].(budget := budget)];
      } else {
        runs := runs[run := CoreRun(budget, 0, 0, 0, parent)];
      }
    }

    method ChainOf(run: RunId) returns (ids: seq<RunId>)
      ensures ids == CoreChain(runs, run)
    {
      ids := [];
      var cur := Some(run);
      ghost var links := Links(runs);
      while cur.Some?
        invariant |ids| <= MAX_CHAIN_DEPTH
        invariant ChainFrom(links, cur, ids) == Chain(links, run)
        decreases MAX_CHAIN_DEPTH - |ids|, if cur.Some? then 1 else 0
      {
        var id := cur.value;
        if id in ids || |ids| >= MAX_CHAIN_DEPTH {
          break;
        }
        if id !in runs {
          break;
        }
        cur := runs[id].parent;
        ids := ids + [id];
      }
    }

    method FirstOver(ids: seq<RunId>, estimate: i64) returns (blocked: Option<RunId>)
      requires forall id :: id in ids ==> id in runs
      ensures blocked == FirstExceeded(runs, ids, estimate)
      ensures blocked.Some? ==> blocked.value in runs
    {
      for i := 0 to |ids|
        invariant FirstExceeded(runs, ids, estimate) == FirstExceeded(runs, ids[i..], estimate)
      {
        assert ids[i..][1..] == ids[i + 1..];
        if Would(runs[ids[i]], estimate) > runs[ids[i]].budget {
          return Some(ids[i]);
        }
      }
      return None;
    }

    method Raise(run: RunId, estimate: i64) returns (reply: Reply)
      requires run in runs
      modifies this
      ensures (runs, reply) == Take(old(runs), run, estimate)
    {
      var ids := ChainOf(run);
      CoreChainMembers(runs, run);
      for i := 0 to |ids|
        invariant runs == CoreRaised(old(runs), ids[..i], estimate)
      {
        assert ids[i] !in ids[..i];
        runs := runs[ids[i] := runs[ids[i]].(reserved := AddMicros(runs[ids[i]].reserved, estimate))];
        assert ids[..i + 1] == ids[..i] + [ids[i]];
      }
      assert ids[..|ids|] == ids;
      runs := runs[run := runs[run].(steps := IncU32(runs[run].steps))];
      reply := Granted(Reservation(run, estimate, runs[run].steps));
    }

    method Reserve(run: RunId, estimate: i64) returns (reply: Reply)
      modifies this
      ensures (runs, reply) == CoreReserve(old(runs), run, estimate)
    {
      if run !in runs {
        return Refused(Unknown(run));
      }
      var ids := ChainOf(run);
      CoreChainMembers(runs, run);
      var blocked := FirstOver(ids, estimate);
      if blocked.Some? {
        var s := runs[blocked.value];
        return Refused(Exceeded(blocked.value, s.budget, s.spent, Would(s, estimate)));
      }
      reply := Raise(run, estimate);
    }

    method ReserveUnchecked(run: RunId, estimate: i64) returns (reply: Reply)
      modifies this
      ensures (runs, reply) == CoreReserveUnchecked(old(runs), run, estimate)
    {
      if run !in runs {
        runs := runs[run := CoreRun(0, 0, 0, 0, None)];
      }
      reply := Raise(run, estimate);
    }

    method Settle(reservation: Reservation, actual: i64)
      modifies this
      ensures runs == CoreSettle(old(runs), reservation, actual)
    {
      var ids := ChainOf(reservation.run);
      CoreChainMembers(runs, reservation.run);
      for i := 0 to |ids|
        invariant runs == CoreCharged(old(runs), ids[..i], reservation.amount, actual)
      {
        assert ids[i] !in ids[..i];
        if ids[i] in runs {
          var s := runs[ids[i]];
          runs := runs[ids[i] := s.(reserved := ReleaseMicros(s.reserved, reservation.amount),
                                    spent := AddMicros(s.spent, actual))];
        }
        assert ids[..i + 1] == ids[..i] + [ids[i]];
      }
      assert ids[..|ids|] == ids;
    }

    /** Remove a run and return what it last held. */
    method CloseRun(run: RunId) returns (last: Option<CoreRun>)
      modifies this
      ensures runs == CoreClosed(old(runs), run)
      ensures last == if run in old(runs) then Some(old(runs)[run]) else None
    {
      last := if run in runs then Some(runs[run]) else None;
      runs := runs - {run};
    }
  }
}
