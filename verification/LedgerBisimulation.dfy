/** When the replicated ledger mirrors the in-process one step for step: amounts are the
    same non-negative `i64` values on both sides, and no sum either of them takes passes
    2^63 where it matters. */
module LedgerBisimulation {
  import opened Basics
  import opened ReplicatedLedger
  import opened CoreLedger

  ghost predicate SameRun(c: CoreRun, s: RunState) {
    && c.budget == s.budget && c.reserved == s.reserved && c.spent == s.spent
    && c.steps == s.steps && c.parent == s.parent
  }

  ghost predicate Matches(core: CoreRuns, runs: Runs) {
    && core.Keys == runs.Keys
    && forall id :: id in runs ==> SameRun(core[id], runs[id])
  }

  /** Both ledgers say the same to the caller. */
  ghost predicate SameReply(reply: Reply, response: Response) {
    match reply
    case Granted(reservation) => response.accepted && response.step == reservation.step
    case Refused(Unknown(run)) =>
      !response.accepted && response.blockedRun == Some(run) && response.reason == UnknownRun(run)
    case Refused(Exceeded(run, budget, spent, would)) =>
      && !response.accepted && response.blockedRun == Some(run)
      && response.spent == spent && response.budget == budget
      && 0 <= would && response.reason == BudgetExceeded(run, would, budget)
  }

  /** The amounts of the request exist as `i64` values. */
  predicate Fits63(req: Request) {
    match req
    case Open(_, budget, _) => budget <= I64_MAX
    case Reserve(_, micros) => micros <= I64_MAX
    case Settle(_, released, actual) => released <= I64_MAX && actual <= I64_MAX
  }

  function CoreApplied(core: CoreRuns, req: Request): (CoreRuns, Option<Reply>)
    requires Fits63(req)
  {
    match req
    case Open(run, budget, parent) => (CoreOpen(core, run, budget, parent), None)
    case Reserve(run, micros) => var out := CoreReserve(core, run, micros); (out.0, Some(out.1))
    case Settle(run, released, actual) => (CoreSettle(core, Reservation(run, released, 0), actual), None)
  }

  function CoreAppliedAll(reqs: seq<Request>): CoreRuns
    requires forall r :: r in reqs ==> Fits63(r)
  {
    if reqs == [] then map[]
    else CoreApplied(CoreAppliedAll(reqs[..|reqs| - 1]), reqs[|reqs| - 1]).0
  }

  /** All the money a request can add to a run. */
  function Inflow(req: Request): nat {
    match req
    case Open(_, _, _) => 0
    case Reserve(_, micros) => micros
    case Settle(_, _, actual) => actual
  }

  function TotalInflow(reqs: seq<Request>): nat {
    if reqs == [] then 0 else TotalInflow(reqs[..|reqs| - 1]) + Inflow(reqs[|reqs| - 1])
  }

  ghost predicate Below(runs: Runs, bound: int) {
    forall id :: id in runs ==> runs[id].spent + runs[id].reserved <= bound
  }

  // ----- The guard ---------------------------------------------------------

  /** What the level would stand at with `micros` more held. */
  function Standing(s: RunState, micros: u64): nat {
    s.spent + s.reserved + micros
  }

  /** The first level that lacks room, if there is one, is not past 2^63 either. */
  predicate ReserveWithin(runs: Runs, run: RunId, micros: u64) {
    ChainMembers(runs, run);
    var blocked := FirstBlocked(runs, Chain(runs, run), micros);
    blocked.Some? && blocked.value in runs ==> Standing(runs[blocked.value], micros) <= I64_MAX
  }

  /** No level's spend passes 2^63. */
  ghost predicate SettleWithin(runs: Runs, run: RunId, actual: u64) {
    forall id :: id in Chain(runs, run) && id in runs ==> runs[id].spent + actual <= I64_MAX
  }

  /** What a caller can check, in the state the request meets. */
  ghost predicate Within(runs: Runs, req: Request) {
    match req
    case Open(_, _, _) => true
    case Reserve(run, micros) => ReserveWithin(runs, run, micros)
    case Settle(run, _, actual) => SettleWithin(runs, run, actual)
  }

  /** After the request both ledgers hold the same numbers, and a reserve was answered
      alike. */
  ghost predicate StaysInStep(core: CoreRuns, runs: Runs, req: Request)
    requires Fits63(req)
  {
    && Matches(CoreApplied(core, req).0, Applied(runs, req).runs)
    && (req.Reserve? ==> SameReply(CoreReserve(core, req.run, req.micros).1, Applied(runs, req).response))
  }

  // ----- One request -------------------------------------------------------

  lemma SameChain(core: CoreRuns, runs: Runs, run: RunId)
    requires Matches(core, runs)
    ensures CoreChain(core, run) == Chain(runs, run)
  {
    forall id | id in runs
      ensures Links(core)[id].parent == runs[id].parent
    {
      assert SameRun(core[id], runs[id]);
    }
    ChainReadsOnlyParents(Links(core), runs, Some(run), []);
  }

  lemma {:induction false} SameFirstBlocked(core: CoreRuns, runs: Runs, ids: seq<RunId>, micros: u64)
    requires Matches(core, runs) && micros <= I64_MAX
    requires forall id :: id in ids ==> id in runs
    ensures var blocked := FirstBlocked(runs, ids, micros);
            blocked.None? || Standing(runs[blocked.value], micros) <= I64_MAX ==>
              FirstExceeded(core, ids, micros) == blocked
  {
    if ids != [] {
      var s := runs[ids[0]];
      assert SameRun(core[ids[0]], s);
      assert Fits(s, micros) <==> Standing(s, micros) <= s.budget;
      SameFirstBlocked(core, runs, ids[1..], micros);
    }
  }

  lemma SameTake(core: CoreRuns, runs: Runs, run: RunId, micros: u64)
    requires Matches(core, runs) && micros <= I64_MAX && run in runs
    requires forall id :: id in Chain(runs, run) && id in runs ==> Fits(runs[id], micros)
    ensures var c := Take(core, run, micros);
            var after := BumpStep(Raised(runs, Chain(runs, run), micros), run);
            Matches(c.0, after) && c.1.Granted? && c.1.reservation.step == after[run].steps
  {
    SameChain(core, runs, run);
    var ids := Chain(runs, run);
    var raised, core' := Raised(runs, ids, micros), CoreRaised(core, ids, micros);
    forall id | id in raised
      ensures SameRun(core'[id], raised[id])
    {
      assert SameRun(core[id], runs[id]);
      assert id in ids ==> Fits(runs[id], micros);
    }
    assert SameRun(core'[run], raised[run]);
  }

  lemma {:induction false} SameRefusal(core: CoreRuns, runs: Runs, run: RunId, micros: u64, level: RunId)
    requires Matches(core, runs) && micros <= I64_MAX && run in runs
    requires forall id :: id in Chain(runs, run) ==> id in runs
    requires FirstBlocked(runs, Chain(runs, run), micros) == Some(level) && level in runs
    requires Standing(runs[level], micros) <= I64_MAX
    ensures StaysInStep(core, runs, Reserve(run, micros))
  {
    SameChain(core, runs, run);
    SameFirstBlocked(core, runs, Chain(runs, run), micros);
    assert SameRun(core[level], runs[level]);
  }

  lemma ReserveStaysInStep(core: CoreRuns, runs: Runs, run: RunId, micros: u64)
    requires Matches(core, runs) && micros <= I64_MAX && ReserveWithin(runs, run, micros)
    ensures StaysInStep(core, runs, Reserve(run, micros))
  {
    if run in runs {
      ChainMembers(runs, run);
      var blocked := FirstBlocked(runs, Chain(runs, run), micros);
      if blocked.Some? {
        SameRefusal(core, runs, run, micros, blocked.value);
      } else {
        SameChain(core, runs, run);
        SameFirstBlocked(core, runs, Chain(runs, run), micros);
        SameTake(core, runs, run, micros);
      }
    }
  }

  /** A level past 2^63 is refused here with a need no `i64` can name. */
  lemma ReserveFallsOutOfStep(core: CoreRuns, runs: Runs, run: RunId, micros: u64)
    requires Matches(core, runs) && micros <= I64_MAX && !ReserveWithin(runs, run, micros)
    ensures !StaysInStep(core, runs, Reserve(run, micros))
  {
    ChainMembers(runs, run);
    var blocked := FirstBlocked(runs, Chain(runs, run), micros);
    var response := ReserveRun(runs, run, micros).response;
    assert run in runs;
    assert response.reason.need == SatAdd(runs[blocked.value].Committed(), micros) > I64_MAX;
  }

  /** For a reserve the two ledgers agree exactly when the first level that lacks room is
      not past 2^63. */
  lemma SameReserveIff(core: CoreRuns, runs: Runs, run: RunId, micros: u64)
    requires Matches(core, runs) && micros <= I64_MAX
    ensures StaysInStep(core, runs, Reserve(run, micros)) <==> ReserveWithin(runs, run, micros)
  {
    if ReserveWithin(runs, run, micros) {
      ReserveStaysInStep(core, runs, run, micros);
    } else {
      ReserveFallsOutOfStep(core, runs, run, micros);
    }
  }

  /** For a settle, exactly when no level's spend passes 2^63. */
  lemma SameSettleIff(core: CoreRuns, runs: Runs, run: RunId, released: u64, actual: u64)
    requires Matches(core, runs) && released <= I64_MAX && actual <= I64_MAX
    ensures StaysInStep(core, runs, Settle(run, released, actual)) <==> SettleWithin(runs, run, actual)
  {
    SameChain(core, runs, run);
    var ids := Chain(runs, run);
    var after, core' := Charged(runs, ids, released, actual), CoreCharged(core, ids, released, actual);
    forall id | id in after
      ensures SameRun(core'[id], after[id]) <==> (id in ids ==> runs[id].spent + actual <= I64_MAX)
    {
      assert SameRun(core[id], runs[id]);
    }
  }

  lemma SameOpen(core: CoreRuns, runs: Runs, run: RunId, budget: u64, parent: Option<RunId>)
    requires Matches(core, runs) && budget <= I64_MAX
    ensures Matches(CoreOpen(core, run, budget, parent), OpenRun(runs, run, budget, parent).runs)
  {
    var after, core' := OpenRun(runs, run, budget, parent).runs, CoreOpen(core, run, budget, parent);
    forall id | id in after
      ensures SameRun(core'[id], after[id])
    {
      assert id in runs ==> SameRun(core[id], runs[id]);
    }
  }

  lemma SameStepIff(core: CoreRuns, runs: Runs, req: Request)
    requires Matches(core, runs) && Fits63(req)
    ensures StaysInStep(core, runs, req) <==> Within(runs, req)
  {
    match req
    case Open(run, budget, parent) => SameOpen(core, runs, run, budget, parent);
    case Reserve(run, micros) => SameReserveIff(core, runs, run, micros);
    case Settle(run, released, actual) => SameSettleIff(core, runs, run, released, actual);
  }

  // ----- Whole logs --------------------------------------------------------

  /** The `n`-th request met the guard in the state it was applied to. */
  ghost predicate WithinAt(reqs: seq<Request>, n: nat)
    requires n < |reqs|
  {
    Within(AppliedAll(map[], reqs[..n]), reqs[n])
  }

  ghost predicate InStepAt(reqs: seq<Request>, n: nat)
    requires n < |reqs| && forall r :: r in reqs ==> Fits63(r)
  {
    StaysInStep(CoreAppliedAll(reqs[..n]), AppliedAll(map[], reqs[..n]), reqs[n])
  }

  lemma {:induction false} MatchesAfter(reqs: seq<Request>, n: nat)
    requires forall r :: r in reqs ==> Fits63(r)
    requires n <= |reqs| && forall k :: 0 <= k < n ==> WithinAt(reqs, k)
    ensures Matches(CoreAppliedAll(reqs[..n]), AppliedAll(map[], reqs[..n]))
  {
    if n > 0 {
      MatchesAfter(reqs, n - 1);
      var init := reqs[..n - 1];
      assert reqs[..n] == init + [reqs[n - 1]];
      assert reqs[..n][..n - 1] == init;
      assert WithinAt(reqs, n - 1);
      SameStepIff(CoreAppliedAll(init), AppliedAll(map[], init), reqs[n - 1]);
    }
  }

  lemma {:induction false} InStepUntil(reqs: seq<Request>, n: nat)
    requires forall r :: r in reqs ==> Fits63(r)
    requires n <= |reqs| && forall k :: 0 <= k < n ==> InStepAt(reqs, k)
    ensures forall k :: 0 <= k < n ==> WithinAt(reqs, k)
  {
    if n > 0 {
      InStepUntil(reqs, n - 1);
      MatchesAfter(reqs, n - 1);
      assert InStepAt(reqs, n - 1);
      SameStepIff(CoreAppliedAll(reqs[..n - 1]), AppliedAll(map[], reqs[..n - 1]), reqs[n - 1]);
    }
  }

  /** Over any log the two ledgers hold the same numbers after every request, and answer
      every reserve alike, exactly when every request meets the guard in its own state. */
  lemma LedgersMirrorIff(reqs: seq<Request>)
    requires forall r :: r in reqs ==> Fits63(r)
    ensures (forall n :: 0 <= n < |reqs| ==> InStepAt(reqs, n)) <==> (forall n :: 0 <= n < |reqs| ==> WithinAt(reqs, n))
  {
    if forall n :: 0 <= n < |reqs| ==> InStepAt(reqs, n) {
      InStepUntil(reqs, |reqs|);
    }
    if forall n :: 0 <= n < |reqs| ==> WithinAt(reqs, n) {
      forall n | 0 <= n < |reqs|
        ensures InStepAt(reqs, n)
      {
        MatchesAfter(reqs, n);
        assert WithinAt(reqs, n);
        SameStepIff(CoreAppliedAll(reqs[..n]), AppliedAll(map[], reqs[..n]), reqs[n]);
      }
    }
  }

  /** Where every request met the guard, the two ledgers end with the same numbers. */
  lemma LedgersAgree(reqs: seq<Request>)
    requires forall r :: r in reqs ==> Fits63(r)
    requires forall n :: 0 <= n < |reqs| ==> WithinAt(reqs, n)
    ensures Matches(CoreAppliedAll(reqs), AppliedAll(map[], reqs))
  {
    MatchesAfter(reqs, |reqs|);
    assert reqs[..|reqs|] == reqs;
  }

  /** While every earlier request met the guard, a request keeps the ledgers in step
      exactly when it meets it too: the first breach is the first difference. */
  lemma FirstBreachIsSeen(reqs: seq<Request>, i: nat)
    requires forall r :: r in reqs ==> Fits63(r)
    requires i < |reqs| && forall n :: 0 <= n < i ==> WithinAt(reqs, n)
    ensures Matches(CoreAppliedAll(reqs[..i]), AppliedAll(map[], reqs[..i]))
    ensures InStepAt(reqs, i) <==> WithinAt(reqs, i)
  {
    MatchesAfter(reqs, i);
    SameStepIff(CoreAppliedAll(reqs[..i]), AppliedAll(map[], reqs[..i]), reqs[i]);
  }

  /** And they answer every reserve alike: same verdict, same first blocked level, same
      step number. */
  lemma RepliesAgree(reqs: seq<Request>, i: nat)
    requires forall r :: r in reqs ==> Fits63(r)
    requires i < |reqs| && reqs[i].Reserve? && Fits63(reqs[i])
    requires forall n :: 0 <= n <= i ==> WithinAt(reqs, n)
    ensures SameReply(CoreReserve(CoreAppliedAll(reqs[..i]), reqs[i].run, reqs[i].micros).1,
                      Applied(AppliedAll(map[], reqs[..i]), reqs[i]).response)
  {
    FirstBreachIsSeen(reqs, i);
  }

  // ----- A bound on the whole log ------------------------------------------

  lemma StepStaysBelow(runs: Runs, req: Request, bound: nat)
    requires Fits63(req) && Below(runs, bound)
    ensures Below(Applied(runs, req).runs, bound + Inflow(req))
  {
  }

  lemma {:induction false} BelowInflow(reqs: seq<Request>)
    requires forall r :: r in reqs ==> Fits63(r)
    ensures Below(AppliedAll(map[], reqs), TotalInflow(reqs))
  {
    if reqs != [] {
      var init, req := reqs[..|reqs| - 1], reqs[|reqs| - 1];
      BelowInflow(init);
      StepStaysBelow(AppliedAll(map[], init), req, TotalInflow(init));
    }
  }

  lemma {:induction false} InflowOfPrefix(reqs: seq<Request>, n: nat)
    requires n <= |reqs|
    ensures TotalInflow(reqs[..n]) <= TotalInflow(reqs)
  {
    if n < |reqs| {
      InflowOfPrefix(reqs[..|reqs| - 1], n);
      assert reqs[..|reqs| - 1][..n] == reqs[..n];
    } else {
      assert reqs[..n] == reqs;
    }
  }

  lemma BelowIsWithin(runs: Runs, req: Request, bound: nat)
    requires Fits63(req) && Below(runs, bound) && bound + Inflow(req) <= I64_MAX
    ensures Within(runs, req)
  {
    ChainMembers(runs, req.run);
  }

  /** A log whose inflow stays below 2^63 in all keeps the two ledgers in step throughout. */
  lemma SmallLogsAgree(reqs: seq<Request>)
    requires forall r :: r in reqs ==> Fits63(r)
    requires TotalInflow(reqs) <= I64_MAX
    ensures forall n :: 0 <= n < |reqs| ==> InStepAt(reqs, n)
    ensures Matches(CoreAppliedAll(reqs), AppliedAll(map[], reqs))
  {
    forall n | 0 <= n < |reqs|
      ensures WithinAt(reqs, n)
    {
      var init, upTo := reqs[..n], reqs[..n + 1];
      assert upTo[..n] == init;
      assert TotalInflow(upTo) == TotalInflow(init) + Inflow(reqs[n]);
      InflowOfPrefix(reqs, n + 1);
      BelowInflow(init);
      BelowIsWithin(AppliedAll(map[], init), reqs[n], TotalInflow(init));
    }
    LedgersMirrorIff(reqs);
    LedgersAgree(reqs);
  }

  // ----- Where they part ---------------------------------------------------

  /** A run that spends its whole budget of 2^63 - 1. */
  function SpendItAll(): seq<Request> {
    [Open("r", I64_MAX, None), Reserve("r", I64_MAX), Settle("r", I64_MAX, I64_MAX)]
  }

  lemma AloneOnItsChain(runs: Runs)
    requires "r" in runs && runs["r"].parent == None
    ensures Chain(runs, "r") == ["r"]
  {
    assert [] + ["r"] == ["r"];
  }

  lemma SpendItAllSteps() returns (ready: Runs, held: Runs)
    ensures ready == map["r" := RunState(I64_MAX, 0, 0, 0, None)]
    ensures held == map["r" := RunState(I64_MAX, I64_MAX, 0, 1, None)]
    ensures AppliedAll(map[], SpendItAll()[..1]) == ready && AppliedAll(map[], SpendItAll()[..2]) == held
    ensures AppliedAll(map[], SpendItAll()) == map["r" := RunState(I64_MAX, 0, I64_MAX, 1, None)]
    ensures Chain(ready, "r") == Chain(held, "r") == ["r"]
  {
    var log := SpendItAll();
    ready := Applied(map[], log[0]).runs;
    AloneOnItsChain(ready);
    assert Fits(ready["r"], I64_MAX);
    assert FirstBlocked(ready, ["r"], I64_MAX) == None;
    held := Applied(ready, log[1]).runs;
    AloneOnItsChain(held);
    assert log[..2][..1] == log[..1] == [log[0]];
    assert AppliedAll(map[], log[..1][..0]) == map[];
  }

  lemma SpendItAllInStep()
    ensures forall r :: r in SpendItAll() ==> Fits63(r)
    ensures forall n :: 0 <= n < |SpendItAll()| ==> WithinAt(SpendItAll(), n)
  {
    var log := SpendItAll();
    var ready, held := SpendItAllSteps();
    assert ReserveWithin(ready, "r", I64_MAX);
    assert WithinAt(log, 0) && WithinAt(log, 1) && WithinAt(log, 2);
  }

  /** After a log that stayed in step throughout, the signed sum wraps and the in-process
      ledger grants what the replicated one refuses. */
  lemma WrappedSumIsGranted()
    ensures var log := SpendItAll();
            && (forall r :: r in log ==> Fits63(r))
            && (forall n :: 0 <= n < |log| ==> WithinAt(log, n))
            && Matches(CoreAppliedAll(log), AppliedAll(map[], log))
            && !ReserveWithin(AppliedAll(map[], log), "r", 1)
            && CoreReserve(CoreAppliedAll(log), "r", 1).1.Granted?
            && !ReserveRun(AppliedAll(map[], log), "r", 1).response.accepted
  {
    var log := SpendItAll();
    SpendItAllInStep();
    LedgersAgree(log);
    var ready, held := SpendItAllSteps();
    var core, runs := CoreAppliedAll(log), AppliedAll(map[], log);
    SameChain(core, runs, "r");
    AloneOnItsChain(runs);
    assert SameRun(core["r"], runs["r"]);
    assert ["r"][1..] == [];
    assert Would(core["r"], 1) == I64_MIN;
    assert FirstExceeded(core, ["r"], 1) == None;
    assert FirstBlocked(runs, ["r"], 1) == Some("r");
  }
}
