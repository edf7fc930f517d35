/** Safety of the replicated ledger over whole runs: reservations are accounted for
    exactly and no budget is ever oversubscribed. */
module LedgerSafety {
  import opened Basics
  import opened ReplicatedLedger

  /** One accepted reservation that has not been settled. */
  datatype Hold = Hold(run: RunId, amount: u64)

  /** The ledger together with the reservations its callers still hold. */
  datatype Books = Books(runs: Runs, holds: seq<Hold>)

  const EMPTY_BOOKS := Books(map[], [])

  function Step(b: Books, req: Request): Books {
    var out := Applied(b.runs, req);
    var holds :=
      match req
      case Open(_, _, _) => b.holds
      case Reserve(run, micros) => if out.response.accepted then b.holds + [Hold(run, micros)] else b.holds
      case Settle(run, released, _) => RemoveFirst(b.holds, Hold(run, released));
    Books(out.runs, holds)
  }

  /** What the callers of the ledger are trusted with: a declared parent is open, no
      open lowers a budget, budgets stay below the largest `u64`, and a settle gives
      back one outstanding reservation without overshooting it. */
  predicate Disciplined(b: Books, req: Request) {
    match req
    case Open(run, budget, parent) =>
      && budget < U64_MAX
      && (if run in b.runs then b.runs[run].budget <= budget
          else parent.Some? ==> parent.value in b.runs)
    case Reserve(_, _) => true
    case Settle(run, released, actual) => Hold(run, released) in b.holds && actual <= released
  }

  function Steps(b: Books, reqs: seq<Request>): Books {
    if reqs == [] then b else Step(Steps(b, reqs[..|reqs| - 1]), reqs[|reqs| - 1])
  }

  ghost predicate DisciplinedRun(reqs: seq<Request>) {
    forall i :: 0 <= i < |reqs| ==> Disciplined(Steps(EMPTY_BOOKS, reqs[..i]), reqs[i])
  }

  // ----- The invariant -----------------------------------------------------

  function Share(runs: Runs, h: Hold, id: RunId): nat {
    if id in Chain(runs, h.run) then h.amount else 0
  }

  /** The outstanding reservations whose chain passes through `id`. */
  function Held(runs: Runs, holds: seq<Hold>, id: RunId): nat {
    if holds == [] then 0 else Share(runs, holds[0], id) + Held(runs, holds[1..], id)
  }

  ghost predicate ParentsOpen(runs: Runs) {
    forall id {:trigger runs[id].parent} :: id in runs && runs[id].parent.Some? ==> runs[id].parent.value in runs
  }

  ghost predicate WithinBudgets(runs: Runs) {
    forall id :: id in runs ==> runs[id].spent + runs[id].reserved <= runs[id].budget
  }

  ghost predicate Safe(b: Books) {
    && ParentsOpen(b.runs)
    && (forall h :: h in b.holds ==> h.run in b.runs)
    && (forall id :: id in b.runs ==> b.runs[id].budget < U64_MAX)
    && (forall id :: id in b.runs ==> b.runs[id].reserved == Held(b.runs, b.holds, id))
    && WithinBudgets(b.runs)
  }

  lemma {:induction false} HeldAppend(runs: Runs, holds: seq<Hold>, h: Hold, id: RunId)
    ensures Held(runs, holds + [h], id) == Held(runs, holds, id) + Share(runs, h, id)
  {
    if holds != [] {
      assert (holds + [h])[1..] == holds[1..] + [h];
      HeldAppend(runs, holds[1..], h, id);
    } else {
      assert holds + [h] == [h];
    }
  }

  lemma {:induction false} HeldRemove(runs: Runs, holds: seq<Hold>, h: Hold, id: RunId)
    requires h in holds
    ensures Held(runs, RemoveFirst(holds, h), id) == Held(runs, holds, id) - Share(runs, h, id)
    ensures forall x :: x in RemoveFirst(holds, h) ==> x in holds
  {
    if holds[0] != h {
      HeldRemove(runs, holds[1..], h, id);
      assert ([holds[0]] + RemoveFirst(holds[1..], h))[1..] == RemoveFirst(holds[1..], h);
    }
  }

  lemma {:induction false} HeldSameChains(a: Runs, b: Runs, holds: seq<Hold>, id: RunId)
    requires forall h :: h in holds ==> Chain(a, h.run) == Chain(b, h.run)
    ensures Held(a, holds, id) == Held(b, holds, id)
  {
    if holds != [] {
      HeldSameChains(a, b, holds[1..], id);
    }
  }

  /** Opening a run nobody has named as a parent leaves every existing walk alone. */
  lemma {:induction false} OpeningKeepsWalks(runs: Runs, run: RunId, s: RunState, cur: Option<RunId>, ids: seq<RunId>)
    requires ParentsOpen(runs) && run !in runs
    requires cur.Some? ==> cur.value in runs
    ensures ChainFrom(runs[run := s], cur, ids) == ChainFrom(runs, cur, ids)
    decreases MAX_CHAIN_DEPTH - |ids|
  {
    if !(cur.None? || cur.value in ids || |ids| >= MAX_CHAIN_DEPTH) {
      OpeningKeepsWalks(runs, run, s, runs[cur.value].parent, ids + [cur.value]);
    }
  }

  lemma OpenIsSafe(b: Books, req: Request)
    requires Safe(b) && req.Open? && Disciplined(b, req)
    ensures Safe(Step(b, req))
  {
    var after := Step(b, req).runs;
    forall id | id in b.runs
      ensures Chain(after, id) == Chain(b.runs, id)
    {
      if req.run in b.runs {
        ChainsUnchanged(b.runs, req, id);
      } else {
        OpeningKeepsWalks(b.runs, req.run, after[req.run], Some(id), []);
      }
    }
    forall id | id in after
      ensures after[id].reserved == Held(after, b.holds, id)
    {
      HeldSameChains(b.runs, after, b.holds, id);
      if id !in b.runs {
        UnknownHoldsNothing(b.runs, b.holds, id);
      }
    }
  }

  lemma {:induction false} UnknownHoldsNothing(runs: Runs, holds: seq<Hold>, id: RunId)
    requires id !in runs
    ensures Held(runs, holds, id) == 0
  {
    if holds != [] {
      ChainMembers(runs, holds[0].run);
      UnknownHoldsNothing(runs, holds[1..], id);
    }
  }

  lemma ReserveIsSafe(b: Books, req: Request)
    requires Safe(b) && req.Reserve?
    ensures Safe(Step(b, req))
  {
    ReserveIsAllOrNothing(b.runs, req.run, req.micros);
    AppliedKeepsParents(b.runs, req);
    if ReserveRun(b.runs, req.run, req.micros).response.accepted {
      forall id | id in b.runs
        ensures ReservedAsHeld(Step(b, req), id)
      {
        GrantedIsHeld(b, req, id);
      }
    }
  }

  /** One run of the books: its reserved amount is accounted for and fits its budget. */
  ghost predicate ReservedAsHeld(b: Books, id: RunId) {
    id in b.runs ==>
      && b.runs[id].reserved == Held(b.runs, b.holds, id)
      && b.runs[id].spent + b.runs[id].reserved <= b.runs[id].budget
  }

  lemma GrantedIsHeld(b: Books, req: Request, id: RunId)
    requires Safe(b) && req.Reserve? && id in b.runs
    requires ReserveRun(b.runs, req.run, req.micros).response.accepted
    ensures ReservedAsHeld(Step(b, req), id)
  {
    var b' := Step(b, req);
    ReserveIsAllOrNothing(b.runs, req.run, req.micros);
    forall h | h in b'.holds {
      ChainsUnchanged(b.runs, req, h.run);
    }
    HeldSameChains(b.runs, b'.runs, b'.holds, id);
    HeldAppend(b.runs, b.holds, Hold(req.run, req.micros), id);
  }

  lemma SettleIsSafe(b: Books, req: Request)
    requires Safe(b) && req.Settle? && Disciplined(b, req)
    ensures Safe(Step(b, req))
  {
    AppliedKeepsParents(b.runs, req);
    var b' := Step(b, req);
    var h := Hold(req.run, req.released);
    forall id | id in b'.runs
      ensures b'.runs[id].reserved == Held(b'.runs, b'.holds, id)
      ensures b'.runs[id].spent + b'.runs[id].reserved <= b'.runs[id].budget
    {
      forall x | x in b'.holds {
        ChainsUnchanged(b.runs, req, x.run);
      }
      HeldSameChains(b.runs, b'.runs, b'.holds, id);
      HeldRemove(b.runs, b.holds, h, id);
    }
    forall x | x in b'.holds
      ensures x.run in b'.runs
    {
      HeldRemove(b.runs, b.holds, h, req.run);
    }
  }

  /** In every state a disciplined caller can reach, each run's reserved amount is the
      sum of the outstanding reservations below it, and settled spend plus live
      reservations fit every budget in the tree. */
  lemma {:induction false} DisciplinedRunsAreSafe(reqs: seq<Request>)
    requires DisciplinedRun(reqs)
    ensures Safe(Steps(EMPTY_BOOKS, reqs))
  {
    if reqs != [] {
      var init := reqs[..|reqs| - 1];
      forall i | 0 <= i < |init|
        ensures Disciplined(Steps(EMPTY_BOOKS, init[..i]), init[i])
      {
        assert init[..i] == reqs[..i];
      }
      DisciplinedRunsAreSafe(init);
      var b := Steps(EMPTY_BOOKS, init);
      var req := reqs[|reqs| - 1];
      match req
      case Open(_, _, _) => OpenIsSafe(b, req);
      case Reserve(_, _) => ReserveIsSafe(b, req);
      case Settle(_, _, _) => SettleIsSafe(b, req);
    }
  }

  /** The books and the log describe the same ledger. */
  lemma {:induction false} BooksFollowTheLog(reqs: seq<Request>)
    ensures Steps(EMPTY_BOOKS, reqs).runs == AppliedAll(map[], reqs)
  {
    if reqs != [] {
      BooksFollowTheLog(reqs[..|reqs| - 1]);
    }
  }

  // ----- Exactly when one request keeps the budgets -------------------------

  /** The run is known and no level of its chain lacks room: the reserve is granted. */
  ghost predicate HasRoom(runs: Runs, run: RunId, micros: u64) {
    run in runs && forall id :: id in Chain(runs, run) && id in runs ==> Fits(runs[id], micros)
  }

  /** The caller's check before a request: a re-opened run still covers what is
      committed, a reserve that has room does not run past the integer range, and a
      settle has the headroom for its overshoot at every level. */
  ghost predicate KeepsHeadroom(runs: Runs, req: Request) {
    match req
    case Open(run, budget, _) => run in runs ==> runs[run].spent + runs[run].reserved <= budget
    case Reserve(run, micros) =>
      HasRoom(runs, run, micros) ==>
        forall id :: id in Chain(runs, run) && id in runs ==>
                       runs[id].spent == 0 || runs[id].spent + runs[id].reserved + micros <= U64_MAX
    case Settle(run, released, actual) =>
      forall id :: id in Chain(runs, run) && id in runs ==>
                     SatAdd(runs[id].spent, actual) - runs[id].spent
                     <= (runs[id].budget - runs[id].spent - runs[id].reserved) + Min(released, runs[id].reserved)
  }

  /** From any state within its budgets, the check decides whether the request keeps
      it there; in particular an accepted reserve is always fine on a budget below
      the largest `u64`. */
  lemma WithinBudgetsIffHeadroom(runs: Runs, req: Request)
    requires WithinBudgets(runs)
    ensures WithinBudgets(Applied(runs, req).runs) <==> KeepsHeadroom(runs, req)
    ensures req.Reserve? && (forall id :: id in runs ==> runs[id].budget < U64_MAX) ==> KeepsHeadroom(runs, req)
  {
    var after := Applied(runs, req).runs;
    ChainMembers(runs, req.run);
    match req
    case Open(run, _, _) =>
      assert run in after;
      assert forall id :: id in runs && id != run ==> id in after && after[id] == runs[id];
    case Reserve(run, micros) =>
      ReserveIsAllOrNothing(runs, run, micros);
      if KeepsHeadroom(runs, req) {
      } else {
        var id :| id in Chain(runs, run) && id in runs && runs[id].spent != 0
                  && runs[id].spent + runs[id].reserved + micros > U64_MAX;
        assert id in after && after[id].spent + after[id].reserved > after[id].budget;
      }
    case Settle(run, released, actual) =>
      forall id | id in Chain(runs, run)
        ensures id in after
        ensures after[id].spent + after[id].reserved
                == runs[id].reserved - Min(released, runs[id].reserved) + SatAdd(runs[id].spent, actual)
      {
      }
  }

  // ----- Exactly when an open keeps the accounts ----------------------------

  ghost predicate Accurate(b: Books) {
    forall id :: id in b.runs ==> b.runs[id].reserved == Held(b.runs, b.holds, id)
  }

  /** The walk from `id` stops only because `missing` has not been opened. */
  predicate WaitsFor(runs: Runs, id: RunId, missing: RunId) {
    var ids := Chain(runs, id);
    0 < |ids| < MAX_CHAIN_DEPTH && ids[|ids| - 1] in runs && runs[ids[|ids| - 1]].parent == Some(missing)
  }

  lemma {:induction false} OpeningExtendsWaitingWalks(runs: Runs, run: RunId, s: RunState, cur: Option<RunId>, ids: seq<RunId>)
    requires run !in runs && run !in ids && ids != [] && |ids| <= MAX_CHAIN_DEPTH
    requires ids[|ids| - 1] in runs && cur == runs[ids[|ids| - 1]].parent
    ensures var before := ChainFrom(runs, cur, ids);
            && |before| > 0 && before[|before| - 1] in runs
            && (if |before| < MAX_CHAIN_DEPTH && runs[before[|before| - 1]].parent == Some(run)
                then run in ChainFrom(runs[run := s], cur, ids)
                else ChainFrom(runs[run := s], cur, ids) == before)
    decreases MAX_CHAIN_DEPTH - |ids|
  {
    if !(cur.None? || cur.value in ids || |ids| >= MAX_CHAIN_DEPTH) {
      if cur.value == run {
        var grown := ChainFrom(runs[run := s], s.parent, ids + [run]);
        ChainGrows(runs[run := s], s.parent, ids + [run]);
        assert grown[|ids|] == run;
      } else if cur.value in runs {
        OpeningExtendsWaitingWalks(runs, run, s, runs[cur.value].parent, ids + [cur.value]);
      }
    }
  }

  lemma {:induction false} ChainGrows(runs: Runs, cur: Option<RunId>, ids: seq<RunId>)
    ensures ids <= ChainFrom(runs, cur, ids)
    decreases MAX_CHAIN_DEPTH - |ids|
  {
    if !(cur.None? || cur.value in ids || |ids| >= MAX_CHAIN_DEPTH || cur.value !in runs) {
      ChainGrows(runs, runs[cur.value].parent, ids + [cur.value]);
    }
  }

  lemma {:induction false} IdleHoldsKeepTheirShares(a: Runs, b: Runs, holds: seq<Hold>, id: RunId)
    requires forall h :: h in holds && h.amount > 0 ==> Chain(a, h.run) == Chain(b, h.run)
    ensures Held(a, holds, id) == Held(b, holds, id)
  {
    if holds != [] {
      IdleHoldsKeepTheirShares(a, b, holds[1..], id);
    }
  }

  lemma {:induction false} HeldCoversShare(runs: Runs, holds: seq<Hold>, h: Hold, id: RunId)
    requires h in holds
    ensures Held(runs, holds, id) >= Share(runs, h, id)
  {
    if holds[0] != h {
      HeldCoversShare(runs, holds[1..], h, id);
    }
  }

  /** A first open keeps every reserved amount accounted for exactly when no live
      reservation's walk was waiting for that run; otherwise the walk grows and the
      late settle will release money the new run never reserved. */
  lemma OpenKeepsAccountsIff(b: Books, run: RunId, budget: u64, parent: Option<RunId>)
    requires Accurate(b) && run !in b.runs && forall h :: h in b.holds ==> h.run in b.runs
    ensures Accurate(Step(b, Open(run, budget, parent)))
            <==> forall h :: h in b.holds && h.amount > 0 ==> !WaitsFor(b.runs, h.run, run)
  {
    var after := Step(b, Open(run, budget, parent)).runs;
    forall h | h in b.holds
      ensures if WaitsFor(b.runs, h.run, run) then run in Chain(after, h.run) else Chain(after, h.run) == Chain(b.runs, h.run)
    {
      assert [] + [h.run] == [h.run];
      assert Chain(b.runs, h.run) == ChainFrom(b.runs, b.runs[h.run].parent, [h.run]);
      assert Chain(after, h.run) == ChainFrom(after, b.runs[h.run].parent, [h.run]);
      OpeningExtendsWaitingWalks(b.runs, run, after[run], b.runs[h.run].parent, [h.run]);
    }
    if h :| h in b.holds && h.amount > 0 && WaitsFor(b.runs, h.run, run) {
      HeldCoversShare(after, b.holds, h, run);
      assert after[run].reserved == 0;
    } else {
      forall id | id in after
        ensures after[id].reserved == Held(after, b.holds, id)
      {
        IdleHoldsKeepTheirShares(b.runs, after, b.holds, id);
        if id == run {
          UnknownHoldsNothing(b.runs, b.holds, id);
        }
      }
    }
  }

  /** The failing family is not empty: a child reserves before its parent is opened. */
  lemma LateParentLosesTrack()
    ensures var b := Books(map["child" := RunState(10, 5, 0, 1, Some("parent"))], [Hold("child", 5)]);
            Accurate(b) && !Accurate(Step(b, Open("parent", 10, None)))
  {
    var c, p := "child", "parent";
    assert c[0] != p[0];
    var runs: Runs := map[c := RunState(10, 5, 0, 1, Some(p))];
    assert Chain(runs, c) == [c] by {
      assert ChainFrom(runs, Some(p), [c]) == [c];
    }
    var b := Books(runs, [Hold(c, 5)]);
    assert Held(runs, b.holds, c) == 5 by {
      assert b.holds[1..] == [];
    }
    assert Hold(c, 5) in b.holds && WaitsFor(runs, c, p);
    OpenKeepsAccountsIff(b, p, 10, None);
  }
}
