/** Conservation up the tree of runs: what a run shows is what was charged to it
    directly plus what its children show. */
module LedgerRollup {
  import opened Basics
  import opened ReplicatedLedger
  import opened LedgerSafety
  import opened MapSum

  /** The ledger together with the amounts charged to each run directly. */
  datatype Account = Account(runs: Runs, spentHere: map<RunId, int>, reservedHere: map<RunId, int>)

  const EMPTY_ACCOUNT := Account(map[], map[], map[])

  function Plus(m: map<RunId, int>, id: RunId, amount: int): map<RunId, int> {
    m[id := (if id in m then m[id] else 0) + amount]
  }

  function AccountStep(a: Account, req: Request): Account {
    var out := Applied(a.runs, req);
    match req
    case Open(run, _, _) => Account(out.runs, Plus(a.spentHere, run, 0), Plus(a.reservedHere, run, 0))
    case Reserve(run, micros) =>
      Account(out.runs, a.spentHere, if out.response.accepted then Plus(a.reservedHere, run, micros) else a.reservedHere)
    case Settle(run, released, actual) =>
      if run in a.runs then
        Account(out.runs, Plus(a.spentHere, run, actual), Plus(a.reservedHere, run, -(released as int)))
      else a
  }

  function AccountSteps(reqs: seq<Request>): Account {
    if reqs == [] then EMPTY_ACCOUNT else AccountStep(AccountSteps(reqs[..|reqs| - 1]), reqs[|reqs| - 1])
  }

  /** New runs hang below open ones, at most `MAX_CHAIN_DEPTH` deep. */
  predicate ParentFirst(runs: Runs, req: Request) {
    req.Open? && req.run !in runs && req.parent.Some? ==>
      req.parent.value in runs && |Chain(runs, req.parent.value)| < MAX_CHAIN_DEPTH
  }

  /** The saturating operators of this request have nothing to cut off. */
  ghost predicate Unclamped(runs: Runs, req: Request) {
    match req
    case Open(_, _, _) => true
    case Reserve(run, micros) =>
      ReserveRun(runs, run, micros).response.accepted ==>
        forall id :: id in Chain(runs, run) && id in runs ==> runs[id].reserved + micros <= U64_MAX
    case Settle(run, released, actual) =>
      forall id :: id in Chain(runs, run) && id in runs ==>
                     released <= runs[id].reserved && runs[id].spent + actual <= U64_MAX
  }

  // ----- The tree ----------------------------------------------------------

  /** The walk from every run goes all the way to a root. */
  ghost predicate Tree(runs: Runs) {
    && ParentsOpen(runs)
    && forall id {:trigger ReachesRoot(runs, id)} :: id in runs ==> ReachesRoot(runs, id)
  }

  ghost predicate ReachesRoot(runs: Runs, id: RunId) {
    var ids := Chain(runs, id);
    ids != [] && ids[|ids| - 1] in runs && runs[ids[|ids| - 1]].parent.None?
  }

  lemma OpenKeepsTree(runs: Runs, req: Request)
    requires Tree(runs) && req.Open? && ParentFirst(runs, req)
    ensures Tree(Applied(runs, req).runs)
  {
    var after := Applied(runs, req).runs;
    AppliedKeepsParents(runs, req);
    forall id | id in after
      ensures ReachesRoot(after, id)
    {
      if id in runs {
        OldRunReachesRoot(runs, req, id);
      } else if req.parent.None? {
        assert [] + [id] == [id];
        assert Chain(after, id) == [id];
      } else {
        NewRunGoesFirst(runs, after, req.run, req.parent.value);
      }
    }
  }

  lemma OldRunReachesRoot(runs: Runs, req: Request, id: RunId)
    requires Tree(runs) && req.Open? && ParentFirst(runs, req) && id in runs
    ensures ReachesRoot(Applied(runs, req).runs, id)
  {
    var after := Applied(runs, req).runs;
    AppliedKeepsParents(runs, req);
    assert ReachesRoot(runs, id);
    if req.run in runs {
      ChainsUnchanged(runs, req, id);
    } else {
      OpeningKeepsWalks(runs, req.run, after[req.run], Some(id), []);
    }
  }

  lemma NewRunGoesFirst(runs: Runs, after: Runs, run: RunId, p: RunId)
    requires Tree(runs) && run !in runs && p in runs && |Chain(runs, p)| < MAX_CHAIN_DEPTH
    requires after.Keys == runs.Keys + {run} && after[run].parent == Some(p)
    requires forall id :: id in runs ==> after[id].parent == runs[id].parent
    ensures Chain(after, run) == [run] + Chain(runs, p) && ReachesRoot(after, run)
  {
    var rest := Chain(runs, p);
    var ids := [run] + rest;
    assert ReachesRoot(runs, p);
    ChainIsTheAncestorPath(runs, p, rest);
    forall i | 0 <= i < |ids|
      ensures ids[i] in after && NextOnWalk(after, run, ids, i) == Some(ids[i])
    {
      if i > 0 {
        assert NextOnWalk(runs, p, rest, i - 1) == Some(rest[i - 1]);
      }
    }
    assert NextOnWalk(after, run, ids, |ids|) == runs[rest[|rest| - 1]].parent;
    ChainIsTheAncestorPath(after, run, ids);
  }

  // ----- Rolling one charge up ---------------------------------------------

  /** The amounts of `id`'s children. */
  ghost function ChildAmounts(runs: Runs, f: map<RunId, int>, id: RunId): map<RunId, int>
    requires f.Keys == runs.Keys
  {
    map c | c in runs && runs[c].parent == Some(id) :: f[c]
  }

  ghost predicate RollsUp(runs: Runs, f: map<RunId, int>, own: map<RunId, int>) {
    && f.Keys == runs.Keys == own.Keys
    && forall id {:trigger ChildAmounts(runs, f, id)} :: id in runs ==> f[id] == own[id] + Sum(ChildAmounts(runs, f, id))
  }

  ghost function AddedAlong(f: map<RunId, int>, ids: seq<RunId>, amount: int): map<RunId, int> {
    map id | id in f :: f[id] + if id in ids then amount else 0
  }

  /** A child of `id` lies on the chain exactly when `id` does too, one step later. */
  lemma ChildOnChain(runs: Runs, run: RunId, j: nat, id: RunId)
    requires Tree(runs) && run in runs && j < |Chain(runs, run)|
    requires Chain(runs, run)[j] in runs && runs[Chain(runs, run)[j]].parent == Some(id)
    ensures j + 1 < |Chain(runs, run)| && Chain(runs, run)[j + 1] == id
  {
    var ids := Chain(runs, run);
    assert ReachesRoot(runs, run);
    ChainIsTheAncestorPath(runs, run, ids);
    assert NextOnWalk(runs, run, ids, j + 1) == Some(id);
    assert j + 1 < |ids| ==> NextOnWalk(runs, run, ids, j + 1) == Some(ids[j + 1]);
  }

  /** Charging a chain changes the children's sum exactly above the leaf. */
  lemma ChargeReachesOneChild(runs: Runs, run: RunId, f: map<RunId, int>, amount: int, id: RunId)
    requires Tree(runs) && run in runs && f.Keys == runs.Keys
    ensures var ids := Chain(runs, run);
            Sum(ChildAmounts(runs, AddedAlong(f, ids, amount), id))
            == Sum(ChildAmounts(runs, f, id)) + if id in ids && id != run then amount else 0
  {
    var ids := Chain(runs, run);
    var before, after := ChildAmounts(runs, f, id), ChildAmounts(runs, AddedAlong(f, ids, amount), id);
    ChainMembers(runs, run);
    if id in ids && id != run {
      var child := ChildOnTheWay(runs, run, id);
      assert after == before[child := before[child] + amount];
      SumUpdate(before, child, before[child] + amount);
    } else {
      NoChildOnTheWay(runs, run, id);
      assert after == before;
    }
  }

  /** A chain that passes through a run above its leaf passes through exactly one child. */
  lemma ChildOnTheWay(runs: Runs, run: RunId, id: RunId) returns (child: RunId)
    requires Tree(runs) && run in runs && id in Chain(runs, run) && id != run
    ensures child in runs && runs[child].parent == Some(id) && child in Chain(runs, run)
    ensures forall c :: c in runs && runs[c].parent == Some(id) && c != child ==> c !in Chain(runs, run)
  {
    var ids := Chain(runs, run);
    ChainMembers(runs, run);
    var i :| 0 <= i < |ids| && ids[i] == id;
    child := ids[i - 1];
    PreviousIsChild(runs, run, i);
    forall c | c in runs && runs[c].parent == Some(id) && c != child
      ensures c !in ids
    {
      OnlyChildOnChain(runs, run, c, id, i);
    }
  }

  lemma NoChildOnTheWay(runs: Runs, run: RunId, id: RunId)
    requires Tree(runs) && run in runs && (id !in Chain(runs, run) || id == run)
    ensures forall c :: c in runs && runs[c].parent == Some(id) ==> c !in Chain(runs, run)
  {
    var ids := Chain(runs, run);
    ChainMembers(runs, run);
    forall c | c in runs && runs[c].parent == Some(id)
      ensures c !in ids
    {
      if j :| 0 <= j < |ids| && ids[j] == c {
        ChildOnChain(runs, run, j, id);
      }
    }
  }

  lemma PreviousIsChild(runs: Runs, run: RunId, i: nat)
    requires 0 < i < |Chain(runs, run)|
    ensures var ids := Chain(runs, run); ids[i - 1] in runs && runs[ids[i - 1]].parent == Some(ids[i])
  {
    var ids := Chain(runs, run);
    ChainIsTheAncestorPath(runs, run, ids);
    assert NextOnWalk(runs, run, ids, i) == Some(ids[i]);
    assert NextOnWalk(runs, run, ids, i - 1) == Some(ids[i - 1]);
  }

  lemma OnlyChildOnChain(runs: Runs, run: RunId, c: RunId, id: RunId, i: nat)
    requires Tree(runs) && run in runs && 0 < i < |Chain(runs, run)| && Chain(runs, run)[i] == id
    requires c in runs && runs[c].parent == Some(id) && c != Chain(runs, run)[i - 1]
    ensures c !in Chain(runs, run)
  {
    var ids := Chain(runs, run);
    ChainMembers(runs, run);
    if j :| 0 <= j < |ids| && ids[j] == c {
      ChildOnChain(runs, run, j, id);
    }
  }

  lemma ChargeRollsUp(runs: Runs, run: RunId, f: map<RunId, int>, own: map<RunId, int>, amount: int)
    requires Tree(runs) && run in runs && RollsUp(runs, f, own)
    ensures RollsUp(runs, AddedAlong(f, Chain(runs, run), amount), Plus(own, run, amount))
  {
    var f' := AddedAlong(f, Chain(runs, run), amount);
    assert run in Chain(runs, run) by {
      ChainMembers(runs, run);
    }
    forall id | id in runs
      ensures f'[id] == Plus(own, run, amount)[id] + Sum(ChildAmounts(runs, f', id))
    {
      assert f[id] == own[id] + Sum(ChildAmounts(runs, f, id));
      ChargeReachesOneChild(runs, run, f, amount, id);
    }
  }

  // ----- Conservation over whole runs ---------------------------------------

  ghost function Spent(runs: Runs): map<RunId, int> {
    map id | id in runs :: runs[id].spent
  }

  ghost function Reserved(runs: Runs): map<RunId, int> {
    map id | id in runs :: runs[id].reserved
  }

  ghost predicate Conserved(a: Account) {
    && Tree(a.runs)
    && RollsUp(a.runs, Spent(a.runs), a.spentHere)
    && RollsUp(a.runs, Reserved(a.runs), a.reservedHere)
  }

  /** A new run brings a zero to its parent's sum and starts with no children. */
  lemma OpenAddsZero(before: Runs, after: Runs, run: RunId, f: map<RunId, int>, f': map<RunId, int>, id: RunId)
    requires f.Keys == before.Keys && f'.Keys == after.Keys == before.Keys + {run}
    requires forall c :: c in before ==> after[c].parent == before[c].parent && f'[c] == f[c]
    requires run !in before ==> f'[run] == 0 && after[run].parent != Some(run)
    requires run !in before ==> forall c :: c in before ==> before[c].parent != Some(run)
    requires id in after
    ensures Sum(ChildAmounts(after, f', id)) == if id in before then Sum(ChildAmounts(before, f, id)) else 0
  {
    var now := ChildAmounts(after, f', id);
    if id in before {
      var was := ChildAmounts(before, f, id);
      if run !in before && after[run].parent == Some(id) {
        assert now == was[run := 0];
        SumUpdate(was, run, 0);
      } else {
        assert now == was;
      }
    } else {
      assert now == map[];
    }
  }

  lemma OpenRollsUp(before: Runs, after: Runs, run: RunId, f: map<RunId, int>, f': map<RunId, int>, own: map<RunId, int>)
    requires RollsUp(before, f, own)
    requires after.Keys == before.Keys + {run} && forall id :: id in before ==> after[id].parent == before[id].parent
    requires f'.Keys == after.Keys && forall id :: id in after ==> f'[id] == if id in before then f[id] else 0
    requires run !in before ==> forall c :: c in before ==> before[c].parent != Some(run)
    requires run !in before ==> after[run].parent != Some(run)
    ensures RollsUp(after, f', Plus(own, run, 0))
  {
    forall id | id in after
      ensures f'[id] == Plus(own, run, 0)[id] + Sum(ChildAmounts(after, f', id))
    {
      OpenAddsZero(before, after, run, f, f', id);
      assert id in before ==> f[id] == own[id] + Sum(ChildAmounts(before, f, id));
    }
  }

  lemma SameParentsRollUp(before: Runs, after: Runs, f: map<RunId, int>, own: map<RunId, int>)
    requires after.Keys == before.Keys && forall id :: id in before ==> after[id].parent == before[id].parent
    requires RollsUp(before, f, own)
    ensures RollsUp(after, f, own)
  {
    forall id | id in after
      ensures f[id] == own[id] + Sum(ChildAmounts(after, f, id))
    {
      assert ChildAmounts(after, f, id) == ChildAmounts(before, f, id);
    }
  }

  /** What each request does to the two amounts, in unclamped arithmetic. */
  lemma OpenAmounts(runs: Runs, req: Request)
    requires req.Open?
    ensures var after := Applied(runs, req).runs;
            && (forall id :: id in after ==> Spent(after)[id] == if id in runs then Spent(runs)[id] else 0)
            && (forall id :: id in after ==> Reserved(after)[id] == if id in runs then Reserved(runs)[id] else 0)
  {
  }

  lemma ReserveAmounts(runs: Runs, run: RunId, micros: u64)
    requires Unclamped(runs, Reserve(run, micros)) && ReserveRun(runs, run, micros).response.accepted
    ensures var after := ReserveRun(runs, run, micros).runs;
            && Spent(after) == Spent(runs)
            && Reserved(after) == AddedAlong(Reserved(runs), Chain(runs, run), micros)
            && run in runs
  {
    ReserveIsAllOrNothing(runs, run, micros);
  }

  lemma SettleAmounts(runs: Runs, run: RunId, released: u64, actual: u64, change: int)
    requires Unclamped(runs, Settle(run, released, actual)) && change == -(released as int)
    ensures var after := SettleRun(runs, run, released, actual).runs;
            && Spent(after) == AddedAlong(Spent(runs), Chain(runs, run), actual)
            && Reserved(after) == AddedAlong(Reserved(runs), Chain(runs, run), change)
  {
  }

  lemma OpenConserves(a: Account, req: Request)
    requires Conserved(a) && req.Open? && ParentFirst(a.runs, req)
    ensures Conserved(AccountStep(a, req))
  {
    var a' := AccountStep(a, req);
    AppliedKeepsParents(a.runs, req);
    OpenKeepsTree(a.runs, req);
    OpenAmounts(a.runs, req);
    if req.run !in a.runs {
      forall c | c in a.runs
        ensures a.runs[c].parent != Some(req.run)
      {
      }
    }
    OpenRollsUp(a.runs, a'.runs, req.run, Spent(a.runs), Spent(a'.runs), a.spentHere);
    OpenRollsUp(a.runs, a'.runs, req.run, Reserved(a.runs), Reserved(a'.runs), a.reservedHere);
  }

  lemma SameParentsKeepTree(runs: Runs, after: Runs)
    requires Tree(runs)
    requires after.Keys == runs.Keys && forall id :: id in runs ==> after[id].parent == runs[id].parent
    ensures Tree(after)
  {
    forall id | id in after
      ensures ReachesRoot(after, id)
    {
      assert ReachesRoot(runs, id);
      ChainReadsOnlyParents(runs, after, Some(id), []);
    }
  }

  lemma ChargeKeepsTree(runs: Runs, req: Request)
    requires Tree(runs) && !req.Open?
    ensures Tree(Applied(runs, req).runs)
  {
    AppliedKeepsParents(runs, req);
    SameParentsKeepTree(runs, Applied(runs, req).runs);
  }

  lemma ChargedAfterRollsUp(
    runs: Runs, after: Runs, run: RunId, f: map<RunId, int>, f': map<RunId, int>, own: map<RunId, int>, amount: int)
    requires Tree(runs) && run in runs && RollsUp(runs, f, own)
    requires after.Keys == runs.Keys && forall id :: id in runs ==> after[id].parent == runs[id].parent
    requires f' == AddedAlong(f, Chain(runs, run), amount)
    ensures RollsUp(after, f', Plus(own, run, amount))
  {
    ChargeRollsUp(runs, run, f, own, amount);
    SameParentsRollUp(runs, after, f', Plus(own, run, amount));
  }

  lemma ReserveConserves(a: Account, req: Request)
    requires Conserved(a) && req.Reserve? && Unclamped(a.runs, req)
    ensures Conserved(AccountStep(a, req))
  {
    var after := Applied(a.runs, req).runs;
    ChargeKeepsTree(a.runs, req);
    if ReserveRun(a.runs, req.run, req.micros).response.accepted {
      AppliedKeepsParents(a.runs, req);
      ReserveAmounts(a.runs, req.run, req.micros);
      ChargedAfterRollsUp(a.runs, after, req.run, Reserved(a.runs), Reserved(after), a.reservedHere, req.micros);
      SameParentsRollUp(a.runs, after, Spent(a.runs), a.spentHere);
    } else {
      assert after == a.runs by {
        ReserveIsAllOrNothing(a.runs, req.run, req.micros);
      }
    }
  }

  lemma SettleStep(a: Account, run: RunId, released: u64, actual: u64)
    requires run in a.runs
    ensures AccountStep(a, Settle(run, released, actual))
            == Account(SettleRun(a.runs, run, released, actual).runs,
                       Plus(a.spentHere, run, actual), Plus(a.reservedHere, run, -(released as int)))
  {
  }

  lemma SettleSpendRollsUp(runs: Runs, run: RunId, released: u64, actual: u64, own: map<RunId, int>)
    requires Tree(runs) && run in runs && Unclamped(runs, Settle(run, released, actual)) && RollsUp(runs, Spent(runs), own)
    ensures var after := SettleRun(runs, run, released, actual).runs;
            RollsUp(after, Spent(after), Plus(own, run, actual))
  {
    var after := SettleRun(runs, run, released, actual).runs;
    AppliedKeepsParents(runs, Settle(run, released, actual));
    SettleAmounts(runs, run, released, actual, -(released as int));
    ChargedAfterRollsUp(runs, after, run, Spent(runs), Spent(after), own, actual);
  }

  lemma SettleReservedRollsUp(runs: Runs, run: RunId, released: u64, actual: u64, own: map<RunId, int>, change: int)
    requires Tree(runs) && run in runs && Unclamped(runs, Settle(run, released, actual)) && RollsUp(runs, Reserved(runs), own)
    requires change == -(released as int)
    ensures var after := SettleRun(runs, run, released, actual).runs;
            RollsUp(after, Reserved(after), Plus(own, run, change))
  {
    var after := SettleRun(runs, run, released, actual).runs;
    AppliedKeepsParents(runs, Settle(run, released, actual));
    SettleAmounts(runs, run, released, actual, change);
    ChargedAfterRollsUp(runs, after, run, Reserved(runs), Reserved(after), own, change);
  }

  lemma SettleConserves(a: Account, run: RunId, released: u64, actual: u64)
    requires Conserved(a) && run in a.runs && Unclamped(a.runs, Settle(run, released, actual))
    ensures Conserved(AccountStep(a, Settle(run, released, actual)))
  {
    ChargeKeepsTree(a.runs, Settle(run, released, actual));
    SettleSpendRollsUp(a.runs, run, released, actual, a.spentHere);
    SettleReservedRollsUp(a.runs, run, released, actual, a.reservedHere, -(released as int));
    SettleStep(a, run, released, actual);
  }

  lemma StepConserves(a: Account, req: Request)
    requires Conserved(a) && ParentFirst(a.runs, req) && Unclamped(a.runs, req)
    ensures Conserved(AccountStep(a, req))
  {
    match req
    case Open(_, _, _) => OpenConserves(a, req);
    case Reserve(_, _) => ReserveConserves(a, req);
    case Settle(run, released, actual) =>
      if run in a.runs {
        SettleConserves(a, run, released, actual);
      }
  }

  /** Over every run that builds its tree from the root down and clamps nothing, each
      run's spend and reservations are its own plus the sum over its children. */
  lemma {:induction false} RunsConserve(reqs: seq<Request>)
    requires forall i :: 0 <= i < |reqs| ==>
                           var runs := AccountSteps(reqs[..i]).runs;
                           ParentFirst(runs, reqs[i]) && Unclamped(runs, reqs[i])
    ensures Conserved(AccountSteps(reqs))
  {
    if reqs != [] {
      var init := reqs[..|reqs| - 1];
      forall i | 0 <= i < |init|
        ensures ParentFirst(AccountSteps(init[..i]).runs, init[i]) && Unclamped(AccountSteps(init[..i]).runs, init[i])
      {
        assert init[..i] == reqs[..i];
      }
      RunsConserve(init);
      StepConserves(AccountSteps(init), reqs[|reqs| - 1]);
    }
  }

  /** A disciplined caller never makes the ledger clamp. */
  lemma DisciplinedIsUnclamped(b: Books, req: Request)
    requires Safe(b) && Disciplined(b, req)
    ensures Unclamped(b.runs, req)
  {
    ChainMembers(b.runs, req.run);
    match req
    case Open(_, _, _) =>
    case Reserve(run, micros) => ReserveIsAllOrNothing(b.runs, run, micros);
    case Settle(run, released, _) =>
      forall id | id in Chain(b.runs, run)
        ensures released <= b.runs[id].reserved
      {
        HeldCoversShare(b.runs, b.holds, Hold(run, released), id);
      }
  }

  lemma SameLedger(a: Account, b: Books, req: Request)
    requires a.runs == b.runs
    ensures AccountStep(a, req).runs == Step(b, req).runs
  {
    ChainMembers(a.runs, req.run);
  }

  /** Hence disciplined use of a tree at most `MAX_CHAIN_DEPTH` deep conserves. */
  lemma {:induction false} DisciplinedTreesConserve(reqs: seq<Request>)
    requires DisciplinedRun(reqs)
    requires forall i :: 0 <= i < |reqs| ==> ParentFirst(AccountSteps(reqs[..i]).runs, reqs[i])
    ensures Conserved(AccountSteps(reqs))
    ensures AccountSteps(reqs).runs == Steps(EMPTY_BOOKS, reqs).runs
  {
    if reqs != [] {
      var init := reqs[..|reqs| - 1];
      forall i | 0 <= i < |init|
        ensures Disciplined(Steps(EMPTY_BOOKS, init[..i]), init[i])
        ensures ParentFirst(AccountSteps(init[..i]).runs, init[i])
      {
        assert init[..i] == reqs[..i];
      }
      DisciplinedTreesConserve(init);
      DisciplinedRunsAreSafe(init);
      DisciplinedIsUnclamped(Steps(EMPTY_BOOKS, init), reqs[|reqs| - 1]);
      StepConserves(AccountSteps(init), reqs[|reqs| - 1]);
      SameLedger(AccountSteps(init), Steps(EMPTY_BOOKS, init), reqs[|reqs| - 1]);
    }
  }
}
