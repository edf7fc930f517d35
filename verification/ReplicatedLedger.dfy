/** The replicated budget ledger: open, reserve and settle over a tree of runs,
    with saturating unsigned arithmetic (`crates/cluster/src/types.rs`). */
module ReplicatedLedger {
  import opened Basics

  /** Bound on the ancestor walk. */
  const MAX_CHAIN_DEPTH: nat := 64

  type RunId = string

  datatype RunState = RunState(budget: u64, reserved: u64, spent: u64, steps: u32, parent: Option<RunId>) {
    function Committed(): u64 {
      SatAdd(spent, reserved)
    }
  }

  const DEFAULT_RUN := RunState(0, 0, 0, 0, None)

  type Runs = map<RunId, RunState>

  datatype Request =
    | Open(run: RunId, budget: u64, parent: Option<RunId>)
    | Reserve(run: RunId, micros: u64)
    | Settle(run: RunId, released: u64, actual: u64)

  /** What the human-readable reason text is built from. */
  datatype Reason = NoReason | UnknownRun(run: RunId) | BudgetExceeded(run: RunId, need: u64, budget: u64)

  datatype Response = Response(
    accepted: bool, spent: u64, reserved: u64, budget: u64, step: u32,
    blockedRun: Option<RunId>, reason: Reason)

  datatype Outcome = Outcome(runs: Runs, response: Response)

  // ----- The ancestor walk -------------------------------------------------

  /** The walk continued at `cur` once `ids` have been collected. */
  function ChainFrom(runs: Runs, cur: Option<RunId>, ids: seq<RunId>): seq<RunId>
    decreases MAX_CHAIN_DEPTH - |ids|
  {
    if cur.None? || cur.value in ids || |ids| >= MAX_CHAIN_DEPTH || cur.value !in runs then ids
    else ChainFrom(runs, runs[cur.value].parent, ids + [cur.value])
  }

  function Chain(runs: Runs, run: RunId): seq<RunId> {
    ChainFrom(runs, Some(run), [])
  }

  /** Whom the walk from `run` wants to visit after the first `i` runs of `ids`. */
  ghost function NextOnWalk(runs: Runs, run: RunId, ids: seq<RunId>, i: nat): Option<RunId>
    requires i <= |ids|
  {
    if i == 0 then Some(run)
    else if ids[i - 1] in runs then runs[ids[i - 1]].parent
    else None
  }

  /** `ids` starts at `run`, follows parent links of known runs and never repeats. */
  ghost predicate FollowsParents(runs: Runs, run: RunId, ids: seq<RunId>) {
    && Distinct(ids)
    && |ids| <= MAX_CHAIN_DEPTH
    && (forall i :: 0 <= i < |ids| ==> ids[i] in runs && NextOnWalk(runs, run, ids, i) == Some(ids[i]))
  }

  /** The walk said without walking: follow the parents, and stop only at a root, a
      missing run, a repeat or the depth bound. */
  ghost predicate IsAncestorPath(runs: Runs, run: RunId, ids: seq<RunId>) {
    && FollowsParents(runs, run, ids)
    && var next := NextOnWalk(runs, run, ids, |ids|);
       next.None? || next.value !in runs || next.value in ids || |ids| == MAX_CHAIN_DEPTH
  }

  lemma {:induction false} WalkCompletes(runs: Runs, run: RunId, ids: seq<RunId>, cur: Option<RunId>)
    requires FollowsParents(runs, run, ids) && cur == NextOnWalk(runs, run, ids, |ids|)
    ensures IsAncestorPath(runs, run, ChainFrom(runs, cur, ids))
    ensures ids <= ChainFrom(runs, cur, ids)
    decreases MAX_CHAIN_DEPTH - |ids|
  {
    if !(cur.None? || cur.value in ids || |ids| >= MAX_CHAIN_DEPTH || cur.value !in runs) {
      var longer := ids + [cur.value];
      forall i | 0 <= i < |longer|
        ensures longer[i] in runs && NextOnWalk(runs, run, longer, i) == Some(longer[i])
      {
        assert i < |ids| ==> NextOnWalk(runs, run, ids, i) == Some(ids[i]);
      }
      WalkCompletes(runs, run, longer, runs[cur.value].parent);
    }
  }

  /** The walk yields an ancestor path, and there is only one. */
  lemma ChainIsTheAncestorPath(runs: Runs, run: RunId, ids: seq<RunId>)
    ensures IsAncestorPath(runs, run, ids) <==> ids == Chain(runs, run)
  {
    var chain := Chain(runs, run);
    WalkCompletes(runs, run, [], Some(run));
    if IsAncestorPath(runs, run, ids) {
      PathsAgree(runs, run, ids, chain, |ids|);
      PathsAgree(runs, run, chain, ids, |chain|);
    }
  }

  ghost predicate AgreeUpTo(a: seq<RunId>, b: seq<RunId>, n: nat) {
    n <= |a| && n <= |b| && forall i :: 0 <= i < n ==> a[i] == b[i]
  }

  /** Two paths that agree so far agree on whom to visit next. */
  lemma SharedPrefixGoesOn(runs: Runs, run: RunId, a: seq<RunId>, b: seq<RunId>, n: nat)
    requires IsAncestorPath(runs, run, a) && IsAncestorPath(runs, run, b)
    requires n < |a| && AgreeUpTo(a, b, n)
    ensures n < |b| && a[n] == b[n]
  {
    assert NextOnWalk(runs, run, a, n) == NextOnWalk(runs, run, b, n);
    assert NextOnWalk(runs, run, a, n) == Some(a[n]) && a[n] in runs;
    assert n < |b| ==> NextOnWalk(runs, run, b, n) == Some(b[n]);
    assert a[n] in b ==> exists i :: 0 <= i < |b| && b[i] == a[n];
  }

  lemma {:induction false} PathsAgree(runs: Runs, run: RunId, a: seq<RunId>, b: seq<RunId>, n: nat)
    requires IsAncestorPath(runs, run, a) && IsAncestorPath(runs, run, b)
    requires n <= |a|
    ensures AgreeUpTo(a, b, n)
  {
    if n > 0 {
      PathsAgree(runs, run, a, b, n - 1);
      SharedPrefixGoesOn(runs, run, a, b, n - 1);
    }
  }

  /** The walk reads nothing but which runs exist and who their parents are. */
  lemma {:induction false} ChainReadsOnlyParents(a: Runs, b: Runs, cur: Option<RunId>, ids: seq<RunId>)
    requires a.Keys == b.Keys
    requires forall id :: id in a ==> a[id].parent == b[id].parent
    ensures ChainFrom(a, cur, ids) == ChainFrom(b, cur, ids)
    decreases MAX_CHAIN_DEPTH - |ids|
  {
    if !(cur.None? || cur.value in ids || |ids| >= MAX_CHAIN_DEPTH || cur.value !in a) {
      ChainReadsOnlyParents(a, b, a[cur.value].parent, ids + [cur.value]);
    }
  }

  // ----- One request -------------------------------------------------------

  function LeafResponse(runs: Runs, run: RunId, accepted: bool): Response {
    var s := if run in runs then runs[run] else DEFAULT_RUN;
    Response(accepted, s.spent, s.reserved, s.budget, s.steps, None, NoReason)
  }

  predicate Fits(s: RunState, micros: u64) {
    SatAdd(s.Committed(), micros) <= s.budget
  }

  /** Every run on `ids` with `micros` more reserved. */
  function Raised(runs: Runs, ids: seq<RunId>, micros: u64): Runs {
    map id | id in runs ::
      if id in ids then runs[id].(reserved := SatAdd(runs[id].reserved, micros)) else runs[id]
  }

  /** Every run on `ids` with `released` freed and `actual` spent. */
  function Charged(runs: Runs, ids: seq<RunId>, released: u64, actual: u64): Runs {
    map id | id in runs ::
      if id in ids
      then runs[id].(reserved := SatSub(runs[id].reserved, released), spent := SatAdd(runs[id].spent, actual))
      else runs[id]
  }

  /** The first level, leaf upwards, that cannot take `micros` more. */
  function FirstBlocked(runs: Runs, ids: seq<RunId>, micros: u64): (r: Option<RunId>)
    requires forall id :: id in ids ==> id in runs
    ensures r.None? <==> forall id :: id in ids ==> Fits(runs[id], micros)
    ensures r.Some? ==>
              exists i :: && 0 <= i < |ids| && ids[i] == r.value && !Fits(runs[ids[i]], micros)
                          && forall j :: 0 <= j < i ==> Fits(runs[ids[j]], micros)
  {
    if ids == [] then None
    else if !Fits(runs[ids[0]], micros) then Some(ids[0])
    else
      var r := FirstBlocked(runs, ids[1..], micros);
      assert r.Some? ==> exists i :: 0 <= i < |ids[1..]| && ids[1..][i] == r.value && !Fits(runs[ids[i + 1]], micros)
                                     && forall j :: 0 <= j < i ==> Fits(runs[ids[1..][j]], micros);
      assert forall j :: 0 < j < |ids| ==> ids[j] == ids[1..][j - 1];
      r
  }

  function BumpStep(runs: Runs, run: RunId): Runs
    requires run in runs
  {
    runs[run := runs[run].(steps := IncU32(runs[run].steps))]
  }

  lemma ChainMembers(runs: Runs, run: RunId)
    ensures forall id :: id in Chain(runs, run) ==> id in runs
    ensures Distinct(Chain(runs, run)) && |Chain(runs, run)| <= 64
    ensures run in runs ==> |Chain(runs, run)| > 0 && Chain(runs, run)[0] == run
    ensures run !in runs ==> Chain(runs, run) == []
  {
    WalkCompletes(runs, run, [], Some(run));
    var ids := Chain(runs, run);
    assert NextOnWalk(runs, run, ids, 0) == Some(run);
    assert |ids| > 0 ==> NextOnWalk(runs, run, ids, 0) == Some(ids[0]);
  }

  function OpenRun(runs: Runs, run: RunId, budget: u64, parent: Option<RunId>): Outcome {
    var runs' :=
      if run in runs then runs[run := runs[run].(budget := budget)]
      else runs[run := DEFAULT_RUN.(budget := budget, parent := parent)];
    Outcome(runs', LeafResponse(runs', run, true))
  }

  function ReserveRun(runs: Runs, run: RunId, micros: u64): Outcome {
    if run !in runs then
      Outcome(runs, LeafResponse(runs, run, false).(blockedRun := Some(run), reason := UnknownRun(run)))
    else
      var ids := Chain(runs, run);
      ChainMembers(runs, run);
      var blocked := FirstBlocked(runs, ids, micros);
      if blocked.Some? then
        var s := runs[blocked.value];
        Outcome(runs,
                Response(false, s.spent, s.reserved, s.budget, runs[run].steps, blocked,
                         BudgetExceeded(blocked.value, SatAdd(s.Committed(), micros), s.budget)))
      else
        var runs' := BumpStep(Raised(runs, ids, micros), run);
        Outcome(runs', LeafResponse(runs', run, true))
  }

  function SettleRun(runs: Runs, run: RunId, released: u64, actual: u64): Outcome {
    var runs' := Charged(runs, Chain(runs, run), released, actual);
    Outcome(runs', LeafResponse(runs', run, true))
  }

  function Applied(runs: Runs, req: Request): Outcome {
    match req
    case Open(run, budget, parent) => OpenRun(runs, run, budget, parent)
    case Reserve(run, micros) => ReserveRun(runs, run, micros)
    case Settle(run, released, actual) => SettleRun(runs, run, released, actual)
  }

  /** The ledger after a whole sequence of requests, in log order. */
  function AppliedAll(runs: Runs, reqs: seq<Request>): Runs {
    if reqs == [] then runs
    else Applied(AppliedAll(runs, reqs[..|reqs| - 1]), reqs[|reqs| - 1]).runs
  }

  /** A request never changes who exists besides the opened run, nor any parent link. */
  lemma AppliedKeepsParents(runs: Runs, req: Request)
    ensures var after := Applied(runs, req).runs;
            && after.Keys == runs.Keys + (if req.Open? then {req.run} else {})
            && (forall id :: id in runs ==> after[id].parent == runs[id].parent)
  {
    ChainMembers(runs, req.run);
  }

  /** Every walk is unchanged by a reserve, a settle, or re-opening an existing run. */
  lemma ChainsUnchanged(runs: Runs, req: Request, id: RunId)
    requires req.Open? ==> req.run in runs
    ensures Chain(Applied(runs, req).runs, id) == Chain(runs, id)
  {
    AppliedKeepsParents(runs, req);
    ChainReadsOnlyParents(runs, Applied(runs, req).runs, Some(id), []);
  }

  /** Room for `micros` more, written out: the capped sum stays within the budget. */
  predicate RoomFor(s: RunState, micros: u64) {
    Min(U64_MAX, s.spent + s.reserved + micros) <= s.budget
  }

  lemma FitsIffRoom()
    ensures forall s: RunState, micros: u64 :: Fits(s, micros) <==> RoomFor(s, micros)
  {
  }

  /** All or nothing: a reserve is refused exactly when the run is unknown or some
      level of its chain lacks room; it then changes nothing, and otherwise it raises
      every level and counts one step on the leaf. */
  lemma ReserveIsAllOrNothing(runs: Runs, run: RunId, micros: u64)
    ensures var out := ReserveRun(runs, run, micros);
            var ids := Chain(runs, run);
            && (out.response.accepted <==> run in runs && forall id :: id in ids ==> id in runs && RoomFor(runs[id], micros))
            && (!out.response.accepted ==> out.runs == runs && out.response.blockedRun.Some?)
            && (out.response.accepted ==>
                  && out.runs.Keys == runs.Keys
                  && forall id :: id in runs ==>
                       && out.runs[id].reserved
                            == (if id in ids then Min(U64_MAX, runs[id].reserved + micros) else runs[id].reserved)
                       && out.runs[id].spent == runs[id].spent
                       && out.runs[id].budget == runs[id].budget
                       && out.runs[id].parent == runs[id].parent
                       && out.runs[id].steps == (if id == run then (runs[id].steps + 1) % 0x1_0000_0000 else runs[id].steps))
  {
    ChainMembers(runs, run);
    FitsIffRoom();
  }

  /** A settle releases and charges every level of the chain, clamped at both ends,
      and nothing else. */
  lemma SettleChargesTheChain(runs: Runs, run: RunId, released: u64, actual: u64)
    ensures var after := SettleRun(runs, run, released, actual).runs;
            && after.Keys == runs.Keys
            && forall id :: id in runs ==>
                 if id in Chain(runs, run)
                 then after[id] == runs[id].(reserved := Max(0, runs[id].reserved - released),
                                             spent := Min(U64_MAX, runs[id].spent + actual))
                 else after[id] == runs[id]
  {
  }

  /** Opening touches one run: a known one gets the new budget and keeps its parent and
      its counters, an unknown one starts with the budget, the parent and no counts. */
  lemma OpenTouchesOneRun(runs: Runs, run: RunId, budget: u64, parent: Option<RunId>)
    ensures var after := OpenRun(runs, run, budget, parent).runs;
            && after.Keys == runs.Keys + {run}
            && (forall id :: id in runs && id != run ==> after[id] == runs[id])
            && after[run].budget == budget
            && (run in runs ==> after[run] == runs[run].(budget := budget))
            && (run !in runs ==> after[run] == RunState(budget, 0, 0, 0, parent))
  {
  }

  /** What the response shows: the counters of the run asked for as they now stand, or
      the counters of the level that refused. */
  lemma ResponseShowsTheCounters(runs: Runs, req: Request)
    ensures var out := Applied(runs, req);
            var r := out.response;
            && (!r.accepted ==> req.Reserve?)
            && (r.accepted ==> r.blockedRun == None && r.reason == NoReason)
            && (r.accepted && req.run in out.runs ==>
                  && r.spent == out.runs[req.run].spent && r.reserved == out.runs[req.run].reserved
                  && r.budget == out.runs[req.run].budget && r.step == out.runs[req.run].steps)
            && (req.run !in out.runs ==> r.spent == r.reserved == r.budget == r.step == 0)
  {
    ChainMembers(runs, req.run);
  }

  /** A refused reserve names the lowest level without room and shows that level's
      counters and the capped amount it would have needed; the step is the leaf's. */
  lemma RefusalNamesTheLowestFullLevel(runs: Runs, run: RunId, micros: u64)
    requires !ReserveRun(runs, run, micros).response.accepted
    ensures var r := ReserveRun(runs, run, micros).response;
            && (run !in runs ==> r == Response(false, 0, 0, 0, 0, Some(run), UnknownRun(run)))
            && (run in runs ==>
                  exists k :: 0 <= k < |Chain(runs, run)| && RefusedAt(runs, run, micros, r, Chain(runs, run), k))
  {
    if run in runs {
      ChainMembers(runs, run);
      var ids := Chain(runs, run);
      var blocked := FirstBlocked(runs, ids, micros);
      var k :| 0 <= k < |ids| && ids[k] == blocked.value && !Fits(runs[ids[k]], micros)
               && forall j :: 0 <= j < k ==> Fits(runs[ids[j]], micros);
      FitsIffRoom();
      assert RefusedAt(runs, run, micros, ReserveRun(runs, run, micros).response, ids, k);
    }
  }

  ghost predicate RefusedAt(runs: Runs, run: RunId, micros: u64, r: Response, ids: seq<RunId>, k: nat)
  {
    && k < |ids| && run in runs && ids[k] in runs
    && var s := runs[ids[k]];
    && !RoomFor(s, micros)
    && (forall j :: 0 <= j < k ==> ids[j] in runs && RoomFor(runs[ids[j]], micros))
    && r.spent == s.spent && r.reserved == s.reserved && r.budget == s.budget
    && r.step == runs[run].steps
    && r.blockedRun == Some(ids[k])
    && r.reason == BudgetExceeded(ids[k], Min(U64_MAX, s.spent + s.reserved + micros), s.budget)
  }

  // ----- The ledger object -------------------------------------------------

  class LedgerState {
    var runs: Runs

    constructor ()
      ensures runs == map[]
    {
      runs := map[];
    }

    method ChainOf(run: RunId) returns (ids: seq<RunId>)
      ensures ids == Chain(runs, run)
    {
      ids := [];
      var cur := Some(run);
      while cur.Some?
        invariant |ids| <= MAX_CHAIN_DEPTH
        invariant ChainFrom(runs, cur, ids) == Chain(runs, run)
        decreases MAX_CHAIN_DEPTH - |ids|, if cur.Some? then 1 else 0
      {
        var id := cur.value;
        if id in ids || |ids| >= MAX_CHAIN_DEPTH {
          break;
        }
        if id !in runs {
          break;
        }
        cur := runs[id].parent;
        ids := ids + [id];
      }
    }

    method Apply(req: Request) returns (response: Response)
      modifies this
      ensures Outcome(runs, response) == Applied(old(runs), req)
    {
      match req
      case Open(run, budget, parent) =>
        if run in runs {
          runs := runs[run := runs[run].(budget := budget)];
        } else {
          runs := runs[run := DEFAULT_RUN.(budget := budget, parent := parent)];
        }
        response := LeafResponse(runs, run, true);
      case Reserve(run, micros) =>
        response := ApplyReserve(run, micros);
      case Settle(run, released, actual) =>
        ApplySettle(run, released, actual);
        response := LeafResponse(runs, run, true);
    }

    method CheckLevels(ids: seq<RunId>, micros: u64) returns (blocked: Option<RunId>)
      requires forall id :: id in ids ==> id in runs
      ensures blocked == FirstBlocked(runs, ids, micros)
    {
      for i := 0 to |ids|
        invariant FirstBlocked(runs, ids, micros) == FirstBlocked(runs, ids[i..], micros)
      {
        assert ids[i..][1..] == ids[i + 1..];
        if SatAdd(runs[ids[i]].Committed(), micros) > runs[ids[i]].budget {
          return Some(ids[i]);
        }
      }
      return None;
    }

    method RaiseLevels(ids: seq<RunId>, micros: u64)
      requires Distinct(ids) && forall id :: id in ids ==> id in runs
      modifies this
      ensures runs == Raised(old(runs), ids, micros)
    {
      for i := 0 to |ids|
        invariant runs == Raised(old(runs), ids[..i], micros)
      {
        assert ids[i] !in ids[..i];
        runs := runs[ids[i] := runs[ids[i]].(reserved := SatAdd(runs[ids[i]].reserved, micros))];
        assert ids[..i + 1] == ids[..i] + [ids[i]];
      }
      assert ids[..|ids|] == ids;
    }

    method ApplyReserve(run: RunId, micros: u64) returns (response: Response)
      modifies this
      ensures Outcome(runs, response) == ReserveRun(old(runs), run, micros)
    {
      if run !in runs {
        response := LeafResponse(runs, run, false);
        response := response.(blockedRun := Some(run), reason := UnknownRun(run));
        return;
      }
      var ids := ChainOf(run);
      ChainMembers(runs, run);
      var blocked := CheckLevels(ids, micros);
      if blocked.Some? {
        var s := runs[blocked.value];
        response := Response(false, s.spent, s.reserved, s.budget, runs[run].steps, blocked,
                             BudgetExceeded(blocked.value, SatAdd(s.Committed(), micros), s.budget));
        return;
      }
      RaiseLevels(ids, micros);
      runs := runs[run := runs[run].(steps := IncU32(runs[run].steps))];
      response := LeafResponse(runs, run, true);
    }

    method ApplySettle(run: RunId, released: u64, actual: u64)
      modifies this
      ensures runs == SettleRun(old(runs), run, released, actual).runs
    {
      var ids := ChainOf(run);
      ChainMembers(runs, run);
      for i := 0 to |ids|
        invariant runs == Charged(old(runs), ids[..i], released, actual)
      {
        assert ids[i] !in ids[..i];
        if ids[i] in runs {
          var s := runs[ids[i]];
          runs := runs[ids[i] := s.(reserved := SatSub(s.reserved, released), spent := SatAdd(s.spent, actual))];
        }
        assert ids[..i + 1] == ids[..i] + [ids[i]];
      }
      assert ids[..|ids|] == ids;
    }
  }
}
