/** The replay of a policy against what live enforcement does with the same calls: policy
    evaluation (`crates/core/src/policy.rs`) and then the in-process ledger. */
module BacktestAgainstLive {
  import opened Basics
  import opened ReplicatedLedger
  import opened CoreLedger
  import opened Backtest
  import opened StepCap
  import opened Sorting
  import opened MapSum

  datatype Mode = Shadow | Warn | Enforce

  datatype Rule = MaxSteps | StepBudget

  datatype Decision = Allow | Warned(rule: Rule) | Block(rule: Rule)

  /** The first violated rule, steps before the per-call cap. */
  function FirstViolation(p: Policy, steps: u32, estimate: i64): Option<Rule> {
    if p.maxSteps.Some? && steps >= p.maxSteps.value then Some(MaxSteps)
    else if p.budgetPerStep.Some? && estimate > p.budgetPerStep.value then Some(StepBudget)
    else None
  }

  function Evaluate(p: Policy, mode: Mode, steps: u32, estimate: i64): Decision {
    var violated := FirstViolation(p, steps, estimate);
    if violated.None? then Allow
    else match mode
      case Shadow => Allow
      case Warn => Warned(violated.value)
      case Enforce => Block(violated.value)
  }

  /** What each mode makes of a limit that is reached: only enforcement blocks, only a
      warning warns, and the step limit is named before the per-call cap. */
  lemma ModesDecide(p: Policy, mode: Mode, steps: u32, estimate: i64)
    ensures var outOfSteps := p.maxSteps.Some? && p.maxSteps.value <= steps;
            var overCap := p.budgetPerStep.Some? && p.budgetPerStep.value < estimate;
            var rule := if outOfSteps then MaxSteps else StepBudget;
            var d := Evaluate(p, mode, steps, estimate);
            && (d.Block? <==> mode == Enforce && (outOfSteps || overCap)) && (d.Block? ==> d.rule == rule)
            && (d.Warned? <==> mode == Warn && (outOfSteps || overCap)) && (d.Warned? ==> d.rule == rule)
  {
  }

  /** One run under live enforcement; an agent that is refused stops. */
  datatype Session = Session(core: CoreRuns, halted: bool)

  /** A run without a budget of its own is opened with one nothing can exceed. */
  function Opened(p: Policy, run: RunId): Session {
    Session(CoreOpen(map[], run, if p.budgetPerRun.Some? then p.budgetPerRun.value else I64_MAX, None), false)
  }

  /** Evaluate, reserve at the call's cost, settle at the call's cost. */
  function Attempt(s: Session, p: Policy, run: RunId, c: Call): (Session, bool)
    requires run in s.core
  {
    if s.halted then (s, false)
    else if Evaluate(p, Enforce, s.core[run].steps, c.cost).Block? then (s.(halted := true), false)
    else
      var out := CoreReserve(s.core, run, c.cost);
      match out.1
      case Refused(_) => (Session(out.0, true), false)
      case Granted(reservation) => (Session(CoreSettle(out.0, reservation, c.cost), false), true)
  }

  function SessionAfter(p: Policy, run: RunId, calls: seq<Call>): (s: Session)
    ensures run in s.core
  {
    if calls == [] then Opened(p, run)
    else
      var before, c := SessionAfter(p, run, calls[..|calls| - 1]), calls[|calls| - 1];
      var after := Attempt(before, p, run, c).0;
      after
  }

  /** A lone root run as the ledger holds it between calls: nothing reserved. */
  function Lone(run: RunId, budget: i64, spent: i64, steps: u32): CoreRuns {
    map[run := CoreRun(budget, 0, spent, steps, None)]
  }

  lemma LoneChain(core: CoreRuns, run: RunId)
    requires run in core && core[run].parent.None?
    ensures CoreChain(core, run) == [run]
  {
    var links := Links(core);
    assert [] + [run] == [run];
    assert Chain(links, run) == ChainFrom(links, links[run].parent, [] + [run]);
  }

  lemma LoneReserve(run: RunId, budget: i64, spent: i64, steps: u32, cost: i64)
    ensures var out := CoreReserve(Lone(run, budget, spent, steps), run, cost);
            && (WrapI64(spent + cost) > budget ==> out.1.Refused? && out.0 == Lone(run, budget, spent, steps))
            && (WrapI64(spent + cost) <= budget ==>
                  out.1 == Granted(Reservation(run, cost, IncU32(steps)))
                  && out.0 == map[run := CoreRun(budget, cost, spent, IncU32(steps), None)])
  {
    var core := Lone(run, budget, spent, steps);
    LoneChain(core, run);
    assert [run][1..] == [];
    assert Would(core[run], cost) == WrapI64(spent + cost);
    assert FirstExceeded(core, [run], cost) == if WrapI64(spent + cost) > budget then Some(run) else None;
  }

  /** The budget a replayed run is held to. */
  function Budget(p: Policy): i64 {
    if p.budgetPerRun.Some? then p.budgetPerRun.value else I64_MAX
  }

  /** Between calls the live run and the replay's meter hold the same numbers. */
  ghost predicate Mirrors(s: Session, m: Meter, p: Policy, run: RunId) {
    s.core == Lone(run, Budget(p), m.running, m.steps) && s.halted == m.stopped
  }

  lemma LoneSettle(run: RunId, budget: i64, spent: i64, steps: u32, cost: i64, step: u32)
    ensures CoreSettle(map[run := CoreRun(budget, cost, spent, steps, None)], Reservation(run, cost, step), cost)
            == Lone(run, budget, WrapI64(spent + cost), steps)
  {
    var core := map[run := CoreRun(budget, cost, spent, steps, None)];
    LoneChain(core, run);
  }

  /** As long as they mirror each other, the live run admits what the replay admits, and
      halts at anything else. */
  lemma AttemptMirrors(s: Session, m: Meter, p: Policy, run: RunId, c: Call)
    requires Mirrors(s, m, p, run)
    ensures var v, after := Judge(p, m, c, WrapI64), Attempt(s, p, run, c);
            && after.1 == v.Admitted?
            && (v.Admitted? || v.Stopped? ==> Mirrors(after.0, Moved(m, c, v, WrapI64), p, run))
            && (!v.Admitted? ==> after.0.halted)
  {
    LoneReserve(run, Budget(p), m.running, m.steps, c.cost);
    LoneSettle(run, Budget(p), m.running, IncU32(m.steps), c.cost, IncU32(m.steps));
  }

  /** Without a per-call cap the replay follows the live run state for state. */
  lemma {:induction false} ReplayMirrorsLive(p: Policy, run: RunId, calls: seq<Call>)
    requires p.budgetPerStep.None?
    ensures Mirrors(SessionAfter(p, run, calls), MeterAfter(p, calls, WrapI64), p, run)
  {
    if calls != [] {
      ReplayMirrorsLive(p, run, calls[..|calls| - 1]);
      AttemptMirrors(SessionAfter(p, run, calls[..|calls| - 1]), MeterAfter(p, calls[..|calls| - 1], WrapI64), p, run, calls[|calls| - 1]);
    }
  }

  /** So it blocks exactly the calls that live enforcement would refuse. */
  lemma ReplayBlocksWhatLiveBlocks(p: Policy, run: RunId, calls: seq<Call>, i: nat)
    requires p.budgetPerStep.None? && i < |calls|
    ensures LastVerdict(p, calls[..i + 1], WrapI64).Admitted? == Attempt(SessionAfter(p, run, calls[..i]), p, run, calls[i]).1
  {
    ReplayMirrorsLive(p, run, calls[..i]);
    AttemptMirrors(SessionAfter(p, run, calls[..i]), MeterAfter(p, calls[..i], WrapI64), p, run, calls[i]);
    assert calls[..i + 1][..i] == calls[..i];
  }

  // ---- with a per-call cap ----

  /** Calls that live enforcement refuses. */
  function Refusals(p: Policy, run: RunId, calls: seq<Call>): nat {
    if calls == [] then 0
    else
      var before, c := calls[..|calls| - 1], calls[|calls| - 1];
      Refusals(p, run, before) + (if Attempt(SessionAfter(p, run, before), p, run, c).1 then 0 else 1)
  }

  /** Until the first call that is not let through the two agree; from then on the live
      run has halted. */
  lemma {:induction false} LiveHaltsAtTheFirst(p: Policy, run: RunId, calls: seq<Call>)
    ensures BlockedOf(p, calls, WrapI64) == 0 ==> Mirrors(SessionAfter(p, run, calls), MeterAfter(p, calls, WrapI64), p, run)
    ensures SessionAfter(p, run, calls).halted <==> BlockedOf(p, calls, WrapI64) > 0
  {
    if calls == [] {
      assert Mirrors(SessionAfter(p, run, calls), FRESH, p, run);
    } else {
      var before, c := calls[..|calls| - 1], calls[|calls| - 1];
      LiveHaltsAtTheFirst(p, run, before);
      if BlockedOf(p, before, WrapI64) == 0 {
        FirstStretchIsRunning(p, before, WrapI64);
        AttemptMirrors(SessionAfter(p, run, before), MeterAfter(p, before, WrapI64), p, run, c);
      }
    }
  }

  /** For every policy, live enforcement refuses at least the calls the replay blocks, and
      exactly as many if and only if the replay never lets a call through again. */
  lemma {:induction false} LiveRefusesAtLeast(p: Policy, run: RunId, calls: seq<Call>)
    ensures BlockedOf(p, calls, WrapI64) <= Refusals(p, run, calls)
    ensures BlockedOf(p, calls, WrapI64) == Refusals(p, run, calls) <==> !AdmitsAgain(p, calls, WrapI64)
  {
    if calls != [] {
      var before, c := calls[..|calls| - 1], calls[|calls| - 1];
      LiveRefusesAtLeast(p, run, before);
      LiveHaltsAtTheFirst(p, run, before);
      if BlockedOf(p, before, WrapI64) == 0 {
        AttemptMirrors(SessionAfter(p, run, before), MeterAfter(p, before, WrapI64), p, run, c);
      }
    }
  }

  /** Said on costs, cap, step counts and running sums: live enforcement refuses exactly
      the calls the replay blocks if and only if the run never comes back within its limits
      after breaking the per-call cap alone. */
  lemma RefusalsAreBlockedIff(p: Policy, run: RunId, calls: seq<Call>)
    ensures BlockedOf(p, calls, WrapI64) <= Refusals(p, run, calls)
    ensures BlockedOf(p, calls, WrapI64) == Refusals(p, run, calls) <==> !ResumesSomewhere(p, calls, WrapI64)
  {
    LiveRefusesAtLeast(p, run, calls);
    WrapI64IsWrapping();
    AdmitsAgainIff(p, calls, WrapI64);
  }

  // ---- the whole report ----

  function LiveRefusals(p: Policy, groups: Groups): map<string, int> {
    map r | r in groups :: Refusals(p, r, Sort(ByStep, groups[r]))
  }

  /** No run of the trace, in step order, comes back after breaking the per-call cap. */
  ghost predicate NoRunResumes(p: Policy, groups: Groups) {
    forall r :: r in groups ==> !ResumesSomewhere(p, Sort(ByStep, groups[r]), WrapI64)
  }

  /** The report never counts more calls than live enforcement would have refused over the
      trace, and counts exactly those if and only if no run resumes. */
  lemma ReportCountsLiveRefusalsIff(p: Policy, calls: seq<Call>)
    ensures ReportOf(p, calls, WrapI64).callsBlocked <= Sum(LiveRefusals(p, GroupsOf(calls)))
    ensures ReportOf(p, calls, WrapI64).callsBlocked == Sum(LiveRefusals(p, GroupsOf(calls)))
            <==> NoRunResumes(p, GroupsOf(calls))
  {
    var groups := GroupsOf(calls);
    var blocked, refused := Blocked(p, groups, WrapI64), LiveRefusals(p, groups);
    forall r | r in groups
      ensures blocked[r] <= refused[r] && (blocked[r] == refused[r] <==> !ResumesSomewhere(p, Sort(ByStep, groups[r]), WrapI64))
    {
      RefusalsAreBlockedIff(p, r, Sort(ByStep, groups[r]));
    }
    SumsMeetIff(blocked, refused);
    assert blocked == refused <==> forall r :: r in groups ==> blocked[r] == refused[r];
  }

  lemma NoCapNoResume(p: Policy, calls: seq<Call>)
    requires p.budgetPerStep.None?
    ensures !ResumesSomewhere(p, calls, WrapI64)
  {
    forall k, j | 0 <= k < j < |calls|
      ensures !Resumes(p, calls, k, j, WrapI64)
    {
      assert !BreaksCapAlone(p, calls, k, k, WrapI64);
    }
  }

  /** Without a per-call cap there is nothing to resume from, so it always counts them. */
  lemma ReportCountsLiveRefusals(p: Policy, calls: seq<Call>)
    requires p.budgetPerStep.None?
    ensures ReportOf(p, calls, WrapI64).callsBlocked == Sum(LiveRefusals(p, GroupsOf(calls)))
  {
    var groups := GroupsOf(calls);
    forall r | r in groups
      ensures !ResumesSomewhere(p, Sort(ByStep, groups[r]), WrapI64)
    {
      NoCapNoResume(p, Sort(ByStep, groups[r]));
    }
    ReportCountsLiveRefusalsIff(p, calls);
  }

  /** A per-call cap breaks the agreement: the replay skips the one call, live enforcement
      stops the agent. */
  lemma StepCapDisagrees(run: RunId)
    ensures var p := Policy(None, Some(5), None);
            var calls := [Call(run, 1, 6), Call(run, 2, 1)];
            TallyOf(p, calls, WrapI64).blocked == 1 && Refusals(p, run, calls) == 2
  {
    var p := Policy(None, Some(5), None);
    var one, calls := [Call(run, 1, 6)], [Call(run, 1, 6), Call(run, 2, 1)];
    assert calls[..1] == one && one[..0] == [];
    assert SessionAfter(p, run, []) == Opened(p, run);
    assert SessionAfter(p, run, one) == Opened(p, run).(halted := true);
    assert Refusals(p, run, one) == 1;
    assert MeterAfter(p, one, WrapI64) == FRESH;
    assert TallyOf(p, one, WrapI64) == Tally(0, 6, 1);
  }
}
