/** Replaying a budget policy over a recorded trace (`crates/core/src/backtest.rs`), and
    its agreement with the live ledger. */
module Backtest {
  import opened Basics
  import opened MapSum
  import opened Sorting

  datatype Call = Call(run: string, step: u32, cost: i64)

  datatype Policy = Policy(budgetPerRun: Option<i64>, budgetPerStep: Option<i64>, maxSteps: Option<u32>)

  datatype Report = Report(runsTotal: nat, runsAffected: nat, callsTotal: nat, callsBlocked: nat, spent: i64, saved: i64)

  // ---- one run ----

  /** The running state of one run's replay. */
  datatype Meter = Meter(running: i64, steps: u32, stopped: bool)

  const FRESH: Meter := Meter(0, 0, false)

  datatype Verdict = Admitted | Skipped | Stopped

  predicate OutOfSteps(p: Policy, m: Meter) {
    p.maxSteps.Some? && m.steps >= p.maxSteps.value
  }

  predicate OverRunBudget(p: Policy, m: Meter, c: Call, wrap: Wrapping) {
    p.budgetPerRun.Some? && wrap(m.running + c.cost) > p.budgetPerRun.value
  }

  predicate OverStepBudget(p: Policy, c: Call) {
    p.budgetPerStep.Some? && c.cost > p.budgetPerStep.value
  }

  function Judge(p: Policy, m: Meter, c: Call, wrap: Wrapping): Verdict {
    if m.stopped || OutOfSteps(p, m) || OverRunBudget(p, m, c, wrap) then Stopped
    else if OverStepBudget(p, c) then Skipped
    else Admitted
  }

  function Moved(m: Meter, c: Call, v: Verdict, wrap: Wrapping): Meter {
    match v
    case Admitted => m.(running := wrap(m.running + c.cost), steps := IncU32(m.steps))
    case Skipped => m
    case Stopped => m.(stopped := true)
  }

  function MeterAfter(p: Policy, calls: seq<Call>, wrap: Wrapping): Meter {
    if calls == [] then FRESH
    else
      var m, c := MeterAfter(p, calls[..|calls| - 1], wrap), calls[|calls| - 1];
      Moved(m, c, Judge(p, m, c, wrap), wrap)
  }

  /** What the last of these calls meets. */
  function LastVerdict(p: Policy, calls: seq<Call>, wrap: Wrapping): Verdict
    requires calls != []
  {
    Judge(p, MeterAfter(p, calls[..|calls| - 1], wrap), calls[|calls| - 1], wrap)
  }

  /** Exact sums over one run. */
  datatype Tally = Tally(admitted: int, saved: int, blocked: nat)

  function TallyOf(p: Policy, calls: seq<Call>, wrap: Wrapping): Tally {
    if calls == [] then Tally(0, 0, 0)
    else
      var t, c := TallyOf(p, calls[..|calls| - 1], wrap), calls[|calls| - 1];
      if LastVerdict(p, calls, wrap).Admitted? then t.(admitted := t.admitted + c.cost)
      else t.(saved := t.saved + c.cost, blocked := t.blocked + 1)
  }

  // ---- the trace, run by run ----

  function Cost(calls: seq<Call>): int {
    if calls == [] then 0 else Cost(calls[..|calls| - 1]) + calls[|calls| - 1].cost
  }

  function OfRun(calls: seq<Call>, run: string): seq<Call> {
    if calls == [] then []
    else OfRun(calls[..|calls| - 1], run) + (if calls[|calls| - 1].run == run then [calls[|calls| - 1]] else [])
  }

  type Groups = map<string, seq<Call>>

  function GroupsOf(calls: seq<Call>): Groups {
    if calls == [] then map[]
    else
      var groups, c := GroupsOf(calls[..|calls| - 1]), calls[|calls| - 1];
      groups[c.run := (if c.run in groups then groups[c.run] else []) + [c]]
  }

  function ByStep(a: Call, b: Call): bool {
    a.step <= b.step
  }

  function RunTally(p: Policy, list: seq<Call>, wrap: Wrapping): Tally {
    TallyOf(p, Sort(ByStep, list), wrap)
  }

  function Blocked(p: Policy, groups: Groups, wrap: Wrapping): map<string, int> {
    map r | r in groups :: RunTally(p, groups[r], wrap).blocked
  }

  function Saved(p: Policy, groups: Groups, wrap: Wrapping): map<string, int> {
    map r | r in groups :: RunTally(p, groups[r], wrap).saved
  }

  function AdmittedCost(p: Policy, groups: Groups, wrap: Wrapping): map<string, int> {
    map r | r in groups :: RunTally(p, groups[r], wrap).admitted
  }

  function Affected(p: Policy, groups: Groups, wrap: Wrapping): map<string, int> {
    map r | r in groups :: if RunTally(p, groups[r], wrap).blocked > 0 then 1 else 0
  }

  /** The report: every run replayed on its own, in step order. */
  ghost function ReportOf(p: Policy, calls: seq<Call>, wrap: Wrapping): Report {
    var groups := GroupsOf(calls);
    SumNonNegative(Blocked(p, groups, wrap));
    SumNonNegative(Affected(p, groups, wrap));
    Report(
      |groups|, Sum(Affected(p, groups, wrap)), |calls|, Sum(Blocked(p, groups, wrap)),
      wrap(Cost(calls)), wrap(Sum(Saved(p, groups, wrap))))
  }

  // ---- the method ----

  method GroupByRun(calls: seq<Call>, wrap: Wrapping) returns (groups: Groups, spent: i64)
    requires IsWrapping(wrap)
    ensures groups == GroupsOf(calls) && spent == wrap(Cost(calls))
  {
    groups, spent := map[], 0;
    ghost var exact := 0;
    for i := 0 to |calls|
      invariant groups == GroupsOf(calls[..i])
      invariant exact == Cost(calls[..i]) && spent == wrap(exact)
    {
      assert calls[..i + 1][..i] == calls[..i];
      var c := calls[i];
      groups := groups[c.run := (if c.run in groups then groups[c.run] else []) + [c]];
      assert Absorbs(wrap, exact, c.cost);
      spent := wrap(spent + c.cost);
      exact := exact + c.cost;
    }
    assert calls[..|calls|] == calls;
  }

  /** What the inner loop holds after `i` calls. */
  ghost predicate Replayed(
    p: Policy, list: seq<Call>, i: nat, m: Meter, blocked: nat, after: i64, affected: bool, exact: int, wrap: Wrapping)
  {
    && i <= |list| && m == MeterAfter(p, list[..i], wrap)
    && blocked == TallyOf(p, list[..i], wrap).blocked && (affected <==> blocked > 0)
    && after == wrap(exact + TallyOf(p, list[..i], wrap).saved)
  }

  lemma ReplayedStep(
    p: Policy, list: seq<Call>, i: nat, m: Meter, blocked: nat, after: i64, affected: bool, exact: int, wrap: Wrapping)
    requires IsWrapping(wrap) && i < |list| && Replayed(p, list, i, m, blocked, after, affected, exact, wrap)
    ensures var v := Judge(p, m, list[i], wrap);
            var next := Moved(m, list[i], v, wrap);
            if v.Admitted? then Replayed(p, list, i + 1, next, blocked, after, affected, exact, wrap)
            else Replayed(p, list, i + 1, next, blocked + 1, wrap(after + list[i].cost), true, exact, wrap)
  {
    assert list[..i + 1][..i] == list[..i];
    var saved := TallyOf(p, list[..i], wrap).saved;
    assert Absorbs(wrap, exact + saved, list[i].cost);
    assert exact + (saved + list[i].cost) == exact + saved + list[i].cost;
  }

  /** One call against the meter, the rules in the order of the source. */
  method Meet(p: Policy, c: Call, running: i64, steps: u32, stopped: bool, wrap: Wrapping)
    returns (running': i64, steps': u32, stopped': bool, admitted: bool)
    ensures var m := Meter(running, steps, stopped);
            var v := Judge(p, m, c, wrap);
            admitted == v.Admitted? && Meter(running', steps', stopped') == Moved(m, c, v, wrap)
  {
    running', steps', stopped', admitted := running, steps, stopped, false;
    if stopped {
      return;
    }
    if p.maxSteps.Some? && steps >= p.maxSteps.value {
      stopped' := true;
      return;
    }
    if p.budgetPerRun.Some? && wrap(running + c.cost) > p.budgetPerRun.value {
      stopped' := true;
      return;
    }
    if p.budgetPerStep.Some? && c.cost > p.budgetPerStep.value {
      return;
    }
    running', steps', admitted := wrap(running + c.cost), IncU32(steps), true;
  }

  /** The inner loop: one run's calls in step order. */
  method Replay(p: Policy, list: seq<Call>, saved: i64, ghost exact: int, wrap: Wrapping)
    returns (blocked: nat, after: i64, affected: bool, ghost exactSaved: int)
    requires IsWrapping(wrap) && saved == wrap(exact)
    ensures blocked == TallyOf(p, list, wrap).blocked && (affected <==> blocked > 0)
    ensures after == wrap(exactSaved) && exactSaved == exact + TallyOf(p, list, wrap).saved
  {
    var running: i64, steps: u32, stopped := 0, 0, false;
    blocked, after, affected := 0, saved, false;
    for i := 0 to |list|
      invariant Replayed(p, list, i, Meter(running, steps, stopped), blocked, after, affected, exact, wrap)
    {
      ReplayedStep(p, list, i, Meter(running, steps, stopped), blocked, after, affected, exact, wrap);
      var admitted;
      running, steps, stopped, admitted := Meet(p, list[i], running, steps, stopped, wrap);
      if !admitted {
        blocked, after, affected := blocked + 1, wrap(after + list[i].cost), true;
      }
    }
    assert list[..|list|] == list;
    exactSaved := exact + TallyOf(p, list, wrap).saved;
  }

  lemma TakeBlocked(p: Policy, rest: Groups, r: string, t: Tally, wrap: Wrapping)
    requires r in rest && t == RunTally(p, rest[r], wrap)
    ensures Sum(Blocked(p, rest, wrap)) == t.blocked + Sum(Blocked(p, rest - {r}, wrap))
  {
    SumTake(Blocked(p, rest, wrap), r);
    assert Blocked(p, rest - {r}, wrap) == Blocked(p, rest, wrap) - {r};
  }

  lemma TakeSaved(p: Policy, rest: Groups, r: string, t: Tally, wrap: Wrapping)
    requires r in rest && t == RunTally(p, rest[r], wrap)
    ensures Sum(Saved(p, rest, wrap)) == t.saved + Sum(Saved(p, rest - {r}, wrap))
  {
    SumTake(Saved(p, rest, wrap), r);
    assert Saved(p, rest - {r}, wrap) == Saved(p, rest, wrap) - {r};
  }

  lemma TakeAffected(p: Policy, rest: Groups, r: string, t: Tally, wrap: Wrapping)
    requires r in rest && t == RunTally(p, rest[r], wrap)
    ensures Sum(Affected(p, rest, wrap)) == (if t.blocked > 0 then 1 else 0) + Sum(Affected(p, rest - {r}, wrap))
  {
    SumTake(Affected(p, rest, wrap), r);
    assert Affected(p, rest - {r}, wrap) == Affected(p, rest, wrap) - {r};
  }

  /** What is still to come when the runs in `rest` have not been replayed. */
  ghost predicate Remaining(p: Policy, groups: Groups, rest: Groups, blocked: int, affected: int, exact: int, wrap: Wrapping) {
    && blocked + Sum(Blocked(p, rest, wrap)) == Sum(Blocked(p, groups, wrap))
    && affected + Sum(Affected(p, rest, wrap)) == Sum(Affected(p, groups, wrap))
    && exact + Sum(Saved(p, rest, wrap)) == Sum(Saved(p, groups, wrap))
  }

  lemma RemainingStep(
    p: Policy, groups: Groups, rest: Groups, blocked: int, affected: int, exact: int, r: string, t: Tally, wrap: Wrapping)
    requires Remaining(p, groups, rest, blocked, affected, exact, wrap) && r in rest && t == RunTally(p, rest[r], wrap)
    ensures Remaining(p, groups, rest - {r}, blocked + t.blocked, affected + (if t.blocked > 0 then 1 else 0), exact + t.saved, wrap)
  {
    TakeBlocked(p, rest, r, t, wrap);
    TakeSaved(p, rest, r, t, wrap);
    TakeAffected(p, rest, r, t, wrap);
  }

  lemma RemainingEnds(p: Policy, groups: Groups, blocked: int, affected: int, exact: int, wrap: Wrapping)
    requires Remaining(p, groups, map[], blocked, affected, exact, wrap)
    ensures blocked == Sum(Blocked(p, groups, wrap)) && affected == Sum(Affected(p, groups, wrap)) && exact == Sum(Saved(p, groups, wrap))
  {
    assert Blocked(p, map[], wrap) == map[] && Saved(p, map[], wrap) == map[] && Affected(p, map[], wrap) == map[];
  }

  /** `backtest`: the runs may be replayed in any order. */
  method Run(calls: seq<Call>, p: Policy, wrap: Wrapping) returns (report: Report)
    requires IsWrapping(wrap)
    ensures report == ReportOf(p, calls, wrap)
  {
    var groups, spent := GroupByRun(calls, wrap);
    var blocked: nat, affected: nat, saved: i64 := 0, 0, 0;
    ghost var exact := 0;
    var rest := groups;
    while rest != map[]
      invariant Remaining(p, groups, rest, blocked, affected, exact, wrap) && saved == wrap(exact)
      decreases |rest|
    {
      var r :| r in rest;
      ghost var t := RunTally(p, rest[r], wrap);
      RemainingStep(p, groups, rest, blocked, affected, exact, r, t, wrap);
      var b, s, hit, e := Replay(p, Sort(ByStep, rest[r]), saved, exact, wrap);
      exact := e;
      blocked, saved, affected := blocked + b, s, affected + (if hit then 1 else 0);
      rest := rest - {r};
    }
    RemainingEnds(p, groups, blocked, affected, exact, wrap);
    report := Report(|groups|, affected, |calls|, blocked, spent, saved);
  }

  // ---- what the figures count ----

  /** Call `i` of a run is let through, or is not. */
  predicate Passes(p: Policy, calls: seq<Call>, i: int, passes: bool, wrap: Wrapping) {
    0 <= i < |calls| && LastVerdict(p, calls[..i + 1], wrap).Admitted? == passes
  }

  /** The positions of the calls that are let through, or of those that are not. */
  ghost function Those(p: Policy, calls: seq<Call>, passes: bool, wrap: Wrapping): set<int> {
    set i | 0 <= i < |calls| && Passes(p, calls, i, passes, wrap)
  }

  /** What the calls at these positions cost. */
  ghost function CostsAt(calls: seq<Call>, at: set<int>): map<int, int> {
    map i | i in at && 0 <= i < |calls| :: calls[i].cost
  }

  lemma ThoseStep(p: Policy, before: seq<Call>, c: Call, passes: bool, wrap: Wrapping)
    ensures var calls := before + [c];
            Those(p, calls, passes, wrap)
            == Those(p, before, passes, wrap) + (if LastVerdict(p, calls, wrap).Admitted? == passes then {|before|} else {})
  {
    var calls, n := before + [c], |before|;
    var longer, shorter := Those(p, calls, passes, wrap), Those(p, before, passes, wrap);
    assert calls[..n + 1] == calls;
    forall i | 0 <= i < n
      ensures i in longer <==> i in shorter
    {
      PassesInLonger(p, before, c, i, passes, wrap);
    }
    assert n in longer <==> LastVerdict(p, calls, wrap).Admitted? == passes;
    assert forall i :: i in longer <==> i in shorter || (i == n && n in longer);
  }

  lemma PassesInLonger(p: Policy, before: seq<Call>, c: Call, i: nat, passes: bool, wrap: Wrapping)
    requires i < |before|
    ensures Passes(p, before + [c], i, passes, wrap) == Passes(p, before, i, passes, wrap)
  {
    assert (before + [c])[..i + 1] == before[..i + 1];
  }

  lemma CostsAtStep(before: seq<Call>, c: Call, at: set<int>)
    requires forall i :: i in at ==> 0 <= i < |before|
    ensures Sum(CostsAt(before + [c], at)) == Sum(CostsAt(before, at))
    ensures Sum(CostsAt(before + [c], at + {|before|})) == Sum(CostsAt(before, at)) + c.cost
  {
    var calls := before + [c];
    assert CostsAt(calls, at) == CostsAt(before, at);
    SumUpdate(CostsAt(before, at), |before|, c.cost);
    assert CostsAt(calls, at + {|before|}) == CostsAt(before, at)[|before| := c.cost];
  }

  lemma CostsStep(p: Policy, before: seq<Call>, c: Call, passes: bool, wrap: Wrapping)
    ensures var calls := before + [c];
            var hit := LastVerdict(p, calls, wrap).Admitted? == passes;
            && |Those(p, calls, passes, wrap)| == |Those(p, before, passes, wrap)| + (if hit then 1 else 0)
            && Sum(CostsAt(calls, Those(p, calls, passes, wrap)))
               == Sum(CostsAt(before, Those(p, before, passes, wrap))) + (if hit then c.cost else 0)
  {
    var at := Those(p, before, passes, wrap);
    ThoseStep(p, before, c, passes, wrap);
    CostsAtStep(before, c, at);
    assert at + {} == at;
  }

  /** Blocked counts the calls that are not let through, saved is what exactly those cost,
      and admitted is what the others cost. */
  lemma {:induction false} TallyGoesByVerdict(p: Policy, calls: seq<Call>, wrap: Wrapping)
    ensures var t := TallyOf(p, calls, wrap);
            && t.blocked == |Those(p, calls, false, wrap)|
            && t.saved == Sum(CostsAt(calls, Those(p, calls, false, wrap)))
            && t.admitted == Sum(CostsAt(calls, Those(p, calls, true, wrap)))
  {
    if calls == [] {
      assert CostsAt(calls, Those(p, calls, false, wrap)) == map[] == CostsAt(calls, Those(p, calls, true, wrap));
      assert Those(p, calls, false, wrap) == {};
    } else {
      var before, c := calls[..|calls| - 1], calls[|calls| - 1];
      TallyGoesByVerdict(p, before, wrap);
      assert calls == before + [c];
      CostsStep(p, before, c, true, wrap);
      CostsStep(p, before, c, false, wrap);
    }
  }

  /** A run is replayed in the order of its steps, and calls of one step in the order of
      the trace. */
  lemma StepOrder(list: seq<Call>)
    ensures var s := Sort(ByStep, list);
            && multiset(s) == multiset(list)
            && forall i, j :: 0 <= i < j < |s| ==> s[i].step <= s[j].step
    ensures forall c :: Like(ByStep, c, Sort(ByStep, list)) == Like(ByStep, c, list)
    ensures forall a, b :: Similar(ByStep, a, b) <==> a.step == b.step
  {
    SortKeeps(ByStep, list);
    SortSorts(ByStep, list);
    forall i, j | 0 <= i < j < |Sort(ByStep, list)|
      ensures Sort(ByStep, list)[i].step <= Sort(ByStep, list)[j].step
    {
      assert ByStep(Sort(ByStep, list)[i], Sort(ByStep, list)[j]);
    }
    forall c
      ensures Like(ByStep, c, Sort(ByStep, list)) == Like(ByStep, c, list)
    {
      SortIsStable(ByStep, c, list);
    }
  }

  /** The runs with a blocked call. */
  ghost function RunsHit(p: Policy, groups: Groups, wrap: Wrapping): set<string> {
    set r | r in groups && RunTally(p, groups[r], wrap).blocked > 0
  }

  lemma {:induction false} OnesAddUp(m: map<string, int>, ones: set<string>)
    requires ones <= m.Keys && forall r :: r in m ==> m[r] == if r in ones then 1 else 0
    ensures Sum(m) == |ones|
    decreases |m|
  {
    if m != map[] {
      var r :| r in m;
      SumTake(m, r);
      OnesAddUp(m - {r}, ones - {r});
      if r !in ones {
        assert ones - {r} == ones;
      }
    } else {
      assert ones == {};
    }
  }

  /** The report counts the runs of the trace, those with a blocked call, and the calls. */
  lemma ReportCounts(p: Policy, calls: seq<Call>, wrap: Wrapping)
    ensures var report := ReportOf(p, calls, wrap);
            && report.runsTotal == |set c | c in calls :: c.run|
            && report.runsAffected == |RunsHit(p, GroupsOf(calls), wrap)|
            && report.callsTotal == |calls|
  {
    var groups := GroupsOf(calls);
    OnesAddUp(Affected(p, groups, wrap), RunsHit(p, groups, wrap));
    GroupsNameTheRuns(calls);
    assert |groups| == |groups.Keys|;
  }

  lemma {:induction false} GroupsNameTheRuns(calls: seq<Call>)
    ensures GroupsOf(calls).Keys == set c | c in calls :: c.run
  {
    if calls != [] {
      var before, c := calls[..|calls| - 1], calls[|calls| - 1];
      GroupsNameTheRuns(before);
      assert calls == before + [c];
      assert (set d | d in calls :: d.run) == (set d | d in before :: d.run) + {c.run};
    }
  }

  // ---- conservation ----

  lemma {:induction false} TallyConserves(p: Policy, calls: seq<Call>, wrap: Wrapping)
    ensures TallyOf(p, calls, wrap).admitted + TallyOf(p, calls, wrap).saved == Cost(calls)
    ensures TallyOf(p, calls, wrap).blocked <= |calls|
  {
    if calls != [] {
      TallyConserves(p, calls[..|calls| - 1], wrap);
    }
  }

  lemma {:induction false} CostOfConcat(a: seq<Call>, b: seq<Call>)
    ensures Cost(a + b) == Cost(a) + Cost(b)
  {
    if b == [] {
      assert a + b == a;
    } else {
      CostOfConcat(a, b[..|b| - 1]);
      assert (a + b)[..|a + b| - 1] == a + b[..|b| - 1];
    }
  }

  lemma {:induction false} InsertCost(x: Call, s: seq<Call>)
    ensures Cost(Insert(ByStep, x, s)) == x.cost + Cost(s)
  {
    assert Cost([x]) == x.cost by { assert [x][..0] == []; }
    if s != [] {
      CostOfConcat([x], s);
      assert Cost([s[0]]) == s[0].cost by { assert [s[0]][..0] == []; }
      if !ByStep(x, s[0]) {
        InsertCost(x, s[1..]);
        CostOfConcat([s[0]], Insert(ByStep, x, s[1..]));
        CostOfConcat([s[0]], s[1..]);
        assert s == [s[0]] + s[1..];
      }
    }
  }

  lemma {:induction false} SortKeepsCost(s: seq<Call>)
    ensures Cost(Sort(ByStep, s)) == Cost(s)
  {
    if s != [] {
      SortKeepsCost(s[1..]);
      InsertCost(s[0], Sort(ByStep, s[1..]));
      CostOfConcat([s[0]], s[1..]);
      assert s == [s[0]] + s[1..];
      assert Cost([s[0]]) == s[0].cost by { assert [s[0]][..0] == []; }
    }
  }

  function GroupCosts(groups: Groups): map<string, int> {
    map r | r in groups :: Cost(groups[r])
  }

  lemma GroupCostStep(groups: Groups, c: Call)
    ensures var list := if c.run in groups then groups[c.run] else [];
            Sum(GroupCosts(groups[c.run := list + [c]])) == Sum(GroupCosts(groups)) + c.cost
  {
    var list := if c.run in groups then groups[c.run] else [];
    assert (list + [c])[..|list|] == list;
    SumUpdate(GroupCosts(groups), c.run, Cost(list + [c]));
    assert GroupCosts(groups[c.run := list + [c]]) == GroupCosts(groups)[c.run := Cost(list + [c])];
  }

  lemma {:induction false} GroupsCarryTheCost(calls: seq<Call>)
    ensures Sum(GroupCosts(GroupsOf(calls))) == Cost(calls)
  {
    if calls == [] {
      assert GroupCosts(GroupsOf(calls)) == map[];
    } else {
      GroupsCarryTheCost(calls[..|calls| - 1]);
      GroupCostStep(GroupsOf(calls[..|calls| - 1]), calls[|calls| - 1]);
    }
  }

  /** Every microdollar of the trace was either let through or saved. */
  lemma SpentIsSavedPlusAdmitted(p: Policy, calls: seq<Call>, wrap: Wrapping)
    ensures var groups := GroupsOf(calls);
            Cost(calls) == Sum(Saved(p, groups, wrap)) + Sum(AdmittedCost(p, groups, wrap))
  {
    var groups := GroupsOf(calls);
    GroupsCarryTheCost(calls);
    forall r | r in groups
      ensures GroupCosts(groups)[r] == Saved(p, groups, wrap)[r] + AdmittedCost(p, groups, wrap)[r]
    {
      TallyConserves(p, Sort(ByStep, groups[r]), wrap);
      SortKeepsCost(groups[r]);
    }
    SumAdds(Saved(p, groups, wrap), AdmittedCost(p, groups, wrap), GroupCosts(groups));
  }

  // ---- interleaving ----

  lemma {:induction false} GroupsAreSubsequences(calls: seq<Call>, r: string)
    ensures r in GroupsOf(calls) <==> OfRun(calls, r) != []
    ensures r in GroupsOf(calls) ==> GroupsOf(calls)[r] == OfRun(calls, r)
  {
    if calls != [] {
      GroupsAreSubsequences(calls[..|calls| - 1], r);
    }
  }

  function GroupSizes(groups: Groups): map<string, int> {
    map r | r in groups :: |groups[r]|
  }

  lemma {:induction false} GroupsHoldEveryCall(calls: seq<Call>)
    ensures Sum(GroupSizes(GroupsOf(calls))) == |calls|
  {
    if calls == [] {
      assert GroupSizes(GroupsOf(calls)) == map[];
    } else {
      var before, c := calls[..|calls| - 1], calls[|calls| - 1];
      GroupsHoldEveryCall(before);
      var groups := GroupsOf(before);
      var size := |GroupsOf(calls)[c.run]|;
      SumUpdate(GroupSizes(groups), c.run, size);
      assert GroupSizes(GroupsOf(calls)) == GroupSizes(groups)[c.run := size];
    }
  }

  /** However different runs are interleaved in the trace, the report is the same. */
  lemma InterleavingIsIrrelevant(p: Policy, a: seq<Call>, b: seq<Call>, wrap: Wrapping)
    requires forall r :: OfRun(a, r) == OfRun(b, r)
    ensures ReportOf(p, a, wrap) == ReportOf(p, b, wrap)
  {
    forall r
      ensures r in GroupsOf(a) <==> r in GroupsOf(b)
      ensures r in GroupsOf(a) ==> GroupsOf(a)[r] == GroupsOf(b)[r]
    {
      GroupsAreSubsequences(a, r);
      GroupsAreSubsequences(b, r);
    }
    assert GroupsOf(a) == GroupsOf(b);
    GroupsHoldEveryCall(a);
    GroupsHoldEveryCall(b);
    GroupsCarryTheCost(a);
    GroupsCarryTheCost(b);
  }

  // ---- raising the run budget ----

  /** `q` is `p` with a higher run budget, or none. */
  ghost predicate Looser(p: Policy, q: Policy) {
    && q.budgetPerStep == p.budgetPerStep && q.maxSteps == p.maxSteps
    && (q.budgetPerRun.Some? ==> p.budgetPerRun.Some? && p.budgetPerRun.value <= q.budgetPerRun.value)
  }

  lemma {:induction false} LooserBlocksNoMore(p: Policy, q: Policy, calls: seq<Call>, wrap: Wrapping)
    requires Looser(p, q)
    ensures TallyOf(q, calls, wrap).blocked <= TallyOf(p, calls, wrap).blocked
    ensures MeterAfter(p, calls, wrap).stopped || MeterAfter(q, calls, wrap) == MeterAfter(p, calls, wrap)
  {
    if calls != [] {
      LooserBlocksNoMore(p, q, calls[..|calls| - 1], wrap);
    }
  }

  /** Raising the run budget never blocks more calls nor affects more runs. */
  lemma RaisingTheBudgetBlocksNoMore(p: Policy, q: Policy, calls: seq<Call>, wrap: Wrapping)
    requires Looser(p, q)
    ensures ReportOf(q, calls, wrap).callsBlocked <= ReportOf(p, calls, wrap).callsBlocked
    ensures ReportOf(q, calls, wrap).runsAffected <= ReportOf(p, calls, wrap).runsAffected
  {
    var groups := GroupsOf(calls);
    forall r | r in groups
      ensures Blocked(q, groups, wrap)[r] <= Blocked(p, groups, wrap)[r]
      ensures Affected(q, groups, wrap)[r] <= Affected(p, groups, wrap)[r]
    {
      LooserBlocksNoMore(p, q, Sort(ByStep, groups[r]), wrap);
    }
    SumMonotone(Blocked(q, groups, wrap), Blocked(p, groups, wrap));
    SumMonotone(Affected(q, groups, wrap), Affected(p, groups, wrap));
  }
}
