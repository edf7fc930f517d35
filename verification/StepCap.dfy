/** When a replay under a per-call cap lets a call through again after one that it
    skipped (`crates/core/src/backtest.rs`). */
module StepCap {
  import opened Basics
  import opened Backtest

  function BlockedOf(p: Policy, calls: seq<Call>, wrap: Wrapping): nat {
    TallyOf(p, calls, wrap).blocked
  }

  /** The replay lets a call through after one that it did not. */
  predicate AdmitsAgain(p: Policy, calls: seq<Call>, wrap: Wrapping) {
    calls != [] &&
    (AdmitsAgain(p, calls[..|calls| - 1], wrap)
     || (BlockedOf(p, calls[..|calls| - 1], wrap) > 0 && LastVerdict(p, calls, wrap).Admitted?))
  }

  lemma {:induction false} FirstStretchIsRunning(p: Policy, calls: seq<Call>, wrap: Wrapping)
    requires BlockedOf(p, calls, wrap) == 0
    ensures !MeterAfter(p, calls, wrap).stopped
  {
    if calls != [] {
      FirstStretchIsRunning(p, calls[..|calls| - 1], wrap);
    }
  }

  // ---- when the replay lets a call through again ----

  /** After `k` admitted calls neither run-level limit is in the way of `c`. */
  predicate WithinRunLimits(p: Policy, calls: seq<Call>, k: nat, c: Call, wrap: Wrapping)
    requires k <= |calls|
  {
    && (p.maxSteps.Some? ==> k % U32_MODULUS < p.maxSteps.value)
    && (p.budgetPerRun.Some? ==> wrap(Cost(calls[..k]) + c.cost) <= p.budgetPerRun.value)
  }

  /** Call `i` is within every limit as they stood after the calls before it. */
  predicate GetsThrough(p: Policy, calls: seq<Call>, i: nat, wrap: Wrapping)
    requires i < |calls|
  {
    WithinRunLimits(p, calls, i, calls[i], wrap) && !OverStepBudget(p, calls[i])
  }

  /** After `k` admitted calls, call `i` breaks the per-call cap and nothing else. */
  predicate BreaksCapAlone(p: Policy, calls: seq<Call>, k: nat, i: nat, wrap: Wrapping)
    requires k <= i < |calls|
  {
    WithinRunLimits(p, calls, k, calls[i], wrap) && OverStepBudget(p, calls[i])
  }

  /** The first `k` calls are within every limit, those from `k` to `j` break the per-call
      cap alone, and call `j` is within every limit as they stood after the first `k`. */
  ghost predicate Resumes(p: Policy, calls: seq<Call>, k: nat, j: nat, wrap: Wrapping)
    requires k < j < |calls|
  {
    && (forall i :: 0 <= i < k ==> GetsThrough(p, calls, i, wrap))
    && (forall i :: k <= i < j ==> BreaksCapAlone(p, calls, k, i, wrap))
    && WithinRunLimits(p, calls, k, calls[j], wrap) && !OverStepBudget(p, calls[j])
  }

  ghost predicate ResumesSomewhere(p: Policy, calls: seq<Call>, wrap: Wrapping) {
    exists k, j :: 0 <= k < j < |calls| && Resumes(p, calls, k, j, wrap)
  }

  /** The meter once the first `k` calls have been let through. */
  function MeterAt(calls: seq<Call>, k: nat, wrap: Wrapping): Meter
    requires k <= |calls|
  {
    Meter(wrap(Cost(calls[..k])), k % U32_MODULUS, false)
  }

  lemma JudgeAt(p: Policy, calls: seq<Call>, k: nat, c: Call, wrap: Wrapping)
    requires IsWrapping(wrap) && k <= |calls|
    ensures Judge(p, MeterAt(calls, k, wrap), c, wrap)
            == if !WithinRunLimits(p, calls, k, c, wrap) then Stopped else if OverStepBudget(p, c) then Skipped else Admitted
  {
    assert Absorbs(wrap, Cost(calls[..k]), c.cost);
  }

  /** The first `k` calls are let through, the others break the per-call cap alone. */
  ghost predicate Shape(p: Policy, calls: seq<Call>, k: nat, wrap: Wrapping)
    requires k <= |calls|
  {
    && (forall i :: 0 <= i < k ==> GetsThrough(p, calls, i, wrap))
    && (forall i :: k <= i < |calls| ==> BreaksCapAlone(p, calls, k, i, wrap))
  }

  lemma SameLimits(p: Policy, calls: seq<Call>, more: seq<Call>, k: nat, c: Call, wrap: Wrapping)
    requires calls <= more && k <= |calls|
    ensures WithinRunLimits(p, more, k, c, wrap) == WithinRunLimits(p, calls, k, c, wrap)
    ensures MeterAt(more, k, wrap) == MeterAt(calls, k, wrap)
  {
    assert more[..k] == calls[..k];
  }

  /** Longer or shorter, a trace gives each of its calls the same verdicts. */
  lemma SameVerdicts(p: Policy, calls: seq<Call>, more: seq<Call>, k: nat, wrap: Wrapping)
    requires calls <= more && k <= |calls|
    ensures forall i :: 0 <= i < |calls| ==> GetsThrough(p, more, i, wrap) == GetsThrough(p, calls, i, wrap)
    ensures forall i :: k <= i < |calls| ==> BreaksCapAlone(p, more, k, i, wrap) == BreaksCapAlone(p, calls, k, i, wrap)
  {
    forall i | 0 <= i < |calls|
      ensures GetsThrough(p, more, i, wrap) == GetsThrough(p, calls, i, wrap)
      ensures k <= i ==> BreaksCapAlone(p, more, k, i, wrap) == BreaksCapAlone(p, calls, k, i, wrap)
    {
      SameLimits(p, calls, more, i, calls[i], wrap);
      SameLimits(p, calls, more, k, calls[i], wrap);
    }
  }

  lemma ShapeOfPrefix(p: Policy, calls: seq<Call>, k: nat, before: seq<Call>, wrap: Wrapping)
    requires before <= calls && k <= |before|
    requires forall i :: 0 <= i < k ==> GetsThrough(p, calls, i, wrap)
    requires forall i :: k <= i < |before| ==> BreaksCapAlone(p, calls, k, i, wrap)
    ensures Shape(p, before, k, wrap)
  {
    SameVerdicts(p, before, calls, k, wrap);
  }

  lemma OneMore(p: Policy, before: seq<Call>, c: Call, wrap: Wrapping)
    ensures var calls := before + [c];
            && calls[..|before|] == before && Cost(calls) == Cost(before) + c.cost
            && MeterAfter(p, calls, wrap)
               == Moved(MeterAfter(p, before, wrap), c, Judge(p, MeterAfter(p, before, wrap), c, wrap), wrap)
            && BlockedOf(p, calls, wrap)
               == BlockedOf(p, before, wrap) + (if Judge(p, MeterAfter(p, before, wrap), c, wrap).Admitted? then 0 else 1)
  {
    assert (before + [c])[..|before|] == before;
  }

  lemma SkippedStep(p: Policy, before: seq<Call>, c: Call, k: nat, wrap: Wrapping)
    requires IsWrapping(wrap) && k <= |before| && MeterAfter(p, before, wrap) == MeterAt(before, k, wrap)
    requires WithinRunLimits(p, before, k, c, wrap) && OverStepBudget(p, c)
    ensures MeterAfter(p, before + [c], wrap) == MeterAt(before + [c], k, wrap)
    ensures BlockedOf(p, before + [c], wrap) == BlockedOf(p, before, wrap) + 1
  {
    OneMore(p, before, c, wrap);
    JudgeAt(p, before, k, c, wrap);
    SameLimits(p, before, before + [c], k, c, wrap);
  }

  lemma CountedOneMore(k: nat)
    ensures IncU32(k % U32_MODULUS) == (k + 1) % U32_MODULUS
  {
    var q := k / U32_MODULUS;
    assert k == q * U32_MODULUS + k % U32_MODULUS;
  }

  lemma MeterAtMore(before: seq<Call>, c: Call, wrap: Wrapping)
    requires IsWrapping(wrap)
    ensures var m, calls := MeterAt(before, |before|, wrap), before + [c];
            MeterAt(calls, |calls|, wrap) == m.(running := wrap(m.running + c.cost), steps := IncU32(m.steps))
  {
    var calls := before + [c];
    assert before[..|before|] == before && calls[..|calls|] == calls && calls[..|before|] == before;
    CountedOneMore(|before|);
    assert Absorbs(wrap, Cost(before), c.cost);
  }

  lemma AdmittedStep(p: Policy, before: seq<Call>, c: Call, wrap: Wrapping)
    requires IsWrapping(wrap) && MeterAfter(p, before, wrap) == MeterAt(before, |before|, wrap)
    requires WithinRunLimits(p, before, |before|, c, wrap) && !OverStepBudget(p, c)
    ensures MeterAfter(p, before + [c], wrap) == MeterAt(before + [c], |before| + 1, wrap)
    ensures BlockedOf(p, before + [c], wrap) == BlockedOf(p, before, wrap)
  {
    OneMore(p, before, c, wrap);
    JudgeAt(p, before, |before|, c, wrap);
    MeterAtMore(before, c, wrap);
  }

  /** Such a run of calls is blocked in its tail and leaves the meter after its head. */
  lemma {:induction false} ShapeMeter(p: Policy, calls: seq<Call>, k: nat, wrap: Wrapping)
    requires IsWrapping(wrap) && k <= |calls| && Shape(p, calls, k, wrap)
    ensures MeterAfter(p, calls, wrap) == MeterAt(calls, k, wrap) && BlockedOf(p, calls, wrap) == |calls| - k
  {
    if calls != [] {
      var before, c := calls[..|calls| - 1], calls[|calls| - 1];
      assert calls == before + [c];
      if k < |calls| {
        ShapeOfPrefix(p, calls, k, before, wrap);
        ShapeMeter(p, before, k, wrap);
        assert BreaksCapAlone(p, calls, k, |before|, wrap);
        SameLimits(p, before, calls, k, c, wrap);
        SkippedStep(p, before, c, k, wrap);
      } else {
        ShapeOfPrefix(p, calls, |before|, before, wrap);
        ShapeMeter(p, before, |before|, wrap);
        assert GetsThrough(p, calls, |before|, wrap);
        SameLimits(p, before, calls, |before|, c, wrap);
        AdmittedStep(p, before, c, wrap);
      }
    }
  }

  lemma {:induction false} AdmitsAgainGrows(p: Policy, calls: seq<Call>, n: nat, wrap: Wrapping)
    requires n <= |calls| && AdmitsAgain(p, calls[..n], wrap)
    ensures AdmitsAgain(p, calls, wrap)
  {
    if n == |calls| {
      assert calls[..n] == calls;
    } else {
      assert calls[..|calls| - 1][..n] == calls[..n];
      AdmitsAgainGrows(p, calls[..|calls| - 1], n, wrap);
    }
  }

  lemma ResumingAdmitsAgain(p: Policy, calls: seq<Call>, k: nat, j: nat, wrap: Wrapping)
    requires IsWrapping(wrap) && k < j < |calls| && Resumes(p, calls, k, j, wrap)
    ensures AdmitsAgain(p, calls, wrap)
  {
    var before, upTo := calls[..j], calls[..j + 1];
    ShapeOfPrefix(p, calls, k, before, wrap);
    ShapeMeter(p, before, k, wrap);
    SameLimits(p, before, calls, k, calls[j], wrap);
    JudgeAt(p, calls, k, calls[j], wrap);
    assert upTo[..j] == before;
    AdmitsAgainGrows(p, calls, j + 1, wrap);
  }

  lemma ShapeGrows(p: Policy, before: seq<Call>, c: Call, k: nat, wrap: Wrapping)
    requires k <= |before| && Shape(p, before, k, wrap) && WithinRunLimits(p, before, k, c, wrap)
    ensures OverStepBudget(p, c) ==> Shape(p, before + [c], k, wrap)
    ensures !OverStepBudget(p, c) && k == |before| ==> Shape(p, before + [c], k + 1, wrap)
    ensures !OverStepBudget(p, c) && k < |before| ==> Resumes(p, before + [c], k, |before|, wrap)
  {
    SameLimits(p, before, before + [c], k, c, wrap);
    SameVerdicts(p, before, before + [c], k, wrap);
  }

  /** A meter that still runs, and never let a call through again, has seen such a shape. */
  lemma {:induction false} RunningShape(p: Policy, calls: seq<Call>, wrap: Wrapping) returns (k: nat)
    requires IsWrapping(wrap) && !AdmitsAgain(p, calls, wrap) && !MeterAfter(p, calls, wrap).stopped
    ensures k <= |calls| && Shape(p, calls, k, wrap)
  {
    if calls == [] {
      k := 0;
    } else {
      var before, c := calls[..|calls| - 1], calls[|calls| - 1];
      k := RunningShape(p, before, wrap);
      ShapeMeter(p, before, k, wrap);
      JudgeAt(p, before, k, c, wrap);
      ShapeGrows(p, before, c, k, wrap);
      assert calls == before + [c];
      if !OverStepBudget(p, c) {
        k := |calls|;
      }
    }
  }

  lemma ResumesGrows(p: Policy, calls: seq<Call>, more: seq<Call>, k: nat, j: nat, wrap: Wrapping)
    requires calls <= more && k < j < |calls| && Resumes(p, calls, k, j, wrap)
    ensures Resumes(p, more, k, j, wrap)
  {
    SameLimits(p, calls, more, k, calls[j], wrap);
    SameVerdicts(p, calls, more, k, wrap);
  }

  lemma {:induction false} AdmittingAgainResumes(p: Policy, calls: seq<Call>, wrap: Wrapping)
    requires IsWrapping(wrap) && AdmitsAgain(p, calls, wrap)
    ensures ResumesSomewhere(p, calls, wrap)
  {
    var before, c := calls[..|calls| - 1], calls[|calls| - 1];
    if AdmitsAgain(p, before, wrap) {
      AdmittingAgainResumes(p, before, wrap);
      var k, j :| 0 <= k < j < |before| && Resumes(p, before, k, j, wrap);
      ResumesGrows(p, before, calls, k, j, wrap);
    } else {
      var k := RunningShape(p, before, wrap);
      ShapeMeter(p, before, k, wrap);
      JudgeAt(p, before, k, c, wrap);
      ShapeGrows(p, before, c, k, wrap);
      assert calls == before + [c];
      assert Resumes(p, calls, k, |before|, wrap);
    }
  }

  /** Said on costs, cap, step counts and running sums. */
  lemma AdmitsAgainIff(p: Policy, calls: seq<Call>, wrap: Wrapping)
    requires IsWrapping(wrap)
    ensures AdmitsAgain(p, calls, wrap) <==> ResumesSomewhere(p, calls, wrap)
  {
    if AdmitsAgain(p, calls, wrap) {
      AdmittingAgainResumes(p, calls, wrap);
    }
    if ResumesSomewhere(p, calls, wrap) {
      var k, j :| 0 <= k < j < |calls| && Resumes(p, calls, k, j, wrap);
      ResumingAdmitsAgain(p, calls, k, j, wrap);
    }
  }
}
