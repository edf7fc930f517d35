/** The wire record of `crates/cloud/src/store.rs` and the pure readings of it. */
module CloudRecords {
  import opened Basics

  /** The budget-protection reasons. */
  datatype Reason = BudgetExceeded | LoopDetected | PolicyViolation | WasmPolicy | Killed

  /** The wire decision: a settled call, a budget-protection block, or any other text (the
      security blocks and whatever an untrusted sender makes up). */
  datatype Decision = Allow | CacheHit | Protection(reason: Reason) | Other(text: string)

  datatype CallRecord = CallRecord(
    ts: i64, run: string, model: string, decision: Decision, cost: i64, step: u32,
    agent: string, unit: string, saved: i64, tools: Option<u32>)

  /** Everything but a settled call. */
  predicate IsBlocked(decision: Decision) {
    !decision.Allow? && !decision.CacheHit?
  }

  function Clamped(amount: i64): (a: i64)
    ensures a >= 0
  {
    Max(amount, 0)
  }

  function ToolCalls(r: CallRecord): u64 {
    if r.tools.Some? then r.tools.value else 0
  }

  /** What one record adds to real spend: its clamped cost, unless the call was blocked. */
  function Spend(r: CallRecord): (c: i64)
    ensures c >= 0
  {
    if IsBlocked(r.decision) then 0 else Clamped(r.cost)
  }

  function SettledTools(r: CallRecord): u64 {
    if IsBlocked(r.decision) then 0 else ToolCalls(r)
  }

  // ---- what the records amount to, by decision ----

  /** The real spend of a record, read off its decision: only a settled call costs. */
  function CostOf(r: CallRecord): nat {
    match r.decision
    case Allow => Max(0, r.cost)
    case CacheHit => Max(0, r.cost)
    case Protection(_) => 0
    case Other(_) => 0
  }

  function ToolsOf(r: CallRecord): nat {
    match r.decision
    case Allow => (match r.tools case Some(n) => n case None => 0)
    case CacheHit => (match r.tools case Some(n) => n case None => 0)
    case Protection(_) => 0
    case Other(_) => 0
  }

  function Spends(records: seq<CallRecord>): nat {
    if records == [] then 0 else Spends(records[..|records| - 1]) + CostOf(records[|records| - 1])
  }

  function ToolSum(records: seq<CallRecord>): nat {
    if records == [] then 0 else ToolSum(records[..|records| - 1]) + ToolsOf(records[|records| - 1])
  }

  /** The test for a blocked call and the two amounts built on it say the same. */
  lemma SettledCallsCount(r: CallRecord)
    ensures Spend(r) == CostOf(r) && SettledTools(r) == ToolsOf(r)
    ensures IsBlocked(r.decision) <==> r.decision.Protection? || r.decision.Other?
  {
  }
}
