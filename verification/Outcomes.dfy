/** Unit economics per outcome tag (`crates/core/src/outcomes.rs`): each run is counted
    under its last non-empty tag, and nothing is lost between the buckets. */
module Outcomes {
  import opened Basics
  import opened MapSum
  import opened Sorting

  datatype Call = Call(run: string, blocked: bool, cost: i64, outcome: string, step: u32)

  /** The order of run ids and of tags, as a total order on strings. */
  type RunOrder = (string, string) -> bool

  ghost predicate IsRunOrder(le: RunOrder) {
    TotalPreorder(le) && forall a, b :: le(a, b) && le(b, a) ==> a == b
  }

  /** By run, then by step. */
  function ByRunThenStep(le: RunOrder): (Call, Call) -> bool {
    (a: Call, b: Call) => if a.run == b.run then a.step <= b.step else le(a.run, b.run)
  }

  predicate Tags(c: Call, run: string) {
    c.run == run && c.outcome != ""
  }

  // ---- the winning tag ----

  /** The last call in the list that tags the run. */
  function LastTagging(calls: seq<Call>, run: string): Option<Call> {
    if calls == [] then None
    else
      var later := LastTagging(calls[1..], run);
      if later.Some? then later else if Tags(calls[0], run) then Some(calls[0]) else None
  }

  /** The tagging call of the highest step, the latest recorded one if several share it. */
  function Winner(calls: seq<Call>, run: string): Option<Call> {
    if calls == [] then None
    else
      var later := Winner(calls[1..], run);
      if Tags(calls[0], run) && (later.Some? ==> calls[0].step > later.value.step) then Some(calls[0]) else later
  }

  lemma {:induction false} WinnerHasTheHighestStep(calls: seq<Call>, run: string)
    ensures var w := Winner(calls, run);
            && (w.None? <==> forall c :: c in calls ==> !Tags(c, run))
            && (w.Some? ==> exists i :: 0 <= i < |calls| && IsLastHighest(calls, run, i) && calls[i] == w.value)
  {
    if calls != [] {
      var rest := calls[1..];
      WinnerHasTheHighestStep(rest, run);
      assert calls == [calls[0]] + rest;
      var later, w := Winner(rest, run), Winner(calls, run);
      if later.Some? {
        var i :| 0 <= i < |rest| && IsLastHighest(rest, run, i) && rest[i] == later.value;
        if w == later {
          assert IsLastHighest(calls, run, i + 1) by {
            forall j | 0 <= j < |calls| && Tags(calls[j], run)
              ensures Beaten(calls[j].step, j, calls[i + 1].step, i + 1)
            {
              if j > 0 {
                assert Beaten(rest[j - 1].step, j - 1, rest[i].step, i);
              }
            }
          }
        } else {
          assert IsLastHighest(calls, run, 0) by {
            forall j | 0 <= j < |calls| && Tags(calls[j], run)
              ensures Beaten(calls[j].step, j, calls[0].step, 0)
            {
              if j > 0 {
                assert Beaten(rest[j - 1].step, j - 1, rest[i].step, i);
              }
            }
          }
        }
      } else if w.Some? {
        assert IsLastHighest(calls, run, 0);
      }
    }
  }

  /** Lower in step, or the same step and not recorded later. */
  predicate Beaten(step: int, at: int, bestStep: int, bestAt: int) {
    step < bestStep || (step == bestStep && at <= bestAt)
  }

  ghost predicate IsLastHighest(calls: seq<Call>, run: string, i: nat) {
    && i < |calls| && calls[i].run == run && calls[i].outcome != ""
    && forall j :: 0 <= j < |calls| && Tags(calls[j], run) ==> Beaten(calls[j].step, j, calls[i].step, i)
  }

  ghost predicate IsTransitiveAt(le: RunOrder, a: string, b: string, c: string) {
    le(a, b) && le(b, c) ==> le(a, c) && (a == c ==> a == b)
  }

  lemma RunOrderFacts(le: RunOrder, a: string, b: string, c: string)
    requires IsRunOrder(le)
    ensures (le(a, b) || le(b, a)) && IsTransitiveAt(le, a, b, c)
  {
  }

  lemma RunThenStepIsAnOrder(le: RunOrder)
    requires IsRunOrder(le)
    ensures TotalPreorder(ByRunThenStep(le))
  {
    var order := ByRunThenStep(le);
    forall a: Call, b: Call
      ensures order(a, b) || order(b, a)
    {
      RunOrderFacts(le, a.run, b.run, b.run);
    }
    forall a: Call, b: Call, c: Call | order(a, b) && order(b, c)
      ensures order(a, c)
    {
      RunOrderFacts(le, a.run, b.run, c.run);
    }
  }

  lemma {:induction false} LastTaggingIsATagging(s: seq<Call>, run: string)
    ensures var w := LastTagging(s, run); w.Some? ==> w.value in s && Tags(w.value, run)
  {
    if s != [] {
      LastTaggingIsATagging(s[1..], run);
    }
  }

  /** Inserting a call in front of its equals changes the last tagging call only if it comes
      strictly later. */
  lemma {:induction false} InsertAndLast(le: RunOrder, x: Call, s: seq<Call>, run: string)
    requires TotalPreorder(ByRunThenStep(le)) && Sorted(ByRunThenStep(le), s)
    ensures var w := LastTagging(s, run);
            LastTagging(Insert(ByRunThenStep(le), x, s), run)
            == if Tags(x, run) && (w.Some? ==> x.step > w.value.step) then Some(x) else w
  {
    var order := ByRunThenStep(le);
    if s == [] {
    } else if order(x, s[0]) {
      assert Insert(order, x, s) == [x] + s && ([x] + s)[1..] == s;
      LastTaggingIsATagging(s, run);
      var w := LastTagging(s, run);
      if w.Some? && Tags(x, run) {
      }
    } else {
      var rest := Insert(order, x, s[1..]);
      assert Insert(order, x, s) == [s[0]] + rest && ([s[0]] + rest)[1..] == rest;
      InsertAndLast(le, x, s[1..], run);
    }
  }

  /** Scanning in sorted order ends on the winner. */
  lemma {:induction false} SortedLastIsTheWinner(le: RunOrder, calls: seq<Call>, run: string)
    requires IsRunOrder(le)
    ensures LastTagging(Sort(ByRunThenStep(le), calls), run) == Winner(calls, run)
  {
    if calls != [] {
      RunThenStepIsAnOrder(le);
      SortSorts(ByRunThenStep(le), calls[1..]);
      SortedLastIsTheWinner(le, calls[1..], run);
      InsertAndLast(le, calls[0], Sort(ByRunThenStep(le), calls[1..]), run);
    }
  }

  /** A run's outcome: its winner's tag, or none. */
  function Outcome(calls: seq<Call>, run: string): Option<string> {
    var w := Winner(calls, run);
    if w.Some? then Some(w.value.outcome) else None
  }

  // ---- the two passes ----

  lemma {:induction false} LastTaggingOfPrefix(s: seq<Call>, c: Call, run: string)
    ensures LastTagging(s + [c], run) == if Tags(c, run) then Some(c) else LastTagging(s, run)
  {
    if s == [] {
      assert (s + [c])[1..] == [];
    } else {
      LastTaggingOfPrefix(s[1..], c, run);
      assert (s + [c])[1..] == s[1..] + [c];
    }
  }

  ghost predicate HoldsLastTags(winner: map<string, string>, s: seq<Call>) {
    forall run :: var w := LastTagging(s, run);
                  (run in winner <==> w.Some?) && (w.Some? ==> winner[run] == w.value.outcome)
  }

  lemma LastTagsStep(winner: map<string, string>, s: seq<Call>, c: Call)
    requires HoldsLastTags(winner, s)
    ensures HoldsLastTags(if c.outcome != "" then winner[c.run := c.outcome] else winner, s + [c])
  {
    var after := if c.outcome != "" then winner[c.run := c.outcome] else winner;
    forall run
      ensures var w := LastTagging(s + [c], run);
              (run in after <==> w.Some?) && (w.Some? ==> after[run] == w.value.outcome)
    {
      LastTaggingOfPrefix(s, c, run);
    }
  }

  method WinningTags(calls: seq<Call>, le: RunOrder) returns (winner: map<string, string>)
    requires IsRunOrder(le)
    ensures forall run :: (run in winner <==> Outcome(calls, run).Some?)
                          && (run in winner ==> Outcome(calls, run) == Some(winner[run]))
  {
    var ordered := Sort(ByRunThenStep(le), calls);
    winner := map[];
    for i := 0 to |ordered|
      invariant HoldsLastTags(winner, ordered[..i])
    {
      var c := ordered[i];
      LastTagsStep(winner, ordered[..i], c);
      assert ordered[..i + 1] == ordered[..i] + [c];
      if c.outcome != "" {
        winner := winner[c.run := c.outcome];
      }
    }
    assert ordered[..|ordered|] == ordered;
    forall run
      ensures LastTagging(ordered, run) == Winner(calls, run)
    {
      SortedLastIsTheWinner(le, calls, run);
    }
  }

  type Tag = Option<string>

  datatype Row = Row(runs: set<string>, cost: int, calls: nat, blocked: nat)

  const NO_ROW: Row := Row({}, 0, 0, 0)

  function Counted(row: Row, c: Call): Row {
    Row(row.runs + {c.run}, row.cost + Settled(c), row.calls + 1, row.blocked + (if c.blocked then 1 else 0))
  }

  /** A blocked call's cost is an avoided estimate. */
  function Settled(c: Call): int {
    if c.blocked then 0 else c.cost
  }

  /** What one tag's row must hold: everything about the runs that carry it. */
  function RowOf(calls: seq<Call>, tag: Tag, outcome: string -> Tag): Row {
    if calls == [] then NO_ROW
    else
      var row, c := RowOf(calls[..|calls| - 1], tag, outcome), calls[|calls| - 1];
      if outcome(c.run) == tag then Counted(row, c) else row
  }

  ghost predicate AreRows(rows: map<Tag, Row>, calls: seq<Call>, outcome: string -> Tag) {
    forall tag :: && (tag in rows <==> RowOf(calls, tag, outcome) != NO_ROW)
                  && (tag in rows ==> rows[tag] == RowOf(calls, tag, outcome))
  }

  lemma RowsStep(rows: map<Tag, Row>, calls: seq<Call>, c: Call, outcome: string -> Tag)
    requires AreRows(rows, calls, outcome)
    ensures var tag := outcome(c.run);
            AreRows(rows[tag := Counted(if tag in rows then rows[tag] else NO_ROW, c)], calls + [c], outcome)
  {
    assert (calls + [c])[..|calls|] == calls;
  }

  // ---- conservation ----

  function Sizes(rows: map<Tag, Row>): map<Tag, int> {
    map t | t in rows :: rows[t].calls
  }

  function Costs(rows: map<Tag, Row>): map<Tag, int> {
    map t | t in rows :: rows[t].cost
  }

  function RunCounts(rows: map<Tag, Row>): map<Tag, int> {
    map t | t in rows :: |rows[t].runs|
  }

  function SettledCost(calls: seq<Call>): int {
    if calls == [] then 0
    else SettledCost(calls[..|calls| - 1]) + (if calls[|calls| - 1].blocked then 0 else calls[|calls| - 1].cost)
  }

  function RunsOf(calls: seq<Call>): set<string> {
    if calls == [] then {} else RunsOf(calls[..|calls| - 1]) + {calls[|calls| - 1].run}
  }

  /** The rows of a trace, built call by call. */
  function Rows(calls: seq<Call>, outcome: string -> Tag): map<Tag, Row> {
    if calls == [] then map[]
    else
      var rows, c := Rows(calls[..|calls| - 1], outcome), calls[|calls| - 1];
      var tag := outcome(c.run);
      rows[tag := Counted(if tag in rows then rows[tag] else NO_ROW, c)]
  }

  lemma {:induction false} RowsAreRows(calls: seq<Call>, outcome: string -> Tag)
    ensures AreRows(Rows(calls, outcome), calls, outcome)
  {
    if calls != [] {
      var before := calls[..|calls| - 1];
      RowsAreRows(before, outcome);
      RowsStep(Rows(before, outcome), before, calls[|calls| - 1], outcome);
      assert before + [calls[|calls| - 1]] == calls;
    }
  }

  /** The calls of the runs that carry a tag. */
  function OfTag(calls: seq<Call>, tag: Tag, outcome: string -> Tag): seq<Call> {
    if calls == [] then []
    else OfTag(calls[..|calls| - 1], tag, outcome)
         + (if outcome(calls[|calls| - 1].run) == tag then [calls[|calls| - 1]] else [])
  }

  ghost function BlockedIn(calls: seq<Call>): set<int> {
    set i | 0 <= i < |calls| && calls[i].blocked
  }

  lemma BlockedInStep(calls: seq<Call>, c: Call)
    ensures |BlockedIn(calls + [c])| == |BlockedIn(calls)| + if c.blocked then 1 else 0
  {
    if c.blocked {
      assert BlockedIn(calls + [c]) == BlockedIn(calls) + {|calls|};
    } else {
      assert BlockedIn(calls + [c]) == BlockedIn(calls);
    }
  }

  /** What a row holds: the runs of its calls, what those of them that were not blocked
      cost, how many there are and how many were blocked. */
  lemma {:induction false} RowCountsItsCalls(calls: seq<Call>, tag: Tag, outcome: string -> Tag)
    ensures var row, own := RowOf(calls, tag, outcome), OfTag(calls, tag, outcome);
            && row.runs == RunsOf(own) && row.cost == SettledCost(own)
            && row.calls == |own| && row.blocked == |BlockedIn(own)|
  {
    if calls == [] {
      assert BlockedIn([]) == {};
    } else {
      var init, c := calls[..|calls| - 1], calls[|calls| - 1];
      var own := OfTag(init, tag, outcome);
      RowCountsItsCalls(init, tag, outcome);
      if outcome(c.run) == tag {
        BlockedInStep(own, c);
        assert (own + [c])[..|own|] == own;
      } else {
        assert OfTag(calls, tag, outcome) == own;
      }
    }
  }

  /** A run already seen is in its tag's row and in no other. */
  lemma {:induction false} RunsStayTogether(calls: seq<Call>, run: string, tag: Tag, outcome: string -> Tag)
    ensures run in RowOf(calls, tag, outcome).runs <==> run in RunsOf(calls) && outcome(run) == tag
  {
    if calls != [] {
      RunsStayTogether(calls[..|calls| - 1], run, tag, outcome);
    }
  }

  lemma SizeStep(rows: map<Tag, Row>, tag: Tag, row: Row)
    ensures Sum(Sizes(rows[tag := row])) == Sum(Sizes(rows)) + row.calls - (if tag in rows then rows[tag].calls else 0)
  {
    SumUpdate(Sizes(rows), tag, row.calls);
    assert Sizes(rows[tag := row]) == Sizes(rows)[tag := row.calls];
  }

  lemma CostStep(rows: map<Tag, Row>, tag: Tag, row: Row)
    ensures Sum(Costs(rows[tag := row])) == Sum(Costs(rows)) + row.cost - (if tag in rows then rows[tag].cost else 0)
  {
    SumUpdate(Costs(rows), tag, row.cost);
    assert Costs(rows[tag := row]) == Costs(rows)[tag := row.cost];
  }

  lemma RunCountStep(rows: map<Tag, Row>, tag: Tag, row: Row)
    ensures Sum(RunCounts(rows[tag := row])) == Sum(RunCounts(rows)) + |row.runs| - (if tag in rows then |rows[tag].runs| else 0)
  {
    SumUpdate(RunCounts(rows), tag, |row.runs|);
    assert RunCounts(rows[tag := row]) == RunCounts(rows)[tag := |row.runs|];
  }

  lemma CountStep(rows: map<Tag, Row>, tag: Tag, c: Call)
    ensures var row := if tag in rows then rows[tag] else NO_ROW;
            var after := rows[tag := Counted(row, c)];
            && Sum(Sizes(after)) == Sum(Sizes(rows)) + 1
            && Sum(Costs(after)) == Sum(Costs(rows)) + Settled(c)
            && Sum(RunCounts(after)) == Sum(RunCounts(rows)) + (if c.run in row.runs then 0 else 1)
  {
    var row := if tag in rows then rows[tag] else NO_ROW;
    var next := Counted(row, c);
    SizeStep(rows, tag, next);
    CostStep(rows, tag, next);
    RunCountStep(rows, tag, next);
    assert c.run in row.runs ==> next.runs == row.runs;
  }

  lemma SeenIffInItsRow(calls: seq<Call>, run: string, outcome: string -> Tag)
    ensures var rows, tag := Rows(calls, outcome), outcome(run);
            run in RunsOf(calls) <==> run in (if tag in rows then rows[tag] else NO_ROW).runs
  {
    RowsAreRows(calls, outcome);
    RunsStayTogether(calls, run, outcome(run), outcome);
  }

  /** Calls, settled cost and runs are all accounted for, each once, whatever the tags. */
  lemma {:induction false} RowsConserve(calls: seq<Call>, outcome: string -> Tag)
    ensures var rows := Rows(calls, outcome);
            && Sum(Sizes(rows)) == |calls|
            && Sum(Costs(rows)) == SettledCost(calls)
            && Sum(RunCounts(rows)) == |RunsOf(calls)|
  {
    if calls == [] {
      assert Sizes(map[]) == map[] && Costs(map[]) == map[] && RunCounts(map[]) == map[];
    } else {
      var before, c := calls[..|calls| - 1], calls[|calls| - 1];
      RowsConserve(before, outcome);
      SeenIffInItsRow(before, c.run, outcome);
      CountStep(Rows(before, outcome), outcome(c.run), c);
      assert c.run in RunsOf(before) ==> RunsOf(calls) == RunsOf(before);
    }
  }

  // ---- the report ----

  /** A tag's row as it is accumulated, its cost in an `i64`. */
  datatype Acc = Acc(runs: set<string>, cost: i64, calls: nat, blocked: nat)

  const EMPTY_ACC: Acc := Acc({}, 0, 0, 0)

  function Folded(acc: Acc, c: Call, wrap: Wrapping): Acc {
    Acc(acc.runs + {c.run}, if c.blocked then acc.cost else wrap(acc.cost + c.cost),
        acc.calls + 1, acc.blocked + (if c.blocked then 1 else 0))
  }

  ghost function Held(row: Row, wrap: Wrapping): Acc {
    Acc(row.runs, wrap(row.cost), row.calls, row.blocked)
  }

  ghost predicate Hold(buckets: map<Tag, Acc>, rows: map<Tag, Row>, wrap: Wrapping) {
    buckets.Keys == rows.Keys && forall tag :: tag in rows ==> buckets[tag] == Held(rows[tag], wrap)
  }

  lemma FoldedIsHeld(row: Row, c: Call, wrap: Wrapping)
    requires IsWrapping(wrap)
    ensures Folded(Held(row, wrap), c, wrap) == Held(Counted(row, c), wrap) && Held(NO_ROW, wrap) == EMPTY_ACC
  {
    assert Absorbs(wrap, row.cost, c.cost);
  }

  lemma FilledStep(
    buckets: map<Tag, Acc>, calls: seq<Call>, n: nat, tag: Tag, acc: Acc, wrap: Wrapping, outcome: string -> Tag)
    requires IsWrapping(wrap) && n < |calls| && Hold(buckets, Rows(calls[..n], outcome), wrap)
    requires tag == outcome(calls[n].run)
    requires acc == Folded(if tag in buckets then buckets[tag] else EMPTY_ACC, calls[n], wrap)
    ensures Hold(buckets[tag := acc], Rows(calls[..n + 1], outcome), wrap)
  {
    assert calls[..n + 1][..n] == calls[..n];
    var rows, c := Rows(calls[..n], outcome), calls[n];
    FoldedIsHeld(if tag in rows then rows[tag] else NO_ROW, c, wrap);
  }

  datatype OutcomeRow = OutcomeRow(outcome: Tag, runs: nat, cost: i64, calls: nat, blocked: nat)

  function Listed(tag: Tag, acc: Acc): OutcomeRow {
    OutcomeRow(tag, |acc.runs|, acc.cost, acc.calls, acc.blocked)
  }

  /** Tags in their order, the untagged row last. */
  function ByTag(le: RunOrder): (OutcomeRow, OutcomeRow) -> bool {
    (a: OutcomeRow, b: OutcomeRow) => b.outcome.None? || (a.outcome.Some? && le(a.outcome.value, b.outcome.value))
  }

  lemma ByTagIsAnOrder(le: RunOrder)
    requires IsRunOrder(le)
    ensures TotalPreorder(ByTag(le))
  {
    var order := ByTag(le);
    forall a: OutcomeRow, b: OutcomeRow, c: OutcomeRow | order(a, b) && order(b, c)
      ensures order(a, c)
    {
      if c.outcome.Some? {
        RunOrderFacts(le, a.outcome.value, b.outcome.value, c.outcome.value);
      }
    }
    forall a: OutcomeRow, b: OutcomeRow
      ensures order(a, b) || order(b, a)
    {
      if a.outcome.Some? && b.outcome.Some? {
        RunOrderFacts(le, a.outcome.value, b.outcome.value, b.outcome.value);
      }
    }
  }

  ghost predicate Shows(r: OutcomeRow, row: Row, wrap: Wrapping) {
    r.runs == |row.runs| && r.cost == wrap(row.cost) && r.calls == row.calls && r.blocked == row.blocked
  }

  /** One line for each row, and nothing else. */
  ghost predicate Lists(report: seq<OutcomeRow>, rows: map<Tag, Row>, wrap: Wrapping) {
    && (forall r :: r in report ==> r.outcome in rows && Shows(r, rows[r.outcome], wrap))
    && (forall tag :: tag in rows ==> Listed(tag, Held(rows[tag], wrap)) in report)
    && Distinct(report)
  }

  /** Tagged lines come in the order of their tags, the untagged one after them all. */
  ghost predicate Precedes(a: OutcomeRow, b: OutcomeRow, le: RunOrder) {
    && a.outcome != b.outcome && a.outcome.Some?
    && (b.outcome.Some? ==> le(a.outcome.value, b.outcome.value))
  }

  ghost predicate InTagOrder(report: seq<OutcomeRow>, le: RunOrder) {
    forall i, j :: 0 <= i < j < |report| ==> Precedes(report[i], report[j], le)
  }

  /** A tag has one line. */
  lemma OneLineEach(rows: map<Tag, Row>, a: OutcomeRow, b: OutcomeRow, wrap: Wrapping)
    requires a.outcome in rows && Shows(a, rows[a.outcome], wrap) && b.outcome in rows && Shows(b, rows[b.outcome], wrap)
    requires a != b
    ensures a.outcome != b.outcome
  {
  }

  lemma RearrangedLists(listed: seq<OutcomeRow>, report: seq<OutcomeRow>, rows: map<Tag, Row>, wrap: Wrapping)
    requires Lists(listed, rows, wrap) && multiset(listed) == multiset(report)
    ensures Lists(report, rows, wrap)
  {
    RearrangedDistinct(listed, report);
  }

  ghost predicate TagsDiffer(report: seq<OutcomeRow>) {
    forall i, j :: 0 <= i < j < |report| ==> report[i].outcome != report[j].outcome
  }

  lemma LinesHaveTheirTags(report: seq<OutcomeRow>, rows: map<Tag, Row>, wrap: Wrapping)
    requires Distinct(report) && forall r :: r in report ==> r.outcome in rows && Shows(r, rows[r.outcome], wrap)
    ensures TagsDiffer(report)
  {
    forall i, j | 0 <= i < j < |report|
      ensures report[i].outcome != report[j].outcome
    {
      OneLineEach(rows, report[i], report[j], wrap);
    }
  }

  lemma OrderedReport(report: seq<OutcomeRow>, le: RunOrder)
    requires TagsDiffer(report) && Sorted(ByTag(le), report)
    ensures InTagOrder(report, le)
  {
    var order := ByTag(le);
    forall i, j | 0 <= i < j < |report|
      ensures Precedes(report[i], report[j], le)
    {
      assert order(report[i], report[j]);
    }
  }

  lemma SortedReport(listed: seq<OutcomeRow>, rows: map<Tag, Row>, le: RunOrder, wrap: Wrapping)
    requires IsRunOrder(le) && Lists(listed, rows, wrap)
    ensures var report := Sort(ByTag(le), listed);
            Lists(report, rows, wrap) && InTagOrder(report, le)
  {
    var report := Sort(ByTag(le), listed);
    ByTagIsAnOrder(le);
    SortKeeps(ByTag(le), listed);
    SortSorts(ByTag(le), listed);
    RearrangedLists(listed, report, rows, wrap);
    LinesHaveTheirTags(report, rows, wrap);
    OrderedReport(report, le);
  }

  function CallsIn(report: seq<OutcomeRow>): nat {
    if report == [] then 0 else CallsIn(report[..|report| - 1]) + report[|report| - 1].calls
  }

  function RunsIn(report: seq<OutcomeRow>): nat {
    if report == [] then 0 else RunsIn(report[..|report| - 1]) + report[|report| - 1].runs
  }

  function CostIn(report: seq<OutcomeRow>): int {
    if report == [] then 0 else CostIn(report[..|report| - 1]) + report[|report| - 1].cost
  }

  /** The same taken line by line: the last one is its tag's, the others are the rest's. */
  ghost predicate Exhausts(report: seq<OutcomeRow>, rows: map<Tag, Row>, wrap: Wrapping) {
    if report == [] then rows == map[]
    else
      var last := report[|report| - 1];
      && last.outcome in rows && last == Listed(last.outcome, Held(rows[last.outcome], wrap))
      && Exhausts(report[..|report| - 1], rows - {last.outcome}, wrap)
  }

  lemma ListsButLast(init: seq<OutcomeRow>, last: OutcomeRow, rows: map<Tag, Row>, wrap: Wrapping)
    requires Lists(init + [last], rows, wrap)
    ensures last.outcome in rows && Shows(last, rows[last.outcome], wrap)
    ensures Lists(init, rows - {last.outcome}, wrap)
  {
    var report := init + [last];
    assert report[|init|] == last && last in report;
    forall r | r in init
      ensures r in report && r.outcome != last.outcome
    {
      var i :| 0 <= i < |init| && init[i] == r;
      assert report[i] == r && r in report;
      OneLineEach(rows, r, last, wrap);
    }
    assert forall i :: 0 <= i < |init| ==> init[i] == report[i];
    forall tag | tag in rows - {last.outcome}
      ensures Listed(tag, Held(rows[tag], wrap)) in init
    {
      assert Listed(tag, Held(rows[tag], wrap)) in report;
    }
  }

  lemma {:induction false} ListsExhausts(report: seq<OutcomeRow>, rows: map<Tag, Row>, wrap: Wrapping)
    requires Lists(report, rows, wrap)
    ensures Exhausts(report, rows, wrap)
  {
    if report == [] {
      assert forall tag :: tag !in rows;
    } else {
      var init, last := report[..|report| - 1], report[|report| - 1];
      assert report == init + [last];
      ListsButLast(init, last, rows, wrap);
      ListsExhausts(init, rows - {last.outcome}, wrap);
    }
  }

  lemma TakeRow(rows: map<Tag, Row>, tag: Tag)
    requires tag in rows
    ensures Sum(Sizes(rows)) == Sum(Sizes(rows - {tag})) + rows[tag].calls
    ensures Sum(RunCounts(rows)) == Sum(RunCounts(rows - {tag})) + |rows[tag].runs|
    ensures Sum(Costs(rows)) == Sum(Costs(rows - {tag})) + rows[tag].cost
  {
    SumTake(Sizes(rows), tag);
    SumTake(RunCounts(rows), tag);
    SumTake(Costs(rows), tag);
    assert Sizes(rows) - {tag} == Sizes(rows - {tag});
    assert RunCounts(rows) - {tag} == RunCounts(rows - {tag});
    assert Costs(rows) - {tag} == Costs(rows - {tag});
  }

  lemma WrappedSum(a: int, b: int, x: int, y: int, shown: int, exact: int, wrap: Wrapping)
    requires IsWrapping(wrap) && wrap(a) == wrap(x) && b == wrap(y)
    requires shown == a + b && exact == x + y
    ensures wrap(shown) == wrap(exact)
  {
    assert Absorbs(wrap, y, a) && Absorbs(wrap, a, y) && Absorbs(wrap, x, y);
    assert b + a == a + b && y + a == a + y;
  }

  lemma OneMoreLine(init: seq<OutcomeRow>, last: OutcomeRow)
    ensures CallsIn(init + [last]) == CallsIn(init) + last.calls
    ensures RunsIn(init + [last]) == RunsIn(init) + last.runs
    ensures CostIn(init + [last]) == CostIn(init) + last.cost
  {
    assert (init + [last])[..|init|] == init;
  }

  lemma LastLine(init: seq<OutcomeRow>, last: OutcomeRow, rows: map<Tag, Row>, fewer: map<Tag, Row>, wrap: Wrapping)
    requires IsWrapping(wrap) && last.outcome in rows && fewer == rows - {last.outcome}
    requires last == Listed(last.outcome, Held(rows[last.outcome], wrap))
    requires CallsIn(init) == Sum(Sizes(fewer)) && RunsIn(init) == Sum(RunCounts(fewer))
    requires wrap(CostIn(init)) == wrap(Sum(Costs(fewer)))
    ensures var report := init + [last];
            && CallsIn(report) == Sum(Sizes(rows)) && RunsIn(report) == Sum(RunCounts(rows))
            && wrap(CostIn(report)) == wrap(Sum(Costs(rows)))
  {
    OneMoreLine(init, last);
    TakeRow(rows, last.outcome);
    WrappedSum(CostIn(init), last.cost, Sum(Costs(fewer)), rows[last.outcome].cost,
               CostIn(init + [last]), Sum(Costs(rows)), wrap);
  }

  /** The lines add up to what the rows hold, the costs up to wrapping. */
  lemma {:induction false} LinesAddUp(report: seq<OutcomeRow>, rows: map<Tag, Row>, wrap: Wrapping)
    requires IsWrapping(wrap) && Exhausts(report, rows, wrap)
    ensures CallsIn(report) == Sum(Sizes(rows)) && RunsIn(report) == Sum(RunCounts(rows))
    ensures wrap(CostIn(report)) == wrap(Sum(Costs(rows)))
  {
    if report == [] {
      assert Sizes(rows) == map[] && RunCounts(rows) == map[] && Costs(rows) == map[];
    } else {
      var init, last := report[..|report| - 1], report[|report| - 1];
      LinesAddUp(init, rows - {last.outcome}, wrap);
      LastLine(init, last, rows, rows - {last.outcome}, wrap);
      assert report == init + [last];
    }
  }

  /** Pass two: every call into the bucket of its run's tag. */
  method FillBuckets(calls: seq<Call>, winner: map<string, string>, wrap: Wrapping, ghost outcome: string -> Tag)
    returns (buckets: map<Tag, Acc>)
    requires IsWrapping(wrap)
    requires forall run :: outcome(run) == if run in winner then Some(winner[run]) else None
    ensures Hold(buckets, Rows(calls, outcome), wrap)
  {
    buckets := map[];
    for i := 0 to |calls|
      invariant Hold(buckets, Rows(calls[..i], outcome), wrap)
    {
      var c := calls[i];
      var tag := if c.run in winner then Some(winner[c.run]) else None;
      var acc := if tag in buckets then buckets[tag] else EMPTY_ACC;
      var cost := acc.cost;
      if !c.blocked {
        cost := wrap(cost + c.cost);
      }
      acc := Acc(acc.runs + {c.run}, cost, acc.calls + 1, acc.blocked + (if c.blocked then 1 else 0));
      FilledStep(buckets, calls, i, tag, acc, wrap, outcome);
      buckets := buckets[tag := acc];
    }
    assert calls[..|calls|] == calls;
  }

  lemma ListsOneMore(report: seq<OutcomeRow>, rows: map<Tag, Row>, rest: set<Tag>, tag: Tag, wrap: Wrapping)
    requires Lists(report, rows - rest, wrap) && tag in rest && tag in rows
    ensures Lists(report + [Listed(tag, Held(rows[tag], wrap))], rows - (rest - {tag}), wrap)
  {
    var r := Listed(tag, Held(rows[tag], wrap));
    assert r !in report;
    assert rows - (rest - {tag}) == (rows - rest)[tag := rows[tag]];
  }

  method ListBuckets(buckets: map<Tag, Acc>, ghost rows: map<Tag, Row>, wrap: Wrapping) returns (report: seq<OutcomeRow>)
    requires Hold(buckets, rows, wrap)
    ensures Lists(report, rows, wrap)
  {
    report := [];
    var rest := buckets;
    assert rows - rows.Keys == map[];
    while rest != map[]
      invariant rest.Keys <= rows.Keys && forall tag :: tag in rest ==> rest[tag] == Held(rows[tag], wrap)
      invariant Lists(report, rows - rest.Keys, wrap)
      decreases |rest|
    {
      var tag :| tag in rest;
      ListsOneMore(report, rows, rest.Keys, tag, wrap);
      report := report + [Listed(tag, rest[tag])];
      rest := rest - {tag};
    }
    assert rows - {} == rows;
  }

  /** One line for every tag that some run carries, with that tag's distinct runs, wrapped
      settled cost, calls and blocked calls, in the order of the tags with the untagged line
      last; every call and every run is in exactly one line, and so is every settled
      microdollar up to wrapping. */
  method ComputeOutcomes(calls: seq<Call>, le: RunOrder, wrap: Wrapping) returns (report: seq<OutcomeRow>)
    requires IsRunOrder(le) && IsWrapping(wrap)
    ensures var rows := Rows(calls, run => Outcome(calls, run));
            AreRows(rows, calls, run => Outcome(calls, run)) && Lists(report, rows, wrap) && InTagOrder(report, le)
    ensures CallsIn(report) == |calls| && RunsIn(report) == |RunsOf(calls)|
    ensures wrap(CostIn(report)) == wrap(SettledCost(calls))
  {
    var winner := WinningTags(calls, le);
    ghost var outcome := run => Outcome(calls, run);
    ghost var rows := Rows(calls, outcome);
    var buckets := FillBuckets(calls, winner, wrap, outcome);
    var listed := ListBuckets(buckets, rows, wrap);
    report := Sort(ByTag(le), listed);
    SortedReport(listed, rows, le, wrap);
    ListsExhausts(report, rows, wrap);
    LinesAddUp(report, rows, wrap);
    RowsAreRows(calls, outcome);
    RowsConserve(calls, outcome);
  }
}
