/** The month-to-date accumulators per business unit (`crates/cloud/src/store.rs`): lazy
    rollover and a capped map, proved equal to a tally over the whole history. */
module UnitMonths {
  import opened Basics
  import opened CloudRecords
  import opened MapSum
  import opened MonthKey

  const MAX_UNIT_MONTH_KEYS: nat := 4_096
  const UNASSIGNED: string := "unassigned"

  datatype Acc = Acc(window: string, spent: i64, calls: nat)

  type Accs = map<string, Acc>

  /** A record and the month of the plane's clock when it was ingested. */
  datatype Stamped = Stamped(record: CallRecord, month: string)

  function Named(unit: string): string {
    if unit == "" then UNASSIGNED else unit
  }

  /** The accumulator a record lands in: its own while there is room for it. */
  function Bucket(keys: set<string>, unit: string): string {
    if Named(unit) in keys || |keys| < MAX_UNIT_MONTH_KEYS then Named(unit) else UNASSIGNED
  }

  function Rolled(accs: Accs, bucket: string, month: string): Acc {
    if bucket in accs && accs[bucket].window == month then accs[bucket] else Acc(month, 0, 0)
  }

  function Folded(accs: Accs, s: Stamped): Accs {
    var r := s.record;
    var bucket := Bucket(accs.Keys, r.unit);
    accs[bucket := Credited(Rolled(accs, bucket, s.month), r)]
  }

  function Credited(acc: Acc, r: CallRecord): Acc {
    acc.(calls := acc.calls + 1, spent := SatAddI64(acc.spent, Spend(r)))
  }

  function After(history: seq<Stamped>): Accs {
    if history == [] then map[] else Folded(After(history[..|history| - 1]), history[|history| - 1])
  }

  /** What a reader is shown: an accumulator last touched in another month reads as zero. */
  function MonthToDate(accs: Accs, unit: string, month: string): Acc {
    Rolled(accs, unit, month)
  }

  // ---- the tally over history ----

  /** Where a record belongs once the final set of keys is known: its own unit if that
      has an accumulator, and the common one otherwise. */
  function Owner(keys: set<string>, s: Stamped): string {
    if s.record.unit != "" && s.record.unit in keys then s.record.unit else "unassigned"
  }

  predicate Counts(s: Stamped, keys: set<string>, unit: string, month: string) {
    Owner(keys, s) == unit && s.month == month
  }

  function CallsOf(history: seq<Stamped>, keys: set<string>, unit: string, month: string): nat {
    if history == [] then 0
    else CallsOf(history[..|history| - 1], keys, unit, month)
         + (if Counts(history[|history| - 1], keys, unit, month) then 1 else 0)
  }

  function SpendOf(history: seq<Stamped>, keys: set<string>, unit: string, month: string): nat {
    if history == [] then 0
    else SpendOf(history[..|history| - 1], keys, unit, month)
         + (if Counts(history[|history| - 1], keys, unit, month) then CostOf(history[|history| - 1].record) else 0)
  }

  // The same from the record at `from` on.

  function CallsFrom(history: seq<Stamped>, from: nat, keys: set<string>, unit: string, month: string): nat {
    if |history| <= from then 0
    else CallsFrom(history[..|history| - 1], from, keys, unit, month)
         + (if Counts(history[|history| - 1], keys, unit, month) then 1 else 0)
  }

  function SpendFrom(history: seq<Stamped>, from: nat, keys: set<string>, unit: string, month: string): nat {
    if |history| <= from then 0
    else SpendFrom(history[..|history| - 1], from, keys, unit, month)
         + (if Counts(history[|history| - 1], keys, unit, month) then CostOf(history[|history| - 1].record) else 0)
  }

  /** A record the unit owns, of another month. */
  predicate CountsElsewhere(s: Stamped, keys: set<string>, unit: string, month: string) {
    Owner(keys, s) == unit && s.month != month
  }

  /** The unit's records leave the month: one of another month follows one of this. */
  ghost predicate Leaves(history: seq<Stamped>, keys: set<string>, unit: string, month: string) {
    exists i, j :: 0 <= i < j < |history|
                   && Counts(history[i], keys, unit, month) && CountsElsewhere(history[j], keys, unit, month)
  }

  /** Once the history reaches `month` it stays there. */
  ghost predicate Current(history: seq<Stamped>, month: string) {
    forall i, j :: 0 <= i <= j < |history| && history[i].month == month ==> history[j].month == month
  }

  /** A clock that never runs backwards stays in a month once it is there, */
  lemma ClockStaysCurrent(history: seq<Stamped>, clock: seq<int>, now: int)
    requires |clock| == |history| && forall i :: 0 <= i < |clock| ==> history[i].month == KeyOf(clock[i])
    requires forall i, j :: 0 <= i <= j < |clock| ==> clock[i] <= clock[j] <= now
    ensures Current(history, KeyOf(now))
  {
    forall i, j | 0 <= i <= j < |history| && history[i].month == KeyOf(now)
      ensures history[j].month == KeyOf(now)
    {
      MonthIsOneStretch(clock[i], clock[j], now);
    }
  }

  /** and while it does, no unit leaves that month. */
  lemma NobodyLeavesTheCurrentMonth(history: seq<Stamped>, keys: set<string>, unit: string, month: string)
    requires Current(history, month)
    ensures !Leaves(history, keys, unit, month)
  {
  }

  // ---- how keys are admitted ----

  /** Every record seen has an owner, and a name left out was left out because the map was full. */
  ghost predicate Settled(history: seq<Stamped>, keys: set<string>) {
    forall s :: s in history ==>
                  Owner(keys, s) in keys && (Named(s.record.unit) in keys || |keys| >= MAX_UNIT_MONTH_KEYS)
  }

  lemma OwnersAreStable(history: seq<Stamped>, keys: set<string>, s: Stamped)
    requires Settled(history, keys)
    ensures var more := keys + {Bucket(keys, s.record.unit)};
            && Settled(history + [s], more)
            && (forall e :: e in history ==> Owner(more, e) == Owner(keys, e))
            && Owner(more, s) == Bucket(keys, s.record.unit)
  {
    var bucket := Bucket(keys, s.record.unit);
    if bucket in keys {
      assert keys + {bucket} == keys;
    } else {
      assert |keys + {bucket}| == |keys| + 1;
    }
  }

  lemma {:induction false} TalliesAgree(
    history: seq<Stamped>, from: nat, keys: set<string>, more: set<string>, unit: string, month: string)
    requires forall e :: e in history ==> Owner(more, e) == Owner(keys, e)
    ensures CallsFrom(history, from, more, unit, month) == CallsFrom(history, from, keys, unit, month)
    ensures SpendFrom(history, from, more, unit, month) == SpendFrom(history, from, keys, unit, month)
    ensures Since(history, more, unit, month) == Since(history, keys, unit, month)
  {
    if history != [] {
      assert history[|history| - 1] in history;
      TalliesAgree(history[..|history| - 1], from, keys, more, unit, month);
    }
  }

  // ---- the accumulators ----

  /** Just past the last record the unit owns from another month. */
  function Since(history: seq<Stamped>, keys: set<string>, unit: string, month: string): (n: nat)
    ensures n <= |history|
  {
    if history == [] then 0
    else if CountsElsewhere(history[|history| - 1], keys, unit, month) then |history|
    else Since(history[..|history| - 1], keys, unit, month)
  }

  /** Record `n - 1` is of another month, and none after it is. */
  ghost predicate IsLastElsewhere(history: seq<Stamped>, n: nat, keys: set<string>, unit: string, month: string) {
    && n <= |history|
    && (n > 0 ==> CountsElsewhere(history[n - 1], keys, unit, month))
    && (forall k :: n <= k < |history| ==> !CountsElsewhere(history[k], keys, unit, month))
  }

  lemma LastStaysLast(history: seq<Stamped>, s: Stamped, n: nat, keys: set<string>, unit: string, month: string)
    requires IsLastElsewhere(history, n, keys, unit, month) && !CountsElsewhere(s, keys, unit, month)
    ensures IsLastElsewhere(history + [s], n, keys, unit, month)
  {
    var longer := history + [s];
    assert n > 0 ==> longer[n - 1] == history[n - 1];
    forall k | n <= k < |longer|
      ensures !CountsElsewhere(longer[k], keys, unit, month)
    {
      assert longer[k] == if k < |history| then history[k] else s;
    }
  }

  lemma {:induction false} SinceIsTheLast(history: seq<Stamped>, keys: set<string>, unit: string, month: string)
    ensures IsLastElsewhere(history, Since(history, keys, unit, month), keys, unit, month)
  {
    if history != [] && !CountsElsewhere(history[|history| - 1], keys, unit, month) {
      var init, s := history[..|history| - 1], history[|history| - 1];
      SinceIsTheLast(init, keys, unit, month);
      LastStaysLast(init, s, Since(init, keys, unit, month), keys, unit, month);
      assert history == init + [s];
    }
  }

  lemma {:induction false} TalliesSplit(history: seq<Stamped>, n: nat, keys: set<string>, unit: string, month: string)
    requires n <= |history|
    ensures CallsOf(history, keys, unit, month) == CallsOf(history[..n], keys, unit, month) + CallsFrom(history, n, keys, unit, month)
    ensures SpendOf(history, keys, unit, month) == SpendOf(history[..n], keys, unit, month) + SpendFrom(history, n, keys, unit, month)
  {
    if n == |history| {
      assert history[..n] == history;
    } else {
      TalliesSplit(history[..|history| - 1], n, keys, unit, month);
      assert history[..|history| - 1][..n] == history[..n];
    }
  }

  ghost predicate CountsSome(history: seq<Stamped>, n: nat, keys: set<string>, unit: string, month: string) {
    exists i :: 0 <= i < n && i < |history| && Counts(history[i], keys, unit, month)
  }

  lemma {:induction false} SomethingCountedIff(history: seq<Stamped>, n: nat, keys: set<string>, unit: string, month: string)
    requires n <= |history|
    ensures CallsOf(history[..n], keys, unit, month) > 0 <==> CountsSome(history, n, keys, unit, month)
  {
    if n > 0 {
      SomethingCountedIff(history, n - 1, keys, unit, month);
      assert history[..n][..n - 1] == history[..n - 1];
    }
  }

  /** Something counted before the last return is what leaving the month means. */
  lemma LeavesIff(history: seq<Stamped>, keys: set<string>, unit: string, month: string)
    ensures Leaves(history, keys, unit, month)
            <==> CallsOf(history[..Since(history, keys, unit, month)], keys, unit, month) > 0
  {
    var n := Since(history, keys, unit, month);
    SinceIsTheLast(history, keys, unit, month);
    SomethingCountedIff(history, n, keys, unit, month);
    LeavesBeforeTheLastIff(history, n, keys, unit, month);
  }

  lemma LeavesBeforeTheLastIff(history: seq<Stamped>, n: nat, keys: set<string>, unit: string, month: string)
    requires IsLastElsewhere(history, n, keys, unit, month)
    ensures Leaves(history, keys, unit, month) <==> CountsSome(history, n, keys, unit, month)
  {
    if CountsSome(history, n, keys, unit, month) {
      var i :| 0 <= i < n && i < |history| && Counts(history[i], keys, unit, month);
      assert CountsElsewhere(history[n - 1], keys, unit, month);
    }
  }

  /** What the unit shows for the month is the tally of its records since it was last
      seen in another one. */
  ghost predicate ShowsLastStretch(accs: Accs, history: seq<Stamped>, keys: set<string>, unit: string, month: string) {
    var since := Since(history, keys, unit, month);
    && MonthToDate(accs, unit, month).calls == CallsFrom(history, since, keys, unit, month)
    && MonthToDate(accs, unit, month).spent == Min(I64_MAX, SpendFrom(history, since, keys, unit, month))
  }

  lemma StampedLast(history: seq<Stamped>, s: Stamped)
    ensures (history + [s])[..|history|] == history && (history + [s])[|history|] == s
  {
  }

  lemma SinceStep(history: seq<Stamped>, s: Stamped, keys: set<string>, unit: string, month: string)
    ensures Since(history + [s], keys, unit, month)
            == if CountsElsewhere(s, keys, unit, month) then |history| + 1 else Since(history, keys, unit, month)
  {
    StampedLast(history, s);
  }

  lemma TallyStep(history: seq<Stamped>, from: nat, s: Stamped, keys: set<string>, unit: string, month: string)
    requires from <= |history|
    ensures var counts := Counts(s, keys, unit, month);
            && CallsFrom(history + [s], from, keys, unit, month) == CallsFrom(history, from, keys, unit, month) + (if counts then 1 else 0)
            && SpendFrom(history + [s], from, keys, unit, month)
               == SpendFrom(history, from, keys, unit, month) + (if counts then CostOf(s.record) else 0)
  {
    StampedLast(history, s);
  }

  /** A record restarts, raises or leaves alone what a unit shows. */
  lemma ShownStep(accs: Accs, s: Stamped, keys: set<string>, unit: string, month: string)
    requires Owner(keys, s) == Bucket(accs.Keys, s.record.unit)
    ensures MonthToDate(Folded(accs, s), unit, month)
            == if CountsElsewhere(s, keys, unit, month) then Acc(month, 0, 0)
               else if Counts(s, keys, unit, month) then Credited(MonthToDate(accs, unit, month), s.record)
               else MonthToDate(accs, unit, month)
  {
  }

  lemma StretchStep(accs: Accs, history: seq<Stamped>, s: Stamped, keys: set<string>, unit: string, month: string)
    requires ShowsLastStretch(accs, history, keys, unit, month)
    requires Owner(keys, s) == Bucket(accs.Keys, s.record.unit)
    ensures ShowsLastStretch(Folded(accs, s), history + [s], keys, unit, month)
  {
    SinceStep(history, s, keys, unit, month);
    ShownStep(accs, s, keys, unit, month);
    TallyStep(history, Since(history, keys, unit, month), s, keys, unit, month);
  }

  /** Every record seen has an owner among the final keys. */
  lemma {:induction false} KeysAreSettled(history: seq<Stamped>)
    ensures Settled(history, After(history).Keys)
  {
    if history != [] {
      var before, s := history[..|history| - 1], history[|history| - 1];
      KeysAreSettled(before);
      FoldedKeys(After(before), s);
      OwnersAreStable(before, After(before).Keys, s);
      assert before + [s] == history;
    }
  }

  /** A unit that was ever named has its own accumulator unless the map was full, and
      whatever has none, or no name, is in the common one. */
  lemma EveryUnitHasAnAccumulator(history: seq<Stamped>, s: Stamped)
    requires s in history
    ensures s.record.unit != "" && s.record.unit !in After(history) ==> |After(history)| >= 4_096
    ensures s.record.unit == "" || s.record.unit !in After(history) ==> "unassigned" in After(history)
  {
    KeysAreSettled(history);
    assert |After(history).Keys| == |After(history)|;
  }

  lemma FoldedKeys(accs: Accs, s: Stamped)
    ensures Folded(accs, s).Keys == accs.Keys + {Bucket(accs.Keys, s.record.unit)}
  {
  }

  lemma StretchesAgree(accs: Accs, history: seq<Stamped>, keys: set<string>, more: set<string>, unit: string, month: string)
    requires forall e :: e in history ==> Owner(more, e) == Owner(keys, e)
    requires ShowsLastStretch(accs, history, keys, unit, month)
    ensures ShowsLastStretch(accs, history, more, unit, month)
  {
    TalliesAgree(history, Since(history, keys, unit, month), keys, more, unit, month);
  }

  /** One more record, which may bring one more key. */
  lemma StretchGrows(history: seq<Stamped>, s: Stamped, unit: string, month: string)
    requires ShowsLastStretch(After(history), history, After(history).Keys, unit, month)
    ensures ShowsLastStretch(After(history + [s]), history + [s], After(history + [s]).Keys, unit, month)
  {
    var accs := After(history);
    StampedLast(history, s);
    KeysAreSettled(history);
    FoldedKeys(accs, s);
    OwnersAreStable(history, accs.Keys, s);
    var more := accs.Keys + {Bucket(accs.Keys, s.record.unit)};
    StretchesAgree(accs, history, accs.Keys, more, unit, month);
    StretchStep(accs, history, s, more, unit, month);
  }

  /** Over every history, whatever the clock did. */
  lemma {:induction false} MonthToDateIsTheLastStretch(history: seq<Stamped>, unit: string, month: string)
    ensures ShowsLastStretch(After(history), history, After(history).Keys, unit, month)
  {
    if history != [] {
      var before, s := history[..|history| - 1], history[|history| - 1];
      MonthToDateIsTheLastStretch(before, unit, month);
      StretchGrows(before, s, unit, month);
      assert before + [s] == history;
    }
  }

  /** The month-to-date figures of a unit never exceed the calls and the capped spend of
      the records it owns this month. The calls are exact if and only if its records never
      leave the month; the spend, if and only if none was spent before they last did or
      the spend since then is at the cap anyway. A named unit owns its own records and no
      others; "unassigned" owns all the rest. */
  lemma MonthToDateIsExactIff(history: seq<Stamped>, unit: string, month: string)
    ensures var accs := After(history);
            var n := Since(history, accs.Keys, unit, month);
            var shown := MonthToDate(accs, unit, month);
            && shown.calls <= CallsOf(history, accs.Keys, unit, month)
            && shown.spent <= Min(I64_MAX, SpendOf(history, accs.Keys, unit, month))
            && (shown.calls == CallsOf(history, accs.Keys, unit, month) <==> !Leaves(history, accs.Keys, unit, month))
            && (shown.spent == Min(I64_MAX, SpendOf(history, accs.Keys, unit, month)) <==>
                  SpendOf(history[..n], accs.Keys, unit, month) == 0
                  || SpendFrom(history, n, accs.Keys, unit, month) >= I64_MAX)
  {
    var keys := After(history).Keys;
    MonthToDateIsTheLastStretch(history, unit, month);
    TalliesSplit(history, Since(history, keys, unit, month), keys, unit, month);
    LeavesIff(history, keys, unit, month);
  }

  lemma {:induction false} NoCallsNoSpend(history: seq<Stamped>, keys: set<string>, unit: string, month: string)
    ensures CallsOf(history, keys, unit, month) == 0 ==> SpendOf(history, keys, unit, month) == 0
  {
    if history != [] {
      NoCallsNoSpend(history[..|history| - 1], keys, unit, month);
    }
  }

  /** A unit that never leaves the month shows exactly what it owns in it. */
  lemma StayingIsExact(history: seq<Stamped>, unit: string, month: string)
    requires !Leaves(history, After(history).Keys, unit, month)
    ensures var accs := After(history);
            && MonthToDate(accs, unit, month).calls == CallsOf(history, accs.Keys, unit, month)
            && MonthToDate(accs, unit, month).spent == Min(I64_MAX, SpendOf(history, accs.Keys, unit, month))
  {
    var keys := After(history).Keys;
    MonthToDateIsExactIff(history, unit, month);
    LeavesIff(history, keys, unit, month);
    NoCallsNoSpend(history[..Since(history, keys, unit, month)], keys, unit, month);
  }

  /** In particular while the clock stays in the month. */
  lemma MonthToDateIsExact(history: seq<Stamped>, unit: string, month: string)
    requires Current(history, month)
    ensures var accs := After(history);
            && MonthToDate(accs, unit, month).calls == CallsOf(history, accs.Keys, unit, month)
            && MonthToDate(accs, unit, month).spent == Min(I64_MAX, SpendOf(history, accs.Keys, unit, month))
  {
    NobodyLeavesTheCurrentMonth(history, After(history).Keys, unit, month);
    StayingIsExact(history, unit, month);
  }

  // ---- conservation ----

  function MonthCalls(history: seq<Stamped>, month: string): nat {
    if history == [] then 0
    else MonthCalls(history[..|history| - 1], month) + (if history[|history| - 1].month == month then 1 else 0)
  }

  function MonthSpend(history: seq<Stamped>, month: string): nat {
    if history == [] then 0
    else MonthSpend(history[..|history| - 1], month)
         + (if history[|history| - 1].month == month then CostOf(history[|history| - 1].record) else 0)
  }

  ghost function CallShares(history: seq<Stamped>, keys: set<string>, month: string): map<string, int> {
    map unit | unit in keys :: CallsOf(history, keys, unit, month)
  }

  ghost function SpendShares(history: seq<Stamped>, keys: set<string>, month: string): map<string, int> {
    map unit | unit in keys :: SpendOf(history, keys, unit, month)
  }

  ghost predicate Owned(history: seq<Stamped>, keys: set<string>) {
    forall s :: s in history ==> Owner(keys, s) in keys
  }

  lemma {:induction false} ZeroSum<K>(m: map<K, int>)
    requires forall k :: k in m ==> m[k] == 0
    ensures Sum(m) == 0
    decreases |m|
  {
    if m != map[] {
      var k :| k in m;
      SumTake(m, k);
      ZeroSum(m - {k});
    }
  }

  /** The units' shares of a month add up to the month. */
  lemma {:induction false} SharesAddUp(history: seq<Stamped>, keys: set<string>, month: string)
    requires Owned(history, keys)
    ensures Sum(CallShares(history, keys, month)) == MonthCalls(history, month)
    ensures Sum(SpendShares(history, keys, month)) == MonthSpend(history, month)
  {
    if history == [] {
      ZeroSum(CallShares(history, keys, month));
      ZeroSum(SpendShares(history, keys, month));
    } else {
      var before, s := history[..|history| - 1], history[|history| - 1];
      assert s in history;
      SharesAddUp(before, keys, month);
      var owner := Owner(keys, s);
      var calls, spend := CallShares(before, keys, month), SpendShares(before, keys, month);
      var moreCalls := CallsOf(history, keys, owner, month);
      var moreSpend := SpendOf(history, keys, owner, month);
      SumUpdate(calls, owner, moreCalls);
      SumUpdate(spend, owner, moreSpend);
      assert CallShares(history, keys, month) == calls[owner := moreCalls];
      assert SpendShares(history, keys, month) == spend[owner := moreSpend];
    }
  }

  ghost function Capped(m: map<string, int>): map<string, int> {
    map k | k in m :: Min(I64_MAX, m[k])
  }

  /** Capping each part and then the whole is capping the whole. */
  lemma {:induction false} CapOfCaps(m: map<string, int>)
    requires forall k :: k in m ==> m[k] >= 0
    ensures Min(I64_MAX, Sum(Capped(m))) == Min(I64_MAX, Sum(m))
    decreases |m|
  {
    if m == map[] {
      assert Capped(m) == map[];
    } else {
      var k :| k in m;
      CapOfCaps(m - {k});
      SumTake(m, k);
      SumTake(Capped(m), k);
      assert Capped(m) - {k} == Capped(m - {k});
      SumNonNegative(m - {k});
      SumNonNegative(Capped(m - {k}));
    }
  }

  ghost function CallsShown(accs: Accs, month: string): map<string, int> {
    map unit | unit in accs :: MonthToDate(accs, unit, month).calls
  }

  ghost function SpendShown(accs: Accs, month: string): map<string, int> {
    map unit | unit in accs :: MonthToDate(accs, unit, month).spent
  }

  /** No unit's records leave the month. */
  ghost predicate NobodyLeaves(history: seq<Stamped>, month: string) {
    forall unit :: unit in After(history) ==> !Leaves(history, After(history).Keys, unit, month)
  }

  lemma ShownAgainstShares(history: seq<Stamped>, month: string)
    ensures var shown, shares := CallsShown(After(history), month), CallShares(history, After(history).Keys, month);
            && shown.Keys == shares.Keys
            && (forall unit :: unit in shown ==> shown[unit] <= shares[unit])
            && (shown == shares <==> NobodyLeaves(history, month))
  {
    var accs := After(history);
    var shown, shares := CallsShown(accs, month), CallShares(history, accs.Keys, month);
    forall unit | unit in accs
      ensures shown[unit] <= shares[unit] && (shown[unit] == shares[unit] <==> !Leaves(history, accs.Keys, unit, month))
    {
      MonthToDateIsExactIff(history, unit, month);
    }
    if NobodyLeaves(history, month) {
      assert forall unit :: unit in accs ==> shown[unit] == shares[unit];
    }
  }

  lemma SpendShownIsCapped(history: seq<Stamped>, month: string)
    requires NobodyLeaves(history, month)
    ensures SpendShown(After(history), month) == Capped(SpendShares(history, After(history).Keys, month))
  {
    var accs := After(history);
    forall unit | unit in accs
      ensures SpendShown(accs, month)[unit] == Capped(SpendShares(history, accs.Keys, month))[unit]
    {
      StayingIsExact(history, unit, month);
    }
  }

  /** What the units show for a month never adds up to more calls than it had, and adds up
      to exactly that month's records, the overflow bucket included, if and only if no
      unit's records leave the month. */
  lemma TheMonthIsConservedIff(history: seq<Stamped>, month: string)
    ensures Sum(CallsShown(After(history), month)) <= MonthCalls(history, month)
    ensures Sum(CallsShown(After(history), month)) == MonthCalls(history, month) <==> NobodyLeaves(history, month)
  {
    var keys := After(history).Keys;
    KeysAreSettled(history);
    SharesAddUp(history, keys, month);
    ShownAgainstShares(history, month);
    SumsMeetIff(CallsShown(After(history), month), CallShares(history, keys, month));
  }

  /** Then the spends shown add up to that month's spend as well, up to the cap. */
  lemma StayingConservesSpend(history: seq<Stamped>, month: string)
    requires NobodyLeaves(history, month)
    ensures Min(I64_MAX, Sum(SpendShown(After(history), month))) == Min(I64_MAX, MonthSpend(history, month))
  {
    var keys := After(history).Keys;
    KeysAreSettled(history);
    SharesAddUp(history, keys, month);
    SpendShownIsCapped(history, month);
    CapOfCaps(SpendShares(history, keys, month));
  }

  /** While the clock stays in the month, both are conserved. */
  lemma TheMonthIsConserved(history: seq<Stamped>, month: string)
    requires Current(history, month)
    ensures Sum(CallsShown(After(history), month)) == MonthCalls(history, month)
    ensures Min(I64_MAX, Sum(SpendShown(After(history), month))) == Min(I64_MAX, MonthSpend(history, month))
  {
    forall unit | unit in After(history)
      ensures !Leaves(history, After(history).Keys, unit, month)
    {
      NobodyLeavesTheCurrentMonth(history, After(history).Keys, unit, month);
    }
    TheMonthIsConservedIff(history, month);
    StayingConservesSpend(history, month);
  }

  lemma AdmissionIsBounded(keys: set<string>, unit: string)
    requires |keys - {UNASSIGNED}| <= MAX_UNIT_MONTH_KEYS
    ensures |keys + {Bucket(keys, unit)} - {UNASSIGNED}| <= MAX_UNIT_MONTH_KEYS
  {
    var bucket := Bucket(keys, unit);
    if bucket == UNASSIGNED || bucket in keys {
      assert keys + {bucket} - {UNASSIGNED} == keys - {UNASSIGNED};
    } else {
      assert keys + {bucket} - {UNASSIGNED} == (keys - {UNASSIGNED}) + {bucket};
      AtMostOneMore(keys, UNASSIGNED);
    }
  }

  lemma AtMostOneMore<K>(keys: set<K>, k: K)
    ensures |keys - {k}| <= |keys| <= |keys - {k}| + 1
  {
    if k in keys {
      assert |keys| == |keys - {k}| + 1;
    } else {
      assert keys - {k} == keys;
    }
  }

  /** The map never holds more than the cap plus the "unassigned" bucket, in any order of months. */
  lemma {:induction false} UnitsAreBounded(history: seq<Stamped>)
    ensures |After(history).Keys - {"unassigned"}| <= 4_096
    ensures |After(history)| <= 4_097
  {
    if history != [] {
      var before, s := history[..|history| - 1], history[|history| - 1];
      UnitsAreBounded(before);
      FoldedKeys(After(before), s);
      AdmissionIsBounded(After(before).Keys, s.record.unit);
    }
    AtMostOneMore(After(history).Keys, UNASSIGNED);
    assert |After(history)| == |After(history).Keys|;
  }

  /** A clock that steps back into an earlier month restarts its count. */
  lemma SteppingBackLosesCalls(r: CallRecord, month: string, other: string)
    requires month != other
    ensures var history := [Stamped(r, month), Stamped(r, other), Stamped(r, month)];
            && MonthCalls(history, month) == 2
            && Sum(CallsShown(After(history), month)) == 1
  {
    var two, three := [Stamped(r, month), Stamped(r, other)], [Stamped(r, month), Stamped(r, other), Stamped(r, month)];
    var one := [Stamped(r, month)];
    assert three[..2] == two && two[..1] == one && one[..0] == [];
    var unit := Named(r.unit);
    assert After(one) == map[unit := Acc(month, Spend(r), 1)];
    assert After(two) == map[unit := Acc(other, Spend(r), 1)];
    assert After(three) == map[unit := Acc(month, Spend(r), 1)];
    var shown := CallsShown(After(three), month);
    SumTake(shown, unit);
    assert shown - {unit} == map[];
    assert MonthCalls(one, month) == 1 && MonthCalls(two, month) == 1;
  }
}
