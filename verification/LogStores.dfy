/** The raft log: the in-memory store (`crates/cluster/src/store.rs`) and the durable
    one (`crates/cluster/src/redbstore.rs`), whose purge is two commits. */
module LogStores {
  import opened Basics
  import opened RaftTypes
  import opened OrderedMap

  type Log = map<int, Entry>

  /** Every entry is stored under its own index. */
  ghost predicate WellKeyed(log: Log) {
    forall k :: k in log ==> 0 <= k <= U64_MAX && log[k].logId.index == k
  }

  datatype Tables = Tables(log: Log, purged: Option<LogId>)

  datatype LogState = LogState(lastPurged: Option<LogId>, last: Option<LogId>)

  datatype Bound = Included(index: u64) | Excluded(index: u64) | Unbounded

  // ----- What the operations mean -------------------------------------------

  function Inserted(log: Log, entries: seq<Entry>): Log {
    if entries == [] then log
    else
      var e := entries[|entries| - 1];
      Inserted(log, entries[..|entries| - 1])[e.logId.index := e]
  }

  function Below(log: Log, index: int): Log {
    map k | k in log && k < index :: log[k]
  }

  function Above(log: Log, index: int): Log {
    map k | k in log && index < k :: log[k]
  }

  function AfterPurge(t: Tables, id: LogId): Tables {
    Tables(Above(t.log, id.index), Some(id))
  }

  /** What a crash between purge's two commits leaves behind. */
  function HalfPurged(t: Tables, id: LogId): Tables {
    t.(purged := Some(id))
  }

  function StateOf(t: Tables): LogState {
    LogState(t.purged, if t.log == map[] then t.purged else Some(t.log[Greatest(t.log.Keys)].logId))
  }

  predicate AfterStart(start: Bound, k: int) {
    match start
    case Included(x) => x <= k
    case Excluded(x) => x < k
    case Unbounded => true
  }

  predicate BeforeEnd(end: Bound, k: int) {
    match end
    case Included(x) => k <= x
    case Excluded(x) => k < x
    case Unbounded => true
  }

  /** The ranges an ordered map accepts; it panics on any other. */
  predicate ValidRange(start: Bound, end: Bound) {
    start.Unbounded? || end.Unbounded? ||
    (start.index <= end.index && !(start.Excluded? && end.Excluded? && start.index == end.index))
  }

  function InRange(log: Log, start: Bound, end: Bound): Log {
    map k | k in log && AfterStart(start, k) && BeforeEnd(end, k) :: log[k]
  }

  /** `x + 1` on a `u64`, wrapping. */
  function NextIndex(x: u64): u64 {
    if x == U64_MAX then 0 else x + 1
  }

  /** The durable store first turns the bounds into a half-open pair of indices; the
      two increments wrap. */
  function HalfOpen(start: Bound, end: Bound): (u64, u64) {
    var lo := match start case Included(x) => x case Excluded(x) => NextIndex(x) case Unbounded => 0;
    var hi := match end case Included(x) => NextIndex(x) case Excluded(x) => x case Unbounded => U64_MAX;
    (lo, hi)
  }

  function InHalfOpen(log: Log, bounds: (u64, u64)): Log {
    map k | k in log && bounds.0 <= k < bounds.1 :: log[k]
  }

  // ----- What they leave in the tables ----------------------------------------

  /** Entry `i` is the last of `entries` under index `k`. */
  ghost predicate LastUnder(entries: seq<Entry>, k: int, i: nat) {
    && i < |entries| && entries[i].logId.index == k
    && forall j :: i < j < |entries| ==> entries[j].logId.index != k
  }

  ghost predicate Mentions(entries: seq<Entry>, k: int) {
    exists i :: 0 <= i < |entries| && entries[i].logId.index == k
  }

  /** `after` holds the last entry given for each index given, and is `before` elsewhere. */
  ghost predicate Overlays(after: Log, before: Log, entries: seq<Entry>) {
    && (forall k, i: nat :: LastUnder(entries, k, i) ==> k in after && after[k] == entries[i])
    && (forall k :: !Mentions(entries, k) ==> SameAt(after, before, k))
  }

  ghost predicate SameAt(a: Log, b: Log, k: int) {
    (k in a <==> k in b) && (k in a && k in b ==> a[k] == b[k])
  }

  /** `after` is `before` without the indices that are not `kept`. */
  ghost predicate Keeps(after: Log, before: Log, kept: int -> bool) {
    forall k :: if kept(k) then SameAt(after, before, k) else k !in after
  }

  /** The log id reported last: that of the greatest stored index, or the purged one. */
  ghost predicate Reports(state: LogState, t: Tables) {
    && state.lastPurged == t.purged
    && (t.log == map[] ==> state.last == t.purged)
    && (forall k :: k in t.log && (forall j :: j in t.log ==> j <= k) ==> state.last == Some(t.log[k].logId))
  }

  lemma {:induction false} InsertedOverlays(log: Log, entries: seq<Entry>)
    ensures Overlays(Inserted(log, entries), log, entries)
  {
    if entries != [] {
      var init, e := entries[..|entries| - 1], entries[|entries| - 1];
      var after := Inserted(log, entries);
      InsertedOverlays(log, init);
      forall k, i: nat | LastUnder(entries, k, i)
        ensures k in after && after[k] == entries[i]
      {
        if i < |init| {
          assert entries[|init|].logId.index != k;
          assert LastUnder(init, k, i);
        }
      }
      forall k | !Mentions(entries, k)
        ensures SameAt(after, log, k)
      {
        assert entries[|init|].logId.index != k;
        assert forall i :: 0 <= i < |init| ==> entries[i].logId.index != k;
        assert !Mentions(init, k);
        assert SameAt(Inserted(log, init), log, k);
      }
    }
  }

  // ----- What a read returns -------------------------------------------------

  ghost predicate Stores(log: Log, e: Entry) {
    e.logId.index in log && log[e.logId.index] == e
  }

  ghost predicate IndicesIncrease(entries: seq<Entry>) {
    forall i, j :: 0 <= i < j < |entries| ==> entries[i].logId.index < entries[j].logId.index
  }

  /** The stored entries within the bounds, each once, in the order of their indices. */
  ghost predicate IsReadOf(entries: seq<Entry>, log: Log, start: Bound, end: Bound) {
    && IndicesIncrease(entries)
    && forall e :: e in entries <==> Stores(log, e) && AfterStart(start, e.logId.index) && BeforeEnd(end, e.logId.index)
  }

  /** The same with the bounds as a half-open pair. */
  ghost predicate IsHalfOpenReadOf(entries: seq<Entry>, log: Log, bounds: (u64, u64)) {
    && IndicesIncrease(entries)
    && forall e :: e in entries <==> Stores(log, e) && bounds.0 <= e.logId.index < bounds.1
  }

  lemma {:induction false} AscendingListsTheLog(log: Log)
    requires WellKeyed(log)
    ensures var entries := Ascending(log);
            IndicesIncrease(entries) && forall e :: e in entries <==> Stores(log, e)
    decreases |log|
  {
    if log != map[] {
      var k := Least(log.Keys);
      var rest := log - {k};
      AscendingListsTheLog(rest);
      assert Ascending(log) == [log[k]] + Ascending(rest);
      forall e | e in Ascending(rest)
        ensures k < e.logId.index
      {
        assert Stores(rest, e);
      }
    }
  }

  lemma WhatReadsReturn(log: Log, start: Bound, end: Bound, bounds: (u64, u64))
    requires WellKeyed(log)
    ensures IsReadOf(Ascending(InRange(log, start, end)), log, start, end)
    ensures IsHalfOpenReadOf(Ascending(InHalfOpen(log, bounds)), log, bounds)
  {
    AscendingListsTheLog(InRange(log, start, end));
    AscendingListsTheLog(InHalfOpen(log, bounds));
    assert forall e :: Stores(InRange(log, start, end), e)
                       <==> Stores(log, e) && AfterStart(start, e.logId.index) && BeforeEnd(end, e.logId.index);
    assert forall e :: Stores(InHalfOpen(log, bounds), e) <==> Stores(log, e) && bounds.0 <= e.logId.index < bounds.1;
  }

  // ----- The two stores ------------------------------------------------------

  class MemoryLog {
    var log: Log
    var purged: Option<LogId>

    ghost function View(): Tables
      reads this
    {
      Tables(log, purged)
    }

    constructor ()
      ensures View() == Tables(map[], None)
    {
      log, purged := map[], None;
    }

    method Append(entries: seq<Entry>)
      modifies this
      ensures View() == MemoryStep(old(View()), Op.Append(entries))
      ensures View() == old(View()).(log := Inserted(old(log), entries))
      ensures purged == old(purged) && Overlays(log, old(log), entries)
    {
      InsertedOverlays(log, entries);
      for i := 0 to |entries|
        invariant purged == old(purged) && log == Inserted(old(log), entries[..i])
      {
        assert entries[..i + 1][..i] == entries[..i];
        log := log[entries[i].logId.index := entries[i]];
      }
      assert entries[..|entries|] == entries;
    }

    method Truncate(id: LogId)
      modifies this
      ensures View() == MemoryStep(old(View()), Op.Truncate(id))
      ensures View() == old(View()).(log := Below(old(log), id.index))
      ensures purged == old(purged) && Keeps(log, old(log), k => k < id.index)
    {
      var keys := set k | k in log && id.index <= k;
      while keys != {}
        invariant purged == old(purged)
        invariant keys <= log.Keys && forall k :: k in keys ==> id.index <= k
        invariant Below(log, id.index) == Below(old(log), id.index)
        invariant forall k :: k in log && id.index <= k ==> k in keys
        decreases |keys|
      {
        var k := Least(keys);
        log, keys := log - {k}, keys - {k};
      }
      assert log == Below(log, id.index);
    }

    method Purge(id: LogId)
      modifies this
      ensures View() == MemoryStep(old(View()), Op.Purge(id))
      ensures View() == AfterPurge(old(View()), id)
      ensures purged == Some(id) && Keeps(log, old(log), k => id.index < k)
    {
      purged := Some(id);
      var keys := set k | k in log && k <= id.index;
      while keys != {}
        invariant purged == Some(id)
        invariant keys <= log.Keys && forall k :: k in keys ==> k <= id.index
        invariant Above(log, id.index) == Above(old(log), id.index)
        invariant forall k :: k in log && k <= id.index ==> k in keys
        decreases |keys|
      {
        var k := Least(keys);
        log, keys := log - {k}, keys - {k};
      }
      assert log == Above(log, id.index);
    }

    method GetLogState() returns (state: LogState)
      ensures state == StateOf(View()) && Reports(state, View())
    {
      var last := if log == map[] then purged else Some(log[Greatest(log.Keys)].logId);
      state := LogState(purged, last);
    }

    method Read(start: Bound, end: Bound) returns (entries: seq<Entry>)
      requires ValidRange(start, end)
      ensures WellKeyed(log) ==> IsReadOf(entries, log, start, end)
      ensures entries == Ascending(InRange(log, start, end))
    {
      entries := Ascending(InRange(log, start, end));
      if WellKeyed(log) {
        WhatReadsReturn(log, start, end, (0, 0));
      }
    }
  }

  /** `tables` is what is on disk; `commits` are all disk states so far, in order. */
  class RedbLog {
    var tables: Tables
    ghost var commits: seq<Tables>

    ghost predicate Durable()
      reads this
    {
      commits != [] && commits[|commits| - 1] == tables
    }

    constructor Open(onDisk: Tables)
      ensures Durable() && tables == onDisk && commits == [onDisk]
    {
      tables, commits := onDisk, [onDisk];
    }

    method Commit(t: Tables)
      modifies this
      ensures Durable() && tables == t && commits == old(commits) + [t]
    {
      tables := t;
      commits := commits + [t];
    }

    method Append(entries: seq<Entry>)
      requires Durable()
      modifies this
      ensures tables == DiskStep(old(tables), Op.Append(entries))
      ensures Durable() && tables == old(tables).(log := Inserted(old(tables).log, entries))
      ensures tables.purged == old(tables).purged && Overlays(tables.log, old(tables).log, entries)
      ensures commits == old(commits) + [tables]
    {
      InsertedOverlays(tables.log, entries);
      var log := tables.log;
      for i := 0 to |entries|
        invariant unchanged(this) && log == Inserted(tables.log, entries[..i])
      {
        assert entries[..i + 1][..i] == entries[..i];
        log := log[entries[i].logId.index := entries[i]];
      }
      assert entries[..|entries|] == entries;
      Commit(tables.(log := log));
    }

    method Truncate(id: LogId)
      requires Durable()
      modifies this
      ensures tables == DiskStep(old(tables), Op.Truncate(id))
      ensures Durable() && tables == old(tables).(log := Below(old(tables).log, id.index))
      ensures tables.purged == old(tables).purged && Keeps(tables.log, old(tables).log, k => k < id.index)
      ensures commits == old(commits) + [tables]
    {
      var log := tables.log;
      var keys := set k | k in log && id.index <= k;
      while keys != {}
        invariant unchanged(this)
        invariant keys <= log.Keys && forall k :: k in keys ==> id.index <= k
        invariant Below(log, id.index) == Below(tables.log, id.index)
        invariant forall k :: k in log && id.index <= k ==> k in keys
        decreases |keys|
      {
        var k := Least(keys);
        log, keys := log - {k}, keys - {k};
      }
      assert log == Below(log, id.index);
      Commit(tables.(log := log));
    }

    method Purge(id: LogId)
      requires Durable()
      modifies this
      ensures tables == DiskStep(old(tables), Op.Purge(id))
      ensures Durable() && tables == AfterPurge(old(tables), id)
      ensures tables.purged == Some(id) && Keeps(tables.log, old(tables).log, k => id.index < k)
      ensures commits == old(commits) + [Tables(old(tables).log, Some(id)), tables]
      ensures commits == old(commits) + [DiskStep(old(tables), CrashInPurge(id)), tables]
      ensures commits == old(commits) + [HalfPurged(old(tables), id), AfterPurge(old(tables), id)]
    {
      Commit(tables.(purged := Some(id)));
      label First:
      var log := tables.log;
      var keys := set k | k in log && k <= id.index;
      while keys != {}
        invariant unchanged@First(this)
        invariant keys <= log.Keys && forall k :: k in keys ==> k <= id.index
        invariant Above(log, id.index) == Above(tables.log, id.index)
        invariant forall k :: k in log && k <= id.index ==> k in keys
        decreases |keys|
      {
        var k := Least(keys);
        log, keys := log - {k}, keys - {k};
      }
      assert log == Above(log, id.index);
      Commit(tables.(log := log));
    }

    method GetLogState() returns (state: LogState)
      ensures state == StateOf(tables) && Reports(state, tables)
    {
      var lastPurged := tables.purged;
      var last := lastPurged;
      if tables.log != map[] {
        last := Some(tables.log[Greatest(tables.log.Keys)].logId);
      }
      state := LogState(lastPurged, last);
    }

    /** Bounded by the half-open pair; that is what the caller asked for exactly when
        the one index such a pair cannot express does not come into it. */
    method Read(start: Bound, end: Bound) returns (entries: seq<Entry>)
      ensures WellKeyed(tables.log) ==> IsHalfOpenReadOf(entries, tables.log, HalfOpen(start, end))
      ensures WellKeyed(tables.log) && ValidRange(start, end) ==>
                (IsReadOf(entries, tables.log, start, end) <==> AvoidsLastIndex(tables.log, start, end))
      ensures entries == Ascending(InHalfOpen(tables.log, HalfOpen(start, end)))
    {
      var lo: u64 := match start case Included(x) => x case Excluded(x) => NextIndex(x) case Unbounded => 0;
      var hi: u64 := match end case Included(x) => NextIndex(x) case Excluded(x) => x case Unbounded => U64_MAX;
      entries := Ascending(InHalfOpen(tables.log, (lo, hi)));
      if WellKeyed(tables.log) {
        WhatReadsReturn(tables.log, start, end, (lo, hi));
        if ValidRange(start, end) {
          HalfOpenReadIsTheReadIff(tables.log, start, end, entries);
        }
      }
    }
  }

  // ----- Where they agree ----------------------------------------------------

  /** The guard on the one index the half-open form cannot express: an inclusive end
      at the largest index reads nothing, and an open end stops short of it. */
  ghost predicate AvoidsLastIndex(log: Log, start: Bound, end: Bound) {
    match end
    case Included(x) => x == U64_MAX ==> forall k :: k in log ==> !AfterStart(start, k)
    case Excluded(_) => true
    case Unbounded => if start == Excluded(U64_MAX) then forall k :: k in log ==> k == U64_MAX else U64_MAX !in log
  }

  /** The two range reads return the same entries exactly under that guard. */
  lemma RangeReadsAgreeIff(log: Log, start: Bound, end: Bound)
    requires WellKeyed(log) && ValidRange(start, end)
    ensures Ascending(InHalfOpen(log, HalfOpen(start, end))) == Ascending(InRange(log, start, end))
            <==> AvoidsLastIndex(log, start, end)
  {
    var a, b := InHalfOpen(log, HalfOpen(start, end)), InRange(log, start, end);
    SameKeysIff(log, start, end);
    SubmapsEqualIff(log, a, b);
    AscendingEqualMeansEqual(a, b);
  }

  ghost predicate Reads(bounds: (u64, u64), start: Bound, end: Bound, k: int) {
    bounds.0 <= k < bounds.1 <==> AfterStart(start, k) && BeforeEnd(end, k)
  }

  lemma SameKeysIff(log: Log, start: Bound, end: Bound)
    requires WellKeyed(log) && ValidRange(start, end)
    ensures (forall k :: k in log ==> Reads(HalfOpen(start, end), start, end, k)) <==> AvoidsLastIndex(log, start, end)
  {
    var bounds := HalfOpen(start, end);
    forall k | k in log
      ensures 0 <= k <= U64_MAX
      ensures end.Included? && end.index == U64_MAX ==> (Reads(bounds, start, end, k) <==> !AfterStart(start, k))
      ensures end.Unbounded? ==> (Reads(bounds, start, end, k) <==> if start == Excluded(U64_MAX) then k == U64_MAX else k != U64_MAX)
      ensures (end.Included? && end.index != U64_MAX) || end.Excluded? ==> Reads(bounds, start, end, k)
    {
    }
  }

  lemma HalfOpenReadIsTheReadIff(log: Log, start: Bound, end: Bound, entries: seq<Entry>)
    requires WellKeyed(log) && ValidRange(start, end) && IsHalfOpenReadOf(entries, log, HalfOpen(start, end))
    ensures IsReadOf(entries, log, start, end) <==> AvoidsLastIndex(log, start, end)
  {
    SameKeysIff(log, start, end);
    if IsReadOf(entries, log, start, end) {
      forall k | k in log
        ensures Reads(HalfOpen(start, end), start, end, k)
      {
        assert Stores(log, log[k]);
      }
    }
    if AvoidsLastIndex(log, start, end) {
      forall e | Stores(log, e)
        ensures Reads(HalfOpen(start, end), start, end, e.logId.index)
      {
      }
    }
  }

  /** In particular, below the largest index every bounded read agrees. */
  lemma OrdinaryRangeReadsAgree(log: Log, start: Bound, end: Bound)
    requires WellKeyed(log) && ValidRange(start, end) && U64_MAX !in log
    requires start != Excluded(U64_MAX) && end != Included(U64_MAX)
    ensures Ascending(InHalfOpen(log, HalfOpen(start, end))) == Ascending(InRange(log, start, end))
  {
    RangeReadsAgreeIff(log, start, end);
  }

  /** After a crash between purge's commits the reported log state is that of the
      finished purge exactly when nothing was left to delete beyond the log's end. */
  lemma HalfPurgeReportsTheSameIff(t: Tables, id: LogId)
    requires WellKeyed(t.log) && (id.index in t.log ==> t.log[id.index].logId == id)
    ensures StateOf(HalfPurged(t, id)) == StateOf(AfterPurge(t, id))
            <==> t.log == map[] || id.index <= Greatest(t.log.Keys)
  {
    if t.log != map[] {
      var last := Greatest(t.log.Keys);
      var kept := Above(t.log, id.index);
      if id.index < last {
        assert last in kept;
        assert Greatest(kept.Keys) == last;
      } else {
        assert kept == map[];
      }
    } else {
      assert Above(t.log, id.index) == map[];
    }
  }

  // ----- Whole histories with crashes -----------------------------------------

  datatype Op = Append(entries: seq<Entry>) | Truncate(id: LogId) | Purge(id: LogId) | CrashInPurge(id: LogId)

  function MemoryStep(t: Tables, op: Op): Tables {
    match op
    case Append(entries) => t.(log := Inserted(t.log, entries))
    case Truncate(id) => t.(log := Below(t.log, id.index))
    case Purge(id) => AfterPurge(t, id)
    case CrashInPurge(id) => AfterPurge(t, id)
  }

  function DiskStep(t: Tables, op: Op): Tables {
    if op.CrashInPurge? then HalfPurged(t, op.id) else MemoryStep(t, op)
  }

  function PurgedBelow(t: Tables): int {
    if t.purged.None? then -1 else t.purged.value.index
  }

  /** What consensus asks of its log: it appends, truncates and purges only past the
      purged index, and a purge that crashes named an entry of the log (or had
      nothing to delete). */
  ghost predicate Contract(disk: Tables, op: Op) {
    match op
    case Append(entries) => forall e :: e in entries ==> PurgedBelow(disk) < e.logId.index
    case Truncate(id) => PurgedBelow(disk) < id.index
    case Purge(id) => PurgedBelow(disk) <= id.index
    case CrashInPurge(id) =>
      && PurgedBelow(disk) <= id.index
      && ((id.index in disk.log && disk.log[id.index].logId == id) || forall k :: k in disk.log ==> id.index < k)
  }

  /** The disk holds the memory's log plus, after a half purge, entries that no read
      past the purged index sees; the newest of those is the purged entry itself. */
  ghost predicate Refines(disk: Tables, mem: Tables) {
    && disk.purged == mem.purged
    && mem.log == Above(disk.log, PurgedBelow(disk))
    && (forall k :: k in disk.log && k <= PurgedBelow(disk) ==>
                      PurgedBelow(disk) in disk.log && Some(disk.log[PurgedBelow(disk)].logId) == disk.purged)
  }

  /** A refined log reports the same state and holds the same entries from past the purged
      index on; its own half-open read of the disk returns what the memory's read does
      exactly under the guard on the largest index. */
  lemma RefinedLogsLookAlike(disk: Tables, mem: Tables, start: u64, end: Bound)
    requires Refines(disk, mem) && PurgedBelow(disk) < start
    ensures StateOf(disk) == StateOf(mem)
    ensures InRange(disk.log, Included(start), end) == InRange(mem.log, Included(start), end)
    ensures WellKeyed(disk.log) && ValidRange(Included(start), end) ==>
              (Ascending(InHalfOpen(disk.log, HalfOpen(Included(start), end))) == Ascending(InRange(mem.log, Included(start), end))
               <==> AvoidsLastIndex(disk.log, Included(start), end))
  {
    RefinedStateIsTheSame(disk, mem);
    assert InRange(disk.log, Included(start), end) == InRange(mem.log, Included(start), end);
    if WellKeyed(disk.log) && ValidRange(Included(start), end) {
      RangeReadsAgreeIff(disk.log, Included(start), end);
    }
  }

  lemma RefinedStateIsTheSame(disk: Tables, mem: Tables)
    requires Refines(disk, mem)
    ensures StateOf(disk) == StateOf(mem)
  {
    if mem.log != map[] {
      var last := Greatest(mem.log.Keys);
      forall k | k in disk.log
        ensures k <= last
      {
        assert k <= PurgedBelow(disk) || k in mem.log;
      }
    } else if disk.log != map[] {
      var last := Greatest(disk.log.Keys);
      assert last !in mem.log;
    }
  }

  lemma {:induction false} InsertedIsPointwise(log: Log, entries: seq<Entry>, floor: int)
    requires forall e :: e in entries ==> floor < e.logId.index
    ensures Above(Inserted(log, entries), floor) == Inserted(Above(log, floor), entries)
    ensures forall k :: k <= floor ==> (k in Inserted(log, entries) <==> k in log)
    ensures forall k :: k <= floor && k in log ==> Inserted(log, entries)[k] == log[k]
  {
    if entries != [] {
      var init, e := entries[..|entries| - 1], entries[|entries| - 1];
      InsertedIsPointwise(log, init, floor);
      assert e in entries;
      assert Above(Inserted(log, init)[e.logId.index := e], floor) == Above(Inserted(log, init), floor)[e.logId.index := e];
    }
  }

  lemma StepRefines(disk: Tables, mem: Tables, op: Op)
    requires Refines(disk, mem) && Contract(disk, op)
    ensures Refines(DiskStep(disk, op), MemoryStep(mem, op))
  {
    match op
    case Append(entries) => InsertedIsPointwise(disk.log, entries, PurgedBelow(disk));
    case Truncate(id) =>
      assert Below(Above(disk.log, PurgedBelow(disk)), id.index) == Above(Below(disk.log, id.index), PurgedBelow(disk));
    case Purge(id) =>
      assert Above(Above(disk.log, PurgedBelow(disk)), id.index) == Above(disk.log, id.index);
      assert Above(Above(disk.log, id.index), id.index) == Above(disk.log, id.index);
    case CrashInPurge(id) =>
      assert Above(Above(disk.log, PurgedBelow(disk)), id.index) == Above(disk.log, id.index);
  }

  function DiskSteps(ops: seq<Op>): Tables {
    if ops == [] then Tables(map[], None) else DiskStep(DiskSteps(ops[..|ops| - 1]), ops[|ops| - 1])
  }

  function MemorySteps(ops: seq<Op>): Tables {
    if ops == [] then Tables(map[], None) else MemoryStep(MemorySteps(ops[..|ops| - 1]), ops[|ops| - 1])
  }

  lemma {:induction false} InsertedIsWellKeyed(log: Log, entries: seq<Entry>)
    requires WellKeyed(log)
    ensures WellKeyed(Inserted(log, entries))
  {
    if entries != [] {
      InsertedIsWellKeyed(log, entries[..|entries| - 1]);
    }
  }

  /** Whatever happens to them, both logs store every entry under its own index. */
  lemma {:induction false} LogsAreWellKeyed(ops: seq<Op>)
    ensures WellKeyed(DiskSteps(ops).log) && WellKeyed(MemorySteps(ops).log)
  {
    if ops != [] {
      var init, op := ops[..|ops| - 1], ops[|ops| - 1];
      LogsAreWellKeyed(init);
      if op.Append? {
        InsertedIsWellKeyed(DiskSteps(init).log, op.entries);
        InsertedIsWellKeyed(MemorySteps(init).log, op.entries);
      }
    }
  }

  /** Over any history, with crashes between purge's commits wherever they fall, the
      durable log refines the in-memory one in which every purge completed. */
  lemma {:induction false} DurableLogRefines(ops: seq<Op>)
    requires forall i :: 0 <= i < |ops| ==> Contract(DiskSteps(ops[..i]), ops[i])
    ensures Refines(DiskSteps(ops), MemorySteps(ops))
  {
    if ops != [] {
      var init := ops[..|ops| - 1];
      assert forall i :: 0 <= i < |init| ==> init[..i] == ops[..i];
      DurableLogRefines(init);
      StepRefines(DiskSteps(init), MemorySteps(init), ops[|ops| - 1]);
    }
  }

  /** Reading the stretch that starts at `first` returns exactly `entries`. */
  ghost predicate ReadsBack(log: Log, first: nat, entries: seq<Entry>)
    requires first + |entries| <= U64_MAX
  {
    Ascending(InRange(log, Included(first), Excluded(first + |entries|))) == entries
  }

  lemma ReadOneMore(log: Log, first: nat, entries: seq<Entry>, e: Entry)
    requires first + |entries| < U64_MAX && ReadsBack(log, first, entries)
    ensures ReadsBack(log[first + |entries| := e], first, entries + [e])
  {
    var n := |entries|;
    var shorter := InRange(log, Included(first), Excluded(first + n));
    assert InRange(log[first + n := e], Included(first), Excluded(first + n + 1)) == shorter[first + n := e];
    AscendingAppend(shorter, first + n, e);
  }

  /** Appending a stretch of the log makes exactly those entries readable. */
  lemma {:induction false} AppendedIsReadable(log: Log, entries: seq<Entry>, first: nat)
    requires first + |entries| <= U64_MAX
    requires forall i :: 0 <= i < |entries| ==> entries[i].logId.index == first + i
    ensures ReadsBack(Inserted(log, entries), first, entries)
  {
    if entries == [] {
      assert InRange(log, Included(first), Excluded(first)) == map[];
    } else {
      var init, e := entries[..|entries| - 1], entries[|entries| - 1];
      AppendedIsReadable(log, init, first);
      ReadOneMore(Inserted(log, init), first, init, e);
      assert entries == init + [e];
    }
  }
}
