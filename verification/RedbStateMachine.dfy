/** The durable state machine (`crates/cluster/src/redbstore.rs`): the applied state
    and the snapshot are separate commits, and a crash may fall before any of them. */
module RedbStateMachine {
  import opened Basics
  import opened ReplicatedLedger
  import opened RaftTypes
  import opened StateMachineStore

  /** The two rows of the state-machine table. */
  datatype Disk = Disk(state: Option<Applied3>, snapshot: Option<Snapshot>)

  const EMPTY_DISK := Disk(None, None)

  /** What `new` loads; the snapshot counter restarts at zero. */
  function Loaded(d: Disk): Machine {
    Machine(if d.state.Some? then d.state.value else INITIAL, 0, d.snapshot)
  }

  datatype Job = ApplyJob(entries: seq<Entry>) | BuildJob | InstallJob(snap: Snapshot)

  /** The machine once the job has completed: the in-memory store's own answer. */
  function Completed(m: Machine, job: Job): Machine {
    match job
    case ApplyJob(entries) => m.(applied := Folded(m.applied, entries))
    case BuildJob => AfterBuild(m)
    case InstallJob(snap) => AfterInstall(m, snap)
  }

  /** The disk states the job commits, in order. */
  function Commits(d: Disk, m: Machine, job: Job): seq<Disk> {
    match job
    case ApplyJob(entries) => [d.(state := Some(Folded(m.applied, entries)))]
    case BuildJob => [d.(snapshot := Some(TakeSnapshot(m)))]
    case InstallJob(snap) => [d.(state := Some(snap.State())), Disk(Some(snap.State()), Some(snap))]
  }

  class RedbStore {
    var disk: Disk
    ghost var commits: seq<Disk>
    var applied: Applied3
    var snapshot: Option<Snapshot>
    var snapshotIdx: nat

    ghost function View(): Machine
      reads this
    {
      Machine(applied, snapshotIdx, snapshot)
    }

    constructor Open(onDisk: Disk)
      ensures disk == onDisk && commits == [onDisk] && View() == Loaded(onDisk)
      ensures snapshotIdx == 0 && snapshot == onDisk.snapshot
      ensures applied == (if onDisk.state.Some? then onDisk.state.value
                          else Applied3(None, StoredMembership(None, {}), map[]))
    {
      disk, commits := onDisk, [onDisk];
      applied := if onDisk.state.Some? then onDisk.state.value else INITIAL;
      snapshot := onDisk.snapshot;
      snapshotIdx := 0;
    }

    method PersistState(s: Applied3)
      modifies this`disk, this`commits
      ensures disk == old(disk).(state := Some(s)) && commits == old(commits) + [disk]
    {
      disk := disk.(state := Some(s));
      commits := commits + [disk];
    }

    method PersistSnapshot(snap: Snapshot)
      modifies this`disk, this`commits
      ensures disk == old(disk).(snapshot := Some(snap)) && commits == old(commits) + [disk]
    {
      disk := disk.(snapshot := Some(snap));
      commits := commits + [disk];
    }

    method ApplyEntries(entries: seq<Entry>) returns (responses: seq<Response>)
      modifies this
      ensures View() == Completed(old(View()), ApplyJob(entries))
      ensures commits == old(commits) + Commits(old(disk), old(View()), ApplyJob(entries))
      ensures disk == commits[|commits| - 1]
      ensures responses == Responses(old(applied), entries)
      ensures snapshotIdx == old(snapshotIdx) && snapshot == old(snapshot)
      ensures applied.ledger == AppliedAll(old(applied).ledger, Requests(entries))
      ensures Answered(old(applied).ledger, entries, responses)
      ensures commits == old(commits) + [Disk(Some(applied), old(disk).snapshot)]
    {
      EveryEntryIsAnswered(applied, entries);
      FoldIsTheLedger(applied, entries);
      responses := [];
      for i := 0 to |entries|
        invariant disk == old(disk) && commits == old(commits)
        invariant snapshotIdx == old(snapshotIdx) && snapshot == old(snapshot)
        invariant applied == Folded(old(applied), entries[..i])
        invariant responses == Responses(old(applied), entries[..i])
      {
        var entry := entries[i];
        assert entries[..i + 1][..i] == entries[..i];
        applied := applied.(lastApplied := Some(entry.logId));
        match entry.payload
        case Blank => responses := responses + [DEFAULT_RESPONSE];
        case Normal(req) =>
          var out := Applied(applied.ledger, req);
          applied := applied.(ledger := out.runs);
          responses := responses + [out.response];
        case Members(nodes) =>
          applied := applied.(membership := StoredMembership(Some(entry.logId), nodes));
          responses := responses + [DEFAULT_RESPONSE];
      }
      assert entries[..|entries|] == entries;
      PersistState(applied);
    }

    method BuildSnapshot() returns (snap: Snapshot)
      modifies this
      ensures View() == Completed(old(View()), BuildJob) && snap == TakeSnapshot(old(View()))
      ensures commits == old(commits) + Commits(old(disk), old(View()), BuildJob)
      ensures snap == Snapshot(SnapshotMeta(applied.lastApplied, applied.membership,
                                            SnapshotId(applied.lastApplied, old(snapshotIdx) + 1)), applied.ledger)
      ensures View() == Machine(old(applied), old(snapshotIdx) + 1, Some(snap))
      ensures commits == old(commits) + [Disk(old(disk).state, Some(snap))]
      ensures disk == commits[|commits| - 1]
    {
      snapshotIdx := snapshotIdx + 1;
      snap := Snapshot(SnapshotMeta(applied.lastApplied, applied.membership,
                                    SnapshotId(applied.lastApplied, snapshotIdx)),
                       applied.ledger);
      PersistSnapshot(snap);
      snapshot := Some(snap);
    }

    method InstallSnapshot(snap: Snapshot)
      modifies this
      ensures View() == Completed(old(View()), InstallJob(snap))
      ensures commits == old(commits) + Commits(old(disk), old(View()), InstallJob(snap))
      ensures applied == Applied3(snap.meta.lastLogId, snap.meta.membership, snap.data)
      ensures snapshotIdx == old(snapshotIdx) && snapshot == Some(snap)
      ensures commits == old(commits) + [Disk(Some(applied), old(disk).snapshot), Disk(Some(applied), Some(snap))]
      ensures disk == commits[|commits| - 1]
    {
      applied := applied.(ledger := snap.data);
      applied := applied.(lastApplied := snap.meta.lastLogId);
      applied := applied.(membership := snap.meta.membership);
      PersistState(applied);
      PersistSnapshot(snap);
      snapshot := Some(snap);
    }
  }

  // ----- Crashing anywhere ---------------------------------------------------

  /** A node is its disk and, while it is up, its memory. */
  datatype Node = Node(disk: Disk, memory: Option<Machine>)

  datatype Event =
    | Done(job: Job)
    | Crash(job: Job, commits: nat)   // dies after that many of the job's commits
    | Reopen

  /** Consensus feeds the entries right after the last applied one, and installs only
      snapshots that describe a prefix of the committed log. */
  ghost predicate Fed(log: seq<Entry>, m: Machine, job: Job) {
    match job
    case ApplyJob(entries) =>
      exists upTo :: AppliedCount(m.applied.lastApplied) <= upTo <= |log|
                     && entries == log[AppliedCount(m.applied.lastApplied)..upTo]
    case BuildJob => true
    case InstallJob(snap) => OnTheLog(log, snap.State())
  }

  ghost predicate Possible(log: seq<Entry>, n: Node, e: Event) {
    match e
    case Done(job) => n.memory.Some? && Fed(log, n.memory.value, job)
    case Crash(job, commits) =>
      n.memory.Some? && Fed(log, n.memory.value, job) && commits <= |Commits(n.disk, n.memory.value, job)|
    case Reopen => n.memory.None?
  }

  function Next(n: Node, e: Event): Node
    requires !e.Reopen? ==> n.memory.Some?
    requires e.Crash? ==> e.commits <= |Commits(n.disk, n.memory.value, e.job)|
  {
    match e
    case Done(job) =>
      var commits := Commits(n.disk, n.memory.value, job);
      Node(commits[|commits| - 1], Some(Completed(n.memory.value, job)))
    case Crash(job, commits) =>
      Node(if commits == 0 then n.disk else Commits(n.disk, n.memory.value, job)[commits - 1], None)
    case Reopen => Node(n.disk, Some(Loaded(n.disk)))
  }

  ghost predicate Sound(log: seq<Entry>, n: Node) {
    && OnTheLog(log, Loaded(n.disk).applied)
    && (n.disk.snapshot.Some? ==> OnTheLog(log, n.disk.snapshot.value.State()))
    && (n.memory.Some? ==> && n.memory.value.applied == Loaded(n.disk).applied
                           && n.memory.value.current == n.disk.snapshot)
  }

  lemma JobStaysOnTheLog(log: seq<Entry>, m: Machine, job: Job)
    requires CommittedLog(log) && OnTheLog(log, m.applied) && Fed(log, m, job)
    ensures OnTheLog(log, Completed(m, job).applied)
    ensures job.BuildJob? ==> TakeSnapshot(m).State() == m.applied
  {
    match job
    case ApplyJob(entries) =>
      var count := AppliedCount(m.applied.lastApplied);
      var upTo :| count <= upTo <= |log| && entries == log[count..upTo];
      StretchStaysOnTheLog(log, upTo, m.applied);
    case BuildJob =>
    case InstallJob(_) =>
  }

  lemma EventKeepsSound(log: seq<Entry>, n: Node, e: Event)
    requires CommittedLog(log) && Sound(log, n) && Possible(log, n, e)
    ensures Sound(log, Next(n, e))
  {
    if !e.Reopen? {
      JobStaysOnTheLog(log, n.memory.value, e.job);
    }
  }

  ghost predicate IsHistory(log: seq<Entry>, events: seq<Event>, nodes: seq<Node>) {
    && |nodes| == |events| + 1
    && nodes[0] == Node(EMPTY_DISK, None)
    && forall i :: 0 <= i < |events| ==> Possible(log, nodes[i], events[i]) && nodes[i + 1] == Next(nodes[i], events[i])
  }

  /** At every moment of every history, the persisted ledger, membership and last
      applied id describe one and the same prefix of the log, and so does the
      persisted snapshot; a running node holds exactly what its disk holds. */
  lemma {:induction false} DiskFoldsTheLog(log: seq<Entry>, events: seq<Event>, nodes: seq<Node>, n: nat)
    requires CommittedLog(log) && IsHistory(log, events, nodes) && n < |nodes|
    ensures Sound(log, nodes[n])
  {
    if n > 0 {
      DiskFoldsTheLog(log, events, nodes, n - 1);
      EventKeepsSound(log, nodes[n - 1], events[n - 1]);
    }
  }

  /** So a node that reopens after any crash and is fed the log from its persisted
      last-applied id applies each entry exactly once. */
  lemma ReplayAppliesOnce(log: seq<Entry>, events: seq<Event>, nodes: seq<Node>, n: nat, upTo: nat)
    requires CommittedLog(log) && IsHistory(log, events, nodes) && n < |nodes| && nodes[n].memory.None?
    requires AppliedCount(Loaded(nodes[n].disk).applied.lastApplied) <= upTo <= |log|
    ensures var m := Next(nodes[n], Reopen).memory.value;
            var rest := log[AppliedCount(m.applied.lastApplied)..upTo];
            Completed(m, ApplyJob(rest)).applied == Folded(INITIAL, log[..upTo])
  {
    DiskFoldsTheLog(log, events, nodes, n);
    var s := Loaded(nodes[n].disk).applied;
    NextStretch(log, AppliedCount(s.lastApplied), upTo, s);
  }

  /** A crash can only lose the tail: the state on disk afterwards is the one before
      the job or the one the job was moving to. */
  lemma CrashIsAllOrNothing(n: Node, job: Job, commits: nat)
    requires n.memory.Some? && n.memory.value.applied == Loaded(n.disk).applied
    requires commits <= |Commits(n.disk, n.memory.value, job)|
    ensures var after := Loaded(Next(n, Crash(job, commits)).disk).applied;
            after == n.memory.value.applied || after == Completed(n.memory.value, job).applied
    ensures commits == |Commits(n.disk, n.memory.value, job)| ==>
              Loaded(Next(n, Crash(job, commits)).disk).applied == Completed(n.memory.value, job).applied
              && Next(n, Crash(job, commits)).disk == Next(n, Done(job)).disk
  {
  }
}
