/** The in-memory state machine (`crates/cluster/src/store.rs`) and what a cluster of
    them does: apply, snapshot, install, in any interleaving. */
module StateMachineStore {
  import opened Basics
  import opened ReplicatedLedger
  import opened RaftTypes

  datatype SnapshotId = SnapshotId(lastApplied: Option<LogId>, ordinal: nat)

  datatype SnapshotMeta = SnapshotMeta(lastLogId: Option<LogId>, membership: StoredMembership, id: SnapshotId)

  /** A snapshot; `data` is the ledger the serialised bytes stand for. */
  datatype Snapshot = Snapshot(meta: SnapshotMeta, data: Runs) {
    function State(): Applied3 {
      Applied3(meta.lastLogId, meta.membership, data)
    }
  }

  datatype Machine = Machine(applied: Applied3, snapshotIdx: nat, current: Option<Snapshot>)

  const NEW_MACHINE := Machine(INITIAL, 0, None)

  function TakeSnapshot(m: Machine): Snapshot {
    Snapshot(SnapshotMeta(m.applied.lastApplied, m.applied.membership,
                          SnapshotId(m.applied.lastApplied, m.snapshotIdx + 1)),
             m.applied.ledger)
  }

  function AfterBuild(m: Machine): Machine {
    m.(snapshotIdx := m.snapshotIdx + 1, current := Some(TakeSnapshot(m)))
  }

  function AfterInstall(m: Machine, snap: Snapshot): Machine {
    m.(applied := snap.State(), current := Some(snap))
  }

  class Store {
    var lastApplied: Option<LogId>
    var membership: StoredMembership
    var ledger: Runs
    var snapshotIdx: nat
    var current: Option<Snapshot>

    ghost function View(): Machine
      reads this
    {
      Machine(Applied3(lastApplied, membership, ledger), snapshotIdx, current)
    }

    constructor ()
      ensures View() == NEW_MACHINE == Machine(Applied3(None, StoredMembership(None, {}), map[]), 0, None)
    {
      lastApplied, membership, ledger := None, DEFAULT_MEMBERSHIP, map[];
      snapshotIdx, current := 0, None;
    }

    method ApplyEntries(entries: seq<Entry>) returns (responses: seq<Response>)
      modifies this
      ensures View() == old(View()).(applied := Folded(old(View()).applied, entries))
      ensures responses == Responses(old(View()).applied, entries)
      ensures snapshotIdx == old(snapshotIdx) && current == old(current)
      ensures ledger == AppliedAll(old(ledger), Requests(entries))
      ensures Answered(old(ledger), entries, responses)
    {
      ghost var s := View().applied;
      EveryEntryIsAnswered(s, entries);
      FoldIsTheLedger(s, entries);
      responses := [];
      for i := 0 to |entries|
        invariant snapshotIdx == old(snapshotIdx) && current == old(current)
        invariant View().applied == Folded(old(View()).applied, entries[..i])
        invariant responses == Responses(old(View()).applied, entries[..i])
      {
        var entry := entries[i];
        assert entries[..i + 1][..i] == entries[..i];
        lastApplied := Some(entry.logId);
        match entry.payload
        case Blank => responses := responses + [DEFAULT_RESPONSE];
        case Normal(req) =>
          var out := Applied(ledger, req);
          ledger := out.runs;
          responses := responses + [out.response];
        case Members(nodes) =>
          membership := StoredMembership(Some(entry.logId), nodes);
          responses := responses + [DEFAULT_RESPONSE];
      }
      assert entries[..|entries|] == entries;
    }

    method BuildSnapshot() returns (snap: Snapshot)
      modifies this
      ensures View() == AfterBuild(old(View())) && snap == TakeSnapshot(old(View()))
      ensures snap == Snapshot(SnapshotMeta(lastApplied, membership, SnapshotId(lastApplied, old(snapshotIdx) + 1)), ledger)
      ensures View() == Machine(old(View()).applied, old(snapshotIdx) + 1, Some(snap))
    {
      snapshotIdx := snapshotIdx + 1;
      snap := Snapshot(SnapshotMeta(lastApplied, membership, SnapshotId(lastApplied, snapshotIdx)), ledger);
      current := Some(snap);
    }

    method InstallSnapshot(snap: Snapshot)
      modifies this
      ensures View() == AfterInstall(old(View()), snap)
      ensures lastApplied == snap.meta.lastLogId && membership == snap.meta.membership && ledger == snap.data
      ensures snapshotIdx == old(snapshotIdx) && current == Some(snap)
    {
      ledger := snap.data;
      lastApplied := snap.meta.lastLogId;
      membership := snap.meta.membership;
      current := Some(snap);
    }
  }

  // ----- A cluster fed one committed log -------------------------------------

  /** The machines by node, and every snapshot built so far (any may still be in
      transit to any node). */
  datatype Cluster = Cluster(nodes: map<nat, Machine>, built: set<Snapshot>)

  datatype Action =
    | Apply(node: nat, upTo: nat)
    | Build(node: nat)
    | Install(node: nat, snap: Snapshot)

  /** Consensus delivers the next entries in order; only built snapshots are installed. */
  predicate Enabled(log: seq<Entry>, c: Cluster, a: Action) {
    && a.node in c.nodes
    && (a.Apply? ==> AppliedCount(c.nodes[a.node].applied.lastApplied) <= a.upTo <= |log|)
    && (a.Install? ==> a.snap in c.built)
  }

  function Acted(log: seq<Entry>, c: Cluster, a: Action): Cluster
    requires Enabled(log, c, a)
  {
    var m := c.nodes[a.node];
    match a
    case Apply(node, upTo) =>
      var stretch := log[AppliedCount(m.applied.lastApplied)..upTo];
      c.(nodes := c.nodes[node := m.(applied := Folded(m.applied, stretch))])
    case Build(node) => Cluster(c.nodes[node := AfterBuild(m)], c.built + {TakeSnapshot(m)})
    case Install(node, snap) => c.(nodes := c.nodes[node := AfterInstall(m, snap)])
  }

  /** `states` are the clusters passed through from fresh machines by enabled actions. */
  ghost predicate IsRun(log: seq<Entry>, ids: set<nat>, actions: seq<Action>, states: seq<Cluster>) {
    && |states| == |actions| + 1
    && states[0] == Cluster(map id | id in ids :: NEW_MACHINE, {})
    && forall i :: 0 <= i < |actions| ==>
                     Enabled(log, states[i], actions[i]) && states[i + 1] == Acted(log, states[i], actions[i])
  }

  ghost predicate Coherent(log: seq<Entry>, c: Cluster) {
    && (forall id :: id in c.nodes ==> OnTheLog(log, c.nodes[id].applied))
    && (forall id :: id in c.nodes && c.nodes[id].current.Some? ==> c.nodes[id].current.value in c.built)
    && (forall snap :: snap in c.built ==> OnTheLog(log, snap.State()))
  }

  lemma ActionKeepsCoherence(log: seq<Entry>, c: Cluster, a: Action)
    requires CommittedLog(log) && Coherent(log, c) && Enabled(log, c, a)
    ensures Coherent(log, Acted(log, c, a))
  {
    match a
    case Apply(node, upTo) =>
      StretchStaysOnTheLog(log, upTo, c.nodes[node].applied);
    case Build(node) =>
      assert TakeSnapshot(c.nodes[node]).State() == c.nodes[node].applied;
    case Install(_, _) =>
  }

  /** An action is felt where it should be and nowhere else: entries bring the node to
      the index asked for, a build stores a snapshot of the node and offers it to all, an
      install leaves the node as its snapshot says. */
  lemma ActionTakesEffect(log: seq<Entry>, c: Cluster, a: Action)
    requires CommittedLog(log) && Coherent(log, c) && Enabled(log, c, a)
    ensures var after, m := Acted(log, c, a), c.nodes[a.node];
            && after.nodes.Keys == c.nodes.Keys
            && (forall id :: id in c.nodes && id != a.node ==> after.nodes[id] == c.nodes[id])
            && var m' := after.nodes[a.node];
            match a
            case Apply(_, upTo) =>
              AppliedCount(m'.applied.lastApplied) == upTo && m' == m.(applied := m'.applied) && after.built == c.built
            case Build(_) =>
              && m'.current.Some? && after.built == c.built + {m'.current.value}
              && m' == Machine(m.applied, m.snapshotIdx + 1, m'.current)
              && m'.current.value.meta.id == SnapshotId(m.applied.lastApplied, m.snapshotIdx + 1)
              && m'.current.value.State() == m.applied
            case Install(_, snap) =>
              && m' == Machine(m'.applied, m.snapshotIdx, Some(snap)) && after.built == c.built
              && m'.applied.lastApplied == snap.meta.lastLogId && m'.applied.membership == snap.meta.membership
              && m'.applied.ledger == snap.data
  {
    ActionKeepsCoherence(log, c, a);
    if a.Apply? {
      var s := c.nodes[a.node].applied;
      NextStretch(log, AppliedCount(s.lastApplied), a.upTo, s);
      FoldedCounts(log, a.upTo);
    }
  }

  /** How many snapshots `node` has built. */
  function BuildsBy(actions: seq<Action>, node: nat): nat {
    if actions == [] then 0
    else BuildsBy(actions[..|actions| - 1], node) + if actions[|actions| - 1] == Build(node) then 1 else 0
  }

  /** The counter that makes snapshot ids unique counts the node's own builds: installs,
      entries and other nodes never move it. */
  lemma {:induction false} CounterCountsBuilds(
    log: seq<Entry>, ids: set<nat>, actions: seq<Action>, states: seq<Cluster>, n: nat, node: nat)
    requires IsRun(log, ids, actions, states) && n < |states|
    ensures states[n].nodes.Keys == ids
    ensures node in ids ==> states[n].nodes[node].snapshotIdx == BuildsBy(actions[..n], node)
  {
    if n > 0 {
      CounterCountsBuilds(log, ids, actions, states, n - 1, node);
      assert actions[..n][..n - 1] == actions[..n - 1];
    }
  }

  /** In every interleaving, each node's ledger and membership, and each snapshot in
      existence, are exactly the fold of the log up to its own last-applied id. */
  lemma {:induction false} NodesFoldTheLog(log: seq<Entry>, ids: set<nat>, actions: seq<Action>, states: seq<Cluster>, n: nat)
    requires CommittedLog(log) && IsRun(log, ids, actions, states) && n < |states|
    ensures Coherent(log, states[n])
  {
    if n > 0 {
      NodesFoldTheLog(log, ids, actions, states, n - 1);
      ActionKeepsCoherence(log, states[n - 1], actions[n - 1]);
    }
  }

  /** So nodes that stand at the same log id hold the same ledger and membership,
      whichever mix of entries and snapshots brought each of them there. */
  lemma NodesAgree(log: seq<Entry>, ids: set<nat>, actions: seq<Action>, states: seq<Cluster>, n: nat, a: nat, b: nat)
    requires CommittedLog(log) && IsRun(log, ids, actions, states) && n < |states|
    requires a in states[n].nodes && b in states[n].nodes
    requires states[n].nodes[a].applied.lastApplied == states[n].nodes[b].applied.lastApplied
    ensures states[n].nodes[a].applied == states[n].nodes[b].applied
  {
    NodesFoldTheLog(log, ids, actions, states, n);
    assert OnTheLog(log, states[n].nodes[a].applied) && OnTheLog(log, states[n].nodes[b].applied);
  }

  /** A snapshot followed by the rest of the log is the whole log. */
  lemma SnapshotPlusSuffix(
    log: seq<Entry>, ids: set<nat>, actions: seq<Action>, states: seq<Cluster>, n: nat, snap: Snapshot)
    requires CommittedLog(log) && IsRun(log, ids, actions, states) && n < |states| && snap in states[n].built
    ensures AppliedCount(snap.meta.lastLogId) <= |log|
    ensures Folded(snap.State(), log[AppliedCount(snap.meta.lastLogId)..]) == Folded(INITIAL, log)
  {
    NodesFoldTheLog(log, ids, actions, states, n);
    var k := AppliedCount(snap.meta.lastLogId);
    assert OnTheLog(log, snap.State());
    NextStretch(log, k, |log|, snap.State());
    assert log[k..|log|] == log[k..] && log[..|log|] == log;
  }
}
