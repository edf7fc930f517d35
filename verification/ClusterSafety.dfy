/** From one ledger to the cluster: what the log's requests keep, every node keeps. */
module ClusterSafety {
  import opened Basics
  import opened ReplicatedLedger
  import opened LedgerSafety
  import opened RaftTypes
  import opened StateMachineStore
  import opened RedbStateMachine

  lemma {:induction false} PrefixesAreDisciplined(log: seq<Entry>, n: nat)
    requires n <= |log| && DisciplinedRun(Requests(log))
    ensures DisciplinedRun(Requests(log[..n]))
    decreases |log|
  {
    if n < |log| {
      var init := log[..|log| - 1];
      var all, fewer := Requests(log), Requests(init);
      forall i | 0 <= i < |fewer|
        ensures Disciplined(Steps(EMPTY_BOOKS, fewer[..i]), fewer[i])
      {
        assert fewer[..i] == all[..i];
        assert Disciplined(Steps(EMPTY_BOOKS, all[..i]), all[i]);
      }
      PrefixesAreDisciplined(init, n);
      assert init[..n] == log[..n];
    } else {
      assert log[..n] == log;
    }
  }

  lemma PrefixIsWithinBudgets(log: seq<Entry>, n: nat, s: Applied3)
    requires DescribesPrefix(log, n, s) && DisciplinedRun(Requests(log))
    ensures WithinBudgets(s.ledger)
  {
    PrefixesAreDisciplined(log, n);
    FoldIsTheLedger(INITIAL, log[..n]);
    DisciplinedRunsAreSafe(Requests(log[..n]));
    BooksFollowTheLog(Requests(log[..n]));
  }

  /** No node of the cluster, at any moment of any interleaving of entries and
      snapshots, shows a run over its budget. */
  lemma EveryNodeStaysWithinBudgets(
    log: seq<Entry>, ids: set<nat>, actions: seq<Action>, states: seq<Cluster>, n: nat, id: nat)
    requires CommittedLog(log) && IsRun(log, ids, actions, states) && n < |states| && id in states[n].nodes
    requires DisciplinedRun(Requests(log))
    ensures WithinBudgets(states[n].nodes[id].applied.ledger)
  {
    NodesFoldTheLog(log, ids, actions, states, n);
    var s := states[n].nodes[id].applied;
    assert OnTheLog(log, s);
    PrefixIsWithinBudgets(log, AppliedCount(s.lastApplied), s);
  }

  /** Nor does the disk of a durable node, however often it crashes and reopens. */
  lemma EveryDiskStaysWithinBudgets(log: seq<Entry>, events: seq<Event>, nodes: seq<Node>, n: nat)
    requires CommittedLog(log) && IsHistory(log, events, nodes) && n < |nodes|
    requires DisciplinedRun(Requests(log))
    ensures WithinBudgets(Loaded(nodes[n].disk).applied.ledger)
  {
    DiskFoldsTheLog(log, events, nodes, n);
    var s := Loaded(nodes[n].disk).applied;
    PrefixIsWithinBudgets(log, AppliedCount(s.lastApplied), s);
  }
}
