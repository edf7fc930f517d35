# TokenFuse: a verified model of its budget, audit and aggregation logic

TokenFuse is a proxy that holds AI agents to budgets. This project models the logic inside
it that must not be wrong - who may spend, what is recorded, and what is reported - and
proves what that logic promises. To check it, run

    dafny verify dfyconfig.toml

What is modelled, and the main results:

- **The hierarchical budget ledger.** `ReplicatedLedger` is the log-applied ledger of the
  cluster with its saturating `u64` arithmetic, `CoreLedger` the in-process one with its
  wrapping `i64`. `LedgerSafety` proves that disciplined runs never overspend and gives the
  exact condition for one request to keep every run within budget; `LedgerRollup` proves that
  spend and reservations roll up a tree of runs without loss; `LedgerBisimulation` says exactly
  when the two ledgers stay step-for-step equal and shows a log after which they do not.
- **Replication and durability.** `StateMachineStore` and `LogStores` are the in-memory stores,
  `RedbStateMachine` and the second half of `LogStores` the durable ones, whose operations are
  several commits. Every node and every disk image, through crashes at any commit boundary,
  is the fold of a prefix of one committed log; `ClusterSafety` carries the budget theorem to
  every node and every disk.
- **Tamper evidence.** `Audit` proves that a list verifying with the tip hash of a chain built by
  append is that chain or exhibits a digest collision; `EventChain` says exactly when the exported
  event file stays one chain over a history of restarts and failed writes, and when the
  windowed tail scan is right.
- **Canonical JSON** (RFC 8785). `EsNumber`, `JcsText` and `Jcs` prove that number placement
  preserves value and is canonical, and that two values have the same canonical text exactly
  when they are the same up to member order, integers and floats compared as numbers.
  `JsonReader` is a reader written from RFC 8259 alone: a canonical text reads back as its value,
  members in the order of their UTF-16 names, and no shorter string would have done.
- **The cloud aggregates.** `RecencyIndex`, `OrgRuns`, `MonthKey`, `UnitMonths`, `Savings` and
  `Series` prove the incremental forms equal to simple folds of the whole history, whatever is
  evicted; `OrgStore` has the classes that keep them. The civil-date arithmetic is proved
  against a calendar counted day by day.
- **Trace replays and text passes.** `Backtest`, `StepCap` and `BacktestAgainstLive` relate the
  policy replay to the live ledger; `Outcomes`, `SemanticCache`, `Redaction`, `RedactedText`, `Luhn`,
  `SecretBroker` and `SecretInjection` give each loop its declarative meaning.

`Basics`, `MapSum`, `OrderedMap`, `Sorting`, `Decimal`, `RaftTypes` and `CloudRecords` hold the
shared vocabulary.

How to read the model:

- A class stands for an object whose methods update it; each method is proved against a pure
  transition function, and the theorems over whole histories are about that function. What the
  function computes is said once more without it: field by field, by position in a history, by
  a sum written on the constructors, or by a reader of the text.
- The consensus library is represented by what it promises: every node is fed prefixes of one
  committed log. Each locked section is one step, each commit one atomic write.
- Digests, similarity, the floating-point alert test, the JSON codec of the event file and the
  order of run ids are parameters. Tamper evidence is stated as "equal, or here is a collision".
- `IsWrapping` describes how an unchecked `i64` holds an exact sum; `WrapI64` is one such function.
  Reports that add plain `i64` amounts are proved for any of them.
- Wire decision strings are constructors of `Decision`; any other text is `Other`.
- The arbitrary order of a hash map or set is a free choice of the model: a restart lists the
  runs in any order, a full break set with a cold index drops any of its members.

Where code and documentation disagree, the model follows the code:

- `crates/cluster/src/types.rs:12` says the replicated ledger mirrors the in-process one exactly.
  That holds exactly while no refusing level and no spend stands past 2^63
  (`LedgerBisimulation.LedgersMirrorIff`, `LedgerBisimulation.WrappedSumIsGranted`).
- `crates/core/src/agent_event.rs:355-357` says that after a failed write the next line links to
  the last line actually on disk. That holds exactly when the failed write left no part of its
  line there (`EventChain.OneChainThroughoutIff`).
- `crates/core/src/audit.rs:142-149` says manifest fields cannot be re-partitioned. That holds
  exactly when the tip hashes hold equally many separators
  (`Audit.ManifestBytesDetermineFieldsIff`); the function does not check its tip hash.
- The test at `crates/cloud/src/store.rs:3770-3788` has the spend series of a window that covers
  everything add up to the summary. That holds exactly when no stopped call carried a cost or the
  spend is at its cap: the samples keep the cost of blocked calls, the totals do not
  (`OrgStore.SeriesAddsUpToTheSummaryIff`).
- The durable range read turns its bounds into a half-open range and so cannot reach index
  `u64::MAX`, which the in-memory read can (`LogStores.RangeReadsAgreeIff`).

## Model

| member | source | states |
|---|---|---|
| `ReplicatedLedger.ChainIsTheAncestorPath` | crates/cluster/src/types.rs:110-127 | a list is the ancestor walk exactly when it follows parent links from the run, without repeats, and stops only at a root, a missing run, a repeat or the depth bound |
| `ReplicatedLedger.ChainMembers` | crates/cluster/src/types.rs:110-127 | the walk visits known runs only, each once, at most 64 of them, starting with the run itself; an unknown run has an empty walk |
| `ReplicatedLedger.FirstBlocked` | crates/cluster/src/types.rs:178-196 | none is returned exactly when every level has room; otherwise the level returned has none and every level below it has |
| `ReplicatedLedger.ReserveIsAllOrNothing` | crates/cluster/src/types.rs:170-206 | a reserve is granted exactly when the run is known and spent + reserved + amount, capped at u64::MAX, is within the budget of every level; a refusal changes nothing; a grant raises every level by the amount, capped, counts one wrapping step on the leaf and touches nothing else |
| `ReplicatedLedger.ResponseShowsTheCounters` | crates/cluster/src/types.rs:129-141 | for every request: only a reserve is refused; an accepted answer names no level and shows spent, reserved, budget and steps of the run as they now stand; for an absent run all four are zero |
| `ReplicatedLedger.RefusalNamesTheLowestFullLevel` | crates/cluster/src/types.rs:170-198 | a refusal names the lowest level without room, shows its spent, reserved and budget, the step of the leaf and the capped amount that was needed; for an unknown run it names that run and shows zeros |
| `ReplicatedLedger.SettleChargesTheChain` | crates/cluster/src/types.rs:209-222 | every level of the chain, and no other run, has the released amount taken off its reserved, down to zero, and the actual cost added to its spend, up to u64::MAX |
| `ReplicatedLedger.OpenTouchesOneRun` | crates/cluster/src/types.rs:147-169 | a known run gets the new budget and keeps all else; an unknown one starts with budget, parent and zero counters; no other run changes |
| `ReplicatedLedger.ChainsUnchanged` | crates/cluster/src/types.rs:147-169 | re-opening a known run, reserving and settling leave every chain as it was |
| `ReplicatedLedger.AppliedKeepsParents` | crates/cluster/src/types.rs:145-224 | no request ever changes a parent link, and only an open adds a run |
| `ReplicatedLedger.LedgerState.ChainOf` | crates/cluster/src/types.rs:110-127 | the growing loop computes the ancestor walk |
| `ReplicatedLedger.LedgerState.Apply` | crates/cluster/src/types.rs:145-224 | new state and response of every request are those of the transition function; the four rows above say what these are |
| `ReplicatedLedger.LedgerState.ApplyReserve` | crates/cluster/src/types.rs:170-206 | check-then-raise over the chain is the all-or-nothing reserve |
| `ReplicatedLedger.LedgerState.ApplySettle` | crates/cluster/src/types.rs:209-222 | settling walks the chain and clamps and saturates as the transition function says |
| `LedgerSafety.DisciplinedRunsAreSafe` | crates/cluster/src/types.rs:145-224 | in every run where parents are opened first, no open lowers a budget, budgets stay below u64::MAX and each settle matches an outstanding accepted reserve with actual at most reserved: every run's reserved is the sum of the outstanding reservations whose chain contains it, and spent + reserved stays within budget everywhere |
| `LedgerSafety.BooksFollowTheLog` | crates/cluster/src/types.rs:145-224 | the bookkeeping of that theorem never alters the ledger: its runs are the fold of the request log |
| `LedgerSafety.ReserveIsSafe` | crates/cluster/src/types.rs:170-206 | one reserve keeps the accounts exact and every run within budget |
| `LedgerSafety.SettleIsSafe` | crates/cluster/src/types.rs:209-222 | one matching settle keeps the accounts exact and every run within budget |
| `LedgerSafety.OpenIsSafe` | crates/cluster/src/types.rs:147-169 | opening a run whose parent is open keeps the accounts exact, so no chain is lengthened under a reservation |
| `LedgerSafety.WithinBudgetsIffHeadroom` | crates/cluster/src/types.rs:145-224 | without those hypotheses: from a state within its budgets, a request keeps every run within budget exactly when a guard on the state and the request holds; a reserve always meets it when budgets are below u64::MAX |
| `LedgerSafety.OpenKeepsAccountsIff` | crates/cluster/src/types.rs:147-169 | opening a new run keeps the accounts exact exactly when no run with an outstanding non-zero reservation was waiting for it as a missing parent |
| `LedgerSafety.LateParentLosesTrack` | crates/cluster/src/types.rs:147-169 | an input on which opening a missing parent later makes the accounts wrong |
| `LedgerRollup.ChargeReachesOneChild` | crates/cluster/src/types.rs:110-127 | a charge along a chain reaches exactly one child of every run above the leaf |
| `LedgerRollup.ChargeRollsUp` | crates/cluster/src/types.rs:200-222 | charging a chain keeps every run equal to its own amount plus the sum over its children |
| `LedgerRollup.StepConserves` | crates/cluster/src/types.rs:145-224 | each open, reserve and settle keeps the tree and its roll-up |
| `LedgerRollup.RunsConserve` | crates/cluster/src/types.rs:145-224 | in every state reached by parent-first requests whose arithmetic does not clamp, each run's spent and reserved equal what it was charged directly plus the sum over its children |
| `LedgerRollup.DisciplinedIsUnclamped` | crates/cluster/src/types.rs:202-218 | a disciplined request never clamps or saturates |
| `LedgerRollup.DisciplinedTreesConserve` | crates/cluster/src/types.rs:145-224 | so disciplined parent-first runs conserve without any arithmetic hypothesis |
| `CoreLedger.Ledger.OpenRun` | crates/core/src/ledger.rs:93-104 | a new run is created empty, an existing one only gets its budget replaced |
| `CoreLedger.Ledger.ChainOf` | crates/core/src/ledger.rs:108-125 | the same ancestor walk as the replicated ledger |
| `CoreLedger.Ledger.Reserve` | crates/core/src/ledger.rs:141-176 | unknown run, first exceeded level or a reservation with its step number, and the new state, as the transition function says |
| `CoreLedger.Ledger.ReserveUnchecked` | crates/core/src/ledger.rs:181-202 | the same raise without the check, creating the run with a zero budget if needed |
| `CoreLedger.Ledger.Settle` | crates/core/src/ledger.rs:207-216 | every level of the chain releases the amount, clamped at zero, and is charged the actual cost |
| `CoreLedger.Ledger.CloseRun` | crates/core/src/ledger.rs:237-245 | removes the run and returns what it last held |
| `CoreLedger.CoreReserveIsAllOrNothing` | crates/core/src/ledger.rs:141-176 | a grant raises exactly the chain, counts one step and echoes run, amount and step; a refusal names the lowest level whose wrapped sum exceeds its budget, with its spend and that sum, and changes nothing |
| `CoreLedger.UncheckedAlwaysGrants` | crates/core/src/ledger.rs:181-202 | the unchecked reserve is always granted, raises exactly the chain and starts an unknown run at zero |
| `CoreLedger.CoreSettleChargesTheChain` | crates/core/src/ledger.rs:207-216 | exactly the chain releases the amount, not below zero, and is charged the actual cost |
| `CoreLedger.OpenAndCloseTouchOneRun` | crates/core/src/ledger.rs:93-104 | opening and closing change one run and leave every other as it was |
| `CoreLedger.ClosedRunIsOffEveryChain` | crates/core/src/ledger.rs:237-245 | a closed run is on no chain any more and cannot be reserved against |
| `LedgerBisimulation.SameReserveIff` | crates/core/src/ledger.rs:141-176 | from matching states, a reserve leaves matching states and gets the same answer from both ledgers exactly when the first level that lacks room, if there is one, does not stand past 2^63 |
| `LedgerBisimulation.SameSettleIff` | crates/core/src/ledger.rs:207-216 | a settle leaves matching states exactly when no level of the chain has its spend pass 2^63 |
| `LedgerBisimulation.LedgersMirrorIff` | crates/cluster/src/types.rs:9-12 | over any request log the in-process ledger and the replicated one hold the same counters after every request, and answer every reserve alike, exactly when every request meets that guard in its own state |
| `LedgerBisimulation.LedgersAgree` | crates/cluster/src/types.rs:9-12 | where every request met the guard, the signed ledger and the saturating one end with the same counters |
| `LedgerBisimulation.RepliesAgree` | crates/core/src/ledger.rs:141-176 | and have answered each reserve with the same verdict, the same first blocked level and the same step number |
| `LedgerBisimulation.SmallLogsAgree` | crates/cluster/src/types.rs:9-12 | in particular every log whose total inflow stays below 2^63 keeps them in step throughout |
| `LedgerBisimulation.WrappedSumIsGranted` | crates/core/src/ledger.rs:150-162 | a log (open, reserve, settle) that stays in step and leads to a state where the signed sum of the next reserve wraps: the in-process ledger grants what the replicated one refuses |
| `Basics.WrapI64IsWrapping` | crates/core/src/money.rs:39-41 | two-complement wrap-around is one way an i64 holds an exact sum, as the reports below assume |
| `RaftTypes.FoldedConcat` | crates/cluster/src/store.rs:243-265 | applying two stretches of entries in turn is applying their concatenation |
| `StateMachineStore.Store.ApplyEntries` | crates/cluster/src/store.rs:243-265 | applies every entry in order; the ledger is that of the requests, each entry is answered as the ledger answers it, and the snapshot is left alone |
| `StateMachineStore.Store.BuildSnapshot` | crates/cluster/src/store.rs:201-224 | the snapshot carries the applied state, its log position and the next number of the counter, and becomes the current one |
| `StateMachineStore.Store.InstallSnapshot` | crates/cluster/src/store.rs:277-293 | the whole applied state is replaced by that of the snapshot |
| `StateMachineStore.ActionTakesEffect` | crates/cluster/src/store.rs:201-293 | each action reaches one node: entries bring it to the index asked for, a build offers a snapshot of exactly its state, an install leaves it as the snapshot says; nothing else changes |
| `StateMachineStore.CounterCountsBuilds` | crates/cluster/src/store.rs:201-224 | in every interleaving the snapshot counter of a node is the number of snapshots it built |
| `StateMachineStore.NodesFoldTheLog` | crates/cluster/src/store.rs:201-293 | in every interleaving of apply, build and install over nodes fed from one committed log, every node's state is the fold of the log up to its last applied entry, and so is every snapshot |
| `StateMachineStore.NodesAgree` | crates/cluster/src/store.rs:201-293 | two nodes at the same log position hold identical ledgers |
| `StateMachineStore.SnapshotPlusSuffix` | crates/cluster/src/store.rs:277-293 | a snapshot followed by the rest of the log is the full log |
| `RaftTypes.FoldIsTheLedger` | crates/cluster/src/store.rs:243-265 | from any state, the ledger after a stretch of the log is its requests applied in order, and nothing else |
| `RaftTypes.EveryEntryIsAnswered` | crates/cluster/src/store.rs:243-265 | one answer per entry: a request gets the ledger's answer after exactly the requests before it, a blank or a membership entry the empty refusal |
| `RaftTypes.PositionAndMembershipAreTheLast` | crates/cluster/src/store.rs:243-265 | the position is the last entry's whole log id; the membership is the nodes of the last membership entry under that entry's log id |
| `ClusterSafety.EveryNodeStaysWithinBudgets` | crates/cluster/src/store.rs:201-293 | if the log is disciplined, every node stays within every budget at every moment |
| `ClusterSafety.EveryDiskStaysWithinBudgets` | crates/cluster/src/redbstore.rs:275-452 | and so does every disk image, through any crashes |
| `LogStores.MemoryLog.Append` | crates/cluster/src/store.rs:95-113 | each index given holds the last entry given for it, every other index what it held |
| `LogStores.MemoryLog.Truncate` | crates/cluster/src/store.rs:115-122 | keeps exactly the entries below the index |
| `LogStores.MemoryLog.Purge` | crates/cluster/src/store.rs:124-132 | records the purged id and drops the entries up to it |
| `LogStores.MemoryLog.GetLogState` | crates/cluster/src/store.rs:56-68 | the id of the entry at the greatest stored index, or the purged id when the log is empty |
| `LogStores.MemoryLog.Read` | crates/cluster/src/store.rs:44-50 | returns exactly the stored entries within the bounds, each once, their indices strictly increasing |
| `LogStores.RedbLog.Append` | crates/cluster/src/redbstore.rs:183-204 | the same insertion, in one commit |
| `LogStores.RedbLog.Truncate` | crates/cluster/src/redbstore.rs:206-222 | the same truncation, in one commit |
| `LogStores.RedbLog.Purge` | crates/cluster/src/redbstore.rs:224-241 | two commits: first the purged id, then the deletions |
| `LogStores.RedbLog.GetLogState` | crates/cluster/src/redbstore.rs:143-158 | reads the same log state from the tables |
| `LogStores.RedbLog.Read` | crates/cluster/src/redbstore.rs:115-137 | returns exactly the stored entries within the half-open pair of indices, strictly increasing; these are the ones within the given bounds exactly when the largest index does not come into it |
| `LogStores.RangeReadsAgreeIff` | crates/cluster/src/redbstore.rs:115-137 | the durable and the in-memory read agree exactly when the range and the log stay clear of index u64::MAX in a way that can be checked beforehand |
| `LogStores.OrdinaryRangeReadsAgree` | crates/cluster/src/redbstore.rs:115-137 | in particular below u64::MAX they always agree |
| `LogStores.HalfPurgeReportsTheSameIff` | crates/cluster/src/redbstore.rs:224-241 | after a crash between the two commits of a purge the log state is reported as after the full purge exactly when the purged index is at most the last one |
| `LogStores.StepRefines` | crates/cluster/src/redbstore.rs:183-241 | each append, truncate, purge or half purge keeps the durable log indistinguishable from the in-memory one above the purge point |
| `LogStores.DurableLogRefines` | crates/cluster/src/redbstore.rs:114-241 | over any history within the consensus library's contract, crashes inside purge included, the durable log refines the in-memory one |
| `LogStores.RefinedLogsLookAlike` | crates/cluster/src/redbstore.rs:115-158 | a refined disk reports the same log state as the memory, and its own half-open read from past the purged index on returns what the memory's read returns exactly under the guard on the largest index |
| `LogStores.LogsAreWellKeyed` | crates/cluster/src/redbstore.rs:183-204 | over any history both logs store every entry under its own index |
| `LogStores.AppendedIsReadable` | crates/cluster/src/store.rs:95-113 | consecutive appended entries read back at their indices |
| `RedbStateMachine.RedbStore.Open` | crates/cluster/src/redbstore.rs:275-304 | opening loads the persisted state and snapshot |
| `RedbStateMachine.RedbStore.ApplyEntries` | crates/cluster/src/redbstore.rs:395-420 | applies in memory as the in-memory store does, answers each entry as the ledger answers it, then persists state and position in one commit |
| `RedbStateMachine.RedbStore.BuildSnapshot` | crates/cluster/src/redbstore.rs:348-373 | persists the snapshot in one commit |
| `RedbStateMachine.RedbStore.InstallSnapshot` | crates/cluster/src/redbstore.rs:432-452 | replaces the state, then persists state and snapshot in two commits |
| `RedbStateMachine.DiskFoldsTheLog` | crates/cluster/src/redbstore.rs:275-452 | with a crash and reopen at any commit boundary, ledger and position on disk always describe one prefix of the log, and so does memory |
| `RedbStateMachine.ReplayAppliesOnce` | crates/cluster/src/redbstore.rs:275-304 | replaying from the persisted position after a reopen applies every remaining entry exactly once |
| `RedbStateMachine.CrashIsAllOrNothing` | crates/cluster/src/redbstore.rs:395-452 | a crash during an operation leaves the ledger as before the job or as after it |
| `Audit.HexLower` | crates/core/src/audit.rs:81-88 | two lowercase digits for each byte, high half first, in the order of the bytes |
| `Audit.HexReadsBack` | crates/core/src/audit.rs:81-88 | equal hexadecimal means equal bytes |
| `Audit.SanitizedHasNoControl` | crates/core/src/audit.rs:69-78 | every control character is replaced and nothing else changes |
| `Audit.PreImageInjective` | crates/core/src/audit.rs:93-106 | when one side carries no separator in its text fields, equal pre-images mean equal entries, whatever the other side contains |
| `Audit.PreImageText` | crates/core/src/audit.rs:93-106 | number, time, actor, action, subject, detail and previous hash, in this order, joined by U+001F |
| `Audit.BuiltRecordsEveryRequest` | crates/core/src/audit.rs:112-140 | entry i of a built chain is number i, carries request i with its texts sanitised, links to the hash of the entry before and is hashed over itself |
| `Audit.BuiltIsIntact` | crates/core/src/audit.rs:112-140 | a chain built by append verifies, is numbered from zero and carries no separator |
| `Audit.VerifyChain` | crates/core/src/audit.rs:169-192 | Ok exactly when every entry follows its predecessor; otherwise the index of the shortest failing prefix |
| `Audit.IntactIsNumbered` | crates/core/src/audit.rs:169-192 | an accepted chain is numbered 0, 1, 2, ... |
| `Audit.SameTipSameChain` | crates/core/src/audit.rs:169-192 | two accepted chains with the same tip hash are equal when the hash binds their entries |
| `Audit.TamperEvident` | crates/core/src/audit.rs:112-192 | any list that verifies with the tip hash of a chain built by append is that chain, or the two exhibit a collision of the digest |
| `Audit.ManifestBytesDetermineFieldsIff` | crates/core/src/audit.rs:153-162 | equal manifest bytes mean equal fields exactly when the two tip hashes hold the same number of separators |
| `Audit.SigningBytesUnfold` | crates/core/src/audit.rs:153-162 | organisation, tip number, tip hash, entry count and time, in this order, joined by U+001F |
| `Audit.UncheckedTipHashIsAmbiguous` | crates/core/src/audit.rs:153-162 | two different manifests with the same bytes when a tip hash may hold separators |
| `EsNumber.FormatPreservesValue` | crates/core/src/jcs.rs:109-164 | the printed text denotes the same number as the input spelling |
| `EsNumber.PrintsAlikeIff` | crates/core/src/jcs.rs:109-164 | two spellings print alike exactly when they denote the same number |
| `EsNumber.FormatHasEsLayout` | crates/core/src/jcs.rs:109-164 | the layout is the one ECMAScript fixes from the digits and the point position (section 3.2.2.3 of RFC 8785) |
| `EsNumber.FormatIsJsonNumber` | crates/core/src/jcs.rs:109-164 | the output is a number by the grammar of section 6 of RFC 8259 |
| `EsNumber.IntegerPrintsAlikeIff` | crates/core/src/jcs.rs:43-51 | a machine integer printed plainly and a float printed by placement give one text exactly when they are the same number |
| `EsNumber.TakeApartSpelled` | crates/core/src/jcs.rs:118-132 | the string splitting recovers sign, digits and exponent of any well-formed spelling |
| `EsNumber.NormalFormUnique` | crates/core/src/jcs.rs:134-142 | digits without outer zeros and point position are determined by the value |
| `JcsText.QuotedPrefixFree` | crates/core/src/jcs.rs:53-59 | quoted strings are prefix-free, so a text determines its string and what follows |
| `JcsText.KeyLeIsTotalOrder` | crates/core/src/jcs.rs:70-80 | the comparison of member names is a total order that separates different names |
| `JcsText.KeyLeIsUnitOrder` | crates/core/src/jcs.rs:70-80 | a name comes before or at another exactly when its UTF-16 code units are a prefix of the other's, or smaller at the first difference (section 3.2.3 of RFC 8785) |
| `JcsText.UnitsAreUtf16` | crates/core/src/jcs.rs:76-78 | a character below U+10000 is one unit, any other a high and a low surrogate from which it is recovered |
| `Jcs.NamesStandInOrder` | crates/core/src/jcs.rs:70-91 | the members are written in the order of the code units of their names, each once, and no two tie |
| `JsonReader.BodyReadsBack` | crates/core/src/jcs.rs:53-59 | a quoted string reads back, by the grammar of section 7 of RFC 8259, as the string, and reading stops at its closing quote |
| `JsonReader.QuotedIsShortest` | crates/core/src/jcs.rs:53-59 | no JSON string with the same meaning is shorter: nothing is escaped that need not be, nor at more length |
| `JsonReader.CanonReadsBack` | crates/core/src/jcs.rs:37-93 | followed by a delimiter or nothing, a canonical text reads back, by a reader written from RFC 8259 alone, as the value with the members of every object in the order of their names |
| `JsonReader.CanonicalTextMeansTheValue` | crates/core/src/jcs.rs:31-35 | so the whole text is JSON for the value, in canonical member order |
| `Jcs.WriteValue` | crates/core/src/jcs.rs:37-93 | the recursive printer appends exactly the canonical text, the one that reads back as the value in name order |
| `Jcs.Canonicalize` | crates/core/src/jcs.rs:31-35 | computes the canonical text |
| `Jcs.CanonPrefixFree` | crates/core/src/jcs.rs:37-93 | canonical texts are prefix-free: the text determines the value up to member order and number spelling, and what follows |
| `Jcs.NumbersPrintAlikeIff` | crates/core/src/jcs.rs:42-52 | two numbers, integer or float, print alike exactly when they are equal as numbers |
| `Jcs.CanonicalIff` | crates/core/src/jcs.rs:31-35 | equal canonical texts exactly for equal values: members in any order, numbers compared as numbers |
| `Jcs.MemberOrderIsIrrelevant` | crates/core/src/jcs.rs:70-91 | permuting the members of an object does not change the text |
| `EventChain.HashIgnoresTheLink` | crates/core/src/agent_event.rs:214-227 | an event's chain hash does not depend on its own link |
| `EventChain.ChainHashText` | crates/core/src/agent_event.rs:214-227 | the hash is "sha256:" and the lowercase hexadecimal digest of the canonical text of the event without its link |
| `EventChain.ChainHashBinds` | crates/core/src/agent_event.rs:214-227 | equal chain hashes mean equal unlinked events, or a collision of the digest |
| `EventChain.TailChainHash` | crates/core/src/agent_event.rs:428-455 | the scan hashes the last non-blank line of the window, skipping a first line cut by it |
| `EventChain.LastLineIsTheLastText` | crates/core/src/agent_event.rs:441-451 | the line found is the last that is not blank, without the ASCII white space around it; none exactly when all is white space |
| `EventChain.WindowScanIsExactIff` | crates/core/src/agent_event.rs:428-455 | the windowed scan finds the last line of the whole file exactly when the file fits the window, has no line, or the last line and the newline before it lie in the window |
| `EventChain.Exporter.Open` | crates/core/src/agent_event.rs:303-320 | opening resumes from the hash of the last line in the window |
| `EventChain.Exporter.Emit` | crates/core/src/agent_event.rs:358-413 | a written event carries the current hash as its last member prev_hash, unless the chain is empty, and its own hash becomes current; a skipped one changes neither file nor link; a failed write keeps the link and leaves in the file what it had written of the line |
| `EventChain.SameChainHash` | crates/core/src/agent_event.rs:214-227 | a value and any reordered or respelled copy of it, such as a line read back, have one chain hash |
| `EventChain.CanonicalLinesAreSound` | crates/core/src/agent_event.rs:234-236 | the contract asked of the codec can be met by a reader that keeps no member order: one-line canonical texts meet it |
| `EventChain.RestartResumes` | crates/core/src/agent_event.rs:303-320 | reopening recovers exactly the link held in memory, for any parser that returns the same value in its own member order |
| `EventChain.OneFileIsOneChain` | crates/core/src/agent_event.rs:303-413 | over any history of opens, writes, skips, restarts and writes that fail before the first character the file is one chain of the written events |
| `EventChain.OneChainThroughoutIff` | crates/core/src/agent_event.rs:353-413 | the file is one chain at every moment of a history exactly when no failed write leaves part of a line in it |
| `EventChain.LinesAreChained` | crates/core/src/agent_event.rs:358-413 | every line parses, the first carries no link and each later one carries the chain hash of the line before it |
| `RecencyIndex.Recency.Touch` | crates/cloud/src/store.rs:659-667 | the key moves to the end of the duplicate-free last-touch order |
| `RecencyIndex.OrderIsByLastTouch` | crates/cloud/src/store.rs:659-667 | over any sequence of touches of a new index the order lists exactly the keys touched, each once, and one stands before another only if its last touch is the earlier |
| `RecencyIndex.Recency.EvictOldest` | crates/cloud/src/store.rs:670-675 | the head of the order is removed |
| `RecencyIndex.Recency.EvictOldestUnprotected` | crates/cloud/src/store.rs:689-706 | the first unprotected key is removed, or the head if all are protected |
| `RecencyIndex.VictimIsJust` | crates/cloud/src/store.rs:689-706 | a protected victim means all keys are protected; otherwise every older key is protected |
| `RecencyIndex.Recency.OrderIsTheKeys` | crates/cloud/src/store.rs:636-644 | the order lists exactly the indexed keys, each once |
| `OrgRuns.OrderStaysInStep` | crates/cloud/src/store.rs:1052-1077 | through every ingest, budget change and restart the recency order lists exactly the runs of the map, and a map within the bound stays within it |
| `OrgRuns.EvictionKeepsStep` | crates/cloud/src/store.rs:1052-1072 | a victim is found exactly when a new run meets a full map, so the defensive fallback is unreachable |
| `OrgRuns.EvictionIsJust` | crates/cloud/src/store.rs:1052-1072 | a run disappears only for a new run at the cap; it is alerting only if all retained runs are, else all older runs are alerting; the others are untouched |
| `OrgRuns.OrderIsByLastIngest` | crates/cloud/src/store.rs:1052-1077 | over any history: a retained run stands before another only if its last record since the restart is the older, or neither had one and the restart listed them so |
| `OrgRuns.AlertingRunSurvives` | crates/cloud/src/store.rs:1052-1072 | an alerting run survives any flood of fresh runs as long as some retained run is not alerting and its budget is not rewritten |
| `OrgRuns.TotalsAreExact` | crates/cloud/src/store.rs:1101-1108 | over any history and any eviction: calls are the number of records; spend is the capped sum of max(cost, 0) over settled and cached calls, every other decision adding nothing; likewise the tool calls |
| `CloudRecords.SettledCallsCount` | crates/cloud/src/store.rs:41-43 | a call counts as blocked exactly when it was neither allowed nor answered from the cache, and only then adds no cost and no tool calls |
| `OrgRuns.CallsAreConserved` | crates/cloud/src/store.rs:1052-1108 | every counted call is in a retained aggregate or in an evicted one |
| `OrgRuns.RetainedCallsNeverExceedTheTotal` | crates/cloud/src/store.rs:1052-1108 | retained calls never exceed the total and equal it exactly when nothing was ever evicted |
| `OrgRuns.RunMapRecoversTotals` | crates/cloud/src/store.rs:2117-2129 | while nothing was evicted, summing the run map gives the exact totals |
| `OrgRuns.RunsAreTheirOwnHistory` | crates/cloud/src/store.rs:1073-1130 | each retained aggregate summarises exactly its run's records since it entered the map: counts, capped sums, highest step and timestamp, last non-empty model, agent and unit |
| `OrgRuns.OwnIsEveryRecord` | crates/cloud/src/store.rs:1073-1130 | with no eviction these are all the records the run ever had |
| `MonthKey.CivilFromDaysIsCorrect` | crates/cloud/src/store.rs:281-293 | for every day, negative eras included, the computed year and month contain it in a calendar counted day by day, and the intermediates stay in their commented ranges |
| `MonthKey.MonthIsUnique` | crates/cloud/src/store.rs:281-293 | it inverts the calendar: no other month contains the day |
| `MonthKey.MonthIsMonotone` | crates/cloud/src/store.rs:281-293 | later timestamps never fall in an earlier month |
| `MonthKey.KeyNamesTheMonth` | crates/cloud/src/store.rs:281-293 | two timestamps share a key exactly when they share year and month |
| `MonthKey.KeySpellsTheMonth` | crates/cloud/src/store.rs:281-293 | the key of a timestamp is the year in full, four places or more counting the sign, a hyphen and two digits for the month, of the month its day of 86,400,000 ms falls in |
| `MonthKey.MonthIsOneStretch` | crates/cloud/src/store.rs:281-293 | the timestamps of one key form one stretch of time |
| `UnitMonths.ClockStaysCurrent` | crates/cloud/src/store.rs:1021-1025 | a clock that does not run backwards stays in a month once it is there |
| `UnitMonths.MonthToDateIsTheLastStretch` | crates/cloud/src/store.rs:1139-1170 | whatever the clock did, a unit shows the calls and the capped spend of the records it owns since it was last seen in another month |
| `UnitMonths.MonthToDateIsExactIff` | crates/cloud/src/store.rs:1139-1170 | what a unit shows never exceeds what it owns in the month; the calls are exact if and only if no record it owns from another month follows one from this, and the spend under a like condition |
| `UnitMonths.MonthToDateIsExact` | crates/cloud/src/store.rs:1139-1170 | so while the clock stays in the month every unit shows exactly the calls and the capped spend of the records it owns: its own if it was admitted, and everything else under "unassigned" |
| `UnitMonths.TheMonthIsConservedIff` | crates/cloud/src/store.rs:1139-1170 | the calls shown for a month never add up to more than that month's records, and add up to exactly them, the overflow bucket included, if and only if no unit's records leave the month |
| `UnitMonths.TheMonthIsConserved` | crates/cloud/src/store.rs:1139-1170 | while the clock stays in the month both calls and capped spend add up |
| `UnitMonths.UnitsAreBounded` | crates/cloud/src/store.rs:1147-1155 | at most 4,096 keys besides "unassigned", in any order of months |
| `UnitMonths.EveryUnitHasAnAccumulator` | crates/cloud/src/store.rs:1139-1155 | a unit that was ever named has its own accumulator unless the map was full; records without a name or without an accumulator are under "unassigned" |
| `UnitMonths.SteppingBackLosesCalls` | crates/cloud/src/store.rs:1156-1163 | a clock stepping back to an earlier month restarts its count |
| `Savings.ComputeSavings` | crates/core/src/savings.rs:87-123 | every figure of the batch report: wrapped sums per dimension, blocked calls, as many broken runs as were stopped, and a breakdown that names exactly the reasons seen and adds up to the blocked spend |
| `Savings.BrokenRunsAreThoseStopped` | crates/core/src/savings.rs:87-123 | a run counts as broken exactly when budget protection stopped one of its calls |
| `Savings.SumsGoByDecision` | crates/core/src/savings.rs:87-123 | cache savings are those of the cache hits, router savings those of the settled calls, and blocked calls those that budget protection stopped |
| `Savings.LiveSumsAreCapped` | crates/cloud/src/store.rs:1171-1225 | the live sums are the capped sums of the clamped amounts over the whole history |
| `Savings.BreaksAreBoundedAndNeverUndercounted` | crates/cloud/src/store.rs:1185-1201 | the set of broken runs stays capped, its recency keys stay a subset, the counter never falls below the number of distinct broken runs, and the backfill at a restart is a no-op |
| `Savings.BreaksAreExactBelowTheCap` | crates/cloud/src/store.rs:1185-1201 | up to the cap the counter is exact |
| `Savings.OldestBreakMakesRoom` | crates/cloud/src/store.rs:1185-1201 | a new broken run at a full set pushes out exactly one run: the one stopped longest ago, if any remembered run was stopped since the last restart |
| `Savings.BatchesConcatenate` | crates/cloud/src/store.rs:1171-1225 | feeding batches in turn is feeding their concatenation |
| `Savings.LiveEqualsBatch` | crates/cloud/src/store.rs:1171-1225 | for non-negative, unsaturated histories with at most MAX_BREAK_KEYS broken runs the live rollup equals the batch report of the concatenated history, whatever the batches and restarts |
| `Series.SeriesOf` | crates/cloud/src/store.rs:1414-1461 | each bucket holds the capped sums of the samples that land in it |
| `Series.NormalisedCoversTheWindow` | crates/cloud/src/store.rs:1422-1428 | a step below one is one, a window below the step is the step; as many whole steps as the window holds, at most 10,000, starting one window before now |
| `Series.BucketSays` | crates/cloud/src/store.rs:1429-1457 | a bucket shows its start, the cost and the tool calls of its samples, capped, and the exact number of calls and of blocked calls |
| `Series.BucketSumsAdd` | crates/cloud/src/store.rs:1441-1457 | the sums of a bucket add up over stretches of the log |
| `Series.EachSampleLandsOnce` | crates/cloud/src/store.rs:1441-1448 | a sample of the run asked for, within the window at both ends, lands in exactly the bucket whose stretch of time holds it, or in the last one of a capped series; no other sample lands |
| `Series.BucketsPartitionTheWindow` | crates/cloud/src/store.rs:1414-1461 | the buckets together hold exactly the samples of the window, capped or not |
| `Series.BurnSince` | crates/cloud/src/store.rs:2534-2541 | the saturating cost of the samples in the interval |
| `Series.BurnIsTheSeries` | crates/cloud/src/store.rs:2534-2541 | the spend rate is the one-bucket series, and what any finer series over the window adds up to |
| `OrgStore.RunFold.MakeRoom` | crates/cloud/src/store.rs:1052-1072 | evicts exactly as the transition function says |
| `OrgStore.RunFold.Tally` | crates/cloud/src/store.rs:1073-1130 | folds one record into the aggregate, the order and the totals |
| `OrgStore.RunFold.Fold` | crates/cloud/src/store.rs:1032-1130 | keeps the run map, order, totals and budgets equal to the fold of the history |
| `OrgStore.RunFold.SetBudget` | crates/cloud/src/store.rs:1920-1935 | a central budget is replaced and nothing else changes |
| `OrgStore.RunFold.Reload` | crates/cloud/src/store.rs:2153-2171 | a restart rebuilds an order that lists exactly the loaded runs, oldest last_seen first |
| `OrgStore.Seed` | crates/cloud/src/store.rs:2153-2171 | the seeded index lists every run once, sorted by last_seen, whatever order the map gives |
| `OrgStore.Backfill` | crates/cloud/src/store.rs:2117-2129 | sums the calls and, when no spend is negative, the capped spend of the run map in any order |
| `OrgStore.RunFold.RecoverTotals` | crates/cloud/src/store.rs:2117-2129 | the backfill recovers the exact calls and spend while nothing was evicted |
| `OrgStore.RunFold.Summary` | crates/cloud/src/store.rs:1506-1518 | exact over the whole history: the number of records, the capped spend of settled and cached calls and their capped tool calls; and a run count within the bound |
| `OrgStore.UnitFold.Fold` | crates/cloud/src/store.rs:1139-1170 | keeps the accumulators equal to the fold of the stamped history |
| `OrgStore.UnitFold.ToDate` | crates/cloud/src/store.rs:1598-1619 | the month column shown is the tally since the unit's last record from another month; the calls are all it owns in the month if and only if its records never left it |
| `OrgStore.SavingFold.Fold` | crates/cloud/src/store.rs:1171-1225 | keeps the savings equal to the fold of the recorded calls |
| `OrgStore.SavingFold.Reload` | crates/cloud/src/store.rs:2104-2109 | a restart loses the recency order and leaves the counter as it was |
| `OrgStore.OrgStore.IngestAt` | crates/cloud/src/store.rs:1001-1247 | a batch extends all three histories by its records in order; the sample log keeps the newest 100,000 |
| `OrgStore.BatchesKeepAgreement` | crates/cloud/src/store.rs:1001-1247 | all accumulators see the same records in the same order |
| `OrgStore.BatchesExtend` | crates/cloud/src/store.rs:1025-1032 | a batch extends the histories by one ingest and one stamped record for each of its records, in order, all under the month of the clock |
| `OrgStore.RecordsAreReadAsTheyAre` | crates/cloud/src/store.rs:1226-1243 | a sample carries time, run, max(cost, 0) and tool calls of its record and is blocked exactly when the call was neither allowed nor cached |
| `OrgStore.SeriesAddsUpToTheSummaryIff` | crates/cloud/src/store.rs:3770-3788 | a series over every record shows as many calls as the summary, and as much spend exactly when no stopped call carried a cost or the spend is at its cap |
| `SemanticCache.Cache.Get` | crates/core/src/cache.rs:204-239 | prunes the partition and no other, and answers from an unexpired eligible entry that no other beats |
| `SemanticCache.Cache.Put` | crates/core/src/cache.rs:242-269 | appends and keeps the newest up to the bound; other partitions are left alone, and a cache that is off stores nothing |
| `SemanticCache.BestIsEarliestMaximum` | crates/core/src/cache.rs:218-231 | of the entries passing every guard the best is the earliest of the most similar; none exactly when none passes |
| `SemanticCache.AnswerIsEarliestMaximum` | crates/core/src/cache.rs:204-239 | the answer carries response, type, similarity and cost of the earliest of the most similar entries that are not expired, share the entities where those are guarded, are within the length factor and reach the threshold; none exactly when there is no such entry |
| `SemanticCache.RatioIsLongerOverShorter` | crates/core/src/cache.rs:272-279 | the length ratio times the shorter length is the longer one, a length of nothing counting as one |
| `SemanticCache.LazyExpiryIsInvisibleIff` | crates/core/src/cache.rs:204-269 | with puts in clock order and lookups at any clock, a partition serves what its newest puts would exactly when none of them is live now and was expired at the clock of a lookup after it |
| `SemanticCache.LazyExpiryIsInvisible` | crates/core/src/cache.rs:204-269 | so under a non-decreasing clock a lookup answers as if nothing had been pruned: from the unexpired among the last max_per_partition puts, whatever lookups came before |
| `SemanticCache.PartitionsAreBounded` | crates/core/src/cache.rs:264-268 | no partition exceeds its bound |
| `SemanticCache.FutureLookupDropsALiveEntry` | crates/core/src/cache.rs:216-217 | with a clock running backwards a pruned entry can be missed |
| `Backtest.Run` | crates/core/src/backtest.rs:63-127 | the report is the per-run replay in step order, in any order of runs |
| `Backtest.Replay` | crates/core/src/backtest.rs:76-121 | the inner loop computes blocked calls, saved cost and whether the run is affected |
| `Backtest.TallyGoesByVerdict` | crates/core/src/backtest.rs:76-121 | blocked is the number of calls not let through, saved what exactly those cost, admitted what the others cost |
| `Backtest.StepOrder` | crates/core/src/backtest.rs:75-77 | a run is replayed in ascending order of steps, calls of one step in the order of the trace, none lost |
| `Backtest.ReportCounts` | crates/core/src/backtest.rs:69-74 | the report counts the runs of the trace, the runs with a blocked call and all calls |
| `Backtest.SpentIsSavedPlusAdmitted` | crates/core/src/backtest.rs:63-127 | every microdollar of the trace was admitted or saved |
| `Backtest.InterleavingIsIrrelevant` | crates/core/src/backtest.rs:64-67 | re-interleaving different runs leaves the report unchanged |
| `Backtest.RaisingTheBudgetBlocksNoMore` | crates/core/src/backtest.rs:100-109 | raising or removing the run budget never blocks more calls nor affects more runs, with or without a step cap |
| `BacktestAgainstLive.ReplayMirrorsLive` | crates/core/src/policy.rs:103-124 | without a per-step cap the replay follows live enforcement (evaluate, reserve, settle at cost, stop at the first refusal) state for state |
| `BacktestAgainstLive.ModesDecide` | crates/core/src/policy.rs:82-124 | only enforcement blocks and only a warning warns, each exactly when a limit is reached, and the step limit is named before the cap |
| `BacktestAgainstLive.ReplayBlocksWhatLiveBlocks` | crates/core/src/backtest.rs:76-121 | and blocks exactly the calls that would be refused |
| `BacktestAgainstLive.LiveRefusesAtLeast` | crates/core/src/backtest.rs:76-121 | for every policy live enforcement refuses at least the calls the replay blocks, and exactly as many if and only if the replay lets no call through after one it did not |
| `StepCap.AdmitsAgainIff` | crates/core/src/backtest.rs:76-121 | it lets one through again exactly when a run breaks the per-step cap alone and later meets a call within the cap and within the step and run limits as they stood |
| `BacktestAgainstLive.ReportCountsLiveRefusalsIff` | crates/core/src/backtest.rs:63-127 | over a whole trace the report never counts more than the live refusals, and counts exactly those if and only if no run comes back that way |
| `BacktestAgainstLive.ReportCountsLiveRefusals` | crates/core/src/backtest.rs:63-127 | so without a per-step cap it always counts exactly the live refusals |
| `BacktestAgainstLive.StepCapDisagrees` | crates/core/src/backtest.rs:111-119 | a trace on which a per-step cap makes the two differ |
| `Redaction.DedupOverlaps` | crates/core/src/dlp.rs:217-229 | the scan computes the kept spans of the sorted findings |
| `Redaction.DedupIsDisjointAndCovering` | crates/core/src/dlp.rs:217-229 | kept spans are findings, in order and pairwise disjoint; every finding is kept or starts inside a kept one further left or at least as long |
| `Redaction.EarliestPatternWins` | crates/core/src/dlp.rs:217-229 | of several findings with one span the first reported names it |
| `Redaction.Redact` | crates/core/src/dlp.rs:232-243 | the in-place loop makes the replacements from the right; when no finding is empty and no two share a byte the result is the left-to-right splice over them |
| `Redaction.RedactionIsTheSplice` | crates/core/src/dlp.rs:232-243 | in whatever order the findings come: text outside applicable spans is kept and each span becomes its tag |
| `Redaction.RedactingOneScan` | crates/core/src/dlp.rs:217-243 | redacting what one de-overlapped scan reports is the splice over it |
| `Redaction.RedactingTwoScans` | crates/gateway/src/proxy.rs:412-509 | merging secrets with the personal data that overlaps none of them, one redaction replaces every span of both where it stands |
| `RedactedText.FitsIffWholeCharacters` | crates/core/src/dlp.rs:232-243 | on UTF-8 text the test made before a replacement holds exactly for findings that cover whole characters |
| `RedactedText.TagIsText` | crates/core/src/dlp.rs:232-243 | the tag written for a kind is the text [REDACTED:kind] |
| `RedactedText.RedactionKeepsText` | crates/core/src/dlp.rs:232-243 | whatever the findings, overlapping or not, a UTF-8 text comes out as a UTF-8 text |
| `Redaction.OverlapIsSharing` | crates/core/src/dlp.rs:52-54 | two non-empty findings overlap exactly when they share a byte |
| `Luhn.LuhnValid` | crates/core/src/dlp.rs:175-199 | true exactly for non-empty digit strings whose weighted sum is divisible by ten |
| `Luhn.PairsFromTheRight` | crates/core/src/dlp.rs:175-199 | from the right a digit counts as it is and the one before it by the digit sum of its double, pair by pair |
| `Luhn.ExactlyOneCheckDigit` | crates/core/src/dlp.rs:175-199 | every payload has exactly one digit that completes it to a valid number |
| `Luhn.SingleDigitChangeIsCaught` | crates/core/src/dlp.rs:175-199 | changing any one digit of a valid number makes it invalid |
| `Luhn.AdjacentSwapIsCaughtExceptZeroNine` | crates/core/src/dlp.rs:175-199 | swapping two neighbouring digits keeps it valid exactly when they are equal or are 0 and 9 |
| `SecretBroker.Replace` | crates/core/src/secretbroker.rs:99-134 | the output weaves the stretches between the handles with the secret of every handle the vault knows and the handle itself where it does not; the report follows the handles in order |
| `SecretBroker.RenderSubstitutes` | crates/core/src/secretbroker.rs:99-134 | the text and its rendering are the same stretches, woven with the handles as written and with their secrets |
| `SecretBroker.UnknownInOrder` | crates/core/src/secretbroker.rs:99-134 | unknown names are reported one by one in the order of the text, known ones counted one by one |
| `SecretBroker.TokensShowTheText` | crates/core/src/secretbroker.rs:99-134 | splitting a text into tokens loses nothing |
| `SecretBroker.TokensReadBack` | crates/core/src/secretbroker.rs:99-134 | tokens in which each opening and closing is the first occurrence ahead, and none was overlooked, are what their text splits into |
| `SecretBroker.TokensAreCanonical` | crates/core/src/secretbroker.rs:99-134 | splitting a text takes the first occurrence of each delimiter and overlooks none |
| `SecretBroker.TheOneCanonicalReading` | crates/core/src/secretbroker.rs:99-134 | so every text has exactly one such reading, and the loop follows it |
| `SecretBroker.EveryHandleIsAccountedFor` | crates/core/src/secretbroker.rs:58-63 | replaced plus missing is the number of closed handles, and exactly the unknown names are missing |
| `SecretBroker.NothingKnownNothingChanged` | crates/core/src/secretbroker.rs:99-134 | a text without known handles comes back unchanged |
| `SecretInjection.Walk` | crates/core/src/secretbroker.rs:77-96 | every string of the value is rendered, keys and structure stay, handles are reported in order |
| `SecretInjection.InjectSecrets` | crates/core/src/secretbroker.rs:71-75 | in every string each known handle becomes its secret; keys, order, shape and all other values stay; every closed handle is replaced or reported |
| `SecretInjection.UnknownHandlesChangeNothing` | crates/core/src/secretbroker.rs:77-96 | a value without known handles comes back unchanged |
| `Outcomes.WinningTags` | crates/core/src/outcomes.rs:134-141 | each run's tag is that of its winner |
| `Outcomes.WinnerHasTheHighestStep` | crates/core/src/outcomes.rs:134-141 | the winner is the tagging call of the highest step, the latest recorded one on a tie |
| `Outcomes.RowCountsItsCalls` | crates/core/src/outcomes.rs:142-165 | a row holds the runs of its calls, the cost of those that were not blocked, how many there are and how many were blocked |
| `Outcomes.ComputeOutcomes` | crates/core/src/outcomes.rs:129-181 | one line per winning tag in the order of the tags, untagged last, with that tag's runs, wrapped settled cost, calls and blocked calls; calls and runs each add up exactly, settled cost up to wrapping |

## Left out

- HTTP, TLS, streaming, leader forwarding and the gateway's request path: input and output over
  libraries that are not part of the repository.
- Elections, voting, replication and the vote and committed rows of the stores: they belong to
  the consensus library; one committed log is taken as its contract.
- SHA-256, ES256 signatures, key sets, device tokens and random numbers: digests are parameters.
- Floating point in the cache (embeddings, cosine) and in the alert fraction: similarity is an
  abstract real-valued function, the length ratio is exact, the alert test an abstract predicate.
- Regular expressions of the scanners: findings are inputs to `Redaction`, digit strings to `Luhn`.
- I/O failures of the stores: a method either commits or the node crashes.
- Reason texts of refusals and of policy violations: the model carries the level and the rule.
- The incident detectors, their occurrence and fan-out trackers, the nonce ring, the decision
  counts and the incident cap of the cloud store: bounded queues that would add only easy members.
- Agents, units and runs listings, their sort orders and the broadcast events: read-side rollups.
- The `u64` touch sequence and the call counters of the cloud store are unbounded: neither can
  reach 2^64 by increments of one.
- Series.SeriesOf: the window start and bucket times are computed on unbounded integers; with a
  clock after 1970 the source's `i64` forms cannot wrap.
- Outcomes.ComputeOutcomes: whether a decision counts as blocked is an input, and the mean cost
  per run is not modelled.
- OrgStore.OrgStore.IngestAt: the decision counts, the fired incidents and the stream events of
  the batch are outputs of their own and not modelled; no accumulator that is modelled reads them.
- Redaction.Redact: a finding that starts after it ends makes the source panic and is excluded; for
  findings that are empty or overlap, only the order of the replacements is stated.
- Backtest.Run: the report's own sums wrap as `IsWrapping` says, its call counters are unbounded.
- EventChain.Exporter.Emit: the envelope's other fields are opaque members; that a line reads back as
  the same value, members in any order, is the codec's contract (`Sound`), not proved, and is asked
  only of values whose floating-point numbers the codec reads back. A torn write ends at a character.
- Jcs.CanonicalIff: floats are given by their shortest decimal spelling; that the spelling is the
  shortest one is the serialiser's promise, not proved here.
- JsonReader.QuotedIsShortest: the reader does not take escaped surrogate pairs; such a pair is
  twelve characters long and stands for one that is written as itself.
- Breaker, compliance, taint, keys, OIDC, devices, push messages, dashboard and SDK code: no state
  machine or arithmetic that the results above depend on.
