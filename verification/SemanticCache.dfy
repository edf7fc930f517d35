/** The partitioned semantic cache (`crates/core/src/cache.rs`). Embeddings and their
    similarity are abstract; expiry is lazy and the bound is first-in first-out. */
module SemanticCache {
  import opened Basics

  datatype Mode = Off | Shadow | On

  datatype Config = Config(
    mode: Mode, threshold: real, ttl: i64, maxPerPartition: nat, entityGuard: bool, lengthRatioMax: real)

  /** What is computed from a prompt: its embedding, its exact-match entities and its length. */
  datatype Core<E> = Core(embedding: E, entities: set<string>, length: nat)

  datatype Entry<E> = Entry(core: Core<E>, response: seq<bv8>, contentType: string, cost: i64, created: i64)

  datatype Lookup = Lookup(response: seq<bv8>, contentType: string, similarity: real, saved: i64)

  type Similarity<!E> = (E, E) -> real

  function Ratio(a: nat, b: nat): real {
    var x, y := Max(a, 1) as real, Max(b, 1) as real;
    if x > y then x / y else y / x
  }

  /** The longer of two lengths over the shorter, a length of nothing counting as one. */
  lemma RatioIsLongerOverShorter(a: nat, b: nat)
    ensures var x, y := Max(1, a), Max(1, b);
            Ratio(a, b) * (Min(x, y) as real) == Max(x, y) as real
  {
  }

  predicate Passes<E>(config: Config, sim: Similarity<E>, query: Core<E>, e: Entry<E>) {
    && (config.entityGuard ==> e.core.entities == query.entities)
    && Ratio(query.length, e.core.length) <= config.lengthRatioMax
    && sim(query.embedding, e.core.embedding) >= config.threshold
  }

  predicate IsLive<E>(ttl: int, e: Entry<E>, now: int) {
    now - e.created <= ttl
  }

  function Live<E>(ttl: int, entries: seq<Entry<E>>, now: int): seq<Entry<E>> {
    if entries == [] then []
    else
      var rest, e := Live(ttl, entries[..|entries| - 1], now), entries[|entries| - 1];
      if IsLive(ttl, e, now) then rest + [e] else rest
  }

  /** Index of the best entry: the scan keeps the first of equally similar ones. */
  function Best<E>(config: Config, sim: Similarity<E>, query: Core<E>, entries: seq<Entry<E>>): (best: Option<nat>)
    ensures best.Some? ==> best.value < |entries|
  {
    if entries == [] then None
    else
      var n := |entries| - 1;
      var best := Best(config, sim, query, entries[..n]);
      if Passes(config, sim, query, entries[n])
         && (best.Some? ==> sim(query.embedding, entries[n].core.embedding) > sim(query.embedding, entries[best.value].core.embedding))
      then Some(n) else best
  }

  function Hit<E>(sim: Similarity<E>, query: Core<E>, e: Entry<E>): Lookup {
    Lookup(e.response, e.contentType, sim(query.embedding, e.core.embedding), e.cost)
  }

  /** What a lookup at `now` answers from a list of stored entries. */
  function Answer<E>(config: Config, sim: Similarity<E>, query: Core<E>, entries: seq<Entry<E>>, now: int): Option<Lookup> {
    var live := Live(config.ttl, entries, now);
    var best := Best(config, sim, query, live);
    if best.Some? then Some(Hit(sim, query, live[best.value])) else None
  }

  /** The newest `max` of a list. */
  function Newest<T>(s: seq<T>, max: nat): seq<T> {
    if |s| <= max then s else s[|s| - max..]
  }

  // ---- the class ----

  class Cache<E> {
    const config: Config
    const similarity: Similarity<E>
    var store: map<u64, seq<Entry<E>>>

    constructor (config: Config, similarity: Similarity<E>)
      ensures this.config == config && this.similarity == similarity && store == map[]
    {
      this.config, this.similarity, store := config, similarity, map[];
    }

    method Get(partition: u64, query: Core<E>, now: i64) returns (found: Option<Lookup>)
      modifies this
      ensures store == Looked(config, old(store), partition, now)
      ensures found == if config.mode.Off? || partition !in old(store) then None
                       else Answer(config, similarity, query, old(store)[partition], now)
      ensures store.Keys == old(store).Keys && forall q :: q in store && q != partition ==> store[q] == old(store)[q]
      ensures config.mode.Off? ==> found.None? && store == old(store)
      ensures found.Some? ==>
                && partition in old(store)
                && exists i :: && Wins(config, similarity, query, old(store)[partition], now, i)
                               && found.value.response == old(store)[partition][i].response
    {
      if config.mode.Off? {
        return None;
      }
      if partition !in store {
        return None;
      }
      var entries := Retain(config.ttl, store[partition], now);
      store := store[partition := entries];
      found := Scan(config, similarity, query, entries);
      AnswerIsEarliestMaximum(config, similarity, query, old(store)[partition], now);
    }

    /** The guarded scan for the best entry. */
    static method Scan(config: Config, similarity: Similarity<E>, query: Core<E>, entries: seq<Entry<E>>)
      returns (found: Option<Lookup>)
      ensures var best := Best(config, similarity, query, entries);
              found == if best.Some? then Some(Hit(similarity, query, entries[best.value])) else None
    {
      var best: Option<nat>, bestSim := None, 0.0;
      for i := 0 to |entries|
        invariant best == Best(config, similarity, query, entries[..i])
        invariant best.Some? ==> bestSim == similarity(query.embedding, entries[best.value].core.embedding)
      {
        assert entries[..i + 1][..i] == entries[..i];
        var e := entries[i];
        if config.entityGuard && e.core.entities != query.entities {
          continue;
        }
        if Ratio(query.length, e.core.length) > config.lengthRatioMax {
          continue;
        }
        var sim := similarity(query.embedding, e.core.embedding);
        if sim >= config.threshold && (best.None? || sim > bestSim) {
          best, bestSim := Some(i), sim;
        }
      }
      assert entries[..|entries|] == entries;
      found := None;
      if best.Some? {
        var e := entries[best.value];
        found := Some(Lookup(e.response, e.contentType, bestSim, e.cost));
      }
    }

    static method Retain(ttl: int, entries: seq<Entry<E>>, now: int) returns (live: seq<Entry<E>>)
      ensures live == Live(ttl, entries, now)
    {
      live := [];
      for i := 0 to |entries|
        invariant live == Live(ttl, entries[..i], now)
      {
        assert entries[..i + 1][..i] == entries[..i];
        if now - entries[i].created <= ttl {
          live := live + [entries[i]];
        }
      }
      assert entries[..|entries|] == entries;
    }

    method Put(partition: u64, e: Entry<E>)
      modifies this
      ensures store == Stored(config, old(store), partition, e)
      ensures config.mode.Off? ==> store == old(store)
      ensures !config.mode.Off? ==>
                var all := (if partition in old(store) then old(store)[partition] else []) + [e];
                && store.Keys == old(store).Keys + {partition}
                && (forall q :: q in old(store) && q != partition ==> store[q] == old(store)[q])
                && |store[partition]| == Min(|all|, config.maxPerPartition)
                && store[partition] == all[|all| - |store[partition]|..]
    {
      if config.mode.Off? {
        return;
      }
      var all := (if partition in store then store[partition] else []) + [e];
      var entries := all;
      while |entries| > config.maxPerPartition
        invariant |entries| <= |all| && entries == all[|all| - |entries|..]
        invariant |entries| >= Min(|all|, config.maxPerPartition)
        decreases |entries|
      {
        entries := entries[1..];
      }
      store := store[partition := entries];
    }
  }

  // ---- what a lookup means ----

  /** The entry may be served: the same entities where those are guarded, lengths within
      the factor allowed, and similar enough. */
  ghost predicate Eligible<E>(config: Config, sim: Similarity<E>, query: Core<E>, e: Entry<E>) {
    var x, y := Max(1, query.length), Max(1, e.core.length);
    && (!config.entityGuard || e.core.entities == query.entities)
    && Max(x, y) as real <= config.lengthRatioMax * (Min(x, y) as real)
    && config.threshold <= sim(query.embedding, e.core.embedding)
  }

  lemma WithinFactorIff(ratio: real, longer: real, shorter: real, max: real)
    requires shorter > 0.0 && ratio * shorter == longer
    ensures ratio <= max <==> longer <= max * shorter
  {
    if ratio <= max {
      ScaledUp(ratio, max, shorter);
    } else {
      ScaledUp(max, ratio, shorter);
      assert max * shorter != ratio * shorter by {
        assert (ratio - max) * shorter > 0.0;
      }
    }
  }

  lemma ScaledUp(a: real, b: real, c: real)
    requires a <= b && c > 0.0
    ensures a * c <= b * c
  {
  }

  lemma RatioWithinIff(a: nat, b: nat, max: real)
    ensures var x, y := Max(1, a), Max(1, b);
            Ratio(a, b) <= max <==> Max(x, y) as real <= max * (Min(x, y) as real)
  {
    var x, y := Max(1, a), Max(1, b);
    RatioIsLongerOverShorter(a, b);
    WithinFactorIff(Ratio(a, b), Max(x, y) as real, Min(x, y) as real, max);
  }

  lemma PassesIff<E>(config: Config, sim: Similarity<E>, query: Core<E>, e: Entry<E>)
    ensures Passes(config, sim, query, e) <==> Eligible(config, sim, query, e)
  {
    RatioWithinIff(query.length, e.core.length, config.lengthRatioMax);
  }

  /** Of the entries passing every guard the best is one that no other beats, the earliest if
      several are equally similar; there is none exactly when none passes. */
  lemma {:induction false} BestIsEarliestMaximum<E>(config: Config, sim: Similarity<E>, query: Core<E>, entries: seq<Entry<E>>)
    ensures var best := Best(config, sim, query, entries);
            && (best.None? <==> forall i :: 0 <= i < |entries| ==> !Passes(config, sim, query, entries[i]))
            && (best.Some? ==> Passes(config, sim, query, entries[best.value]))
            && forall i :: best.Some? && 0 <= i < |entries| && Passes(config, sim, query, entries[i]) ==>
                             var s, b := sim(query.embedding, entries[i].core.embedding), sim(query.embedding, entries[best.value].core.embedding);
                             s <= b && (i < best.value ==> s < b)
  {
    if entries != [] {
      BestIsEarliestMaximum(config, sim, query, entries[..|entries| - 1]);
    }
  }

  /** The entry may be served at `now`: it is eligible and not older than the limit. */
  ghost predicate Servable<E>(config: Config, sim: Similarity<E>, query: Core<E>, e: Entry<E>, now: int) {
    e.created + config.ttl >= now && Eligible(config, sim, query, e)
  }

  ghost function Score<E>(sim: Similarity<E>, query: Core<E>, e: Entry<E>): real {
    sim(query.embedding, e.core.embedding)
  }

  /** Entry `i` is servable, and the earliest of the most similar servable ones. */
  ghost predicate Wins<E>(config: Config, sim: Similarity<E>, query: Core<E>, entries: seq<Entry<E>>, now: int, i: int) {
    && 0 <= i < |entries| && Servable(config, sim, query, entries[i], now)
    && forall j :: 0 <= j < |entries| && Servable(config, sim, query, entries[j], now) ==>
         && Score(sim, query, entries[j]) <= Score(sim, query, entries[i])
         && (j < i ==> Score(sim, query, entries[j]) < Score(sim, query, entries[i]))
  }

  ghost predicate NothingServable<E>(config: Config, sim: Similarity<E>, query: Core<E>, entries: seq<Entry<E>>, now: int) {
    forall i :: 0 <= i < |entries| ==> !Servable(config, sim, query, entries[i], now)
  }

  lemma WinnerStays<E>(config: Config, sim: Similarity<E>, query: Core<E>, init: seq<Entry<E>>, e: Entry<E>, now: int, at: int)
    requires Wins(config, sim, query, init, now, at)
    requires Servable(config, sim, query, e, now) ==> Score(sim, query, e) <= Score(sim, query, init[at])
    ensures Wins(config, sim, query, init + [e], now, at)
  {
  }

  lemma LatecomerWins<E>(config: Config, sim: Similarity<E>, query: Core<E>, init: seq<Entry<E>>, e: Entry<E>, now: int, at: int)
    requires Servable(config, sim, query, e, now)
    requires NothingServable(config, sim, query, init, now)
             || (Wins(config, sim, query, init, now, at) && Score(sim, query, init[at]) < Score(sim, query, e))
    ensures Wins(config, sim, query, init + [e], now, |init|)
  {
  }

  lemma BestOneMore<E>(config: Config, sim: Similarity<E>, query: Core<E>, live: seq<Entry<E>>, e: Entry<E>)
    ensures var best := Best(config, sim, query, live);
            Best(config, sim, query, live + [e])
            == if Eligible(config, sim, query, e) && (best.Some? ==> Score(sim, query, live[best.value]) < Score(sim, query, e))
               then Some(|live|) else best
  {
    PassesIff(config, sim, query, e);
    assert (live + [e])[..|live|] == live;
  }

  /** The best of the live entries is the winner among all of them. */
  lemma {:induction false} BestLiveWins<E>(config: Config, sim: Similarity<E>, query: Core<E>, entries: seq<Entry<E>>, now: int)
    returns (at: int)
    ensures var live := Live(config.ttl, entries, now);
            var best := Best(config, sim, query, live);
            && (best.None? ==> NothingServable(config, sim, query, entries, now))
            && (best.Some? ==> Wins(config, sim, query, entries, now, at) && live[best.value] == entries[at])
  {
    at := 0;
    if entries != [] {
      var init, e := entries[..|entries| - 1], entries[|entries| - 1];
      var live := Live(config.ttl, init, now);
      assert entries == init + [e];
      at := BestLiveWins(config, sim, query, init, now);
      BestOneMore(config, sim, query, live, e);
      var best := Best(config, sim, query, live);
      if Servable(config, sim, query, e, now) && (best.Some? ==> Score(sim, query, init[at]) < Score(sim, query, e)) {
        LatecomerWins(config, sim, query, init, e, now, at);
        at := |init|;
      } else if best.Some? {
        WinnerStays(config, sim, query, init, e, now, at);
      }
    }
  }

  /** The answer comes from the earliest of the most similar servable entries and carries
      its response, its type, its similarity and its cost; there is none exactly when no
      entry is servable. */
  lemma AnswerIsEarliestMaximum<E>(config: Config, sim: Similarity<E>, query: Core<E>, entries: seq<Entry<E>>, now: int)
    ensures var found := Answer(config, sim, query, entries, now);
            && (found.None? <==> NothingServable(config, sim, query, entries, now))
            && (found.Some? ==>
                  exists i :: && Wins(config, sim, query, entries, now, i)
                              && found.value == Lookup(entries[i].response, entries[i].contentType,
                                                       Score(sim, query, entries[i]), entries[i].cost))
  {
    var at := BestLiveWins(config, sim, query, entries, now);
  }

  // ---- whole histories ----

  type Store<E> = map<u64, seq<Entry<E>>>

  datatype Op<E> = Put(partition: u64, entry: Entry<E>) | Get(partition: u64, now: i64)

  function Looked<E>(config: Config, store: Store<E>, partition: u64, now: int): Store<E> {
    if config.mode.Off? || partition !in store then store
    else store[partition := Live(config.ttl, store[partition], now)]
  }

  function At<E>(store: Store<E>, partition: u64): seq<Entry<E>> {
    if partition in store then store[partition] else []
  }

  function Stored<E>(config: Config, store: Store<E>, partition: u64, e: Entry<E>): Store<E> {
    if config.mode.Off? then store
    else store[partition := Newest(At(store, partition) + [e], config.maxPerPartition)]
  }

  function After<E>(config: Config, ops: seq<Op<E>>): Store<E> {
    if ops == [] then map[]
    else
      var store, op := After(config, ops[..|ops| - 1]), ops[|ops| - 1];
      match op
      case Put(p, e) => Stored(config, store, p, e)
      case Get(p, now) => Looked(config, store, p, now)
  }

  /** Every entry ever put in a partition. */
  function Puts<E>(ops: seq<Op<E>>, partition: u64): seq<Entry<E>> {
    if ops == [] then []
    else
      var op := ops[|ops| - 1];
      Puts(ops[..|ops| - 1], partition) + (if op.Put? && op.partition == partition then [op.entry] else [])
  }

  function Clock<E>(op: Op<E>): i64 {
    match op
    case Put(_, e) => e.created
    case Get(_, now) => now
  }

  /** The entries were stored in the order of the clock that stamped them. */
  ghost predicate InOrder<E>(entries: seq<Entry<E>>) {
    forall i, j :: 0 <= i <= j < |entries| ==> entries[i].created <= entries[j].created
  }

  /** Some lookup in the partition since its `i`-th put read a clock at which that entry
      had expired. */
  predicate FoundExpired<E>(ttl: int, ops: seq<Op<E>>, partition: u64, i: nat)
    requires i < |Puts(ops, partition)|
  {
    var before, op := ops[..|ops| - 1], ops[|ops| - 1];
    i < |Puts(before, partition)|
    && (FoundExpired(ttl, before, partition, i)
        || (op.Get? && op.partition == partition && !IsLive(ttl, Puts(before, partition)[i], op.now)))
  }

  lemma {:induction false} LiveConcat<E>(ttl: int, a: seq<Entry<E>>, b: seq<Entry<E>>, now: int)
    ensures Live(ttl, a + b, now) == Live(ttl, a, now) + Live(ttl, b, now)
  {
    if b == [] {
      assert a + b == a;
    } else {
      LiveConcat(ttl, a, b[..|b| - 1], now);
      assert (a + b)[..|a + b| - 1] == a + b[..|b| - 1];
    }
  }

  lemma {:induction false} NoneLiveIff<E>(ttl: int, all: seq<Entry<E>>, now: int)
    ensures Live(ttl, all, now) == [] <==> forall i :: 0 <= i < |all| ==> !IsLive(ttl, all[i], now)
  {
    if all != [] {
      NoneLiveIff(ttl, all[..|all| - 1], now);
    }
  }

  /** With entries in clock order, pruning takes a prefix. */
  lemma {:induction false} LiveIsASuffix<E>(ttl: int, entries: seq<Entry<E>>, now: int)
    requires InOrder(entries)
    ensures var live := Live(ttl, entries, now);
            && |live| <= |entries| && live == entries[|entries| - |live|..]
            && forall i :: 0 <= i < |entries| ==> (i < |entries| - |live| <==> !IsLive(ttl, entries[i], now))
  {
    if entries != [] {
      var n := |entries| - 1;
      LiveIsASuffix(ttl, entries[..n], now);
      if IsLive(ttl, entries[n], now) {
        assert entries == entries[..n] + [entries[n]];
      } else {
        NoneLiveIff(ttl, entries, now);
      }
    }
  }

  /** `kept` is the end of `puts`; of the newest `max`, exactly those marked are gone. */
  ghost predicate Keeps<E>(puts: seq<Entry<E>>, kept: seq<Entry<E>>, max: nat, gone: nat -> bool) {
    && |kept| <= Min(|puts|, max) && kept == puts[|puts| - |kept|..]
    && forall i: nat :: |puts| - Min(|puts|, max) <= i < |puts| ==> (i < |puts| - |kept| <==> gone(i))
  }

  lemma PutKeeps<E>(puts: seq<Entry<E>>, kept: seq<Entry<E>>, max: nat, e: Entry<E>, gone: nat -> bool, still: nat -> bool)
    requires Keeps(puts, kept, max, gone)
    requires !still(|puts|) && forall i: nat :: i < |puts| ==> still(i) == gone(i)
    ensures Keeps(puts + [e], Newest(kept + [e], max), max, still)
  {
    var after := Newest(kept + [e], max);
    assert puts + [e] == puts[..|puts| - |kept|] + (kept + [e]);
    assert after == (puts + [e])[|puts| + 1 - |after|..];
  }

  lemma GetKeeps<E>(ttl: int, puts: seq<Entry<E>>, kept: seq<Entry<E>>, max: nat, now: int, gone: nat -> bool, still: nat -> bool)
    requires Keeps(puts, kept, max, gone) && InOrder(puts)
    requires forall i: nat :: i < |puts| ==> still(i) == (gone(i) || !IsLive(ttl, puts[i], now))
    ensures Keeps(puts, Live(ttl, kept, now), max, still)
  {
    var cut := |puts| - |kept|;
    assert forall i :: 0 <= i < |kept| ==> kept[i] == puts[cut + i];
    LiveIsASuffix(ttl, kept, now);
    var live := Live(ttl, kept, now);
    forall i | |puts| - Min(|puts|, max) <= i < |puts|
      ensures i < |puts| - |live| <==> still(i)
    {
      if i >= cut {
        assert puts[i] == kept[i - cut];
      }
    }
  }

  ghost function Gone<E>(ttl: int, ops: seq<Op<E>>, partition: u64): nat -> bool {
    (i: nat) => i < |Puts(ops, partition)| && FoundExpired(ttl, ops, partition, i)
  }

  /** Each partition holds its newest puts less those a lookup has found expired. */
  lemma {:induction false} PartitionsKeep<E>(config: Config, ops: seq<Op<E>>, partition: u64)
    requires !config.mode.Off? && InOrder(Puts(ops, partition))
    ensures Keeps(Puts(ops, partition), At(After(config, ops), partition), config.maxPerPartition, Gone(config.ttl, ops, partition))
  {
    if ops != [] {
      var before, op := ops[..|ops| - 1], ops[|ops| - 1];
      var puts, kept, max := Puts(before, partition), At(After(config, before), partition), config.maxPerPartition;
      var gone, still := Gone(config.ttl, before, partition), Gone(config.ttl, ops, partition);
      assert forall i :: 0 <= i < |puts| ==> puts[i] == Puts(ops, partition)[i];
      PartitionsKeep(config, before, partition);
      if op.partition != partition {
        assert Puts(ops, partition) == puts && At(After(config, ops), partition) == kept;
        assert forall i: nat :: i < |puts| ==> still(i) == gone(i);
      } else if op.Put? {
        PutKeeps(puts, kept, max, op.entry, gone, still);
      } else {
        assert Puts(ops, partition) == puts;
        GetKeeps(config.ttl, puts, kept, max, op.now, gone, still);
      }
    }
  }

  /** An entry among the newest puts that would be served now but was expired at the clock
      of a lookup after it. */
  ghost predicate ServedTooLate<E>(config: Config, ops: seq<Op<E>>, partition: u64, now: int, i: nat) {
    var puts := Puts(ops, partition);
    && |puts| - Min(|puts|, config.maxPerPartition) <= i < |puts|
    && IsLive(config.ttl, puts[i], now) && FoundExpired(config.ttl, ops, partition, i)
  }

  /** What was taken from the front makes no difference exactly when none of it is live. */
  lemma LostMattersNotIff<E>(ttl: int, lost: seq<Entry<E>>, kept: seq<Entry<E>>, now: int)
    ensures Live(ttl, kept, now) == Live(ttl, lost + kept, now) <==> Live(ttl, lost, now) == []
  {
    LiveConcat(ttl, lost, kept, now);
    assert |Live(ttl, lost + kept, now)| == |Live(ttl, lost, now)| + |Live(ttl, kept, now)|;
    assert [] + Live(ttl, kept, now) == Live(ttl, kept, now);
  }

  lemma NewestIsLostAndKept<E>(puts: seq<Entry<E>>, kept: seq<Entry<E>>, max: nat)
    requires |kept| <= Min(|puts|, max) && kept == puts[|puts| - |kept|..]
    ensures Newest(puts, max) == puts[|puts| - Min(|puts|, max)..|puts| - |kept|] + kept
  {
  }

  ghost predicate NoneLiveIn<E>(ttl: int, puts: seq<Entry<E>>, first: nat, end: nat, now: int) {
    forall i: nat :: first <= i < end && i < |puts| ==> !IsLive(ttl, puts[i], now)
  }

  /** The same entries, counted from the front of the list or of the lost stretch. */
  lemma LostNoneIff<E>(ttl: int, puts: seq<Entry<E>>, first: nat, end: nat, now: int)
    requires first <= end <= |puts|
    ensures Live(ttl, puts[first..end], now) == [] <==> NoneLiveIn(ttl, puts, first, end, now)
  {
    var lost := puts[first..end];
    NoneLiveIff(ttl, lost, now);
    assert forall i :: 0 <= i < |lost| ==> lost[i] == puts[first + i];
    assert forall i: nat :: first <= i < end ==> puts[i] == lost[i - first];
  }

  ghost predicate NoneGoneIsLive<E>(ttl: int, puts: seq<Entry<E>>, max: nat, now: int, gone: nat -> bool) {
    forall i: nat :: |puts| - Min(|puts|, max) <= i < |puts| && gone(i) ==> !IsLive(ttl, puts[i], now)
  }

  lemma GoneAreLost<E>(ttl: int, puts: seq<Entry<E>>, kept: seq<Entry<E>>, max: nat, now: int, gone: nat -> bool)
    requires Keeps(puts, kept, max, gone)
    ensures NoneGoneIsLive(ttl, puts, max, now, gone) <==> NoneLiveIn(ttl, puts, |puts| - Min(|puts|, max), |puts| - |kept|, now)
  {
  }

  lemma KeptLiveIff<E>(config: Config, puts: seq<Entry<E>>, kept: seq<Entry<E>>, now: int, gone: nat -> bool)
    requires Keeps(puts, kept, config.maxPerPartition, gone)
    ensures Live(config.ttl, kept, now) == Live(config.ttl, Newest(puts, config.maxPerPartition), now)
            <==> NoneGoneIsLive(config.ttl, puts, config.maxPerPartition, now, gone)
  {
    var first, end := |puts| - Min(|puts|, config.maxPerPartition), |puts| - |kept|;
    NewestIsLostAndKept(puts, kept, config.maxPerPartition);
    LostMattersNotIff(config.ttl, puts[first..end], kept, now);
    LostNoneIff(config.ttl, puts, first, end, now);
    GoneAreLost(config.ttl, puts, kept, config.maxPerPartition, now, gone);
  }

  /** With puts in clock order and lookups at any clock, what a partition still serves is
      what its newest puts would serve if and only if none of them is live now and was
      expired at the clock of some lookup after it. */
  lemma LazyExpiryIsInvisibleIff<E>(config: Config, ops: seq<Op<E>>, partition: u64, now: int)
    requires !config.mode.Off? && InOrder(Puts(ops, partition))
    ensures Live(config.ttl, At(After(config, ops), partition), now)
            == Live(config.ttl, Newest(Puts(ops, partition), config.maxPerPartition), now)
            <==> forall i :: 0 <= i < |Puts(ops, partition)| ==> !ServedTooLate(config, ops, partition, now, i)
  {
    var puts := Puts(ops, partition);
    var gone := Gone(config.ttl, ops, partition);
    PartitionsKeep(config, ops, partition);
    KeptLiveIff(config, puts, At(After(config, ops), partition), now, gone);
    assert forall i :: |puts| - Min(|puts|, config.maxPerPartition) <= i < |puts| ==>
                         (ServedTooLate(config, ops, partition, now, i) <==> gone(i) && IsLive(config.ttl, puts[i], now));
  }

  // ---- a steady clock ----

  ghost predicate ClockIsSteady<E>(ops: seq<Op<E>>, now: int) {
    ops == [] || (Clock(ops[|ops| - 1]) <= now && ClockIsSteady(ops[..|ops| - 1], Clock(ops[|ops| - 1])))
  }

  lemma {:induction false} SteadyPutsAreInOrder<E>(ops: seq<Op<E>>, partition: u64, now: int)
    requires ClockIsSteady(ops, now)
    ensures InOrder(Puts(ops, partition))
    ensures forall i :: 0 <= i < |Puts(ops, partition)| ==> Puts(ops, partition)[i].created <= now
  {
    if ops != [] {
      SteadyPutsAreInOrder(ops[..|ops| - 1], partition, Clock(ops[|ops| - 1]));
    }
  }

  lemma {:induction false} SteadyExpiryIsFinal<E>(ttl: int, ops: seq<Op<E>>, partition: u64, now: int, i: nat)
    requires ClockIsSteady(ops, now) && i < |Puts(ops, partition)| && FoundExpired(ttl, ops, partition, i)
    ensures !IsLive(ttl, Puts(ops, partition)[i], now)
  {
    var before, op := ops[..|ops| - 1], ops[|ops| - 1];
    if FoundExpired(ttl, before, partition, i) {
      SteadyExpiryIsFinal(ttl, before, partition, Clock(op), i);
    }
  }

  /** While the clock does not run backwards, a lookup answers as if nothing had ever been
      pruned: from the unexpired among the newest puts of its partition, whatever lookups
      came before it. */
  lemma LazyExpiryIsInvisible<E>(config: Config, sim: Similarity<E>, ops: seq<Op<E>>, partition: u64, query: Core<E>, now: i64)
    requires !config.mode.Off? && ClockIsSteady(ops, now)
    ensures Answer(config, sim, query, At(After(config, ops), partition), now)
            == Answer(config, sim, query, Newest(Puts(ops, partition), config.maxPerPartition), now)
  {
    SteadyPutsAreInOrder(ops, partition, now);
    forall i | 0 <= i < |Puts(ops, partition)| && FoundExpired(config.ttl, ops, partition, i)
      ensures !IsLive(config.ttl, Puts(ops, partition)[i], now)
    {
      SteadyExpiryIsFinal(config.ttl, ops, partition, now, i);
    }
    LazyExpiryIsInvisibleIff(config, ops, partition, now);
  }

  /** No partition exceeds its bound, whatever the clock does. */
  lemma {:induction false} PartitionsAreBounded<E>(config: Config, ops: seq<Op<E>>, partition: u64)
    ensures |At(After(config, ops), partition)| <= config.maxPerPartition
  {
    if ops != [] {
      var was := After(config, ops[..|ops| - 1]);
      PartitionsAreBounded(config, ops[..|ops| - 1], partition);
      LiveIsNoLonger(config.ttl, At(was, partition), Clock(ops[|ops| - 1]));
    }
  }

  lemma {:induction false} LiveIsNoLonger<E>(ttl: int, entries: seq<Entry<E>>, now: int)
    ensures |Live(ttl, entries, now)| <= |entries|
  {
    if entries != [] {
      LiveIsNoLonger(ttl, entries[..|entries| - 1], now);
    }
  }

  lemma OneEntry<E>(config: Config, sim: Similarity<E>, query: Core<E>, e: Entry<E>, now: int)
    ensures Live(config.ttl, [e], now) == if IsLive(config.ttl, e, now) then [e] else []
    ensures Passes(config, sim, query, e) ==> Best(config, sim, query, [e]).Some?
  {
    assert [e][..0] == [];
  }

  lemma OnePut<E>(config: Config, e: Entry<E>, later: i64)
    requires !config.mode.Off? && config.maxPerPartition >= 1
    ensures After(config, [Put(0, e)]) == map[0 := [e]] && Puts([Put(0, e)], 0) == [e]
    ensures var ops := [Put(0, e), Get(0, later)];
            At(After(config, ops), 0) == Live(config.ttl, [e], later) && Puts(ops, 0) == [e]
  {
    var one: seq<Op<E>>, two := [Put(0, e)], [Put(0, e), Get(0, later)];
    assert two[..1] == one && one[..0] == [];
    assert [] + [e] == [e];
    assert At<E>(map[], 0) + [e] == [e];
    assert [e] + [] == [e];
  }

  /** The clock condition is needed: a lookup from the future drops an entry that an earlier
      clock would still have served. */
  lemma FutureLookupDropsALiveEntry<E>(config: Config, sim: Similarity<E>, e: Entry<E>, later: i64)
    requires !config.mode.Off? && config.maxPerPartition >= 1 && config.ttl >= 0
    requires Passes(config, sim, e.core, e) && later - e.created > config.ttl
    ensures var ops := [Put(0, e), Get(0, later)];
            && Answer(config, sim, e.core, At(After(config, ops), 0), e.created).None?
            && Answer(config, sim, e.core, Newest(Puts(ops, 0), config.maxPerPartition), e.created).Some?
  {
    OnePut(config, e, later);
    OneEntry(config, sim, e.core, e, later);
    OneEntry(config, sim, e.core, e, e.created);
  }
}
