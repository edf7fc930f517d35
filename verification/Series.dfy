/** The burn-rate series and the spend rate of `crates/cloud/src/store.rs`: every sample of
    the window lands in one bucket, even when the bucket count is capped. */
module Series {
  import opened Basics

  const MAX_SERIES_BUCKETS: nat := 10_000

  /** A recorded cost, clamped at ingest. */
  type Micros = x: int | 0 <= x <= I64_MAX

  datatype Sample = Sample(ts: i64, run: string, cost: Micros, blocked: bool, tools: u64)

  datatype Bucket = Bucket(t: int, cost: Micros, calls: nat, blocked: nat, tools: u64)

  /** One request, after the source has normalised it. */
  datatype View = View(run: Option<string>, start: int, now: int, step: int, n: nat)

  predicate WellFormed(v: View) {
    v.step >= 1 && 1 <= v.n <= MAX_SERIES_BUCKETS
  }

  function Normalised(run: Option<string>, window: int, step: int, now: int): (v: View)
    ensures WellFormed(v)
  {
    var st := Max(step, 1);
    var w := Max(window, st);
    View(run, now - w, now, st, Min(Max(w / st, 1), MAX_SERIES_BUCKETS))
  }

  /** A step below one is one, a window below the step is the step; then as many whole
      steps as the window holds, at most 10,000, starting a window before now. */
  lemma NormalisedCoversTheWindow(run: Option<string>, window: int, step: int, now: int)
    ensures var v, st := Normalised(run, window, step, now), Max(1, step);
            var w := Max(window, st);
            && v.run == run && v.now == now && v.step == st && v.start == now - w
            && (w < 10_000 * st ==> v.n * st <= w < (v.n + 1) * st)
            && (w >= 10_000 * st ==> v.n == 10_000)
  {
    var st := Max(1, step);
    var w := Max(window, st);
    QuotientIs(w, st, w / st);
    if w / st < 1 {
      Scales(w / st + 1, 1, st);
    }
    if w < 10_000 * st && 10_000 <= w / st {
      Scales(10_000, w / st, st);
    }
    if w >= 10_000 * st && w / st < 10_000 {
      Scales(w / st + 1, 10_000, st);
    }
  }

  predicate Selects(v: View, s: Sample) {
    v.start <= s.ts <= v.now && (v.run.Some? ==> s.run == v.run.value)
  }

  function Index(v: View, s: Sample): (i: nat)
    requires WellFormed(v) && Selects(v, s)
    ensures i < v.n
  {
    Min((s.ts - v.start) / v.step, v.n - 1)
  }

  predicate Lands(v: View, s: Sample, i: int)
    requires WellFormed(v)
  {
    Selects(v, s) && Index(v, s) == i
  }

  /** The exact sums over a list of samples. */
  datatype Sums = Sums(cost: nat, calls: nat, blocked: nat, tools: nat)

  const NO_SAMPLES: Sums := Sums(0, 0, 0, 0)

  function Plus(t: Sums, s: Sample): Sums {
    Sums(t.cost + s.cost, t.calls + 1, t.blocked + (if s.blocked then 1 else 0), t.tools + s.tools)
  }

  /** Over the samples that land in bucket `i`. */
  function InBucket(v: View, log: seq<Sample>, i: int): Sums
    requires WellFormed(v)
  {
    if log == [] then NO_SAMPLES
    else
      var before, s := InBucket(v, log[..|log| - 1], i), log[|log| - 1];
      if Lands(v, s, i) then Plus(before, s) else before
  }

  /** Over all samples the view selects. */
  function InWindow(v: View, log: seq<Sample>): Sums {
    if log == [] then NO_SAMPLES
    else
      var before, s := InWindow(v, log[..|log| - 1]), log[|log| - 1];
      if Selects(v, s) then Plus(before, s) else before
  }

  function Shown(v: View, i: int, t: Sums): Bucket {
    Bucket(v.start + i * v.step, Min(I64_MAX, t.cost), t.calls, t.blocked, Min(U64_MAX, t.tools))
  }

  function Counted(b: Bucket, s: Sample): Bucket {
    Bucket(b.t, SatAddI64(b.cost, s.cost), b.calls + 1, b.blocked + (if s.blocked then 1 else 0), SatAdd(b.tools, s.tools))
  }

  /** Each bucket shows the capped sums of the samples that land in it. */
  ghost predicate IsSeries(buckets: seq<Bucket>, v: View, log: seq<Sample>)
    requires WellFormed(v)
  {
    |buckets| == v.n && forall i :: 0 <= i < v.n ==> buckets[i] == Shown(v, i, InBucket(v, log, i))
  }

  /** What one bucket of a series says. */
  lemma BucketSays(buckets: seq<Bucket>, v: View, log: seq<Sample>, i: nat)
    requires WellFormed(v) && IsSeries(buckets, v, log) && i < v.n
    ensures var b, t := buckets[i], InBucket(v, log, i);
            && b.t == v.start + i * v.step
            && b.cost == (if t.cost > I64_MAX then I64_MAX else t.cost)
            && b.tools == (if t.tools > U64_MAX then U64_MAX else t.tools)
            && b.calls == t.calls && b.blocked == t.blocked
  {
    assert buckets[i] == Shown(v, i, InBucket(v, log, i));
  }

  ghost predicate IsSumOf(t: Sums, a: Sums, b: Sums) {
    && t.cost == a.cost + b.cost && t.calls == a.calls + b.calls
    && t.blocked == a.blocked + b.blocked && t.tools == a.tools + b.tools
  }

  /** Over one sample the sums are its own figures, */
  lemma OneSampleAlone(v: View, s: Sample, i: int)
    requires WellFormed(v)
    ensures InBucket(v, [], i) == Sums(0, 0, 0, 0)
    ensures InBucket(v, [s], i)
            == if Lands(v, s, i) then Sums(s.cost, 1, if s.blocked then 1 else 0, s.tools) else Sums(0, 0, 0, 0)
  {
    assert [s][..0] == [];
  }

  /** and over stretches of the log they add up. */
  lemma {:induction false} BucketSumsAdd(v: View, a: seq<Sample>, b: seq<Sample>, i: int)
    requires WellFormed(v)
    ensures IsSumOf(InBucket(v, a + b, i), InBucket(v, a, i), InBucket(v, b, i))
  {
    if b == [] {
      assert a + b == a;
    } else {
      var init, s := b[..|b| - 1], b[|b| - 1];
      BucketSumsAdd(v, a, init, i);
      SumsGrow(v, a + init, s, i);
      SumsGrow(v, init, s, i);
      assert a + b == a + init + [s] && b == init + [s];
    }
  }

  lemma SumsGrow(v: View, log: seq<Sample>, s: Sample, i: int)
    requires WellFormed(v)
    ensures InBucket(v, log + [s], i) == if Lands(v, s, i) then Plus(InBucket(v, log, i), s) else InBucket(v, log, i)
  {
    assert (log + [s])[..|log|] == log;
  }

  lemma OneMoreSample(v: View, log: seq<Sample>, s: Sample, i: int)
    requires WellFormed(v)
    ensures Shown(v, i, InBucket(v, log + [s], i))
            == if Lands(v, s, i) then Counted(Shown(v, i, InBucket(v, log, i)), s) else Shown(v, i, InBucket(v, log, i))
  {
    assert (log + [s])[..|log|] == log;
  }

  method SeriesOf(log: seq<Sample>, run: Option<string>, window: int, step: int, now: int) returns (buckets: seq<Bucket>)
    ensures IsSeries(buckets, Normalised(run, window, step, now), log)
  {
    var v := Normalised(run, window, step, now);
    buckets := seq(v.n, i => Shown(v, i, NO_SAMPLES));
    for k := 0 to |log|
      invariant |buckets| == v.n
      invariant forall i :: 0 <= i < v.n ==> buckets[i] == Shown(v, i, InBucket(v, log[..k], i))
    {
      var s := log[k];
      ghost var was := buckets;
      if s.ts < v.start || s.ts > v.now {
      } else if v.run.Some? && s.run != v.run.value {
      } else {
        var idx := Index(v, s);
        buckets := buckets[idx := Counted(buckets[idx], s)];
      }
      forall i | 0 <= i < v.n
        ensures buckets[i] == Shown(v, i, InBucket(v, log[..k + 1], i))
      {
        OneMoreSample(v, log[..k], s, i);
        assert log[..k + 1] == log[..k] + [s];
        assert was[i] == Shown(v, i, InBucket(v, log[..k], i));
      }
    }
    assert log[..|log|] == log;
  }

  /** `burn_since`: the saturating cost of the samples in `[start, now]`. */
  method BurnSince(log: seq<Sample>, start: int, now: int) returns (burn: Micros)
    ensures burn == Min(I64_MAX, InWindow(View(None, start, now, 1, 1), log).cost)
  {
    burn := 0;
    ghost var v := View(None, start, now, 1, 1);
    for k := 0 to |log|
      invariant burn == Min(I64_MAX, InWindow(v, log[..k]).cost)
    {
      assert log[..k + 1][..k] == log[..k];
      if log[k].ts >= start && log[k].ts <= now {
        burn := SatAddI64(burn, log[k].cost);
      }
    }
    assert log[..|log|] == log;
  }

  // ---- where a sample lands ----

  /** A selected sample lands in exactly one bucket: the one whose stretch of time holds it,
      or the last one when the capped series is too short. */
  lemma EachSampleLandsOnce(v: View, s: Sample, i: nat)
    requires WellFormed(v) && i < v.n
    ensures Lands(v, s, i) <==>
            && v.start <= s.ts <= v.now && (v.run == None || v.run == Some(s.run))
            && v.start + i * v.step <= s.ts
            && (i < v.n - 1 ==> s.ts < v.start + (i + 1) * v.step)
  {
    if Selects(v, s) {
      var offset := s.ts - v.start;
      QuotientIs(offset, v.step, offset / v.step);
      if i <= offset / v.step {
        Scales(i, offset / v.step, v.step);
      } else {
        Scales(offset / v.step + 1, i, v.step);
      }
      if i + 1 <= offset / v.step {
        Scales(i + 1, offset / v.step, v.step);
      } else {
        Scales(offset / v.step + 1, i + 1, v.step);
      }
    }
  }

  lemma QuotientIs(x: int, d: int, q: int)
    requires d >= 1 && q == x / d
    ensures q * d <= x < (q + 1) * d
  {
  }

  lemma Scales(a: int, b: int, d: int)
    requires a <= b && d >= 1
    ensures a * d <= b * d
  {
  }

  // ---- the buckets add up to the window ----

  /** The sums of the first `k` buckets. */
  function FirstBuckets(v: View, log: seq<Sample>, k: nat): Sums
    requires WellFormed(v)
  {
    if k == 0 then NO_SAMPLES
    else
      var t, b := FirstBuckets(v, log, k - 1), InBucket(v, log, k - 1);
      Sums(t.cost + b.cost, t.calls + b.calls, t.blocked + b.blocked, t.tools + b.tools)
  }

  lemma {:induction false} FirstBucketsStep(v: View, log: seq<Sample>, s: Sample, k: nat)
    requires WellFormed(v) && k <= v.n
    ensures FirstBuckets(v, log + [s], k)
            == if Selects(v, s) && Index(v, s) < k then Plus(FirstBuckets(v, log, k), s) else FirstBuckets(v, log, k)
  {
    if k > 0 {
      FirstBucketsStep(v, log, s, k - 1);
      assert (log + [s])[..|log|] == log;
    }
  }

  lemma {:induction false} NoSamplesNoSums(v: View, k: nat)
    requires WellFormed(v)
    ensures FirstBuckets(v, [], k) == NO_SAMPLES
  {
    if k > 0 {
      NoSamplesNoSums(v, k - 1);
    }
  }

  /** Calls, blocked calls, tool calls and cost of all buckets together are those of the
      window, however wide the buckets are and even when their number is capped. */
  lemma {:induction false} BucketsPartitionTheWindow(v: View, log: seq<Sample>)
    requires WellFormed(v)
    ensures FirstBuckets(v, log, v.n) == InWindow(v, log)
  {
    if log == [] {
      NoSamplesNoSums(v, v.n);
    } else {
      var before, s := log[..|log| - 1], log[|log| - 1];
      assert before + [s] == log;
      BucketsPartitionTheWindow(v, before);
      FirstBucketsStep(v, before, s, v.n);
    }
  }

  function ShownCost(buckets: seq<Bucket>): nat {
    if buckets == [] then 0 else ShownCost(buckets[..|buckets| - 1]) + buckets[|buckets| - 1].cost
  }

  function ShownCalls(buckets: seq<Bucket>): nat {
    if buckets == [] then 0 else ShownCalls(buckets[..|buckets| - 1]) + buckets[|buckets| - 1].calls
  }

  lemma {:induction false} ShownAddsUp(v: View, log: seq<Sample>, buckets: seq<Bucket>)
    requires WellFormed(v) && |buckets| <= v.n
    requires forall i :: 0 <= i < |buckets| ==> buckets[i] == Shown(v, i, InBucket(v, log, i))
    ensures Min(I64_MAX, ShownCost(buckets)) == Min(I64_MAX, FirstBuckets(v, log, |buckets|).cost)
    ensures ShownCalls(buckets) == FirstBuckets(v, log, |buckets|).calls
  {
    if buckets != [] {
      ShownAddsUp(v, log, buckets[..|buckets| - 1]);
    }
  }

  lemma {:induction false} SameWindow(v: View, w: View, log: seq<Sample>)
    requires v.run == w.run && v.start == w.start && v.now == w.now
    ensures InWindow(v, log) == InWindow(w, log)
  {
    if log != [] {
      SameWindow(v, w, log[..|log| - 1]);
    }
  }

  /** The spend rate is what any series over the same window adds up to, and it is the one
      bucket of the series whose step is the whole window. */
  lemma BurnIsTheSeries(log: seq<Sample>, window: int, step: int, now: int, burn: Micros, fine: seq<Bucket>, whole: seq<Bucket>)
    requires 1 <= step <= window
    requires burn == Min(I64_MAX, InWindow(View(None, now - window, now, 1, 1), log).cost)
    requires IsSeries(fine, Normalised(None, window, step, now), log)
    requires IsSeries(whole, Normalised(None, window, window, now), log)
    ensures |whole| == 1 && whole[0].cost == burn && whole[0].t == now - window
    ensures burn == Min(I64_MAX, ShownCost(fine)) && ShownCalls(fine) == whole[0].calls
  {
    var v, w := Normalised(None, window, step, now), Normalised(None, window, window, now);
    assert w.n == 1 && w.start == v.start == now - window;
    BucketsPartitionTheWindow(v, log);
    BucketsPartitionTheWindow(w, log);
    assert FirstBuckets(w, log, 1) == InBucket(w, log, 0);
    SameWindow(v, w, log);
    SameWindow(w, View(None, now - window, now, 1, 1), log);
    ShownAddsUp(v, log, fine);
  }
}
