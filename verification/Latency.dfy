/** The fixed-bucket latency histogram (health.rs). */
module Latency {
  import Sorting

  const BUCKETS: nat := 16
  const U64: nat := 0x1_0000_0000_0000_0000

  const BUCKET_BOUNDS_US: seq<nat> := [
    100, 250, 500, 1_000, 2_500, 5_000, 10_000, 25_000,
    50_000, 100_000, 250_000, 500_000, 1_000_000, 2_500_000, 5_000_000, 10_000_000]

  // ---- Buckets ----

  /** The first bucket from i on whose bound is at least us, or the last one. */
  function BucketFrom(us: nat, i: nat): (b: nat)
    requires i < BUCKETS
    ensures i <= b < BUCKETS
    decreases BUCKETS - i
  {
    if us <= BUCKET_BOUNDS_US[i] || i == BUCKETS - 1 then i else BucketFrom(us, i + 1)
  }

  function BucketOf(us: nat): (b: nat)
    ensures b < BUCKETS
  {
    BucketFrom(us, 0)
  }

  lemma {:induction false} BucketFromPasses(us: nat, i: nat)
    requires i < BUCKETS
    ensures forall k | i <= k < BucketFrom(us, i) :: BUCKET_BOUNDS_US[k] < us
    ensures us <= BUCKET_BOUNDS_US[BucketFrom(us, i)] || BucketFrom(us, i) == 15
    decreases BUCKETS - i
  {
    if us > BUCKET_BOUNDS_US[i] && i < BUCKETS - 1 {
      BucketFromPasses(us, i + 1);
    }
  }

  /** A sample falls in the one bucket whose bound is the first that is not below it, or in the last one. */
  lemma BucketIsFirstThatFits(us: nat, b: nat)
    ensures BucketOf(us) == b
            <==> b < 16 && (forall k | 0 <= k < b :: BUCKET_BOUNDS_US[k] < us) && (us <= BUCKET_BOUNDS_US[b] || b == 15)
  {
    BucketFromPasses(us, 0);
  }

  lemma {:induction false} BucketFromMonotone(x: nat, y: nat, i: nat)
    requires x <= y && i < BUCKETS
    ensures BucketFrom(x, i) <= BucketFrom(y, i)
    ensures y <= BUCKET_BOUNDS_US[BUCKETS - 1] ==> y <= BUCKET_BOUNDS_US[BucketFrom(y, i)]
    decreases BUCKETS - i
  {
    if i < BUCKETS - 1 {
      BucketFromMonotone(x, y, i + 1);
    }
  }

  /** How many samples fall in buckets 0..i. */
  function Below(samples: seq<nat>, i: int): nat {
    if samples == [] then 0
    else Below(samples[..|samples| - 1], i) + if BucketOf(samples[|samples| - 1]) <= i then 1 else 0
  }

  function InBucket(samples: seq<nat>, b: nat): nat {
    if samples == [] then 0
    else InBucket(samples[..|samples| - 1], b) + if BucketOf(samples[|samples| - 1]) == b then 1 else 0
  }

  function Sum(s: seq<nat>): nat {
    if s == [] then 0 else Sum(s[..|s| - 1]) + s[|s| - 1]
  }

  /** The sum of latencies is additive, and that of one is itself. */
  lemma {:induction false} SumAdds(s: seq<nat>, t: seq<nat>, x: nat)
    ensures Sum(s + t) == Sum(s) + Sum(t) && Sum([x]) == x
  {
    if t == [] {
      assert s + t == s;
    } else {
      assert (s + t)[..|s + t| - 1] == s + t[..|t| - 1];
      SumAdds(s, t[..|t| - 1], x);
    }
  }

  lemma {:induction false} BelowStep(samples: seq<nat>, i: nat)
    ensures Below(samples, i) == Below(samples, i as int - 1) + InBucket(samples, i)
  {
    if samples != [] {
      BelowStep(samples[..|samples| - 1], i);
    }
  }

  lemma {:induction false} BelowEnds(samples: seq<nat>)
    ensures Below(samples, -1) == 0 && Below(samples, BUCKETS - 1) == |samples|
  {
    if samples != [] {
      BelowEnds(samples[..|samples| - 1]);
    }
  }

  lemma {:induction false} BelowBounded(samples: seq<nat>, i: int)
    ensures Below(samples, i) <= |samples|
  {
    if samples != [] {
      BelowBounded(samples[..|samples| - 1], i);
    }
  }

  // ---- The nearest rank ----

  function AtMost(): (nat, nat) -> bool {
    (x: nat, y: nat) => x <= y
  }

  function Ceil(x: real): int {
    -((-x).Floor)
  }

  /** A rank as an unsigned 64-bit integer; casts saturate at both ends. */
  function Rank(p: real, n: nat): nat {
    var c := Ceil(p / 100.0 * n as real);
    if c < 0 then 0 else if c >= U64 then U64 - 1 else c
  }

  /** The k-th smallest sample, counting from one. */
  function NearestRank(samples: seq<nat>, k: nat): nat
    requires 0 < k <= |samples|
  {
    Sorting.SortKeeps(AtMost(), samples);
    Sorting.Sort(AtMost(), samples)[k - 1]
  }

  lemma CeilBounds(x: real, n: nat)
    requires 0.0 < x <= n as real
    ensures 0 < Ceil(x) <= n
  {
    var m: int := n;
    assert (-x).Floor >= -m;
  }

  lemma ScaleBounds(f: real, n: real)
    requires 0.0 < f <= 1.0 && n > 0.0
    ensures 0.0 < f * n <= n
  {
    assert (1.0 - f) * n >= 0.0;
  }

  lemma RankInRange(p: real, n: nat)
    requires 0.0 < p <= 100.0 && 0 < n < U64
    ensures 0 < Rank(p, n) <= n
  {
    ScaleBounds(p / 100.0, n as real);
    CeilBounds(p / 100.0 * n as real, n);
  }

  lemma CeilIsLeast(x: real)
    ensures Ceil(x) as real - 1.0 < x <= Ceil(x) as real
  {
    var m := (-x).Floor;
    assert (-m) as real == -(m as real);
  }

  /** The rank is the least whole number not below p percent of the samples. */
  lemma RankIsLeast(p: real, n: nat)
    requires 0.0 < p <= 100.0 && 0 < n < U64
    ensures Rank(p, n) as real - 1.0 < p / 100.0 * n as real <= Rank(p, n) as real
  {
    var x := p / 100.0 * n as real;
    RankInRange(p, n);
    CeilBounds(x, n) by {
      ScaleBounds(p / 100.0, n as real);
    }
    CeilIsLeast(x);
    assert Rank(p, n) == Ceil(x);
  }

  lemma RankNotPositive(p: real, n: nat)
    requires p <= 0.0
    ensures Rank(p, n) == 0
  {
    assert (-p / 100.0) * n as real >= 0.0;
    var x := p / 100.0 * n as real;
    assert x <= 0.0;
    assert (-x).Floor >= 0;
  }

  lemma RankMonotone(p: real, q: real, n: nat)
    requires p <= q
    ensures Rank(p, n) <= Rank(q, n)
  {
    assert (q / 100.0 - p / 100.0) * n as real >= 0.0;
    assert p / 100.0 * n as real <= q / 100.0 * n as real;
  }

  /** In a sorted sequence, at least k elements fall in buckets up to i exactly when the k-th does. */
  lemma {:induction false} BelowOfSorted(s: seq<nat>, i: int, k: nat)
    requires Sorting.Sorted(AtMost(), s) && 0 < k <= |s|
    ensures Below(s, i) >= k <==> BucketOf(s[k - 1]) <= i
  {
    var front := s[..|s| - 1];
    BelowBounded(front, i);
    if k < |s| {
      BelowOfSorted(front, i, k);
      assert AtMost()(s[k - 1], s[|s| - 1]);
      BucketFromMonotone(s[k - 1], s[|s| - 1], 0);
    } else if |s| > 1 {
      BelowOfSorted(front, i, |s| - 1);
      assert AtMost()(s[|s| - 2], s[|s| - 1]);
      BucketFromMonotone(s[|s| - 2], s[|s| - 1], 0);
    }
  }

  lemma {:induction false} BelowConcat(s: seq<nat>, t: seq<nat>, i: int)
    ensures Below(s + t, i) == Below(s, i) + Below(t, i)
  {
    if t == [] {
      assert s + t == s;
    } else {
      assert (s + t)[..|s + t| - 1] == s + t[..|t| - 1];
      BelowConcat(s, t[..|t| - 1], i);
    }
  }

  lemma {:induction false} BelowOfInsert(x: nat, s: seq<nat>, i: int)
    ensures Below(Sorting.Insert(AtMost(), x, s), i) == Below([x], i) + Below(s, i)
  {
    BelowConcat([x], s, i);
    if s != [] && !AtMost()(x, s[0]) {
      BelowOfInsert(x, s[1..], i);
      BelowConcat([s[0]], s[1..], i);
      BelowConcat([s[0]], Sorting.Insert(AtMost(), x, s[1..]), i);
      assert s == [s[0]] + s[1..];
    }
  }

  lemma {:induction false} BelowOfSort(s: seq<nat>, i: int)
    ensures Below(Sorting.Sort(AtMost(), s), i) == Below(s, i)
  {
    if s != [] {
      BelowOfSort(s[1..], i);
      BelowOfInsert(s[0], Sorting.Sort(AtMost(), s[1..]), i);
      BelowConcat([s[0]], s[1..], i);
      assert s == [s[0]] + s[1..];
    }
  }

  // ---- The histogram ----

  function Add64(x: nat, y: nat): nat {
    (x + y) % U64
  }

  /** The scan over the buckets from i on, with `cumulative` counted so far. */
  function Scan(buckets: seq<nat>, target: nat, i: nat, cumulative: nat): nat
    requires |buckets| == BUCKETS && i <= BUCKETS
    decreases BUCKETS - i
  {
    if i == BUCKETS then BUCKET_BOUNDS_US[BUCKETS - 1]
    else
      var c := Add64(cumulative, buckets[i]);
      if c >= target then BUCKET_BOUNDS_US[i] else Scan(buckets, target, i + 1, c)
  }

  function Percentile(buckets: seq<nat>, total: nat, p: real): nat
    requires |buckets| == BUCKETS
  {
    if total == 0 then 0 else Scan(buckets, Rank(p, total), 0, 0)
  }

  lemma QuotientBounds(a: nat, b: nat)
    requires b > 0
    ensures a / b * b <= a < (a / b + 1) * b
  {
  }

  lemma SmallMod(x: nat, m: nat)
    requires x < m
    ensures x % m == x
  {
  }

  /** The fields count the samples, modulo the width of the counters. */
  ghost predicate Counts(samples: seq<nat>, buckets: seq<nat>, totalCount: nat, totalUs: nat) {
    && |buckets| == BUCKETS
    && (forall b: nat | b < BUCKETS :: buckets[b] == InBucket(samples, b) % U64)
    && totalCount == |samples| % U64 && totalUs == Sum(samples) % U64
  }

  lemma ModAdd(x: nat, y: nat)
    ensures (x % U64 + y) % U64 == (x + y) % U64
  {
  }

  lemma CountsGrow(samples: seq<nat>, buckets: seq<nat>, totalCount: nat, totalUs: nat, us: nat)
    requires Counts(samples, buckets, totalCount, totalUs)
    ensures var b := BucketOf(us);
            Counts(samples + [us], buckets[b := (buckets[b] + 1) % U64], (totalCount + 1) % U64, (totalUs + us) % U64)
  {
    var all := samples + [us];
    assert all[..|all| - 1] == samples;
    ModAdd(|samples|, 1);
    ModAdd(Sum(samples), us);
    ModAdd(InBucket(samples, BucketOf(us)), 1);
  }

  class LatencyHistogram {
    const buckets: array<nat>
    var totalCount: nat
    var totalUs: nat
    // Every latency recorded so far, in microseconds.
    ghost var samples: seq<nat>

    ghost predicate Valid()
      reads this, buckets
    {
      Counts(samples, buckets[..], totalCount, totalUs)
    }

    constructor ()
      ensures Valid() && fresh(buckets) && samples == []
    {
      buckets := new nat[BUCKETS](_ => 0);
      totalCount, totalUs, samples := 0, 0, [];
    }

    method Record(micros: nat)
      requires Valid()
      modifies this, buckets
      ensures Valid() && samples == old(samples) + [micros % U64]
    {
      var us := micros % U64;
      var idx := 0;
      while idx < BUCKETS - 1 && us > BUCKET_BOUNDS_US[idx]
        invariant idx < BUCKETS && BucketFrom(us, idx) == BucketOf(us)
      {
        idx := idx + 1;
      }
      ghost var before := buckets[..];
      buckets[idx] := (buckets[idx] + 1) % U64;
      CountsGrow(samples, before, totalCount, totalUs, us);
      assert buckets[..] == before[idx := (before[idx] + 1) % U64];
      totalCount := (totalCount + 1) % U64;
      totalUs := (totalUs + us) % U64;
      samples := samples + [us];
    }

    /** The first bucket whose cumulative count reaches the target rank. */
    method FindRank(target: nat) returns (bound: nat)
      requires Valid()
      ensures bound == Scan(buckets[..], target, 0, 0)
    {
      ghost var snapshot := buckets[..];
      var cumulative: nat := 0;
      for i := 0 to BUCKETS
        invariant Scan(snapshot, target, i, cumulative) == Scan(snapshot, target, 0, 0)
      {
        cumulative := Add64(cumulative, buckets[i]);
        if cumulative >= target {
          return BUCKET_BOUNDS_US[i];
        }
      }
      bound := BUCKET_BOUNDS_US[BUCKETS - 1];
    }

    method QueryPercentile(p: real) returns (bound: nat)
      requires Valid()
      ensures bound == Percentile(buckets[..], totalCount, p)
      ensures 0 < |samples| < U64 && 0.0 < p <= 100.0 ==>
                && 0 < Rank(p, |samples|) <= |samples|
                && bound == BUCKET_BOUNDS_US[BucketOf(NearestRank(samples, Rank(p, |samples|)))]
    {
      if 0 < |samples| < U64 && 0.0 < p <= 100.0 {
        SmallMod(|samples|, U64);
        PercentileIsBucketOfNearestRank(samples, buckets[..], p);
      }
      if totalCount == 0 {
        return 0;
      }
      bound := FindRank(Rank(p, totalCount));
    }

    method Count() returns (n: nat)
      requires Valid()
      ensures n == |samples| % U64
    {
      n := totalCount;
    }

    method MeanUs() returns (mean: nat)
      requires Valid()
      ensures mean == if |samples| % U64 == 0 then 0 else (Sum(samples) % U64) / (|samples| % U64)
      ensures |samples| < U64 && Sum(samples) < U64 && samples != [] ==>
                mean * |samples| <= Sum(samples) < (mean + 1) * |samples|
      ensures samples == [] ==> mean == 0
    {
      if totalCount == 0 {
        return 0;
      }
      mean := totalUs / totalCount;
      QuotientBounds(totalUs, totalCount);
      if |samples| < U64 && Sum(samples) < U64 {
        SmallMod(|samples|, U64);
        SmallMod(Sum(samples), U64);
      }
    }
  }

  // ---- What a percentile means ----

  /** The buckets count the samples, which are too few to overflow a counter. */
  ghost predicate Exact(samples: seq<nat>, buckets: seq<nat>) {
    && |buckets| == BUCKETS && |samples| < U64
    && forall b: nat | b < BUCKETS :: buckets[b] == InBucket(samples, b) % U64
  }

  /** One step of the running count. */
  lemma CumulativeStep(samples: seq<nat>, buckets: seq<nat>, i: nat)
    requires Exact(samples, buckets) && i < BUCKETS
    ensures Add64(Below(samples, i as int - 1), buckets[i]) == Below(samples, i)
  {
    BelowStep(samples, i);
    BelowBounded(samples, i);
    SmallMod(InBucket(samples, i), U64);
    SmallMod(Below(samples, i), U64);
  }

  /** The cumulative counts a scan goes through. */
  ghost predicate Running(buckets: seq<nat>, cum: seq<nat>) {
    && |buckets| == BUCKETS && |cum| == BUCKETS + 1
    && forall i | 0 <= i < BUCKETS :: Add64(cum[i], buckets[i]) == cum[i + 1]
  }

  lemma {:induction false} ScanFindsFirst(buckets: seq<nat>, cum: seq<nat>, target: nat, i: nat, b: nat)
    requires Running(buckets, cum) && i <= b < BUCKETS
    requires cum[b + 1] >= target && forall j | i < j <= b :: cum[j] < target
    ensures Scan(buckets, target, i, cum[i]) == BUCKET_BOUNDS_US[b]
    decreases BUCKETS - i
  {
    if i < b {
      ScanFindsFirst(buckets, cum, target, i + 1, b);
    }
  }

  lemma {:induction false} ScanFallsThrough(buckets: seq<nat>, cum: seq<nat>, target: nat, i: nat)
    requires Running(buckets, cum) && i <= BUCKETS && forall j | 0 <= j <= BUCKETS :: cum[j] < target
    ensures Scan(buckets, target, i, cum[i]) == BUCKET_BOUNDS_US[BUCKETS - 1]
    decreases BUCKETS - i
  {
    if i < BUCKETS {
      ScanFallsThrough(buckets, cum, target, i + 1);
    }
  }

  ghost function Cumulative(samples: seq<nat>): (cum: seq<nat>)
    ensures |cum| == BUCKETS + 1
    ensures forall i | 0 <= i <= BUCKETS :: cum[i] == Below(samples, i - 1)
  {
    seq(BUCKETS + 1, (i: int) => Below(samples, i - 1))
  }

  lemma CumulativeIsRunning(samples: seq<nat>, buckets: seq<nat>)
    requires Exact(samples, buckets)
    ensures Running(buckets, Cumulative(samples)) && Cumulative(samples)[0] == 0
  {
    BelowEnds(samples);
    forall i | 0 <= i < BUCKETS
      ensures Add64(Cumulative(samples)[i], buckets[i]) == Cumulative(samples)[i + 1]
    {
      CumulativeStep(samples, buckets, i);
    }
  }

  lemma {:induction false} BelowMonotone(samples: seq<nat>, i: int, j: int)
    requires i <= j
    ensures Below(samples, i) <= Below(samples, j)
  {
    if samples != [] {
      BelowMonotone(samples[..|samples| - 1], i, j);
    }
  }

  /** At least k samples fall in buckets up to i exactly when the k-th smallest does. */
  lemma BelowIffRank(samples: seq<nat>, k: nat, i: int)
    requires 0 < k <= |samples|
    ensures Below(samples, i) >= k <==> BucketOf(NearestRank(samples, k)) <= i
  {
    var s := Sorting.Sort(AtMost(), samples);
    Sorting.SortKeeps(AtMost(), samples);
    assert Sorting.TotalPreorder(AtMost());
    Sorting.SortSorts(AtMost(), samples);
    BelowOfSorted(s, i, k);
    BelowOfSort(samples, i);
  }

  lemma ScanFindsRank(samples: seq<nat>, buckets: seq<nat>, k: nat)
    requires Exact(samples, buckets) && 0 < k <= |samples|
    ensures Scan(buckets, k, 0, 0) == BUCKET_BOUNDS_US[BucketOf(NearestRank(samples, k))]
  {
    var b, cum := BucketOf(NearestRank(samples, k)), Cumulative(samples);
    CumulativeIsRunning(samples, buckets);
    forall j | 0 <= j <= BUCKETS
      ensures cum[j] >= k <==> b <= j - 1
    {
      BelowIffRank(samples, k, j - 1);
    }
    ScanFindsFirst(buckets, cum, k, 0, b);
  }

  lemma RankedAscend(samples: seq<nat>, j: nat, k: nat)
    requires 0 < j <= k <= |samples|
    ensures NearestRank(samples, j) <= NearestRank(samples, k)
  {
    var s := Sorting.Sort(AtMost(), samples);
    Sorting.SortKeeps(AtMost(), samples);
    assert Sorting.TotalPreorder(AtMost());
    Sorting.SortSorts(AtMost(), samples);
    assert j < k ==> AtMost()(s[j - 1], s[k - 1]);
  }

  lemma BoundOfBucket(us: nat)
    ensures us <= 10_000_000 ==> us <= BUCKET_BOUNDS_US[BucketOf(us)]
  {
    BucketFromMonotone(us, us, 0);
  }

  /** For 0 < p <= 100 the estimate is the bound of the bucket that holds the exact nearest-rank
      sample, so it is no less than that sample unless the sample exceeds the last bound. */
  lemma PercentileIsBucketOfNearestRank(samples: seq<nat>, buckets: seq<nat>, p: real)
    requires Exact(samples, buckets) && samples != [] && 0.0 < p <= 100.0
    ensures 0 < Rank(p, |samples|) <= |samples|
    ensures var exact := NearestRank(samples, Rank(p, |samples|));
            && Percentile(buckets, |samples|, p) == BUCKET_BOUNDS_US[BucketOf(exact)]
            && (exact <= 10_000_000 ==> Percentile(buckets, |samples|, p) >= exact)
  {
    RankInRange(p, |samples|);
    ScanFindsRank(samples, buckets, Rank(p, |samples|));
    BoundOfBucket(NearestRank(samples, Rank(p, |samples|)));
  }

  lemma BoundsAscend(i: nat, j: nat)
    requires i <= j < BUCKETS
    ensures BUCKET_BOUNDS_US[i] <= BUCKET_BOUNDS_US[j]
  {
  }

  /** A greater p never gives a smaller estimate. */
  lemma PercentileMonotone(samples: seq<nat>, buckets: seq<nat>, p: real, q: real)
    requires Exact(samples, buckets) && samples != [] && 0.0 < p <= q <= 100.0
    ensures Percentile(buckets, |samples|, p) <= Percentile(buckets, |samples|, q)
  {
    PercentileIsBucketOfNearestRank(samples, buckets, p);
    PercentileIsBucketOfNearestRank(samples, buckets, q);
    RankMonotone(p, q, |samples|);
    var x, y := NearestRank(samples, Rank(p, |samples|)), NearestRank(samples, Rank(q, |samples|));
    RankedAscend(samples, Rank(p, |samples|), Rank(q, |samples|));
    BucketFromMonotone(x, y, 0);
    BoundsAscend(BucketOf(x), BucketOf(y));
  }

  /** Outside that range the estimate is degenerate: the first bound for p <= 0, the last one when the
      rank exceeds the number of samples. */
  lemma PercentileOutOfRange(samples: seq<nat>, buckets: seq<nat>, p: real)
    requires Exact(samples, buckets) && samples != []
    ensures p <= 0.0 ==> Percentile(buckets, |samples|, p) == BUCKET_BOUNDS_US[0]
    ensures Rank(p, |samples|) > |samples| ==> Percentile(buckets, |samples|, p) == BUCKET_BOUNDS_US[BUCKETS - 1]
  {
    var cum := Cumulative(samples);
    CumulativeIsRunning(samples, buckets);
    if p <= 0.0 {
      RankNotPositive(p, |samples|);
      ScanFindsFirst(buckets, cum, 0, 0, 0);
    }
    if Rank(p, |samples|) > |samples| {
      forall j | 0 <= j <= BUCKETS
        ensures cum[j] < Rank(p, |samples|)
      {
        BelowBounded(samples, j - 1);
      }
      ScanFallsThrough(buckets, cum, Rank(p, |samples|), 0);
    }
  }

  lemma {:induction false} SumIsBelow(samples: seq<nat>, buckets: seq<nat>, n: nat)
    requires Exact(samples, buckets) && n <= BUCKETS
    ensures Sum(buckets[..n]) == Below(samples, n as int - 1)
  {
    if n == 0 {
      BelowEnds(samples);
    } else {
      SumIsBelow(samples, buckets, n - 1);
      assert buckets[..n][..n - 1] == buckets[..n - 1];
      BelowStep(samples, n - 1);
      BelowBounded(samples, n - 1);
      SmallMod(InBucket(samples, n - 1), U64);
    }
  }

  /** The bucket counters add up to the number of samples. */
  lemma BucketsSumToCount(samples: seq<nat>, buckets: seq<nat>)
    requires Exact(samples, buckets)
    ensures Sum(buckets) == |samples|
  {
    SumIsBelow(samples, buckets, BUCKETS);
    BelowEnds(samples);
    assert buckets[..BUCKETS] == buckets;
  }
}
