/** Recorders and a percentile reader running concurrently on one histogram (health.rs).

    Each atomic operation is one step; steps of any number of recorders and of one reader interleave
    in any order. A recorder adds to its bucket, then to the count, then to the sum; a reader loads
    the count, then the buckets one by one. Counters wrap at 2^64. */
module LatencyRace {
  import opened Latency

  datatype Reader =
    | Idle
    | Scanning(total: nat, target: nat, next: nat, cumulative: nat)
    | Answered(bound: nat)
    | FellThrough

  /** Shared counters; latencies of recorders that have done one or two of their three steps; the reader; and,
      in no memory but this one, how many recordings have started. */
  datatype System = System(
    buckets: seq<nat>, count: nat, sum: nat,
    afterBucket: multiset<nat>, afterCount: multiset<nat>,
    reader: Reader, started: nat)

  function Start(): System {
    System(seq(BUCKETS, _ => 0), 0, 0, multiset{}, multiset{}, Idle, 0)
  }

  // ---- Steps ----

  ghost predicate AddToBucket(s: System, t: System, us: nat)
    requires |s.buckets| == BUCKETS
  {
    var b := BucketOf(us);
    t == s.(buckets := s.buckets[b := (s.buckets[b] + 1) % U64], afterBucket := s.afterBucket + multiset{us},
            started := s.started + 1)
  }

  ghost predicate AddToCount(s: System, t: System, us: nat) {
    && us in s.afterBucket
    && t == s.(count := (s.count + 1) % U64, afterBucket := s.afterBucket - multiset{us},
               afterCount := s.afterCount + multiset{us})
  }

  ghost predicate AddToSum(s: System, t: System, us: nat) {
    && us in s.afterCount
    && t == s.(sum := (s.sum + us) % U64, afterCount := s.afterCount - multiset{us})
  }

  function RankOf(p: real, n: nat): nat {
    var c := Ceil(p / 100.0 * n as real);
    if c < 0 then 0 else c
  }

  /** The reader loads the count; no samples, or a rank of zero, ends it at the first chance. */
  ghost predicate LoadCount(s: System, t: System, p: real) {
    && !s.reader.Scanning?
    && t == s.(reader := if s.count == 0 then Answered(0) else Scanning(s.count, RankOf(p, s.count), 0, 0))
  }

  ghost predicate LoadBucket(s: System, t: System)
    requires |s.buckets| == BUCKETS
  {
    && s.reader.Scanning? && s.reader.next < BUCKETS
    && var c := (s.reader.cumulative + s.buckets[s.reader.next]) % U64;
       t == s.(reader := if c >= s.reader.target then Answered(BUCKET_BOUNDS_US[s.reader.next])
                         else s.reader.(next := s.reader.next + 1, cumulative := c))
  }

  ghost predicate RunOut(s: System, t: System) {
    s.reader.Scanning? && s.reader.next == BUCKETS && t == s.(reader := FellThrough)
  }

  /** One step; the reader asks for percentiles up to 100. */
  ghost predicate Next(s: System, t: System)
    requires |s.buckets| == BUCKETS
  {
    || (exists us :: AddToBucket(s, t, us))
    || (exists us :: AddToCount(s, t, us))
    || (exists us :: AddToSum(s, t, us))
    || (exists p: real :: p <= 100.0 && LoadCount(s, t, p))
    || LoadBucket(s, t)
    || RunOut(s, t)
  }

  // ---- Invariant ----

  lemma {:induction false} SumConcat(s: seq<nat>, t: seq<nat>)
    ensures Sum(s + t) == Sum(s) + Sum(t)
  {
    if t == [] {
      assert s + t == s;
    } else {
      assert (s + t)[..|s + t| - 1] == s + t[..|t| - 1];
      SumConcat(s, t[..|t| - 1]);
    }
  }

  lemma SumOfSplit(s: seq<nat>, x: nat, t: seq<nat>)
    ensures Sum(s + ([x] + t)) == Sum(s) + x + Sum(t)
  {
    assert [x][..0] == [];
    SumConcat([x], t);
    SumConcat(s, [x] + t);
  }

  lemma SumOfUpdate(s: seq<nat>, b: nat, x: nat)
    requires b < |s|
    ensures Sum(s[b := x]) == Sum(s) - s[b] + x
  {
    var front, back := s[..b], s[b + 1..];
    SumOfSplit(front, s[b], back);
    SumOfSplit(front, x, back);
    assert s == front + ([s[b]] + back);
    assert s[b := x] == front + ([x] + back);
  }

  /** What a scanning reader has seen plus what it has yet to see covers the count it loaded. */
  ghost predicate Covers(buckets: seq<nat>, r: Reader)
    requires |buckets| == BUCKETS
  {
    r.Scanning? ==>
      && r.next <= BUCKETS
      && 0 < r.total && r.target <= r.total
      && r.total <= r.cumulative + Sum(buckets[r.next..])
      && r.cumulative <= Sum(buckets[..r.next])
      && (r.next == 0 || r.cumulative < r.target)
  }

  /** As long as fewer than 2^64 recordings have started: the buckets hold them all and run ahead of the count by
      the recorders between their first two steps, and the reader covers its count. */
  ghost predicate Exact(s: System)
    requires |s.buckets| == BUCKETS
  {
    && Sum(s.buckets) == s.started && s.count + |s.afterBucket| == s.started
    && !s.reader.FellThrough? && Covers(s.buckets, s.reader)
  }

  /** Any number of recordings: the same modulo 2^64. */
  ghost predicate Inv(s: System) {
    && |s.buckets| == BUCKETS
    && s.count < U64 && (forall b | 0 <= b < BUCKETS :: s.buckets[b] < U64)
    && (Sum(s.buckets) - s.started) % U64 == 0
    && (s.count + |s.afterBucket| - s.started) % U64 == 0
    && (s.started < U64 ==> Exact(s))
  }

  lemma RankAtMostCount(p: real, n: nat)
    requires p <= 100.0
    ensures RankOf(p, n) <= n
  {
    assert (100.0 - p) * n as real >= 0.0;
    var x := p / 100.0 * n as real;
    assert x <= n as real;
    var m: int := n;
    assert (-x).Floor >= -m;
  }

  lemma PartsNeverShrink(s: seq<nat>, b: nat, n: nat)
    requires b < |s| && n <= |s|
    ensures Sum(s[b := s[b] + 1][n..]) >= Sum(s[n..])
    ensures Sum(s[b := s[b] + 1][..n]) >= Sum(s[..n])
  {
    var t := s[b := s[b] + 1];
    if b >= n {
      assert t[n..] == s[n..][b - n := s[b] + 1] && t[..n] == s[..n];
      SumOfUpdate(s[n..], b - n, s[b] + 1);
    } else {
      assert t[n..] == s[n..] && t[..n] == s[..n][b := s[b] + 1];
      SumOfUpdate(s[..n], b, s[b] + 1);
    }
  }

  lemma SumOfMore(s: seq<nat>, x: nat)
    ensures Sum(s + [x]) == Sum(s) + x
  {
    assert (s + [x])[..|s|] == s;
  }

  lemma SumOfParts(front: seq<nat>, x: nat, back: seq<nat>)
    ensures Sum(front + ([x] + back)) >= Sum(front) + x && Sum(front + [x]) == Sum(front) + x
  {
    SumOfSplit(front, x, back);
    SumOfMore(front, x);
  }

  lemma Apart(s: seq<nat>, b: nat)
    requires b < |s|
    ensures s == s[..b] + ([s[b]] + s[b + 1..]) && s[..b + 1] == s[..b] + [s[b]]
  {
  }

  lemma PartAtMostSum(s: seq<nat>, b: nat)
    requires b < |s|
    ensures s[b] <= Sum(s) && Sum(s[..b]) + s[b] <= Sum(s) && Sum(s[..b + 1]) == Sum(s[..b]) + s[b]
  {
    Apart(s, b);
    SumOfParts(s[..b], s[b], s[b + 1..]);
  }

  lemma Wrapped(x: nat)
    requires x < U64
    ensures (x + 1) % U64 == if x + 1 == U64 then 0 else x + 1
  {
  }

  lemma StillCongruent(a: int, b: int, wrapped: bool)
    requires a % U64 == 0 && b == if wrapped then a - U64 else a
    ensures b % U64 == 0
  {
  }

  lemma OneMoreInBucket(s: seq<nat>, b: nat)
    requires b < |s| && Sum(s) + 1 < U64
    ensures (s[b] + 1) % U64 == s[b] + 1 && Sum(s[b := s[b] + 1]) == Sum(s) + 1
  {
    PartAtMostSum(s, b);
    Wrapped(s[b]);
    SumOfUpdate(s, b, s[b] + 1);
  }

  lemma StillCovers(buckets: seq<nat>, b: nat, r: Reader)
    requires |buckets| == BUCKETS && b < BUCKETS && Covers(buckets, r)
    ensures Covers(buckets[b := buckets[b] + 1], r)
  {
    if r.Scanning? {
      PartsNeverShrink(buckets, b, r.next);
    }
  }

  lemma BucketStepIsExact(s: System, t: System, us: nat)
    requires |s.buckets| == BUCKETS && Exact(s) && AddToBucket(s, t, us) && t.started < U64
    ensures Exact(t)
  {
    OneMoreInBucket(s.buckets, BucketOf(us));
    StillCovers(s.buckets, BucketOf(us), s.reader);
  }

  lemma BucketStepKeepsInv(s: System, t: System, us: nat)
    requires Inv(s) && AddToBucket(s, t, us)
    ensures Inv(t)
  {
    var b := BucketOf(us);
    Wrapped(s.buckets[b]);
    SumOfUpdate(s.buckets, b, t.buckets[b]);
    StillCongruent(Sum(s.buckets) - s.started, Sum(t.buckets) - t.started, s.buckets[b] + 1 == U64);
    if t.started < U64 {
      BucketStepIsExact(s, t, us);
    }
  }

  lemma CountStepKeepsInv(s: System, t: System, us: nat)
    requires Inv(s) && AddToCount(s, t, us)
    ensures Inv(t)
  {
    Wrapped(s.count);
    StillCongruent(s.count + |s.afterBucket| - s.started, t.count + |t.afterBucket| - t.started, s.count + 1 == U64);
  }

  lemma LoadBucketKeepsInv(s: System, t: System)
    requires Inv(s) && LoadBucket(s, t)
    ensures Inv(t)
  {
    if s.started < U64 {
      var n := s.reader.next;
      PartAtMostSum(s.buckets, n);
      assert s.buckets[n..] == [s.buckets[n]] + s.buckets[n + 1..];
      SumConcat([s.buckets[n]], s.buckets[n + 1..]);
      assert Sum([s.buckets[n]]) == s.buckets[n] by {
        assert [s.buckets[n]][..0] == [];
      }
    }
  }

  lemma LoadCountKeepsInv(s: System, t: System, p: real)
    requires Inv(s) && p <= 100.0 && LoadCount(s, t, p)
    ensures Inv(t)
  {
    RankAtMostCount(p, s.count);
    assert s.buckets[0..] == s.buckets;
  }

  /** When the scan has used up all buckets, it has counted every sample of the count it loaded. */
  lemma NeverRunsOut(s: System)
    requires Inv(s) && s.started < U64
    ensures !(s.reader.Scanning? && s.reader.next == BUCKETS)
  {
    assert s.buckets[BUCKETS..] == [] && Sum(s.buckets[BUCKETS..]) == 0;
  }

  lemma StepKeepsInv(s: System, t: System)
    requires Inv(s) && Next(s, t)
    ensures Inv(t)
  {
    if s.started < U64 {
      NeverRunsOut(s);
    }
    if us :| AddToBucket(s, t, us) {
      BucketStepKeepsInv(s, t, us);
    } else if us :| AddToCount(s, t, us) {
      CountStepKeepsInv(s, t, us);
    } else if us :| AddToSum(s, t, us) {
    } else if p: real :| p <= 100.0 && LoadCount(s, t, p) {
      LoadCountKeepsInv(s, t, p);
    } else if LoadBucket(s, t) {
      LoadBucketKeepsInv(s, t);
    }
  }

  // ---- Runs ----

  ghost predicate Run(states: seq<System>) {
    && states != [] && states[0] == Start()
    && (forall i | 0 <= i < |states| :: |states[i].buckets| == BUCKETS)
    && (forall i | 0 <= i < |states| - 1 :: Next(states[i], states[i + 1]))
  }

  lemma {:induction false} SumOfZeros(n: nat)
    ensures Sum(seq(n, _ => 0)) == 0
  {
    if n > 0 {
      assert (seq(n, _ => 0))[..n - 1] == seq(n - 1, _ => 0);
      SumOfZeros(n - 1);
    }
  }

  lemma StartIsInv(s: System)
    requires s == Start()
    ensures Inv(s)
  {
    SumOfZeros(BUCKETS);
    assert Sum(s.buckets) == 0;
  }

  /** What holds at the start and is kept by every step holds throughout. */
  lemma {:induction false} RunInduction(states: seq<System>, i: nat, p: System -> bool)
    requires Run(states) && i < |states| && p(Start())
    requires forall s: System, t: System | |s.buckets| == BUCKETS && p(s) && Next(s, t) :: p(t)
    ensures p(states[i])
  {
    if i > 0 {
      RunInduction(states, i - 1, p);
      assert Next(states[i - 1], states[i - 1 + 1]);
    }
  }

  lemma RunKeepsInv(states: seq<System>, i: nat)
    requires Run(states) && i < |states|
    ensures Inv(states[i])
  {
    var p := (s: System) => Inv(s);
    StartIsInv(Start());
    forall s: System, t: System | |s.buckets| == BUCKETS && p(s) && Next(s, t)
      ensures p(t)
    {
      StepKeepsInv(s, t);
    }
    RunInduction(states, i, p);
  }

  /** However recorders and reader interleave, a reader asking for at most the 100th percentile answers from a
      bucket as long as fewer than 2^64 recordings have started: its loop never runs to the end. */
  lemma ReaderNeverFallsThrough(states: seq<System>, i: nat)
    requires Run(states) && i < |states| && states[i].started < U64
    ensures !states[i].reader.FellThrough?
    ensures !(states[i].reader.Scanning? && states[i].reader.next == BUCKETS)
  {
    RunKeepsInv(states, i);
    NeverRunsOut(states[i]);
  }

  lemma SameRemainder(a: nat, b: nat, n: int)
    requires (a - n) % U64 == 0 && (b - n) % U64 == 0
    ensures a % U64 == b % U64
  {
    assert (a - b) % U64 == 0;
  }

  /** Once no recorder is under way, the buckets add up to the count, modulo 2^64 and, with fewer than 2^64
      recordings, exactly. */
  lemma QuietBucketsSumToCount(states: seq<System>, i: nat)
    requires Run(states) && i < |states| && states[i].afterBucket == multiset{}
    ensures Sum(states[i].buckets) % U64 == states[i].count
    ensures states[i].started < U64 ==> Sum(states[i].buckets) == states[i].count
  {
    RunKeepsInv(states, i);
    SameRemainder(Sum(states[i].buckets), states[i].count, states[i].started);
  }
}
