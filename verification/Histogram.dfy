/** The latency histogram used by one thread at a time: recording, taking a snapshot, resetting.
    Concurrent use is in `ConcurrentHistogram`. */
module Histogram {
  import opened Bits
  import opened Buckets
  import opened OrderStatistics

  lemma BucketsRespectOrder()
    ensures Respects(BucketOf, LIMIT, BUCKETS)
  {
    forall u: nat, v: nat | u <= v < LIMIT ensures BucketOf(u) <= BucketOf(v) {
      BucketMonotone(u, v);
    }
    forall v: nat | v < LIMIT ensures BucketOf(v) < BUCKETS {
      InRangeBelowLimit(v);
    }
  }

  // ------------------------------------------------------------- percentiles

  /** The value reported for a rank, with the fallback for a rank that is never reached. */
  function Percentile(counts: seq<nat>, target: nat): nat
    requires |counts| >= 1
  {
    var r := Reach(counts, target, 0);
    ValueOf(if r < |counts| then r else |counts| - 1)
  }

  function CountsOf(samples: seq<nat>): (counts: seq<nat>)
    ensures |counts| == BUCKETS
  {
    Counts(BucketOf, samples, BUCKETS)
  }

  /** The reported percentile is the representative of the sample with that rank, hence within 1/128 of
      it; the fallback is not used. */
  lemma PercentileAgreesWithSorting(samples: seq<nat>, target: nat)
    requires AllLess(samples, LIMIT) && 1 <= target <= |samples|
    ensures |Sort(samples)| == |samples| && Reach(CountsOf(samples), target, 0) < BUCKETS
    ensures var x, reported := Sort(samples)[target - 1], Percentile(CountsOf(samples), target);
            && reported == ValueOf(BucketOf(x))
            && 128 * (reported - x) <= x && 128 * (x - reported) <= x
  {
    BucketsRespectOrder();
    ScanFindsRank(BucketOf, samples, LIMIT, BUCKETS, target);
    SortKeepsLess(samples, LIMIT);
    RelativeError(Sort(samples)[target - 1]);
  }

  /** Higher ranks report higher values. */
  lemma PercentilesOrdered(counts: seq<nat>, low: nat, high: nat)
    requires |counts| == BUCKETS && low <= high
    ensures Percentile(counts, low) <= Percentile(counts, high)
  {
    var a, b := Reach(counts, low, 0), Reach(counts, high, 0);
    ValueMonotone(if a < BUCKETS then a else BUCKETS - 1, if b < BUCKETS then b else BUCKETS - 1);
  }

  /** Rank zero, which a small total makes of any percentage, reports zero whatever was recorded. */
  lemma RankZeroReportsZero(counts: seq<nat>)
    requires |counts| >= 1
    ensures Percentile(counts, 0) == 0
  {
    assert Reach(counts, 0, 0) == 0;
  }

  // ------------------------------------------------------------- the histogram

  function Total(samples: seq<nat>): nat {
    if samples == [] then 0 else Total(samples[..|samples| - 1]) + samples[|samples| - 1]
  }

  function Maximum(samples: seq<nat>): nat {
    if samples == [] then 0 else
    var m, x := Maximum(samples[..|samples| - 1]), samples[|samples| - 1];
    if x > m then x else m
  }

  lemma {:induction false} MaximumIsLargest(samples: seq<nat>)
    ensures forall i :: 0 <= i < |samples| ==> samples[i] <= Maximum(samples)
    ensures samples != [] ==> Maximum(samples) in samples
  {
    if samples != [] {
      MaximumIsLargest(samples[..|samples| - 1]);
      assert samples == samples[..|samples| - 1] + [samples[|samples| - 1]];
    }
  }

  datatype Snapshot = Snapshot(count: nat, mean: nat, p50: nat, p99: nat, p999: nat, max: nat)

  /** How the rank `total * p` comes out of the program's arithmetic. */
  type Ranking = (nat, real) -> nat

  /** The rank without rounding of the product. */
  function ExactRank(total: nat, p: real): nat {
    if p < 0.0 then 0 else (total as real * p).Floor
  }

  /** What a snapshot says of these totals. */
  function SnapshotFrom(counts: seq<nat>, n: nat, sum: nat, max: nat, rank: Ranking): Snapshot
    requires |counts| >= 1
  {
    if n == 0 then Snapshot(0, 0, 0, 0, 0, max) else
    Snapshot(n, sum / n, Percentile(counts, rank(n, 0.50)), Percentile(counts, rank(n, 0.99)),
             Percentile(counts, rank(n, 0.999)), max)
  }

  function SnapshotOf(samples: seq<nat>, rank: Ranking): Snapshot {
    SnapshotFrom(CountsOf(samples), |samples|, Total(samples) % W, Maximum(samples), rank)
  }

  /** Larger percentages give larger ranks, none beyond the total. */
  predicate Sensible(rank: Ranking, n: nat) {
    rank(n, 0.50) <= rank(n, 0.99) <= rank(n, 0.999) <= n
  }

  lemma ExactRankIsSensible(n: nat)
    ensures Sensible(ExactRank, n)
    ensures ExactRank(n, 0.50) == n / 2 && ExactRank(n, 0.99) == 99 * n / 100 && ExactRank(n, 0.999) == 999 * n / 1000
  {
  }

  /** Of a non-empty histogram the ranks are zero exactly when there is a single sample. */
  lemma RankZeroForSingleSample(n: nat)
    requires n >= 1
    ensures ExactRank(n, 0.50) == 0 <==> n == 1
    ensures ExactRank(n, 0.99) == 0 <==> n == 1
    ensures ExactRank(n, 0.999) == 0 <==> n == 1
  {
    ExactRankIsSensible(n);
  }

  /** A rounding of reals to doubles: monotone, and exact on the integers a double holds. Every rounding
      mode of IEEE 754 is one. */
  ghost predicate IsRounding(fl: real -> real) {
    && (forall x, y :: x <= y ==> fl(x) <= fl(y))
    && (forall n: nat :: n <= EXACT ==> fl(AsReal(n)) == AsReal(n))
  }

  /** 2^53 */
  const EXACT: nat := 0x20_0000_0000_0000

  function AsReal(n: nat): real {
    n as real
  }

  /** `static_cast<u64>(static_cast<double>(total) * p)` under a rounding. */
  function MachineRank(fl: real -> real, total: nat, p: real): nat {
    Truncated(Product(fl, fl(AsReal(total)), fl(p)))
  }

  function Product(fl: real -> real, x: real, y: real): real {
    fl(x * y)
  }

  function Truncated(x: real): nat {
    if x < 0.0 then 0 else x.Floor
  }

  lemma {:induction false} TimesFraction(x: real, a: real, b: real)
    requires 0.0 <= x && 0.0 <= a <= b <= 1.0
    ensures 0.0 <= x * a <= x * b <= x
  {
    assert x * (b - a) >= 0.0 && x * (1.0 - b) >= 0.0 && x * a >= 0.0;
  }

  lemma RoundsBetween(fl: real -> real, x: real, y: real, n: nat)
    requires IsRounding(fl) && 0.0 <= x <= y <= AsReal(n) && n <= EXACT
    ensures 0.0 <= fl(x) <= fl(y) <= AsReal(n)
  {
    assert fl(AsReal(0)) == AsReal(0) && fl(AsReal(n)) == AsReal(n);
  }

  lemma TruncatedBetween(x: real, y: real, n: nat)
    requires 0.0 <= x <= y <= AsReal(n)
    ensures Truncated(x) <= Truncated(y) <= n
  {
  }

  lemma RoundedOf(fl: real -> real, m: real, a: real, x: real)
    requires x == m * a
    ensures Product(fl, m, a) == fl(x)
  {
  }

  lemma ProductBetween(fl: real -> real, n: nat, m: real, a: real, b: real)
    requires IsRounding(fl) && n <= EXACT && m == AsReal(n) && 0.0 <= a <= b <= 1.0
    ensures 0.0 <= Product(fl, m, a) <= Product(fl, m, b) <= m
  {
    var x, y := Fraction(m, a), Fraction(m, b);
    TimesFraction(m, a, b);
    RoundedOf(fl, m, a, x);
    RoundedOf(fl, m, b, y);
    RoundsBetween(fl, x, y, n);
  }

  function Fraction(m: real, a: real): real {
    m * a
  }

  lemma RoundedProduct(fl: real -> real, n: nat, p: real, q: real)
    requires IsRounding(fl) && n <= EXACT && 0.0 <= p <= q <= 1.0
    ensures MachineRank(fl, n, p) <= MachineRank(fl, n, q) <= n
  {
    assert fl(AsReal(n)) == AsReal(n);
    RoundsBetween(fl, p, q, 1);
    ProductBetween(fl, n, AsReal(n), fl(p), fl(q));
    TruncatedBetween(Product(fl, AsReal(n), fl(p)), Product(fl, AsReal(n), fl(q)), n);
  }

  /** So the ranks the program computes are sensible for every rounding and up to 2^53 samples. */
  lemma MachineRankIsSensible(fl: real -> real, n: nat)
    requires IsRounding(fl) && n <= EXACT
    ensures Sensible((total: nat, p: real) => MachineRank(fl, total, p), n)
  {
    RoundedProduct(fl, n, 0.50, 0.99);
    RoundedProduct(fl, n, 0.99, 0.999);
    RoundedProduct(fl, n, 0.999, 0.999);
  }

  /** Reported for a rank: zero for rank zero, else the representative of the sample with that rank. */
  predicate Reports(samples: seq<nat>, target: nat, reported: nat) {
    if target == 0 then reported == 0
    else target <= |samples| == |Sort(samples)| && reported == ValueOf(BucketOf(Sort(samples)[target - 1]))
  }

  lemma PercentileReports(samples: seq<nat>, target: nat)
    requires AllLess(samples, LIMIT) && target <= |samples|
    ensures Reports(samples, target, Percentile(CountsOf(samples), target))
  {
    if target == 0 {
      RankZeroReportsZero(CountsOf(samples));
    } else {
      PercentileAgreesWithSorting(samples, target);
    }
  }

  lemma {:induction false} TotalAppend(xs: seq<nat>, ys: seq<nat>)
    ensures Total(xs + ys) == Total(xs) + Total(ys)
    decreases |ys|
  {
    if ys == [] {
      assert xs + ys == xs;
    } else {
      TotalAppend(xs, ys[..|ys| - 1]);
      assert xs + ys == xs + ys[..|ys| - 1] + [ys[|ys| - 1]];
      TotalOneMore(xs + ys[..|ys| - 1], ys[|ys| - 1]);
    }
  }

  lemma TotalOfOne(x: nat)
    ensures Total([x]) == x
  {
    assert [x][..0] == [];
  }

  lemma {:induction false} RoundedDown(total: nat, n: nat)
    requires n >= 1
    ensures total / n * n <= total < (total / n + 1) * n
  {
    assert total == n * (total / n) + total % n;
  }

  lemma BelowWord(total: nat)
    requires total < W
    ensures total % W == total
  {
  }

  lemma SnapshotMean(samples: seq<nat>, rank: Ranking)
    requires samples != [] && Total(samples) < W
    ensures var s := SnapshotOf(samples, rank);
            s.mean * |samples| <= Total(samples) < (s.mean + 1) * |samples|
  {
    BelowWord(Total(samples));
    RoundedDown(Total(samples), |samples|);
  }

  lemma SnapshotCountAndMax(samples: seq<nat>, rank: Ranking)
    requires samples != []
    ensures SnapshotOf(samples, rank).count == |samples| && SnapshotOf(samples, rank).max == Maximum(samples)
  {
  }

  /** Count, mean and maximum of a snapshot are those of the samples, the mean rounded down, as long as
      the sum fits the word it is kept in; without samples everything is zero. */
  lemma SnapshotTotals(samples: seq<nat>, rank: Ranking)
    ensures var s := SnapshotOf(samples, rank);
            if samples == [] then s == Snapshot(0, 0, 0, 0, 0, 0)
            else
              && s.count == |samples|
              && s.max in samples && (forall x :: x in samples ==> x <= s.max)
              && (Total(samples) < W ==> s.mean * |samples| <= Total(samples) < (s.mean + 1) * |samples|)
  {
    MaximumIsLargest(samples);
    if samples != [] {
      SnapshotCountAndMax(samples, rank);
      if Total(samples) < W {
        SnapshotMean(samples, rank);
      }
    }
  }

  /** Two samples: 100 and 300 have mean 200 and maximum 300. */
  lemma TwoSamples(rank: Ranking)
    ensures var s := SnapshotOf([100, 300], rank);
            s.count == 2 && s.mean == 200 && s.max == 300
  {
    SnapshotTotals([100, 300], rank);
    assert [100, 300] == [100] + [300];
    TotalAppend([100], [300]);
    TotalOfOne(100);
    TotalOfOne(300);
    assert 300 in [100, 300];
  }

  lemma {:induction false} NeverReached(counts: seq<nat>, target: nat)
    requires Cumulative(counts, |counts|) < target
    ensures Reach(counts, target, 0) == |counts|
  {
    var r := Reach(counts, target, 0);
    if r < |counts| {
      CumulativeMonotone(counts, r + 1, |counts|);
    }
  }

  /** A rank beyond the samples, which no sensible ranking yields, reports the last bucket. */
  lemma RankBeyondSamples(samples: seq<nat>, target: nat)
    requires AllLess(samples, LIMIT) && |samples| < target
    ensures Percentile(CountsOf(samples), target) == ValueOf(BUCKETS - 1) == 1_095_216_660_480
  {
    CountsCoverSamples(samples);
    NeverReached(CountsOf(samples), target);
    LastBucket();
  }

  lemma LastBucket()
    ensures ValueOf(BUCKETS - 1) == 1_095_216_660_480
  {
    Pow2Forty();
  }

  /** Whatever sensible ranks the program's arithmetic yields, a snapshot's percentiles are ordered and
      are those of the sorted samples. */
  lemma SnapshotIsRight(samples: seq<nat>, rank: Ranking)
    requires AllLess(samples, LIMIT) && samples != [] && Sensible(rank, |samples|)
    ensures var s, n := SnapshotOf(samples, rank), |samples|;
            && s.p50 <= s.p99 <= s.p999
            && Reports(samples, rank(n, 0.50), s.p50)
            && Reports(samples, rank(n, 0.99), s.p99)
            && Reports(samples, rank(n, 0.999), s.p999)
  {
    var n := |samples|;
    PercentilesOrdered(CountsOf(samples), rank(n, 0.50), rank(n, 0.99));
    PercentilesOrdered(CountsOf(samples), rank(n, 0.99), rank(n, 0.999));
    PercentileReports(samples, rank(n, 0.50));
    PercentileReports(samples, rank(n, 0.99));
    PercentileReports(samples, rank(n, 0.999));
  }

  /** With a single sample all three percentiles are reported as zero, whatever the sample. */
  lemma SingleSampleReportsZero(x: nat)
    requires x < LIMIT
    ensures var s := SnapshotOf([x], ExactRank);
            s.count == 1 && s.p50 == 0 && s.p99 == 0 && s.p999 == 0 && s.max == x
  {
    ExactRankIsSensible(1);
    RankZeroReportsZero(CountsOf([x]));
    MaximumIsLargest([x]);
  }

  lemma SumWraps(total: nat, x: nat)
    ensures (total % W + x) % W == (total + x) % W
  {
    SameRemainder(total + x, total % W + x, W, total / W);
  }

  lemma TotalOneMore(samples: seq<nat>, x: nat)
    ensures Total(samples + [x]) == Total(samples) + x
  {
    assert (samples + [x])[..|samples|] == samples;
  }

  lemma CountsAfterRecord(samples: seq<nat>, x: nat, b: nat)
    requires x < LIMIT && b == BucketOf(x)
    ensures b < BUCKETS && CountsOf(samples + [x]) == CountsOf(samples)[b := CountsOf(samples)[b] + 1]
  {
    InRangeBelowLimit(x);
    CountsOneMore(BucketOf, samples, x, BUCKETS);
  }

  lemma TotalsAfterRecord(samples: seq<nat>, x: nat)
    ensures Total(samples + [x]) % W == (Total(samples) % W + x) % W
    ensures Maximum(samples + [x]) == if x > Maximum(samples) then x else Maximum(samples)
  {
    TotalOneMore(samples, x);
    SumWraps(Total(samples), x);
    assert (samples + [x])[..|samples|] == samples;
  }

  lemma CountsCoverSamples(samples: seq<nat>)
    requires AllLess(samples, LIMIT)
    ensures Cumulative(CountsOf(samples), BUCKETS) == |samples|
  {
    BucketsRespectOrder();
    CumulativeIsBelow(BucketOf, samples, BUCKETS, BUCKETS);
    AllBelow(BucketOf, samples, BUCKETS);
  }

  class Histogram {
    const buckets: array<nat>
    var count: nat
    var sum: U64
    var max: nat
    ghost var samples: seq<nat>

    ghost predicate Valid()
      reads this, buckets
    {
      && AllLess(samples, LIMIT)
      && buckets.Length == BUCKETS && buckets[..] == CountsOf(samples)
      && count == |samples| && sum == Total(samples) % W && max == Maximum(samples)
    }

    constructor ()
      ensures Valid() && fresh(buckets) && samples == []
    {
      buckets := new nat[BUCKETS](_ => 0);
      count, sum, max, samples := 0, 0, 0, [];
    }

    /** Adds a sample; the caller keeps it below 2^40, where the buckets end. */
    method Record(ns: nat)
      requires Valid() && ns < LIMIT
      modifies this, buckets
      ensures Valid() && samples == old(samples) + [ns]
    {
      CountsAfterRecord(samples, ns, BucketOf(ns));
      TotalsAfterRecord(samples, ns);
      var b := BucketOf(ns);
      FetchAdd(buckets, b);
      count := count + 1;
      sum := (sum + ns) % W;
      if ns > max {
        max := ns;
      }
      samples := samples + [ns];
    }

    /** The copy of the buckets a snapshot works on, and its total. */
    method Load() returns (b: array<nat>, total: nat)
      requires Valid()
      ensures b.Length == BUCKETS && b[..] == CountsOf(samples) && total == |samples|
    {
      b := new nat[BUCKETS];
      total := 0;
      for i := 0 to BUCKETS
        invariant b[..i] == buckets[..i]
        invariant total == Cumulative(buckets[..], i)
      {
        b[i] := buckets[i];
        total := total + b[i];
      }
      CountsCoverSamples(samples);
      assert b[..] == buckets[..];
    }

    method TakeSnapshot(rank: Ranking) returns (s: Snapshot)
      requires Valid()
      ensures s == SnapshotOf(samples, rank)
    {
      var b, total := Load();
      s := Summarise(b, total, sum, max, rank);
    }

    method Reset()
      requires Valid()
      modifies this, buckets
      ensures Valid() && samples == []
    {
      for i := 0 to BUCKETS
        invariant forall j :: 0 <= j < i ==> buckets[j] == 0
      {
        buckets[i] := 0;
      }
      samples := [];
      assert buckets[..] == CountsOf(samples);
      count, sum, max := 0, 0, 0;
    }
  }

  method FetchAdd(a: array<nat>, b: nat)
    requires b < a.Length
    modifies a
    ensures a[..] == old(a[..])[b := old(a[b]) + 1]
  {
    a[b] := a[b] + 1;
  }

  method Summarise(b: array<nat>, total: nat, sum: nat, max: nat, rank: Ranking) returns (s: Snapshot)
    requires b.Length == BUCKETS
    ensures s == SnapshotFrom(b[..], total, sum, max, rank)
  {
    if total == 0 {
      return Snapshot(0, 0, 0, 0, 0, max);
    }
    var p50 := Scan(b, rank(total, 0.50));
    var p99 := Scan(b, rank(total, 0.99));
    var p999 := Scan(b, rank(total, 0.999));
    s := Snapshot(total, sum / total, p50, p99, p999, max);
  }

  /** The percentile scan over a copy of the buckets. */
  method Scan(b: array<nat>, target: nat) returns (v: nat)
    requires b.Length == BUCKETS
    ensures v == Percentile(b[..], target)
  {
    var cum := 0;
    for i := 0 to BUCKETS
      invariant cum == Cumulative(b[..], i)
      invariant Reach(b[..], target, 0) == Reach(b[..], target, i)
    {
      cum := cum + b[i];
      if cum >= target {
        return ValueOf(i);
      }
    }
    v := ValueOf(BUCKETS - 1);
  }
}
