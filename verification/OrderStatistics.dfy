/** Counting samples into buckets, scanning the counts for a rank, and what that has to do with sorting.
    Stated for any monotone bucketing. */
module OrderStatistics {

  type Bucketing = nat -> nat

  // ------------------------------------------------------------- counting

  function CountAt(f: Bucketing, samples: seq<nat>, i: nat): nat {
    if samples == [] then 0 else
    CountAt(f, samples[..|samples| - 1], i) + if f(samples[|samples| - 1]) == i then 1 else 0
  }

  function Counts(f: Bucketing, samples: seq<nat>, n: nat): (counts: seq<nat>)
    ensures |counts| == n
  {
    seq(n, i requires 0 <= i < n => CountAt(f, samples, i))
  }

  /** Number of samples in buckets below `i`. */
  function Below(f: Bucketing, samples: seq<nat>, i: nat): nat {
    if samples == [] then 0 else
    Below(f, samples[..|samples| - 1], i) + if f(samples[|samples| - 1]) < i then 1 else 0
  }

  /** Running total of the first `i` counts. */
  function Cumulative(counts: seq<nat>, i: nat): nat
    requires i <= |counts|
  {
    if i == 0 then 0 else Cumulative(counts, i - 1) + counts[i - 1]
  }

  /** The first bucket, from `i` on, whose running total reaches the target; `|counts|` when none does. */
  function Reach(counts: seq<nat>, target: nat, i: nat): (r: nat)
    requires i <= |counts|
    ensures i <= r <= |counts|
    ensures r < |counts| ==> Cumulative(counts, r + 1) >= target
    ensures forall j :: i < j <= r ==> Cumulative(counts, j) < target
    decreases |counts| - i
  {
    if i == |counts| || Cumulative(counts, i + 1) >= target then i else Reach(counts, target, i + 1)
  }

  lemma CountOneMore(f: Bucketing, samples: seq<nat>, x: nat, i: nat)
    ensures CountAt(f, samples + [x], i) == CountAt(f, samples, i) + if f(x) == i then 1 else 0
    ensures Below(f, samples + [x], i) == Below(f, samples, i) + if f(x) < i then 1 else 0
  {
    assert (samples + [x])[..|samples|] == samples;
  }

  lemma CountsOneMore(f: Bucketing, samples: seq<nat>, x: nat, n: nat)
    requires f(x) < n
    ensures Counts(f, samples + [x], n) == Counts(f, samples, n)[f(x) := Counts(f, samples, n)[f(x)] + 1]
  {
    forall i | 0 <= i < n
      ensures Counts(f, samples + [x], n)[i] == Counts(f, samples, n)[f(x) := Counts(f, samples, n)[f(x)] + 1][i]
    {
      CountOneMore(f, samples, x, i);
    }
  }

  lemma {:induction false} BelowNext(f: Bucketing, samples: seq<nat>, i: nat)
    ensures Below(f, samples, i + 1) == Below(f, samples, i) + CountAt(f, samples, i)
  {
    if samples != [] {
      BelowNext(f, samples[..|samples| - 1], i);
    }
  }

  lemma {:induction false} NoneBelowZero(f: Bucketing, samples: seq<nat>)
    ensures Below(f, samples, 0) == 0
  {
    if samples != [] {
      NoneBelowZero(f, samples[..|samples| - 1]);
    }
  }

  lemma {:induction false} CumulativeIsBelow(f: Bucketing, samples: seq<nat>, n: nat, i: nat)
    requires i <= n
    ensures Cumulative(Counts(f, samples, n), i) == Below(f, samples, i)
    decreases i
  {
    if i == 0 {
      NoneBelowZero(f, samples);
    } else {
      CumulativeIsBelow(f, samples, n, i - 1);
      BelowNext(f, samples, i - 1);
    }
  }

  /** The running total over all buckets counts every sample. */
  lemma {:induction false} AllBelow(f: Bucketing, samples: seq<nat>, i: nat)
    requires forall j :: 0 <= j < |samples| ==> f(samples[j]) < i
    ensures Below(f, samples, i) == |samples|
  {
    if samples != [] {
      AllBelow(f, samples[..|samples| - 1], i);
    }
  }

  // ------------------------------------------------------------- sorting

  predicate Sorted(s: seq<nat>) {
    forall i, j :: 0 <= i < j < |s| ==> s[i] <= s[j]
  }

  function Insert(s: seq<nat>, x: nat): seq<nat> {
    if s == [] || s[|s| - 1] <= x then s + [x] else Insert(s[..|s| - 1], x) + [s[|s| - 1]]
  }

  function Sort(s: seq<nat>): seq<nat> {
    if s == [] then [] else Insert(Sort(s[..|s| - 1]), s[|s| - 1])
  }

  predicate AllLess(samples: seq<nat>, limit: nat) {
    forall i :: 0 <= i < |samples| ==> samples[i] < limit
  }

  lemma {:induction false} InsertKeepsLess(s: seq<nat>, x: nat, limit: nat)
    requires AllLess(s, limit) && x < limit
    ensures AllLess(Insert(s, x), limit)
  {
    if s != [] && s[|s| - 1] > x {
      InsertKeepsLess(s[..|s| - 1], x, limit);
    }
  }

  lemma {:induction false} InsertSorts(s: seq<nat>, x: nat)
    requires Sorted(s)
    ensures Sorted(Insert(s, x))
  {
    if s != [] && s[|s| - 1] > x {
      var init, last := s[..|s| - 1], s[|s| - 1];
      InsertSorts(init, x);
      InsertKeepsLess(init, x, last + 1);
    }
  }

  lemma {:induction false} InsertKeeps(s: seq<nat>, x: nat)
    ensures multiset(Insert(s, x)) == multiset(s) + multiset{x}
  {
    if s != [] && s[|s| - 1] > x {
      InsertKeeps(s[..|s| - 1], x);
      assert s == s[..|s| - 1] + [s[|s| - 1]];
    }
  }

  lemma {:induction false} SortSorts(s: seq<nat>)
    ensures Sorted(Sort(s)) && multiset(Sort(s)) == multiset(s)
  {
    if s != [] {
      SortSorts(s[..|s| - 1]);
      InsertSorts(Sort(s[..|s| - 1]), s[|s| - 1]);
      InsertKeeps(Sort(s[..|s| - 1]), s[|s| - 1]);
      assert s == s[..|s| - 1] + [s[|s| - 1]];
    }
  }

  lemma {:induction false} SortKeepsLess(s: seq<nat>, limit: nat)
    requires AllLess(s, limit)
    ensures AllLess(Sort(s), limit)
  {
    if s != [] {
      SortKeepsLess(s[..|s| - 1], limit);
      InsertKeepsLess(Sort(s[..|s| - 1]), s[|s| - 1], limit);
    }
  }

  lemma SortKeepsLength(s: seq<nat>)
    ensures |Sort(s)| == |s|
  {
    SortSorts(s);
    assert |Sort(s)| == |multiset(Sort(s))| == |multiset(s)|;
  }

  lemma {:induction false} InsertCounts(f: Bucketing, s: seq<nat>, x: nat, i: nat)
    ensures Below(f, Insert(s, x), i) == Below(f, s, i) + if f(x) < i then 1 else 0
  {
    if s == [] || s[|s| - 1] <= x {
      CountOneMore(f, s, x, i);
    } else {
      InsertCounts(f, s[..|s| - 1], x, i);
      CountOneMore(f, Insert(s[..|s| - 1], x), s[|s| - 1], i);
    }
  }

  lemma {:induction false} SortCounts(f: Bucketing, s: seq<nat>, i: nat)
    ensures Below(f, Sort(s), i) == Below(f, s, i)
  {
    if s != [] {
      SortCounts(f, s[..|s| - 1], i);
      InsertCounts(f, Sort(s[..|s| - 1]), s[|s| - 1], i);
    }
  }

  // ------------------------------------------------------------- ranks in a sorted sequence

  lemma {:induction false} AtLeastFirst(f: Bucketing, s: seq<nat>, m: nat, i: nat)
    requires m <= |s| && forall j :: 0 <= j < m ==> f(s[j]) < i
    ensures Below(f, s, i) >= m
  {
    if m == |s| {
      AllBelow(f, s, i);
    } else {
      AtLeastFirst(f, s[..|s| - 1], m, i);
    }
  }

  lemma {:induction false} AtMostFirst(f: Bucketing, s: seq<nat>, m: nat, i: nat)
    requires m <= |s| && forall j :: m <= j < |s| ==> f(s[j]) >= i
    ensures Below(f, s, i) <= m
  {
    if m == |s| {
      BelowAtMost(f, s, i);
    } else {
      AtMostFirst(f, s[..|s| - 1], m, i);
    }
  }

  lemma {:induction false} BelowAtMost(f: Bucketing, s: seq<nat>, i: nat)
    ensures Below(f, s, i) <= |s|
  {
    if s != [] {
      BelowAtMost(f, s[..|s| - 1], i);
    }
  }

  /** A bucketing that respects the order of the values below a limit and has `n` buckets for them. */
  ghost predicate Respects(f: Bucketing, limit: nat, n: nat) {
    && (forall u: nat, v: nat :: u <= v < limit ==> f(u) <= f(v))
    && (forall v: nat :: v < limit ==> f(v) < n)
  }

  /** The bucket of the `target`-th smallest sample is the one where the running total gets there. */
  lemma RankInSorted(f: Bucketing, s: seq<nat>, limit: nat, n: nat, target: nat)
    requires Respects(f, limit, n) && AllLess(s, limit) && Sorted(s) && 1 <= target <= |s|
    ensures Below(f, s, f(s[target - 1]) + 1) >= target
    ensures Below(f, s, f(s[target - 1])) < target
  {
    var b := f(s[target - 1]);
    AtLeastFirst(f, s, target, b + 1);
    AtMostFirst(f, s, target - 1, b);
  }

  lemma {:induction false} CumulativeMonotone(counts: seq<nat>, i: nat, j: nat)
    requires i <= j <= |counts|
    ensures Cumulative(counts, i) <= Cumulative(counts, j)
    decreases j
  {
    if i < j {
      CumulativeMonotone(counts, i, j - 1);
    }
  }

  lemma ReachIs(counts: seq<nat>, target: nat, b: nat)
    requires b < |counts| && Cumulative(counts, b) < target <= Cumulative(counts, b + 1)
    ensures Reach(counts, target, 0) == b
  {
    var r := Reach(counts, target, 0);
    if r < b {
      CumulativeMonotone(counts, r + 1, b);
    }
  }

  lemma CumulativeOfSorted(f: Bucketing, samples: seq<nat>, n: nat, i: nat)
    requires i <= n
    ensures Cumulative(Counts(f, samples, n), i) == Below(f, Sort(samples), i)
  {
    SortCounts(f, samples, i);
    CumulativeIsBelow(f, samples, n, i);
  }

  lemma ScanSorted(f: Bucketing, counts: seq<nat>, s: seq<nat>, limit: nat, target: nat)
    requires Respects(f, limit, |counts|) && AllLess(s, limit) && Sorted(s) && 1 <= target <= |s|
    requires forall i :: 0 <= i <= |counts| ==> Cumulative(counts, i) == Below(f, s, i)
    ensures Reach(counts, target, 0) == f(s[target - 1]) < |counts|
  {
    RankInSorted(f, s, limit, |counts|, target);
    ReachIs(counts, target, f(s[target - 1]));
  }

  /** Scanning the counts for a rank finds the bucket of the sample that sorting puts at that rank; the
      scan always finds one. */
  lemma ScanFindsRank(f: Bucketing, samples: seq<nat>, limit: nat, n: nat, target: nat)
    requires Respects(f, limit, n) && AllLess(samples, limit) && 1 <= target <= |samples|
    ensures |Sort(samples)| == |samples|
    ensures Reach(Counts(f, samples, n), target, 0) == f(Sort(samples)[target - 1]) < n
  {
    SortKeepsLength(samples);
    SortKeepsLess(samples, limit);
    assert Sorted(Sort(samples)) by { SortSorts(samples); }
    forall i | 0 <= i <= n ensures Cumulative(Counts(f, samples, n), i) == Below(f, Sort(samples), i) {
      CumulativeOfSorted(f, samples, n, i);
    }
    ScanSorted(f, Counts(f, samples, n), Sort(samples), limit, target);
  }

}
