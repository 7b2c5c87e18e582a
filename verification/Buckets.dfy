/** The log-linear bucketing of the latency histogram. */
module Buckets {
  import opened Bits

  /** Below this every value has its own bucket; above, each octave is split into 64 = 2^6 sub-buckets. */
  const LINEAR := 128

  /** Octaves 7 to 39 follow the linear part. */
  const BUCKETS := LINEAR + (40 - 7) * 64

  /** Values from here on do not fit the bucket array. */
  const LIMIT: nat := 0x100_0000_0000

  /** `63 - clz(v)`: the position of the leading one. */
  function Log2(v: nat): nat
    requires v >= 1
  {
    if v == 1 then 0 else 1 + Log2(v / 2)
  }

  /** The octave of a value beyond the linear part; values beyond the last octave are counted in it. */
  function Octave(v: nat): (oct: nat)
    requires v >= LINEAR
    ensures 7 <= oct < 40 && Pow2(oct) <= v
  {
    var top := Log2(v);
    var oct := if top >= 40 then 39 else top;
    LogOfLinear(v);
    OctaveBelow(v, oct);
    oct
  }

  /** The sub-bucket: the six bits below the leading one. */
  function SubOf(v: nat, oct: nat): nat
    requires 7 <= oct && Pow2(oct) <= v
  {
    (v - Pow2(oct)) / Pow2(oct - 6)
  }

  function BucketOf(v: nat): nat {
    if v < LINEAR then v else LINEAR + (Octave(v) - 7) * 64 + SubOf(v, Octave(v))
  }

  /** The middle of the sub-bucket. */
  function MiddleOf(oct: nat, sub: nat): nat
    requires 7 <= oct
  {
    Pow2(oct) + sub * Pow2(oct - 6) + Pow2(oct - 6) / 2
  }

  function ValueOf(b: nat): nat {
    if b < LINEAR then b else MiddleOf(7 + (b - LINEAR) / 64, (b - LINEAR) % 64)
  }

  // ------------------------------------------------------------- the leading one

  lemma {:induction false} Log2Bounds(v: nat)
    requires v >= 1
    ensures Pow2(Log2(v)) <= v < 2 * Pow2(Log2(v))
  {
    if v > 1 {
      Log2Bounds(v / 2);
    }
  }

  lemma {:induction false} Log2Unique(v: nat, k: nat)
    requires Pow2(k) <= v < 2 * Pow2(k)
    ensures Log2(v) == k
  {
    if k > 0 {
      Log2Unique(v / 2, k - 1);
    }
  }

  lemma {:induction false} Log2AtLeast(v: nat, k: nat)
    requires v >= 1 && Pow2(k) <= v
    ensures Log2(v) >= k
  {
    Log2Bounds(v);
    if Log2(v) < k {
      Pow2Monotone(Log2(v) + 1, k);
    }
  }

  lemma OctaveBelow(v: nat, oct: nat)
    requires v >= 1 && oct <= Log2(v)
    ensures Pow2(oct) <= v
  {
    Log2Bounds(v);
    Pow2Monotone(oct, Log2(v));
  }

  // ------------------------------------------------------------- buckets in scientific notation

  /** `v` lies in the `q`-th interval of width `2^k`; `q` has a leading one unless `k` is zero. */
  predicate Lies(v: nat, k: nat, q: nat) {
    && (k == 0 || 64 <= q) && q < LINEAR
    && Within(v, Pow2(k), q)
  }

  /** Bucket number of the `q`-th interval of width `2^k`. */
  function Number(k: nat, q: nat): nat {
    64 * k + q
  }

  lemma Pow2Six(k: nat)
    ensures Pow2(k + 6) == 64 * Pow2(k)
  {
    Pow2Add(6, k);
    assert Pow2(6) == 64;
  }

  lemma Pow2Forty()
    ensures Pow2(40) == LIMIT && Pow2(39) == LIMIT / 2 && Pow2(33) == LIMIT / 128
  {
    assert Pow2(5) == 32;
    Pow2Double(5, 32);
    Pow2Double(10, 1024);
    Pow2Double(20, 0x10_0000);
    Pow2Six(33);
  }

  lemma {:induction false} MulLe(a: nat, b: nat, w: nat)
    requires a <= b
    ensures a * w <= b * w
  {
  }

  lemma {:induction false} MulNext(a: nat, b: nat, w: nat)
    requires a < b
    ensures a * w + w <= b * w
  {
    MulLe(a + 1, b, w);
  }

  lemma {:induction false} Distribute(q: nat, w: nat)
    requires q >= 64
    ensures 64 * w + (q - 64) * w == q * w
  {
  }

  /** `v` lies in the `q`-th interval of width `w`. */
  predicate Within(v: nat, w: nat, q: nat) {
    q * w <= v < q * w + w
  }

  lemma OctaveOf(v: nat, w: nat, q: nat)
    requires 64 <= q < LINEAR && Within(v, w, q)
    ensures 64 * w <= q * w && 64 * w <= v < 128 * w
  {
    MulLe(64, q, w);
    MulNext(q, 128, w);
  }

  lemma SubBucket(v: nat, w: nat, q: nat)
    requires w >= 1 && 64 <= q < LINEAR && Within(v, w, q)
    ensures 64 * w <= v && (v - 64 * w) / w == q - 64
  {
    OctaveOf(v, w, q);
    assert q * w == 64 * w + w * (q - 64);
    RemainderUnique(v - 64 * w, w, q - 64, v - q * w);
  }

  lemma BucketInOctave(v: nat, k: nat, w: nat, sub: nat)
    requires 1 <= k <= 33 && w == Pow2(k) && 64 * w <= v < 128 * w && (v - 64 * w) / w == sub
    ensures BucketOf(v) == Number(k, 64 + sub)
  {
    assert w >= 2;
    Pow2Six(k);
    Log2Unique(v, k + 6);
  }

  /** An interval is a bucket. */
  lemma BucketIsNumber(v: nat, k: nat, q: nat)
    requires Lies(v, k, q) && k <= 33
    ensures BucketOf(v) == Number(k, q)
  {
    var w := Pow2(k);
    if k > 0 {
      OctaveOf(v, w, q);
      SubBucket(v, w, q);
      BucketInOctave(v, k, w, q - 64);
    }
  }

  lemma Quotient(v: nat, w: nat)
    requires w >= 1
    ensures Within(v, w, v / w)
  {
  }

  lemma QuotientBetween(v: nat, w: nat, q: nat)
    requires Within(v, w, q) && 64 * w <= v < 128 * w
    ensures 64 <= q < 128
  {
    if q < 64 {
      MulNext(q, 64, w);
    } else if q >= 128 {
      MulLe(128, q, w);
    }
  }

  lemma LogBelowForty(v: nat)
    requires 1 <= v < LIMIT
    ensures Log2(v) < 40
  {
    Log2Bounds(v);
    Pow2Forty();
    if Log2(v) >= 40 {
      Pow2Monotone(40, Log2(v));
    }
  }

  lemma LogOfLinear(v: nat)
    requires v >= LINEAR
    ensures Log2(v) >= 7
  {
    assert Pow2(7) == 128;
    Log2AtLeast(v, 7);
  }

  lemma OctaveOfLog(v: nat) returns (k: nat)
    requires LINEAR <= v < LIMIT
    ensures 1 <= k <= 33 && 64 * Pow2(k) <= v < 128 * Pow2(k)
  {
    LogOfLinear(v);
    LogBelowForty(v);
    Log2Bounds(v);
    k := Log2(v) - 6;
    Pow2Six(k);
  }

  /** Every value below the limit lies in one. */
  lemma LiesSomewhere(v: nat) returns (k: nat, q: nat)
    requires v < LIMIT
    ensures Lies(v, k, q) && k <= 33
  {
    if v < LINEAR {
      k, q := 0, v;
    } else {
      k := OctaveOfLog(v);
      q := v / Pow2(k);
      Quotient(v, Pow2(k));
      QuotientBetween(v, Pow2(k), q);
    }
  }

  /** The bucket number determines the interval. */
  lemma NumberSplits(b: nat) returns (k: nat, q: nat)
    requires b < BUCKETS
    ensures b == Number(k, q) && (k == 0 || 64 <= q) && q < LINEAR && k <= 33
  {
    if b < LINEAR {
      k, q := 0, b;
    } else {
      k, q := (b - LINEAR) / 64 + 1, 64 + (b - LINEAR) % 64;
    }
  }

  lemma ValueInOctave(k: nat, w: nat, sub: nat)
    requires k >= 1 && w == Pow2(k) && sub < 64
    ensures ValueOf(Number(k, 64 + sub)) == 64 * w + sub * w + w / 2
  {
    var idx := Number(k, 64 + sub) - LINEAR;
    assert idx == 64 * (k - 1) + sub;
    assert idx / 64 == k - 1 && idx % 64 == sub;
    Pow2Six(k);
  }

  lemma Middle(v: nat, w: nat, q: nat)
    requires w >= 1 && v == q * w + w / 2
    ensures Within(v, w, q)
  {
  }

  lemma ValueFrom(k: nat, w: nat, q: nat)
    requires (k == 0 || 64 <= q) && q < LINEAR && w == Pow2(k)
    ensures ValueOf(Number(k, q)) == q * w + w / 2
  {
    if k > 0 {
      ValueInOctave(k, w, q - 64);
      Distribute(q, w);
    }
  }

  /** The representative is the middle of the interval. */
  lemma ValueIsMiddle(k: nat, q: nat) returns (x: nat)
    requires (k == 0 || 64 <= q) && q < LINEAR
    ensures x == ValueOf(Number(k, q)) && x == q * Pow2(k) + Pow2(k) / 2 && Lies(x, k, q)
  {
    ValueFrom(k, Pow2(k), q);
    x := q * Pow2(k) + Pow2(k) / 2;
    Middle(x, Pow2(k), q);
  }

  // ------------------------------------------------------------- what the bucketing guarantees

  /** Exactly the values below 2^40 have a bucket in the array. */
  lemma InRangeBelowLimit(v: nat)
    ensures BucketOf(v) < BUCKETS <==> v < LIMIT
  {
    if v < LIMIT {
      var k, q := LiesSomewhere(v);
      BucketIsNumber(v, k, q);
    } else {
      Pow2Forty();
      Log2AtLeast(v, 40);
      var w := Pow2(33);
      assert (v - Pow2(39)) / w >= 64;
    }
  }

  lemma RoundTrip(b: nat)
    requires b < BUCKETS
    ensures BucketOf(ValueOf(b)) == b && ValueOf(b) < LIMIT
  {
    var k, q := NumberSplits(b);
    var x := ValueIsMiddle(k, q);
    BucketIsNumber(x, k, q);
    InRangeBelowLimit(x);
  }

  lemma ErrorBound(v: nat, w: nat, lo: nat)
    requires lo <= v < lo + w && 64 * w <= lo && w % 2 == 0
    ensures 128 * (v - (lo + w / 2)) <= v && 128 * (lo + w / 2 - v) <= v
  {
  }

  lemma WideError(v: nat, k: nat, q: nat, x: nat)
    requires k > 0 && Lies(v, k, q) && x == q * Pow2(k) + Pow2(k) / 2
    ensures 128 * (v - x) <= v && 128 * (x - v) <= v
  {
    OctaveOf(v, Pow2(k), q);
    ErrorBound(v, Pow2(k), q * Pow2(k));
  }

  lemma RepresentativeOf(v: nat) returns (k: nat, q: nat)
    requires v < LIMIT
    ensures Lies(v, k, q) && ValueOf(BucketOf(v)) == q * Pow2(k) + Pow2(k) / 2
  {
    k, q := LiesSomewhere(v);
    BucketIsNumber(v, k, q);
    var x := ValueIsMiddle(k, q);
  }

  /** The representative is within 1/128 of the value, and exact below 128. */
  lemma RelativeError(v: nat)
    requires v < LIMIT
    ensures var x := ValueOf(BucketOf(v));
            128 * (v - x) <= v && 128 * (x - v) <= v && (v < LINEAR ==> x == v)
  {
    if v >= LINEAR {
      var k, q := RepresentativeOf(v);
      WideError(v, k, q, ValueOf(BucketOf(v)));
    }
  }

  /** Narrower intervals end where wider ones begin. */
  lemma NarrowBelowWide(v: nat, k: nat, q: nat, wide: nat)
    requires Lies(v, k, q) && k < wide
    ensures v < 64 * Pow2(wide)
  {
    MulNext(q, 128, Pow2(k));
    Pow2Monotone(k + 1, wide);
  }

  lemma SameWidth(u: nat, v: nat, w: nat, q: nat, q': nat)
    requires u <= v && Within(u, w, q) && Within(v, w, q')
    ensures q <= q'
  {
    if q > q' {
      MulNext(q', q, w);
    }
  }

  lemma IntervalsOrdered(u: nat, v: nat, k: nat, q: nat, k': nat, q': nat)
    requires u <= v && Lies(u, k, q) && Lies(v, k', q')
    ensures Number(k, q) <= Number(k', q')
  {
    if k > k' {
      NarrowBelowWide(v, k', q', k);
      OctaveOf(u, Pow2(k), q);
    } else if k == k' {
      SameWidth(u, v, Pow2(k), q, q');
    }
  }

  lemma BucketMonotone(u: nat, v: nat)
    requires u <= v < LIMIT
    ensures BucketOf(u) <= BucketOf(v)
  {
    var k, q := LiesSomewhere(u);
    var k', q' := LiesSomewhere(v);
    BucketIsNumber(u, k, q);
    BucketIsNumber(v, k', q');
    IntervalsOrdered(u, v, k, q, k', q');
  }

  lemma ValueMonotone(a: nat, b: nat)
    requires a <= b < BUCKETS
    ensures ValueOf(a) <= ValueOf(b)
  {
    RoundTrip(a);
    RoundTrip(b);
    if ValueOf(a) > ValueOf(b) {
      BucketMonotone(ValueOf(b), ValueOf(a));
    }
  }
}
