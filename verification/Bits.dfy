/** Machine-word arithmetic on unbounded naturals: powers of two, bitwise `&`, and the
    facts that let the masked expressions of the program be read as division with remainder. */
module Bits {

  /** Number of values of a `u64` / `std::size_t`. */
  const W: nat := 0x1_0000_0000_0000_0000

  type U64 = x: int | 0 <= x < W

  function Pow2(k: nat): (p: nat)
    ensures p >= 1
  {
    if k == 0 then 1 else 2 * Pow2(k - 1)
  }

  /** Remainder by repeated subtraction. Proofs that only move indices around stay free of
      non-linear arithmetic by using this form; `RemIsMod` connects it with `%`. */
  function Rem(x: nat, m: nat): (r: nat)
    requires m >= 1
    ensures r < m
  {
    if x < m then x else Rem(x - m, m)
  }

  /** Unsigned 64-bit subtraction and increment, on words. */
  function Minus64(a: U64, b: U64): U64
  {
    if a >= b then a - b else a + W - b
  }

  function Inc64(a: U64): U64
  {
    if a + 1 == W then 0 else a + 1
  }

  /** Bitwise and, bit by bit from the least significant end. */
  function BitAnd(a: nat, b: nat): (r: nat)
    ensures r <= a && r <= b
  {
    if a == 0 || b == 0 then 0
    else (if a % 2 == 1 && b % 2 == 1 then 1 else 0) + 2 * BitAnd(a / 2, b / 2)
  }

  /** The power-of-two test the templates make at compile time. */
  predicate PassesStaticAssert(c: nat) {
    c >= 1 && BitAnd(c, c - 1) == 0
  }

  /** A size the templates accept. */
  ghost predicate IsCapacity(c: nat) {
    exists k: nat :: c == Pow2(k)
  }

  lemma {:induction false} Pow2Add(a: nat, b: nat)
    ensures Pow2(a + b) == Pow2(a) * Pow2(b)
  {
    if a == 0 {
    } else {
      Pow2Add(a - 1, b);
      assert Pow2(a + b) == 2 * Pow2(a - 1 + b);
    }
  }

  lemma {:induction false} Pow2Monotone(a: nat, b: nat)
    requires a <= b
    ensures Pow2(a) <= Pow2(b)
  {
    if a < b {
      Pow2Monotone(a, b - 1);
    }
  }

  lemma Pow2Double(k: nat, p: nat)
    requires Pow2(k) == p
    ensures Pow2(k + k) == p * p
  {
    Pow2Add(k, k);
  }

  lemma Pow2Word()
    ensures Pow2(64) == W
  {
    assert Pow2(2) == 4;
    Pow2Double(2, 4);
    Pow2Double(4, 16);
    Pow2Double(8, 256);
    Pow2Double(16, 0x1_0000);
    Pow2Double(32, 0x1_0000_0000);
  }

  lemma {:induction false} ModOfMultiple(x: int, d: nat, q: nat)
    requires d >= 1 && q >= 1
    ensures x % (d * q) % d == x % d
  {
    var m := d * q;
    var y := x % m;
    assert x == m * (x / m) + y;
    assert x - y == d * (q * (x / m)) by {
      assert m * (x / m) == d * (q * (x / m));
    }
    SameRemainder(x, y, d, q * (x / m));
  }

  lemma {:induction false} SameRemainder(x: int, y: int, d: nat, k: int)
    requires d >= 1 && x - y == d * k
    ensures x % d == y % d
  {
    var r := y % d;
    assert x == d * (k + y / d) + r by {
      assert d * (k + y / d) == d * k + d * (y / d);
    }
    RemainderUnique(x, d, k + y / d, r);
  }

  lemma {:induction false} RemainderUnique(x: int, d: nat, q: int, r: int)
    requires d >= 1 && 0 <= r < d && x == d * q + r
    ensures x % d == r && x / d == q
  {
    var q', r' := x / d, x % d;
    assert d * (q - q') == r' - r by {
      assert d * (q - q') == d * q - d * q';
    }
    assert q == q' by {
      if q > q' {
        MulAtLeast(d, q - q');
      } else if q < q' {
        assert d * (q' - q) == -(d * (q - q'));
        MulAtLeast(d, q' - q);
      }
    }
  }

  lemma {:induction false} MulAtLeast(d: nat, k: int)
    requires k >= 1
    ensures d * k >= d
  {
  }

  /** Halving splits off the lowest bit of a remainder modulo an even number. */
  lemma {:induction false} HalfRemainder(x: nat, p: nat)
    requires p >= 1
    ensures x % (2 * p) == 2 * (x / 2 % p) + x % 2
  {
    var q, r := x / 2 / p, x / 2 % p;
    assert x / 2 == p * q + r;
    assert x == 2 * p * q + (2 * r + x % 2) by {
      assert 2 * p * q == 2 * (p * q);
    }
    RemainderUnique(x, 2 * p, q, 2 * r + x % 2);
  }

  lemma BitAndStep(a: nat, b: nat)
    ensures BitAnd(a, b) == (if a % 2 == 1 && b % 2 == 1 then 1 else 0) + 2 * BitAnd(a / 2, b / 2)
  {
  }

  lemma OddAnd(x: nat, y: nat)
    ensures BitAnd(x, 2 * y + 1) == x % 2 + 2 * BitAnd(x / 2, y)
  {
    BitAndStep(x, 2 * y + 1);
    assert (2 * y + 1) % 2 == 1 && (2 * y + 1) / 2 == y;
  }

  lemma MaskStep(x: nat, p: nat)
    requires p >= 1
    ensures BitAnd(x, 2 * p - 1) == x % 2 + 2 * BitAnd(x / 2, p - 1)
  {
    OddAnd(x, p - 1);
    assert 2 * (p - 1) + 1 == 2 * p - 1;
  }

  /** `x & (2^k - 1)` keeps the low `k` bits. */
  lemma {:induction false} MaskIsMod(x: nat, k: nat)
    ensures BitAnd(x, Pow2(k) - 1) == x % Pow2(k)
  {
    if k > 0 {
      var p := Pow2(k - 1);
      calc {
        BitAnd(x, 2 * p - 1);
        { MaskStep(x, p); }
        x % 2 + 2 * BitAnd(x / 2, p - 1);
        { MaskIsMod(x / 2, k - 1); }
        x % 2 + 2 * (x / 2 % p);
        { HalfRemainder(x, p); }
        x % (2 * p);
      }
    }
  }

  lemma EvenAnd(x: nat, y: nat)
    ensures BitAnd(x, 2 * y) == 2 * BitAnd(x / 2, y)
  {
    BitAndStep(x, 2 * y);
    assert 2 * y % 2 == 0 && 2 * y / 2 == y;
  }

  lemma HalfCleared(x: nat, p: nat)
    requires p >= 1
    ensures 2 * (x / 2 - x / 2 % p) == x - x % (2 * p)
  {
    HalfRemainder(x, p);
  }

  lemma ClearStep(x: nat, p: nat, y: nat)
    requires p >= 1 && BitAnd(x / 2, y) == x / 2 - x / 2 % p
    ensures BitAnd(x, 2 * y) == x - x % (2 * p)
  {
    calc {
      BitAnd(x, 2 * y);
      { EvenAnd(x, y); }
      2 * BitAnd(x / 2, y);
      2 * (x / 2 - x / 2 % p);
      { HalfCleared(x, p); }
      x - x % (2 * p);
    }
  }

  lemma ClearOneMore(x: nat, p: nat, w: nat, p2: nat, w2: nat)
    requires 1 <= p <= w && p2 == 2 * p && w2 == 2 * w
    requires BitAnd(x / 2, w - p) == x / 2 - x / 2 % p
    ensures BitAnd(x, w2 - p2) == x - x % p2
  {
    ClearStep(x, p, w - p);
    assert w2 - p2 == 2 * (w - p);
  }

  lemma ClearNothing(x: nat, n: nat)
    requires x < Pow2(n)
    ensures BitAnd(x, Pow2(n) - 1) == x
  {
    MaskIsMod(x, n);
    RemainderUnique(x, Pow2(n), 0, x);
  }

  /** `x & ~(2^k - 1)` in `n`-bit arithmetic clears the low `k` bits. */
  lemma {:induction false} ClearLowBits(x: nat, k: nat, n: nat, p: nat, w: nat)
    requires k <= n && p == Pow2(k) && w == Pow2(n) && x < w
    ensures p <= w && BitAnd(x, w - p) == x - x % p
    decreases k
  {
    if k == 0 {
      ClearNothing(x, n);
      assert x % 1 == 0;
    } else {
      var p', w' := Pow2(k - 1), Pow2(n - 1);
      assert p == 2 * p' && w == 2 * w';
      ClearLowBits(x / 2, k - 1, n - 1, p', w');
      ClearOneMore(x, p', w', p, w);
    }
  }

  /** The static assertion accepts exactly the powers of two. */
  lemma {:induction false} StaticAssertMeansPow2(c: nat)
    ensures PassesStaticAssert(c) <==> IsCapacity(c)
  {
    if PassesStaticAssert(c) {
      var k := ExponentOf(c);
    }
    if IsCapacity(c) {
      var k: nat :| c == Pow2(k);
      Pow2Passes(k);
    }
  }

  lemma OddNeighbours(c: nat)
    requires c % 2 == 1
    ensures BitAnd(c, c - 1) == 2 * (c / 2)
  {
    BitAndStep(c, c - 1);
    assert (c - 1) % 2 == 0 && (c - 1) / 2 == c / 2;
    SelfAnd(c / 2);
  }

  lemma EvenNeighbours(h: nat)
    requires h >= 1
    ensures BitAnd(2 * h, 2 * h - 1) == 2 * BitAnd(h, h - 1)
  {
    MaskStep(2 * h, h);
    assert 2 * h % 2 == 0 && 2 * h / 2 == h;
  }

  lemma {:induction false} ExponentOf(c: nat) returns (k: nat)
    requires PassesStaticAssert(c)
    ensures c == Pow2(k)
  {
    if c == 1 {
      return 0;
    }
    if c % 2 == 1 {
      OddNeighbours(c);
    }
    var h := c / 2;
    assert c == 2 * h;
    EvenNeighbours(h);
    k := ExponentOf(h);
    k := k + 1;
  }

  lemma {:induction false} SelfAnd(x: nat)
    ensures BitAnd(x, x) == x
  {
    if x != 0 {
      SelfAnd(x / 2);
    }
  }

  lemma {:induction false} Pow2Passes(k: nat)
    ensures PassesStaticAssert(Pow2(k))
  {
    if k > 0 {
      Pow2Passes(k - 1);
      var p := Pow2(k - 1);
      assert (2 * p) / 2 == p && (2 * p - 1) / 2 == p - 1;
    }
  }

  /** A capacity that fits a machine word divides the number of words, so reducing modulo the
      word size first does not disturb the slot index. */
  lemma {:induction false} CapacityDividesWord(c: nat) returns (q: nat)
    requires IsCapacity(c) && c < W
    ensures q >= 2 && c * q == W
  {
    var k: nat :| c == Pow2(k);
    Pow2Word();
    if k >= 64 {
      Pow2Monotone(64, k);
    }
    q := Pow2(64 - k);
    Pow2Add(k, 64 - k);
  }

  lemma {:induction false} RemIsMod(x: nat, m: nat)
    requires m >= 1
    ensures Rem(x, m) == x % m
  {
    if x < m {
      RemainderUnique(x, m, 0, x);
    } else {
      RemIsMod(x - m, m);
      SameRemainder(x, x - m, m, 1);
    }
  }

  lemma {:induction false} RemAdd(x: nat, m: nat)
    requires m >= 1
    ensures Rem(x + m, m) == Rem(x, m)
  {
  }

  /** The masked slot index equals the remainder of the unbounded index. */
  lemma {:induction false} MaskedIndex(c: nat, x: nat)
    requires IsCapacity(c) && c < W
    ensures BitAnd(Rem(x, W), c - 1) == Rem(x, c)
  {
    var k: nat :| c == Pow2(k);
    RemIsMod(x, W);
    RemIsMod(x, c);
    MaskIsMod(x % W, k);
    var q := CapacityDividesWord(c);
    ModOfMultiple(x, c, q);
  }

  /** Consecutive numbers have consecutive remainders, cyclically. */
  lemma {:induction false} RemNext(x: nat, m: nat)
    requires m >= 1
    ensures Rem(x + 1, m) == if Rem(x, m) + 1 == m then 0 else Rem(x, m) + 1
  {
    if x >= m {
      RemNext(x - m, m);
    }
  }

  /** Word subtraction gives back a distance smaller than a word. */
  lemma {:induction false} GapWraps(t: nat, h: nat)
    requires h <= t < h + W
    ensures Minus64(Rem(t, W), Rem(h, W)) == t - h
  {
    if h >= W {
      GapWraps(t - W, h - W);
    } else if t >= W {
      assert Rem(t - W, W) == t - W;
    }
  }

  /** Two different numbers with the same remainder are at least one modulus apart. */
  lemma {:induction false} FarApart(a: nat, b: nat, m: nat)
    requires m >= 1 && Rem(a, m) == Rem(b, m) && a < b
    ensures a + m <= b
  {
    if a >= m {
      FarApart(a - m, b - m, m);
    }
  }
}
