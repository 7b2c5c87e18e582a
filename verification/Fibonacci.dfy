/** The hash of the flat map, the map itself as the program updates it, and how the hash spreads keys. */
module Fibonacci {
  import opened Bits
  import opened Options
  import opened FlatMap

  const MULTIPLIER: nat := 0x9E37_79B9_7F4A_7C15

  /** `((k * multiplier) >> 1) & kMask` in 64-bit arithmetic. */
  function HashOf(cap: nat, k: U64): (i: nat)
    requires cap >= 1
    ensures i < cap
  {
    BitAnd(k * MULTIPLIER % W / 2, cap - 1)
  }

  function HashFor(cap: nat): Hash
    requires cap >= 1
  {
    (k: U64) => HashOf(cap, k)
  }

  // ------------------------------------------------------------- the container

  class Map<V(==)> {
    const slots: array<Slot<V>>
    var size: nat
    ghost var contents: map<U64, V>

    /** The table stands for `contents`, and `size` counts them. */
    ghost predicate Valid()
      reads this, slots
    {
      && slots.Length < W && IsCapacity(slots.Length)
      && Represents(HashFor(slots.Length), slots[..], contents)
      && size == |contents|
    }

    constructor (cap: nat)
      requires IsCapacity(cap) && cap < W
      ensures Valid() && fresh(slots) && slots.Length == cap && contents == map[]
    {
      slots := new Slot<V>[cap](_ => Slot(0, None, false));
      size := 0;
      contents := map[];
    }

    /** The probe loop that `Put` and `Get` share. */
    method Find(key: U64) returns (p: nat, i: nat)
      requires slots.Length < W && IsCapacity(slots.Length)
      ensures p == Probe(slots[..], key, HashOf(slots.Length, key), 0)
      ensures p < slots.Length ==> i == At(slots.Length, HashOf(slots.Length, key), p)
    {
      var cap := slots.Length;
      var h := HashOf(cap, key);
      p, i := 0, h;
      while p < cap && !Stops(slots[i], key)
        invariant p <= cap && (p < cap ==> i == At(cap, h, p))
        invariant Probe(slots[..], key, h, 0) == Probe(slots[..], key, h, p)
      {
        NextPosition(cap, h, p);
        i := BitAnd(i + 1, cap - 1);
        p := p + 1;
      }
    }

    /** Insert or overwrite; refused exactly when the map is full of other keys. */
    method Put(key: U64, val: V) returns (ok: bool)
      requires Valid()
      modifies this, slots
      ensures Valid()
      ensures ok <==> HasRoom(old(contents), slots.Length, key)
      ensures contents == PutBounded(old(contents), slots.Length, key, val)
      ensures forall i, k :: old(PlaceOf(i, k)) ==> PlaceOf(i, k)
    {
      PutRefines(HashFor(slots.Length), slots[..], contents, key, val);
      PutAdds(HashFor(slots.Length), slots[..], contents, key, val);
      ok := PutMembers(key, val);
      contents := PutBounded(contents, slots.Length, key, val);
    }

    /** The program's `put` on the data members. */
    method PutMembers(key: U64, val: V) returns (ok: bool)
      requires slots.Length < W && IsCapacity(slots.Length)
      modifies this`size, slots
      ensures (slots[..], ok) == PutNow(HashFor(slots.Length), old(slots[..]), key, val)
      ensures size == old(size) + Added(HashFor(slots.Length), old(slots[..]), key)
      ensures forall j, k :: old(PlaceOf(j, k)) ==> PlaceOf(j, k)
    {
      var p, i := Find(key);
      if p == slots.Length {
        return false;
      }
      if !slots[i].used {
        size := size + 1;
      }
      Store(i, key, val);
      ok := true;
    }

    /** Overwrites one slot. */
    method Store(i: nat, key: U64, val: V)
      requires i < slots.Length && Stops(slots[i], key)
      modifies slots
      ensures slots[..] == old(slots[..])[i := Slot(key, Some(val), true)]
      ensures forall j, k :: old(PlaceOf(j, k)) ==> PlaceOf(j, k)
    {
      slots[i] := Slot(key, Some(val), true);
    }

    /** Place `p` belongs to `key` and holds its value. */
    predicate PlaceOf(p: nat, key: U64)
      reads this, slots
    {
      p < slots.Length && slots[p].used && slots[p].key == key
    }

    /** The place of the key's value, through which the caller reads and writes it. */
    method Get(key: U64) returns (p: Option<nat>)
      requires Valid()
      ensures p.Some? <==> key in contents
      ensures p.Some? ==> PlaceOf(p.value, key) && slots[p.value].val == Some(contents[key])
    {
      var probes, i := Find(key);
      GetRefines(HashFor(slots.Length), slots[..], contents, key);
      if probes == slots.Length || !slots[i].used {
        return None;
      }
      p := Some(i);
    }

    /** A write through a place handed out by `Get`. */
    method Assign(p: nat, val: V)
      requires Valid() && p < slots.Length && slots[p].used
      modifies this, slots
      ensures Valid() && PlaceOf(p, old(slots[p].key)) && size == old(size)
      ensures contents == old(contents)[old(slots[p].key) := val]
    {
      var key := slots[p].key;
      AssignRepresents(HashFor(slots.Length), slots[..], contents, p, val);
      slots[p] := Slot(key, Some(val), true);
      contents := contents[key := val];
    }

    /** The number of keys, never more than there are slots. */
    method Size() returns (n: nat)
      requires Valid()
      ensures n == |contents| <= slots.Length
    {
      FullWhenAllUsed(HashFor(slots.Length), slots[..], contents);
      n := size;
    }
  }

  // ------------------------------------------------------------- the hash spreads consecutive keys

  /** The multiplier is odd, so it can be undone modulo every power of two up to the word size. */
  const INVERSE: nat := 0xF1DE_83E1_9937_733D

  lemma InverseUndoes(n: nat, q: nat)
    requires n >= 2 && n * q == W
    ensures MULTIPLIER * INVERSE % n == 1
  {
    assert MULTIPLIER * INVERSE == W * 0x957B_BF35_006E_D677 + 1;
    assert W * 0x957B_BF35_006E_D677 == n * (q * 0x957B_BF35_006E_D677);
    RemainderUnique(MULTIPLIER * INVERSE, n, q * 0x957B_BF35_006E_D677, 1);
  }

  lemma {:induction false} TwiceDividesWord(cap: nat) returns (q: nat)
    requires IsCapacity(cap) && 2 * cap <= W
    ensures q >= 1 && 2 * cap * q == W
  {
    var k: nat :| cap == Pow2(k);
    Pow2Word();
    if k + 1 > 64 {
      Pow2Monotone(64, k);
    }
    q := Pow2(64 - (k + 1));
    Pow2Add(k + 1, 64 - (k + 1));
  }

  /** Where a product lands, without the word arithmetic. */
  lemma HashIsHalf(cap: nat, x: nat)
    requires IsCapacity(cap) && 2 * cap <= W
    ensures HashOf(cap, x % W) == x * MULTIPLIER % (2 * cap) / 2
  {
    var k: nat :| cap == Pow2(k);
    var q := TwiceDividesWord(cap);
    var y := x % W * MULTIPLIER % W;
    MaskIsMod(y / 2, k);
    HalfRemainder(y, cap);
    assert y == x * MULTIPLIER % W by { TimesRemainder(x, MULTIPLIER, W); }
    ModOfMultiple(x * MULTIPLIER, 2 * cap, q);
  }

  lemma {:induction false} TimesRemainder(x: nat, c: nat, n: nat)
    requires n >= 1
    ensures x % n * c % n == x * c % n
  {
    var q := x / n;
    assert x == n * q + x % n;
    assert x * c - x % n * c == n * (q * c) by {
      assert x * c == n * q * c + x % n * c;
    }
    SameRemainder(x * c, x % n * c, n, q * c);
  }

  /** Multiplying by the inverse leads back. */
  lemma {:induction false} MultiplyBack(x: nat, n: nat, q: nat)
    requires n >= 2 && n * q == W
    ensures x * MULTIPLIER % n * INVERSE % n == x % n
    ensures x * INVERSE % n * MULTIPLIER % n == x % n
  {
    InverseUndoes(n, q);
    var mi := MULTIPLIER * INVERSE;
    TimesRemainder(x * MULTIPLIER, INVERSE, n);
    TimesRemainder(x * INVERSE, MULTIPLIER, n);
    assert x * MULTIPLIER * INVERSE == mi * x && x * INVERSE * MULTIPLIER == mi * x;
    TimesRemainder(mi, x, n);
  }

  /** The key among `n` consecutive ones whose product leaves remainder `v`. */
  function Solve(n: nat, s: nat, v: nat): (d: nat)
    requires n >= 2
    ensures d < n
  {
    (v * INVERSE + (n - s % n)) % n
  }

  lemma {:induction false} SolveSolves(n: nat, q: nat, s: nat, v: nat)
    requires n >= 2 && n * q == W && v < n
    ensures (s + Solve(n, s, v)) * MULTIPLIER % n == v
  {
    var x, d := v * INVERSE + (n - s % n), Solve(n, s, v);
    assert x == n * (x / n) + d && s == n * (s / n) + s % n;
    assert s + d - v * INVERSE == n * (s / n + 1 - x / n) by {
      assert n * (s / n + 1 - x / n) == n * (s / n) + n - n * (x / n);
    }
    SameRemainder(s + d, v * INVERSE, n, s / n + 1 - x / n);
    TimesRemainder(s + d, MULTIPLIER, n);
    MultiplyBack(v, n, q);
    RemainderUnique(v, n, 0, v);
  }

  lemma {:induction false} SolutionUnique(n: nat, q: nat, s: nat, d: nat, e: nat)
    requires n >= 2 && n * q == W && d < n && e < n
    requires (s + d) * MULTIPLIER % n == (s + e) * MULTIPLIER % n
    ensures d == e
  {
    MultiplyBack(s + d, n, q);
    MultiplyBack(s + e, n, q);
    CloseAndCongruent(s + d, s + e, n);
  }

  /** Numbers less than `n` apart with the same remainder are equal. */
  lemma {:induction false} CloseAndCongruent(x: nat, y: nat, n: nat)
    requires n >= 1 && x % n == y % n && x < y + n && y < x + n
    ensures x == y
  {
    var a, b := x / n, y / n;
    assert x - y == n * (a - b) by {
      assert x == n * a + x % n && y == n * b + y % n;
    }
    if a > b {
      MulAtLeast(n, a - b);
    } else if a < b {
      assert y - x == n * (b - a);
      MulAtLeast(n, b - a);
    }
  }

  /** The offsets among `2 * cap` consecutive keys from `s` on that land in slot `j`. */
  function Landing(cap: nat, s: U64, j: nat): set<nat>
    requires cap >= 1
  {
    set d: nat | d < 2 * cap && SlotOf(cap, s, d) == j
  }

  function SlotOf(cap: nat, s: U64, d: nat): nat
    requires cap >= 1
  {
    HashOf(cap, (s + d) % W)
  }

  lemma LandsWhen(cap: nat, s: U64, j: nat, d: nat)
    requires IsCapacity(cap) && 2 * cap <= W && j < cap && d < 2 * cap
    ensures SlotOf(cap, s, d) == j <==> d == Solve(2 * cap, s, 2 * j) || d == Solve(2 * cap, s, 2 * j + 1)
  {
    var n := 2 * cap;
    var q := TwiceDividesWord(cap);
    var even, odd := Solve(n, s, 2 * j), Solve(n, s, 2 * j + 1);
    HashIsHalf(cap, s + d);
    SolveSolves(n, q, s, 2 * j);
    SolveSolves(n, q, s, 2 * j + 1);
    var r := (s + d) * MULTIPLIER % n;
    assert r / 2 == j <==> r == 2 * j || r == 2 * j + 1;
    if r == 2 * j {
      SolutionUnique(n, q, s, d, even);
    } else if r == 2 * j + 1 {
      SolutionUnique(n, q, s, d, odd);
    }
  }

  /** Any `2 * cap` consecutive keys, counted modulo 2^64, land exactly twice in each slot. */
  lemma ConsecutiveKeysSpreadEvenly(cap: nat, s: U64, j: nat)
    requires IsCapacity(cap) && 2 * cap <= W && j < cap
    ensures |Landing(cap, s, j)| == 2
  {
    var n := 2 * cap;
    var q := TwiceDividesWord(cap);
    var even, odd := Solve(n, s, 2 * j), Solve(n, s, 2 * j + 1);
    SolveSolves(n, q, s, 2 * j);
    SolveSolves(n, q, s, 2 * j + 1);
    forall d: nat | d < n ensures d in Landing(cap, s, j) <==> d == even || d == odd {
      LandsWhen(cap, s, j, d);
    }
    assert Landing(cap, s, j) == {even, odd};
  }
}
