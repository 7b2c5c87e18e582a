/** The bump allocator, in the 64-bit address arithmetic of the program and as the arena it is meant to be. */
module Bump {
  import opened Bits
  import opened Options

  /** `off` of the `size` bytes from `base` on are taken. */
  datatype Arena = Arena(base: U64, size: U64, off: U64)

  /** The arena lies inside the address space. */
  predicate Valid(a: Arena) {
    a.off <= a.size && a.base + a.size <= W
  }

  ghost predicate IsAlignment(align: nat) {
    IsCapacity(align) && align < W
  }

  // ------------------------------------------------------------- rounding up

  /** The next multiple of `align`. */
  function RoundUp(x: nat, align: nat): nat
    requires align >= 1
  {
    if Rem(x, align) == 0 then x else x + (align - Rem(x, align))
  }

  lemma {:induction false} RoundUpIsLeast(x: nat, align: nat)
    requires align >= 1
    ensures RoundUp(x, align) % align == 0 && x <= RoundUp(x, align) < x + align
  {
    RemIsMod(x, align);
    var q, m := x / align, x % align;
    if m != 0 {
      assert RoundUp(x, align) == align * (q + 1) + 0 by {
        assert x == align * q + m;
        assert align * (q + 1) == align * q + align;
      }
      RemainderUnique(RoundUp(x, align), align, q + 1, 0);
    }
  }

  /** Adding `align - 1` and dropping the remainder rounds up. */
  lemma {:induction false} DropAfterAdd(x: nat, align: nat)
    requires align >= 1
    ensures (x + (align - 1)) - (x + (align - 1)) % align == RoundUp(x, align)
  {
    RemIsMod(x, align);
    var q, m := x / align, x % align;
    assert x == align * q + m;
    if m == 0 {
      RemainderUnique(x + (align - 1), align, q, align - 1);
    } else {
      assert align * (q + 1) == align * q + align;
      RemainderUnique(x + (align - 1), align, q + 1, m - 1);
    }
  }

  /** `(x + (align - 1)) & ~(align - 1)`, in words. */
  function MaskedRoundUp(x: U64, align: nat): (r: nat)
    requires 1 <= align < W
  {
    BitAnd((x + (align - 1)) % W, W - align)
  }

  lemma ClearsRemainder(y: nat, align: nat)
    requires IsAlignment(align) && y < W
    ensures align >= 1 && BitAnd(y, W - align) == y - y % align
  {
    var k: nat :| align == Pow2(k);
    Pow2Word();
    if k > 64 {
      Pow2Monotone(64, k);
    }
    ClearLowBits(y, k, 64, align, W);
  }

  /** A sum beyond the word size leaves exactly the word size after rounding. */
  lemma {:induction false} RoundsToWord(x: U64, align: nat, q: nat)
    requires align >= 1 && align * q == W && x + (align - 1) >= W
    ensures RoundUp(x, align) == W && (x + (align - 1) - W) % align == x + (align - 1) - W
  {
    var y := x + (align - 1);
    DropAfterAdd(x, align);
    RemainderUnique(y, align, q, y - W);
    RemainderUnique(y - W, align, 0, y - W);
  }

  lemma ReduceOnce(y: nat)
    requires y < 2 * W
    ensures y % W == if y < W then y else y - W
  {
  }

  lemma MaskInRange(x: U64, align: nat)
    requires IsAlignment(align) && align >= 1 && x + (align - 1) < W
    ensures MaskedRoundUp(x, align) == RoundUp(x, align) < W
  {
    var y := x + (align - 1);
    ReduceOnce(y);
    ClearsRemainder(y, align);
    DropAfterAdd(x, align);
  }

  lemma MaskBeyond(x: U64, align: nat)
    requires IsAlignment(align) && align >= 1 && x + (align - 1) >= W
    ensures MaskedRoundUp(x, align) == 0 && RoundUp(x, align) == W
  {
    var y := x + (align - 1);
    var q := CapacityDividesWord(align);
    ReduceOnce(y);
    RoundsToWord(x, align, q);
    ClearsRemainder(y - W, align);
  }

  /** The mask expression rounds up, for every power-of-two alignment; only when the next multiple is
      the word size itself does it come out as zero. */
  lemma MaskRoundsUp(x: U64, align: nat)
    requires IsAlignment(align)
    ensures align >= 1 && RoundUp(x, align) <= W
    ensures MaskedRoundUp(x, align) == if RoundUp(x, align) == W then 0 else RoundUp(x, align)
  {
    if x + (align - 1) < W {
      MaskInRange(x, align);
    } else {
      MaskBeyond(x, align);
    }
  }

  // ------------------------------------------------------------- allocation

  /** The address handed out, if any, and the arena afterwards, as the program computes them. */
  function AllocWord(a: Arena, n: U64, align: nat): (Option<nat>, Arena)
    requires Valid(a) && 1 <= align < W
  {
    AllocAt(a, n, MaskedRoundUp((a.base + a.off) % W, align))
  }

  /** The same, once the aligned address is known. */
  function AllocAt(a: Arena, n: U64, aligned: U64): (Option<nat>, Arena)
    requires Valid(a)
  {
    Granted(a, (Minus64(aligned, a.base) + n) % W, aligned)
  }

  /** The block at `at` with its end at offset `end`, if that is inside the arena. */
  function Granted(a: Arena, end: nat, at: nat): (Option<nat>, Arena)
    requires Valid(a)
  {
    if end > a.size then (None, a) else (Some(at), a.(off := end))
  }

  /** Bytes from the base to the end of an aligned block of `n` bytes. */
  function EndOf(a: Arena, n: nat, align: nat): nat
    requires align >= 1
  {
    RoundUp(a.base + a.off, align) - a.base + n
  }

  /** What it is meant to be: the next aligned block if it ends inside the arena. */
  function AllocSpec(a: Arena, n: U64, align: nat): (Option<nat>, Arena)
    requires Valid(a) && align >= 1
  {
    Granted(a, EndOf(a, n, align), RoundUp(a.base + a.off, align))
  }

  /** The request is so large that its end wraps around to a place inside the arena. */
  predicate WrapsInside(a: Arena, n: U64, align: nat)
    requires align >= 1
  {
    W <= EndOf(a, n, align) <= W + a.size
  }

  /** The block asked for is the empty one at the very top of the address space, whose address wraps to zero. */
  predicate AtTop(a: Arena, n: U64, align: nat)
    requires align >= 1
  {
    RoundUp(a.base + a.off, align) == W && EndOf(a, n, align) <= a.size
  }

  lemma RoundUpWord(align: nat)
    requires IsAlignment(align)
    ensures align >= 1 && RoundUp(W, align) == W
  {
    var q := CapacityDividesWord(align);
    RemIsMod(W, align);
    RemainderUnique(W, align, q, 0);
  }

  /** The next multiple, as a word, of an address that may be the end of the address space. */
  lemma NextMultiple(x: nat, align: nat)
    requires IsAlignment(align) && x <= W
    ensures align >= 1 && x <= RoundUp(x, align) <= W
    ensures MaskedRoundUp(x % W, align) == if RoundUp(x, align) == W then 0 else RoundUp(x, align)
  {
    if x < W {
      ReduceOnce(x);
      MaskRoundsUp(x, align);
      RoundUpIsLeast(x, align);
    } else {
      ReduceOnce(W);
      RoundUpWord(align);
      MaskRoundsUp(0, align);
    }
  }

  lemma WrapsOnce(aligned: U64, r: nat, base: U64, n: U64)
    requires base <= r <= W && aligned == if r == W then 0 else r
    ensures var e := r - base + n;
            (Minus64(aligned, base) + n) % W == if e < W then e else e - W
  {
  }

  /** The decision in words against the decision on numbers, once rounding is done. */
  lemma SameDecision(a: Arena, n: U64, r: nat, aligned: U64)
    requires Valid(a) && a.base <= r <= W && aligned == (if r == W then 0 else r)
    ensures AllocAt(a, n, aligned) == Granted(a, r - a.base + n, r) <==>
            !(W <= r - a.base + n <= W + a.size) && !(r == W && r - a.base + n <= a.size)
  {
    WrapsOnce(aligned, r, a.base, n);
  }

  /** The program allocates as it is meant to exactly when the request neither wraps into the arena nor
      is for the empty block at the top of the address space. */
  lemma AllocIsExact(a: Arena, n: U64, align: nat)
    requires Valid(a) && IsAlignment(align)
    ensures align >= 1
    ensures AllocWord(a, n, align) == AllocSpec(a, n, align) <==> !WrapsInside(a, n, align) && !AtTop(a, n, align)
  {
    var cur := a.base + a.off;
    NextMultiple(cur, align);
    SameDecision(a, n, RoundUp(cur, align), MaskedRoundUp(cur % W, align));
  }

  /** A request that wraps is granted, and the offset moves back over blocks already handed out. */
  lemma WrappingRequestReusesMemory()
    ensures var a := Arena(4096, 4096, 16);
            AllocWord(a, W - 16, 16) == (Some(4112), Arena(4096, 4096, 0))
    ensures AllocWord(Arena(4096, 4096, 0), 16, 16) == (Some(4096), Arena(4096, 4096, 16))
  {
    assert Pow2(4) == 16;
    assert IsAlignment(16);
    RemIsMod(4112, 16);
    RemIsMod(4096, 16);
    NextMultiple(4112, 16);
    NextMultiple(4096, 16);
  }

  // ------------------------------------------------------------- every run between resets

  datatype Request = Request(n: U64, align: nat)

  datatype Block = Block(at: nat, len: nat, align: nat)

  ghost predicate Reasonable(a: Arena, r: Request) {
    && Valid(a) && IsAlignment(r.align) && r.align >= 1
    && !WrapsInside(a, r.n, r.align) && !AtTop(a, r.n, r.align)
  }

  /** A run of requests since the last reset, the arenas between them, and the blocks granted. */
  ghost predicate Path(arenas: seq<Arena>, requests: seq<Request>) {
    && |arenas| == |requests| + 1 && arenas[0].off == 0
    && forall i :: 0 <= i < |requests| ==>
                   && Reasonable(arenas[i], requests[i])
                   && arenas[i + 1] == AllocWord(arenas[i], requests[i].n, requests[i].align).1
  }

  ghost function Blocks(arenas: seq<Arena>, requests: seq<Request>): seq<Block>
    requires Path(arenas, requests)
    decreases |requests|
  {
    if requests == [] then [] else
    var k := |requests| - 1;
    var before := Blocks(arenas[..k + 1], requests[..k]);
    var p := AllocWord(arenas[k], requests[k].n, requests[k].align).0;
    if p.None? then before else before + [Block(p.value, requests[k].n, requests[k].align)]
  }

  /** A block inside the taken part of the arena, at a multiple of its alignment. */
  predicate Placed(a: Arena, b: Block) {
    b.align >= 1 && b.at % b.align == 0 && a.base <= b.at && b.at + b.len <= a.base + a.off
  }

  predicate AllPlaced(a: Arena, blocks: seq<Block>) {
    forall i :: 0 <= i < |blocks| ==> Placed(a, blocks[i])
  }

  predicate Disjoint(b: Block, c: Block) {
    b.at + b.len <= c.at || c.at + c.len <= b.at
  }

  predicate AllDisjoint(blocks: seq<Block>) {
    forall i, j :: 0 <= i < j < |blocks| ==> Disjoint(blocks[i], blocks[j])
  }

  /** One request: refused without any change, or a new block behind everything taken before. */
  lemma AllocStep(a: Arena, r: Request)
    requires Reasonable(a, r)
    ensures var (p, a') := AllocWord(a, r.n, r.align);
            && Valid(a') && a'.base == a.base && a'.size == a.size
            && (p.None? ==> a' == a && EndOf(a, r.n, r.align) > a.size)
            && (p.Some? ==> Placed(a', Block(p.value, r.n, r.align)) && a.base + a.off <= p.value && a.off <= a'.off)
            && (p.Some? ==> a'.base + a'.off == p.value + r.n && p.value < a.base + a.off + r.align)
  {
    AllocIsExact(a, r.n, r.align);
    RoundUpIsLeast(a.base + a.off, r.align);
  }

  lemma MorePlaced(a: Arena, a': Arena, blocks: seq<Block>, b: Block)
    requires AllPlaced(a, blocks) && AllDisjoint(blocks)
    requires a'.base == a.base && a.off <= a'.off && Placed(a', b) && a.base + a.off <= b.at
    ensures AllPlaced(a', blocks + [b]) && AllDisjoint(blocks + [b])
  {
    forall i | 0 <= i < |blocks| ensures Placed(a', blocks[i]) && Disjoint(blocks[i], b) {
      assert Placed(a, blocks[i]);
    }
  }

  lemma PathPrefix(arenas: seq<Arena>, requests: seq<Request>, k: nat)
    requires Path(arenas, requests) && k <= |requests|
    ensures Path(arenas[..k + 1], requests[..k])
  {
  }

  /** Between resets, all blocks granted are inside the arena, aligned, and pairwise disjoint. */
  lemma {:induction false} BlocksNeverOverlap(arenas: seq<Arena>, requests: seq<Request>)
    requires Path(arenas, requests) && Valid(arenas[0])
    ensures var a := arenas[|requests|];
            && Valid(a) && a.base == arenas[0].base && a.size == arenas[0].size
            && AllPlaced(a, Blocks(arenas, requests)) && AllDisjoint(Blocks(arenas, requests))
    decreases |requests|
  {
    if requests != [] {
      var k := |requests| - 1;
      PathPrefix(arenas, requests, k);
      BlocksNeverOverlap(arenas[..k + 1], requests[..k]);
      var a, r := arenas[k], requests[k];
      assert Reasonable(a, r) && arenas[k + 1] == AllocWord(a, r.n, r.align).1;
      AllocStep(a, r);
      var p := AllocWord(a, r.n, r.align).0;
      if p.Some? {
        MorePlaced(a, arenas[k + 1], Blocks(arenas[..k + 1], requests[..k]), Block(p.value, r.n, r.align));
      }
    }
  }

  // ------------------------------------------------------------- the allocator

  class BumpAllocator {
    const base: U64
    const size: U64
    var off: U64

    function AsArena(): Arena
      reads this
    {
      Arena(base, size, off)
    }

    constructor (base: U64, size: U64)
      requires base + size <= W
      ensures AsArena() == Arena(base, size, 0) && Valid(AsArena())
    {
      this.base, this.size, this.off := base, size, 0;
    }

    /** The next aligned block, or nothing and no change when it would not end inside the arena. */
    method Alloc(n: U64, align: U64) returns (p: Option<nat>)
      requires Valid(AsArena()) && IsAlignment(align) && align >= 1
      modifies this
      ensures Valid(AsArena()) && (p, AsArena()) == AllocWord(old(AsArena()), n, align)
      ensures !WrapsInside(old(AsArena()), n, align) && !AtTop(old(AsArena()), n, align) ==>
                (p, AsArena()) == AllocSpec(old(AsArena()), n, align)
    {
      ghost var before := AsArena();
      var cur := (base + off) % W;
      var aligned := MaskedRoundUp(cur, align);
      p := Bump(n, aligned);
      AllocIsExact(before, n, align);
    }

    /** Takes `n` bytes from an aligned address on. */
    method Bump(n: U64, aligned: U64) returns (p: Option<nat>)
      requires Valid(AsArena())
      modifies this
      ensures Valid(AsArena()) && (p, AsArena()) == AllocAt(old(AsArena()), n, aligned)
    {
      var newOff := (Minus64(aligned, base) + n) % W;
      if newOff > size {
        return None;
      }
      off := newOff;
      p := Some(aligned);
    }

    method Reset()
      requires Valid(AsArena())
      modifies this
      ensures Valid(AsArena()) && AsArena() == old(AsArena()).(off := 0)
    {
      off := 0;
    }

    method Used() returns (n: nat)
      requires Valid(AsArena())
      ensures n == AsArena().off <= size
    {
      n := off;
    }
  }
}
