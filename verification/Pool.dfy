/** The fixed-capacity object pool with its free list threaded through the free slots. Addresses of
    slots are their positions. */
module Pool {
  import opened Options

  /** A slot is either a link of the free list or holds an object. */
  datatype Slot<T> = Free(next: Option<nat>) | Live(value: T)

  datatype Store<T> = Store(slots: seq<Slot<T>>, free: Option<nat>)

  // ------------------------------------------------------------- the operations

  function FreshStore<T>(n: nat): Store<T> {
    Store(seq(n, (i: nat) => if i + 1 < n then Free(Some(i + 1)) else Free(None)), Some(0))
  }

  /** The address handed out, if any, and the store afterwards. */
  function AcquireNow<T>(s: Store<T>, value: T): (Option<nat>, Store<T>)
    requires s.free.Some? ==> s.free.value < |s.slots| && s.slots[s.free.value].Free?
  {
    if s.free.None? then (None, s) else
    var p := s.free.value;
    (Some(p), Store(s.slots[p := Live(value)], s.slots[p].next))
  }

  /** A null address is ignored. */
  function ReleaseNow<T>(s: Store<T>, p: Option<nat>): Store<T>
    requires p.Some? ==> p.value < |s.slots|
  {
    if p.None? then s else Store(s.slots[p.value := Free(s.free)], p)
  }

  predicate IsLive<T>(s: Store<T>, p: nat) {
    p < |s.slots| && s.slots[p].Live?
  }

  // ------------------------------------------------------------- the free chain

  function Nth(chain: seq<nat>, i: nat): Option<nat> {
    if i < |chain| then Some(chain[i]) else None
  }

  predicate Distinct(chain: seq<nat>) {
    forall i, j :: 0 <= i < j < |chain| ==> chain[i] != chain[j]
  }

  /** Following the links from `free` visits exactly the slots of `chain`, none twice, and ends; all
      other slots are live. */
  ghost predicate Threads<T>(s: Store<T>, chain: seq<nat>) {
    && Distinct(chain)
    && s.free == Nth(chain, 0)
    && Linked(s.slots, chain)
    && RestLive(s.slots, chain)
  }

  predicate Linked<T(==)>(slots: seq<Slot<T>>, chain: seq<nat>) {
    forall i :: 0 <= i < |chain| ==> chain[i] < |slots| && slots[chain[i]] == Free(Nth(chain, i + 1))
  }

  predicate RestLive<T>(slots: seq<Slot<T>>, chain: seq<nat>) {
    forall p :: 0 <= p < |slots| ==> p in chain || slots[p].Live?
  }

  function Ascending(n: nat): seq<nat> {
    seq(n, (i: nat) => i)
  }

  lemma FreshIsThreaded<T>(n: nat)
    requires n >= 1
    ensures Threads(FreshStore<T>(n), Ascending(n))
  {
    forall p: nat | p < n ensures p in Ascending(n) {
      assert Ascending(n)[p] == p;
    }
  }

  lemma HeadGoesLive<T>(slots: seq<Slot<T>>, chain: seq<nat>, value: T)
    requires Distinct(chain) && Linked(slots, chain) && RestLive(slots, chain) && chain != []
    ensures Linked(slots[chain[0] := Live(value)], chain[1..])
    ensures RestLive(slots[chain[0] := Live(value)], chain[1..])
  {
    var slots', rest := slots[chain[0] := Live(value)], chain[1..];
    forall i | 0 <= i < |rest| ensures rest[i] < |slots'| && slots'[rest[i]] == Free(Nth(rest, i + 1)) {
      assert rest[i] == chain[i + 1];
    }
    forall p | 0 <= p < |slots'| ensures p in rest || slots'[p].Live? {
      assert p in chain && p != chain[0] ==> p in rest;
    }
  }

  /** Acquiring takes the head of the chain. */
  lemma AcquireTakesHead<T>(s: Store<T>, chain: seq<nat>, value: T)
    requires Threads(s, chain)
    ensures AcquireNow(s, value).0 == Nth(chain, 0)
    ensures Threads(AcquireNow(s, value).1, if chain == [] then [] else chain[1..])
  {
    if chain != [] {
      HeadGoesLive(s.slots, chain, value);
    }
  }

  /** Releasing a live slot puts it in front. */
  lemma ReleasePutsInFront<T>(s: Store<T>, chain: seq<nat>, p: nat)
    requires Threads(s, chain) && IsLive(s, p)
    ensures Threads(ReleaseNow(s, Some(p)), [p] + chain)
  {
    assert p !in chain;
  }

  // ------------------------------------------------------------- free and live slots make up the pool

  function LiveSlots<T>(s: Store<T>): set<nat> {
    set p: nat | p < |s.slots| && IsLive(s, p)
  }

  function AllSlots(n: nat): (all: set<nat>)
    ensures forall p: nat :: p in all <==> p < n
  {
    if n == 0 then {} else AllSlots(n - 1) + {n - 1}
  }

  lemma {:induction false} SlotCount(n: nat)
    ensures |AllSlots(n)| == n
  {
    if n > 0 {
      SlotCount(n - 1);
    }
  }

  function Members(chain: seq<nat>): set<nat> {
    set p | p in chain
  }

  lemma {:induction false} MemberCount(chain: seq<nat>)
    requires Distinct(chain)
    ensures |Members(chain)| == |chain|
  {
    if chain != [] {
      MemberCount(chain[1..]);
      assert Members(chain) == Members(chain[1..]) + {chain[0]};
    }
  }

  /** The chain and the live slots partition the pool. */
  lemma ChainAndLivePartition<T>(s: Store<T>, chain: seq<nat>)
    requires Threads(s, chain)
    ensures Members(chain) !! LiveSlots(s)
    ensures Members(chain) + LiveSlots(s) == AllSlots(|s.slots|)
    ensures |chain| + |LiveSlots(s)| == |s.slots|
  {
    forall p | p in Members(chain) ensures p !in LiveSlots(s) && p < |s.slots| {
      var i :| 0 <= i < |chain| && chain[i] == p;
    }
    assert Members(chain) + LiveSlots(s) == AllSlots(|s.slots|);
    SlotCount(|s.slots|);
    MemberCount(chain);
  }

  // ------------------------------------------------------------- every legal run

  datatype Op<T> = Acquire(value: T) | Release(p: Option<nat>)

  /** Only live objects, or null, are released. */
  predicate Legal<T>(s: Store<T>, op: Op<T>) {
    && (s.free.Some? ==> s.free.value < |s.slots| && s.slots[s.free.value].Free?)
    && (op.Release? && op.p.Some? ==> IsLive(s, op.p.value))
  }

  function Apply<T>(s: Store<T>, op: Op<T>): Store<T>
    requires Legal(s, op)
  {
    match op
    case Acquire(value) => AcquireNow(s, value).1
    case Release(p) => ReleaseNow(s, p)
  }

  /** How the chain moves: a stack. */
  function Moved<T>(chain: seq<nat>, op: Op<T>): seq<nat> {
    match op
    case Acquire(_) => if chain == [] then [] else chain[1..]
    case Release(p) => if p.None? then chain else [p.value] + chain
  }

  function ChainAfter<T>(n: nat, ops: seq<Op<T>>): seq<nat> {
    if ops == [] then Ascending(n) else Moved(ChainAfter(n, ops[..|ops| - 1]), ops[|ops| - 1])
  }

  predicate Path<T(==)>(n: nat, states: seq<Store<T>>, ops: seq<Op<T>>) {
    && |states| == |ops| + 1 && states[0] == FreshStore(n)
    && forall i :: 0 <= i < |ops| ==> Legal(states[i], ops[i]) && states[i + 1] == Apply(states[i], ops[i])
  }

  lemma {:induction false} ThreadsAlong<T>(n: nat, states: seq<Store<T>>, ops: seq<Op<T>>, k: nat)
    requires n >= 1 && Path(n, states, ops) && k <= |ops|
    ensures Threads(states[k], ChainAfter(n, ops[..k])) && |states[k].slots| == n
  {
    if k == 0 {
      FreshIsThreaded<T>(n);
    } else {
      ThreadsAlong(n, states, ops, k - 1);
      var s, op, chain := states[k - 1], ops[k - 1], ChainAfter(n, ops[..k - 1]);
      assert ops[..k][..k - 1] == ops[..k - 1];
      assert Legal(s, op);
      match op
      case Acquire(value) => AcquireTakesHead(s, chain, value);
      case Release(p) =>
        if p.Some? {
          ReleasePutsInFront(s, chain, p.value);
        }
    }
  }

  /** At every point of every legal run: the free slots form one acyclic chain that behaves as a stack
      and partitions the pool with the live slots; `acquire` hands out a slot that is not live, and
      nothing exactly when all slots are live. */
  lemma PoolAlways<T>(n: nat, states: seq<Store<T>>, ops: seq<Op<T>>, k: nat, value: T)
    requires n >= 1 && Path(n, states, ops) && k <= |ops|
    ensures var s, chain := states[k], ChainAfter(n, ops[..k]);
            && Threads(s, chain)
            && Members(chain) !! LiveSlots(s) && Members(chain) + LiveSlots(s) == AllSlots(n)
            && AcquireNow(s, value).0 == Nth(chain, 0)
            && (AcquireNow(s, value).0.None? <==> |LiveSlots(s)| == n)
            && (AcquireNow(s, value).0.Some? ==> AcquireNow(s, value).0.value !in LiveSlots(s))
  {
    ThreadsAlong(n, states, ops, k);
    var s, chain := states[k], ChainAfter(n, ops[..k]);
    ChainAndLivePartition(s, chain);
    AcquireTakesHead(s, chain, value);
    if chain != [] {
      assert chain[0] in Members(chain);
    }
  }

  /** What was released last is handed out first. */
  lemma LastReleasedFirstAcquired<T>(s: Store<T>, p: nat, value: T)
    requires p < |s.slots|
    ensures AcquireNow(ReleaseNow(s, Some(p)), value) == (Some(p), Store(s.slots[p := Live(value)], s.free))
  {
    assert s.slots[p := Free(s.free)][p := Live(value)] == s.slots[p := Live(value)];
  }

  /** The strategy's use of the pool: one object at a time, given back before the next. */
  function StrategyLoop<T>(n: nat, values: seq<T>): Store<T>
    requires n >= 1
    ensures StrategyLoop(n, values) == FreshStore(n)
  {
    if values == [] then FreshStore(n) else
    var s := StrategyLoop(n, values[..|values| - 1]);
    var (p, s') := AcquireNow(s, values[|values| - 1]);
    assert s'.slots[0 := Free(s'.free)] == s.slots;
    ReleaseNow(s', p)
  }

  /** It never finds the pool drained, and always gets the same slot. */
  lemma StrategyNeverDrains<T>(n: nat, values: seq<T>, next: T)
    requires n >= 1
    ensures var s := StrategyLoop(n, values);
            s.free.Some? && s.free.value < |s.slots| && s.slots[s.free.value].Free? && AcquireNow(s, next).0 == Some(0)
  {
    var s := StrategyLoop(n, values);
  }

  // ------------------------------------------------------------- the pool

  class ObjectPool<T> {
    const slots: array<Slot<T>>
    var free: Option<nat>
    ghost var chain: seq<nat>

    ghost function AsStore(): Store<T>
      reads this, slots
    {
      Store(slots[..], free)
    }

    ghost predicate Valid()
      reads this, slots
    {
      Threads(AsStore(), chain)
    }

    constructor (n: nat)
      requires n >= 1
      ensures Valid() && fresh(slots) && AsStore() == FreshStore(n)
    {
      slots := new Slot<T>[n](_ => Free(None));
      free := None;
      new;
      for i := 0 to n - 1
        invariant slots.Length == n && slots[n - 1] == Free(None)
        invariant forall j :: 0 <= j < i ==> slots[j] == Free(Some(j + 1))
      {
        slots[i] := Free(Some(i + 1));
      }
      slots[n - 1] := Free(None);
      free := Some(0);
      chain := Ascending(n);
      assert AsStore() == FreshStore(n);
      FreshIsThreaded<T>(n);
    }

    method Acquire(value: T) returns (p: Option<nat>)
      requires Valid()
      modifies this, slots
      ensures Valid() && chain == if old(chain) == [] then [] else old(chain)[1..]
      ensures (p, AsStore()) == AcquireNow(old(AsStore()), value)
    {
      AcquireTakesHead(AsStore(), chain, value);
      if free.None? {
        return None;
      }
      var s := free.value;
      free := slots[s].next;
      slots[s] := Live(value);
      chain := chain[1..];
      p := Some(s);
    }

    method Release(p: Option<nat>)
      requires Valid() && (p.Some? ==> IsLive(AsStore(), p.value))
      modifies this, slots
      ensures Valid() && chain == if p.None? then old(chain) else [p.value] + old(chain)
      ensures AsStore() == ReleaseNow(old(AsStore()), p)
    {
      if p.None? {
        return;
      }
      ReleasePutsInFront(AsStore(), chain, p.value);
      slots[p.value] := Free(free);
      free := p;
      chain := [p.value] + chain;
    }

    /** Drained exactly when every slot is live. */
    method Empty() returns (e: bool)
      requires Valid()
      ensures e <==> |LiveSlots(AsStore())| == slots.Length
    {
      ChainAndLivePartition(AsStore(), chain);
      e := free.None?;
    }
  }
}
