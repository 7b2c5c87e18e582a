/** The SPSC ring as a machine of single memory accesses.

    One program, two arithmetics: `Word` uses 64-bit wrapping counters, equality tests and masked
    slots; `Unbounded` uses natural-number counters, order tests and slots modulo the capacity.

    Memory model. Each atomic index keeps its whole modification order. An acquire load may return
    any store that is not older than the last one the same thread has read. A release store carries
    the number of slot accesses its thread has made so far, and an acquire load of that store makes
    the reader aware of them. A slot access that is not ordered after the other thread's last access
    of that slot is a data race, and a race yields arbitrary contents. */
module Ring {
  import opened Bits

  datatype Arithmetic = Word | Unbounded

  /** A store to an atomic index, with the slot accesses that happen before it. */
  datatype Stamped = Stamped(value: nat, view: nat)

  /** Where the producer stands inside `try_push`. */
  datatype ProducerPc<T> =
    | PIdle
    | PRefresh(t: nat, item: T)
    | PWrite(t: nat, item: T)
    | PStore(t: nat, item: T)

  /** Where the consumer stands inside `try_pop`. */
  datatype ConsumerPc<T> =
    | CIdle
    | CRefresh(h: nat)
    | CRead(h: nat)
    | CStore(h: nat, value: T)

  /** What a step shows to the caller. A failed call names the store its refresh has read. */
  datatype Event<T> =
    | Tau
    | Pushed(item: T)
    | PushFailed(seen: nat)
    | Popped(value: T)
    | PopFailed(seen: nat)

  datatype State<T> = State(
    tails: seq<Stamped>,
    heads: seq<Stamped>,
    headCache: nat,
    headSeen: nat,
    tailCache: nat,
    tailSeen: nat,
    buf: seq<T>,
    slotWrites: nat,
    slotReads: nat,
    lastWrite: seq<nat>,
    lastRead: seq<nat>,
    producerView: nat,
    consumerView: nat,
    pp: ProducerPc<T>,
    cp: ConsumerPc<T>)

  function Max(a: nat, b: nat): nat {
    if a < b then b else a
  }

  // ------------------------------------------------------------- arithmetic

  function Next(w: Arithmetic, x: nat): nat {
    if w.Word? then (if x + 1 == W then 0 else x + 1) else x + 1
  }

  function Slot(w: Arithmetic, cap: nat, x: nat): (k: nat)
    requires cap >= 1
    ensures k < cap
  {
    if w.Word? then BitAnd(x, cap - 1) else Rem(x, cap)
  }

  predicate Full(w: Arithmetic, cap: nat, t: nat, h: nat) {
    if w.Word? then (if t >= h then t - h else t + W - h) == cap else t - h >= cap
  }

  predicate Empty(w: Arithmetic, h: nat, t: nat) {
    if w.Word? then h == t else h >= t
  }

  // ------------------------------------------------------------- steps

  /** One memory access of one thread, with everything the scheduler and the memory may choose:
      the item of a call, the store a refresh reads, the outcome of a (possibly racing) slot access. */
  datatype Action<T> =
    | PushCall(item: T)
    | PushRefresh(seen: nat)
    | PushWrite(buf: seq<T>)
    | PushStore
    | PopCall
    | PopRefresh(seen: nat)
    | PopRead(value: T)
    | PopStore

  predicate Shape<T>(cap: nat, s: State<T>) {
    && cap >= 1
    && |s.buf| == |s.lastWrite| == |s.lastRead| == cap
    && s.headSeen < |s.heads|
    && s.tailSeen < |s.tails|
  }

  predicate Init<T(==)>(cap: nat, s: State<T>) {
    && Shape(cap, s)
    && s == State([Stamped(0, 0)], [Stamped(0, 0)], 0, 0, 0, 0, s.buf, 0, 0,
                  seq(cap, i => 0), seq(cap, i => 0), 0, 0, PIdle, CIdle)
  }

  function OwnTail<T>(s: State<T>): nat
    requires s.tails != []
  {
    s.tails[|s.tails| - 1].value
  }

  function OwnHead<T>(s: State<T>): nat
    requires s.heads != []
  {
    s.heads[|s.heads| - 1].value
  }

  /** The producer knows that the consumer's last read of the slot happened before. */
  predicate WriteIsOrdered<T>(w: Arithmetic, cap: nat, s: State<T>)
    requires Shape(cap, s) && s.pp.PWrite?
  {
    s.lastRead[Slot(w, cap, s.pp.t)] <= s.producerView
  }

  /** The consumer knows that the producer's last write of the slot happened before. */
  predicate ReadIsOrdered<T>(w: Arithmetic, cap: nat, s: State<T>)
    requires Shape(cap, s) && s.cp.CRead?
  {
    s.lastWrite[Slot(w, cap, s.cp.h)] <= s.consumerView
  }

  predicate Enabled<T(==)>(w: Arithmetic, cap: nat, s: State<T>, a: Action<T>) {
    && Shape(cap, s)
    && match a
       case PushCall(_) => s.pp.PIdle?
       case PushRefresh(seen) => s.pp.PRefresh? && s.headSeen <= seen < |s.heads|
       case PushWrite(buf) =>
         && s.pp.PWrite?
         && |buf| == cap
         && (WriteIsOrdered(w, cap, s) ==> buf == s.buf[Slot(w, cap, s.pp.t) := s.pp.item])
       case PushStore => s.pp.PStore?
       case PopCall => s.cp.CIdle?
       case PopRefresh(seen) => s.cp.CRefresh? && s.tailSeen <= seen < |s.tails|
       case PopRead(value) =>
         && s.cp.CRead?
         && (ReadIsOrdered(w, cap, s) ==> value == s.buf[Slot(w, cap, s.cp.h)])
       case PopStore => s.cp.CStore?
  }

  function Apply<T>(w: Arithmetic, cap: nat, s: State<T>, a: Action<T>): State<T>
    requires Enabled(w, cap, s, a)
  {
    match a
    case PushCall(item) =>
      var t := OwnTail(s);
      s.(pp := if Full(w, cap, t, s.headCache) then PRefresh(t, item) else PWrite(t, item))
    case PushRefresh(seen) =>
      var m := s.heads[seen];
      s.(headSeen := seen, headCache := m.value, producerView := Max(s.producerView, m.view),
         pp := if Full(w, cap, s.pp.t, m.value) then PIdle else PWrite(s.pp.t, s.pp.item))
    case PushWrite(buf) =>
      s.(buf := buf, slotWrites := s.slotWrites + 1,
         lastWrite := s.lastWrite[Slot(w, cap, s.pp.t) := s.slotWrites + 1], pp := PStore(s.pp.t, s.pp.item))
    case PushStore =>
      s.(tails := s.tails + [Stamped(Next(w, s.pp.t), s.slotWrites)], pp := PIdle)
    case PopCall =>
      var h := OwnHead(s);
      s.(cp := if Empty(w, h, s.tailCache) then CRefresh(h) else CRead(h))
    case PopRefresh(seen) =>
      var m := s.tails[seen];
      s.(tailSeen := seen, tailCache := m.value, consumerView := Max(s.consumerView, m.view),
         cp := if Empty(w, s.cp.h, m.value) then CIdle else CRead(s.cp.h))
    case PopRead(value) =>
      s.(slotReads := s.slotReads + 1, lastRead := s.lastRead[Slot(w, cap, s.cp.h) := s.slotReads + 1],
         cp := CStore(s.cp.h, value))
    case PopStore =>
      s.(heads := s.heads + [Stamped(Next(w, s.cp.h), s.slotReads)], cp := CIdle)
  }

  /** What the step shows to the caller of `try_push` or `try_pop`. */
  function EventOf<T>(w: Arithmetic, cap: nat, s: State<T>, a: Action<T>): Event<T>
    requires Enabled(w, cap, s, a)
  {
    match a
    case PushStore => Pushed(s.pp.item)
    case PushRefresh(seen) => if Full(w, cap, s.pp.t, s.heads[seen].value) then PushFailed(seen) else Tau
    case PopStore => Popped(s.cp.value)
    case PopRefresh(seen) => if Empty(w, s.cp.h, s.tails[seen].value) then PopFailed(seen) else Tau
    case _ => Tau
  }

  predicate Step<T(==)>(w: Arithmetic, cap: nat, s: State<T>, a: Action<T>, ev: Event<T>, s': State<T>) {
    && Enabled(w, cap, s, a)
    && ev == EventOf(w, cap, s, a)
    && s' == Apply(w, cap, s, a)
  }

  predicate ByProducer<T>(a: Action<T>) {
    a.PushCall? || a.PushRefresh? || a.PushWrite? || a.PushStore?
  }

  /** A run: any interleaving of the two threads, any items, any permitted load results. */
  predicate Path<T(==)>(w: Arithmetic, cap: nat, states: seq<State<T>>, actions: seq<Action<T>>,
                        events: seq<Event<T>>) {
    && |states| == |events| + 1 == |actions| + 1
    && forall i :: 0 <= i < |events| ==> Step(w, cap, states[i], actions[i], events[i], states[i + 1])
  }

  function PushOf<T>(ev: Event<T>): seq<T> {
    if ev.Pushed? then [ev.item] else []
  }

  function PopOf<T>(ev: Event<T>): seq<T> {
    if ev.Popped? then [ev.value] else []
  }

  /** The items whose `try_push` returned true, in order. */
  function AllPushed<T>(events: seq<Event<T>>): seq<T> {
    if events == [] then [] else AllPushed(events[..|events| - 1]) + PushOf(events[|events| - 1])
  }

  /** The values that successful `try_pop` calls delivered, in order. */
  function AllPopped<T>(events: seq<Event<T>>): seq<T> {
    if events == [] then [] else AllPopped(events[..|events| - 1]) + PopOf(events[|events| - 1])
  }

  // ------------------------------------------------------------- invariant of the unbounded ring

  predicate CountsUp(stores: seq<Stamped>, n: nat) {
    |stores| == n + 1 && forall i :: 0 <= i <= n ==> stores[i] == Stamped(i, i)
  }

  predicate LastAccesses(last: seq<nat>, done: nat) {
    forall k :: 0 <= k < |last| && last[k] != 0 ==> last[k] <= done && Rem(last[k] - 1, |last|) == k
  }

  predicate SlotsHold<T(==)>(cap: nat, buf: seq<T>, pushed: seq<T>, from: nat)
    requires cap == |buf| >= 1
  {
    forall i :: from <= i < |pushed| ==> buf[Rem(i, cap)] == pushed[i]
  }

  predicate Indices<T(==)>(cap: nat, s: State<T>, pushed: seq<T>, popped: seq<T>) {
    && Shape(cap, s)
    && CountsUp(s.tails, |pushed|)
    && CountsUp(s.heads, |popped|)
    && s.headCache == s.headSeen == s.producerView <= |popped|
    && |popped| <= s.tailCache == s.tailSeen == s.consumerView <= |pushed|
    && |pushed| - s.headCache <= cap
  }

  predicate ProducerAt<T>(cap: nat, s: State<T>, pushed: seq<T>)
    requires Shape(cap, s)
  {
    match s.pp
    case PIdle => s.slotWrites == |pushed|
    case PRefresh(t, item) => s.slotWrites == |pushed| && t == |pushed|
    case PWrite(t, item) => s.slotWrites == |pushed| && t == |pushed| && |pushed| - s.headCache < cap
    case PStore(t, item) => s.slotWrites == |pushed| + 1 && t == |pushed| && |pushed| - s.headCache < cap
  }

  predicate ConsumerAt<T>(s: State<T>, popped: seq<T>) {
    match s.cp
    case CIdle => s.slotReads == |popped|
    case CRefresh(h) => s.slotReads == |popped| && h == |popped|
    case CRead(h) => s.slotReads == |popped| && h == |popped| && |popped| < s.tailCache
    case CStore(h, value) => s.slotReads == |popped| + 1 && h == |popped| && |popped| < s.tailCache
  }

  predicate Contents<T(==)>(cap: nat, s: State<T>, pushed: seq<T>, popped: seq<T>)
    requires Shape(cap, s)
  {
    && popped <= pushed
    && SlotsHold(cap, s.buf, pushed, |popped|)
    && LastAccesses(s.lastWrite, s.slotWrites)
    && LastAccesses(s.lastRead, s.slotReads)
    && (s.pp.PStore? ==> s.buf[Rem(|pushed|, cap)] == s.pp.item)
    && (s.cp.CStore? ==> |popped| < |pushed| && s.cp.value == pushed[|popped|])
  }

  predicate Inv<T(==)>(cap: nat, s: State<T>, pushed: seq<T>, popped: seq<T>) {
    && Indices(cap, s, pushed, popped)
    && ProducerAt(cap, s, pushed)
    && ConsumerAt(s, popped)
    && Contents(cap, s, pushed, popped)
  }

  // ------------------------------------------------------------- every step keeps the invariant

  /** The producer's write is ordered after every read of the slot it overwrites. */
  lemma WriteNeverRaces<T>(cap: nat, s: State<T>, pushed: seq<T>, popped: seq<T>)
    requires Inv(cap, s, pushed, popped) && s.pp.PWrite?
    ensures WriteIsOrdered(Unbounded, cap, s)
  {
    var k := Rem(|pushed|, cap);
    if s.lastRead[k] != 0 {
      FarApart(s.lastRead[k] - 1, |pushed|, cap);
    }
  }

  /** The consumer's read is ordered after the one write of the slot it reads. */
  lemma ReadNeverRaces<T>(cap: nat, s: State<T>, pushed: seq<T>, popped: seq<T>)
    requires Inv(cap, s, pushed, popped) && s.cp.CRead?
    ensures ReadIsOrdered(Unbounded, cap, s)
  {
    var k := Rem(|popped|, cap);
    if s.lastWrite[k] != 0 && s.lastWrite[k] - 1 > |popped| {
      FarApart(|popped|, s.lastWrite[k] - 1, cap);
    }
  }

  lemma WriteKeepsOthers<T>(cap: nat, s: State<T>, pushed: seq<T>, popped: seq<T>)
    requires Inv(cap, s, pushed, popped) && s.pp.PWrite?
    ensures SlotsHold(cap, s.buf[Rem(|pushed|, cap) := s.pp.item], pushed, |popped|)
  {
    forall i | |popped| <= i < |pushed|
      ensures s.buf[Rem(|pushed|, cap) := s.pp.item][Rem(i, cap)] == pushed[i]
    {
      if Rem(i, cap) == Rem(|pushed|, cap) {
        FarApart(i, |pushed|, cap);
      }
    }
  }

  lemma AccessRecorded(last: seq<nat>, done: nat)
    requires |last| >= 1 && LastAccesses(last, done)
    ensures LastAccesses(last[Rem(done, |last|) := done + 1], done + 1)
  {
  }

  lemma SlotWriteKeepsInv<T>(cap: nat, s: State<T>, a: Action<T>, pushed: seq<T>, popped: seq<T>)
    requires Inv(cap, s, pushed, popped) && Enabled(Unbounded, cap, s, a) && a.PushWrite?
    ensures Inv(cap, Apply(Unbounded, cap, s, a), pushed, popped)
  {
    WriteNeverRaces(cap, s, pushed, popped);
    WriteKeepsOthers(cap, s, pushed, popped);
    AccessRecorded(s.lastWrite, s.slotWrites);
  }

  lemma SlotReadKeepsInv<T>(cap: nat, s: State<T>, a: Action<T>, pushed: seq<T>, popped: seq<T>)
    requires Inv(cap, s, pushed, popped) && Enabled(Unbounded, cap, s, a) && a.PopRead?
    ensures Inv(cap, Apply(Unbounded, cap, s, a), pushed, popped)
  {
    ReadNeverRaces(cap, s, pushed, popped);
    AccessRecorded(s.lastRead, s.slotReads);
  }

  /** The publishing stores turn the item in the producer's hand into a pushed one, and the value in
      the consumer's hand into a popped one. */
  lemma StoreKeepsInv<T>(cap: nat, s: State<T>, a: Action<T>, pushed: seq<T>, popped: seq<T>)
    requires Inv(cap, s, pushed, popped) && Enabled(Unbounded, cap, s, a) && (a.PushStore? || a.PopStore?)
    ensures a.PushStore? ==> Inv(cap, Apply(Unbounded, cap, s, a), pushed + [s.pp.item], popped)
    ensures a.PopStore? ==> Inv(cap, Apply(Unbounded, cap, s, a), pushed, popped + [s.cp.value])
  {
    if a.PushStore? {
      assert popped <= pushed + [s.pp.item];
    } else {
      assert popped + [s.cp.value] == pushed[..|popped| + 1];
    }
  }

  lemma IndexStepKeepsInv<T>(cap: nat, s: State<T>, a: Action<T>, pushed: seq<T>, popped: seq<T>)
    requires Inv(cap, s, pushed, popped) && Enabled(Unbounded, cap, s, a)
    requires a.PushCall? || a.PushRefresh? || a.PopCall? || a.PopRefresh?
    ensures Inv(cap, Apply(Unbounded, cap, s, a), pushed, popped)
  {
  }

  lemma StepKeepsInv<T>(cap: nat, s: State<T>, a: Action<T>, ev: Event<T>, s': State<T>, pushed: seq<T>, popped: seq<T>)
    requires Inv(cap, s, pushed, popped) && Step(Unbounded, cap, s, a, ev, s')
    ensures Inv(cap, s', pushed + PushOf(ev), popped + PopOf(ev))
  {
    assert pushed + [] == pushed && popped + [] == popped;
    match a
    case PushWrite(_) => SlotWriteKeepsInv(cap, s, a, pushed, popped);
    case PopRead(_) => SlotReadKeepsInv(cap, s, a, pushed, popped);
    case PushStore => StoreKeepsInv(cap, s, a, pushed, popped);
    case PopStore => StoreKeepsInv(cap, s, a, pushed, popped);
    case _ => IndexStepKeepsInv(cap, s, a, pushed, popped);
  }
}
