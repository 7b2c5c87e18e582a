/** The ring as an object whose calls run one at a time: each call is an uninterrupted path of the
    ring machine in which every load returns the newest store. */
module Spsc {
  import opened Bits
  import opened Options
  import opened Ring
  import opened RingWrap

  /** A finished piece of a run, named by the unbounded twins of its first and last states. */
  predicate Leads<T(==)>(cap: nat, u: State<T>, u': State<T>, trail: Trail<T>) {
    && Path(Word, cap, trail.path, trail.actions, trail.events)
    && trail.path[0] == Wrap(u)
    && trail.path[|trail.events|] == Wrap(u')
  }

  datatype Trail<T> = Trail(path: seq<State<T>>, actions: seq<Action<T>>, events: seq<Event<T>>)

  /** Extends a walk by one action. */
  lemma Advance<T>(cap: nat, u0: State<T>, u: State<T>, trail: Trail<T>, a: Action<T>, pushed: seq<T>, popped: seq<T>)
    returns (u': State<T>, trail': Trail<T>)
    requires IsCapacity(cap) && cap < W && Inv(cap, u, pushed, popped)
    requires Leads(cap, u0, u, trail)
    requires Enabled(Unbounded, cap, u, a)
    ensures u' == Apply(Unbounded, cap, u, a)
    ensures Leads(cap, u0, u', trail')
    ensures var ev := EventOf(Unbounded, cap, u, a);
            && Inv(cap, u', pushed + PushOf(ev), popped + PopOf(ev))
            && AllPushed(trail'.events) == AllPushed(trail.events) + PushOf(ev)
            && AllPopped(trail'.events) == AllPopped(trail.events) + PopOf(ev)
  {
    var ev := EventOf(Unbounded, cap, u, a);
    StepCommutes(cap, u, a, pushed, popped);
    u' := Apply(Unbounded, cap, u, a);
    StepKeepsInv(cap, u, a, ev, u', pushed, popped);
    PathExtend(Word, cap, trail.path, trail.actions, trail.events, a, ev, Wrap(u'));
    trail' := Trail(trail.path + [Wrap(u')], trail.actions + [a], trail.events + [ev]);
    assert trail'.events[..|trail.events|] == trail.events;
  }

  /** The same for an action that neither completes a push nor a pop. */
  lemma AdvanceSilently<T>(cap: nat, u0: State<T>, u: State<T>, trail: Trail<T>, a: Action<T>, pushed: seq<T>,
                           popped: seq<T>)
    returns (u': State<T>, trail': Trail<T>)
    requires IsCapacity(cap) && cap < W && Inv(cap, u, pushed, popped)
    requires Leads(cap, u0, u, trail) && AllPushed(trail.events) == [] && AllPopped(trail.events) == []
    requires Enabled(Unbounded, cap, u, a) && !a.PushStore? && !a.PopStore?
    ensures u' == Apply(Unbounded, cap, u, a)
    ensures Leads(cap, u0, u', trail') && Inv(cap, u', pushed, popped)
    ensures AllPushed(trail'.events) == [] && AllPopped(trail'.events) == []
  {
    u', trail' := Advance(cap, u0, u, trail, a, pushed, popped);
    assert pushed + [] == pushed && popped + [] == popped;
  }

  /** `try_push` up to the point where the slot is known to be free, or the call returns false. */
  lemma PushToDecision<T>(cap: nat, u: State<T>, item: T, pushed: seq<T>, popped: seq<T>)
    returns (u': State<T>, trail: Trail<T>)
    requires IsCapacity(cap) && cap < W && Inv(cap, u, pushed, popped) && u.pp.PIdle?
    ensures Leads(cap, u, u', trail) && Inv(cap, u', pushed, popped)
    ensures AllPushed(trail.events) == [] && AllPopped(trail.events) == []
    ensures var hc := if |pushed| - u.headCache >= cap then |popped| else u.headCache;
            && u'.pp == (if |pushed| - hc >= cap then PIdle else PWrite(|pushed|, item))
            && u' == u.(headCache := hc, headSeen := hc, producerView := hc, pp := u'.pp)
  {
    u', trail := AdvanceSilently(cap, u, u, Trail([Wrap(u)], [], []), PushCall(item), pushed, popped);
    if |pushed| - u.headCache >= cap {
      u', trail := AdvanceSilently(cap, u, u', trail, PushRefresh(|popped|), pushed, popped);
    }
  }

  /** `try_push` from the slot write to the publishing store. */
  lemma PushToStore<T>(cap: nat, u0: State<T>, u: State<T>, trail: Trail<T>, pushed: seq<T>, popped: seq<T>)
    returns (u': State<T>, trail': Trail<T>)
    requires IsCapacity(cap) && cap < W && Inv(cap, u, pushed, popped) && u.pp.PWrite?
    requires Leads(cap, u0, u, trail) && AllPushed(trail.events) == [] && AllPopped(trail.events) == []
    ensures Leads(cap, u0, u', trail') && Inv(cap, u', pushed + [u.pp.item], popped)
    ensures AllPushed(trail'.events) == [u.pp.item] && AllPopped(trail'.events) == []
    ensures u'.pp.PIdle? && u'.cp == u.cp && u'.headCache == u.headCache && u'.tailCache == u.tailCache
    ensures u'.buf == u.buf[Rem(|pushed|, cap) := u.pp.item]
  {
    assert pushed + [] == pushed && popped + [] == popped;
    var u1, trail1 := Advance(cap, u0, u, trail, PushWrite(u.buf[Rem(|pushed|, cap) := u.pp.item]), pushed, popped);
    u', trail' := Advance(cap, u0, u1, trail1, PushStore, pushed, popped);
  }

  /** `try_pop` up to the point where an item is known to be there, or the call returns false. */
  lemma PopToDecision<T>(cap: nat, u: State<T>, pushed: seq<T>, popped: seq<T>)
    returns (u': State<T>, trail: Trail<T>)
    requires IsCapacity(cap) && cap < W && Inv(cap, u, pushed, popped) && u.cp.CIdle?
    ensures Leads(cap, u, u', trail) && Inv(cap, u', pushed, popped)
    ensures AllPushed(trail.events) == [] && AllPopped(trail.events) == []
    ensures var tc := if |popped| >= u.tailCache then |pushed| else u.tailCache;
            && u'.cp == (if |popped| >= tc then CIdle else CRead(|popped|))
            && u' == u.(tailCache := tc, tailSeen := tc, consumerView := tc, cp := u'.cp)
  {
    u', trail := AdvanceSilently(cap, u, u, Trail([Wrap(u)], [], []), PopCall, pushed, popped);
    if |popped| >= u.tailCache {
      u', trail := AdvanceSilently(cap, u, u', trail, PopRefresh(|pushed|), pushed, popped);
    }
  }

  /** `try_pop` from the slot read to the releasing store. */
  lemma PopToStore<T>(cap: nat, u0: State<T>, u: State<T>, trail: Trail<T>, pushed: seq<T>, popped: seq<T>)
    returns (u': State<T>, trail': Trail<T>)
    requires IsCapacity(cap) && cap < W && Inv(cap, u, pushed, popped) && u.cp.CRead?
    requires Leads(cap, u0, u, trail) && AllPushed(trail.events) == [] && AllPopped(trail.events) == []
    ensures |popped| < |pushed| && u.buf[Rem(|popped|, cap)] == pushed[|popped|]
    ensures Leads(cap, u0, u', trail') && Inv(cap, u', pushed, popped + [pushed[|popped|]])
    ensures AllPushed(trail'.events) == [] && AllPopped(trail'.events) == [pushed[|popped|]]
    ensures u'.cp.CIdle? && u'.pp == u.pp && u'.headCache == u.headCache && u'.tailCache == u.tailCache
    ensures u'.buf == u.buf
  {
    assert pushed + [] == pushed && popped + [] == popped;
    var u1, trail1 := Advance(cap, u0, u, trail, PopRead(u.buf[Rem(|popped|, cap)]), pushed, popped);
    u', trail' := Advance(cap, u0, u1, trail1, PopStore, pushed, popped);
  }

  /** The data members of a ring. */
  datatype Fields<T> = Fields(tail: U64, headCache: U64, head: U64, tailCache: U64, buf: seq<T>)

  /** The members agree with an idle machine state in which `pushed` and `popped` have happened. */
  ghost predicate Agree<T>(cap: nat, f: Fields<T>, u: State<T>, pushed: seq<T>, popped: seq<T>) {
    && IsCapacity(cap) && cap < W
    && Inv(cap, u, pushed, popped)
    && u.pp.PIdle? && u.cp.CIdle?
    && f == Reduced(|pushed|, u.headCache, |popped|, u.tailCache, u.buf)
  }

  /** The members after one `try_push` that nothing interrupts. */
  function PushNow<T>(cap: nat, f: Fields<T>, item: T): (Fields<T>, bool)
    requires 1 <= cap == |f.buf|
  {
    var g := if Minus64(f.tail, f.headCache) == cap then f.(headCache := f.head) else f;
    if Minus64(f.tail, g.headCache) == cap then (g, false)
    else (g.(buf := g.buf[BitAnd(f.tail, cap - 1) := item], tail := Inc64(f.tail)), true)
  }

  /** The members after one `try_pop` that nothing interrupts. */
  function PopNow<T>(cap: nat, f: Fields<T>): (Fields<T>, Option<T>)
    requires 1 <= cap == |f.buf|
  {
    var g := if f.head == f.tailCache then f.(tailCache := f.tail) else f;
    if f.head == g.tailCache then (g, None)
    else (g.(head := Inc64(f.head)), Some(g.buf[BitAnd(f.head, cap - 1)]))
  }

  /** The 64-bit members, read through the unbounded counters they stand for. */
  function Reduced<T>(t: nat, hc: nat, h: nat, tc: nat, buf: seq<T>): Fields<T> {
    Fields(Rem(t, W), Rem(hc, W), Rem(h, W), Rem(tc, W), buf)
  }

  lemma PushNowUnwrapped<T>(cap: nat, t: nat, hc: nat, h: nat, tc: nat, buf: seq<T>, item: T)
    requires IsCapacity(cap) && cap < W && |buf| == cap && hc <= h <= t <= hc + cap
    ensures var hc' := if t - hc >= cap then h else hc;
            PushNow(cap, Reduced(t, hc, h, tc, buf), item) ==
            if t - hc' >= cap then (Reduced(t, hc', h, tc, buf), false)
            else (Reduced(t + 1, hc', h, tc, buf[Rem(t, cap) := item]), true)
  {
    FullWraps(cap, t, hc);
    FullWraps(cap, t, h);
    MaskedIndex(cap, t);
    NextWraps(t);
  }

  lemma PopNowUnwrapped<T>(cap: nat, t: nat, hc: nat, h: nat, tc: nat, buf: seq<T>)
    requires IsCapacity(cap) && cap < W && |buf| == cap && h <= tc <= t <= h + cap
    ensures var tc' := if h >= tc then t else tc;
            PopNow(cap, Reduced(t, hc, h, tc, buf)) ==
            if h >= tc' then (Reduced(t, hc, h, tc', buf), None)
            else (Reduced(t, hc, h + 1, tc', buf), Some(buf[Rem(h, cap)]))
  {
    EmptyWraps(cap, h, tc);
    EmptyWraps(cap, h, t);
    MaskedIndex(cap, h);
    NextWraps(h);
  }

  /** An uninterrupted `try_push` is a walk of the machine; it is refused exactly when the ring is full. */
  lemma PushAlone<T>(cap: nat, f: Fields<T>, u: State<T>, item: T, pushed: seq<T>, popped: seq<T>)
    returns (u': State<T>, trail: Trail<T>)
    requires Agree(cap, f, u, pushed, popped)
    ensures var (f', ok) := PushNow(cap, f, item);
            && ok == (|pushed| - |popped| < cap)
            && Leads(cap, u, u', trail)
            && AllPushed(trail.events) == (if ok then [item] else []) && AllPopped(trail.events) == []
            && Agree(cap, f', u', if ok then pushed + [item] else pushed, popped)
  {
    PushNowUnwrapped(cap, |pushed|, u.headCache, |popped|, u.tailCache, u.buf, item);
    u', trail := PushToDecision(cap, u, item, pushed, popped);
    if u'.pp.PWrite? {
      u', trail := PushToStore(cap, u, u', trail, pushed, popped);
    }
  }

  /** An uninterrupted `try_pop` is a walk of the machine; it is refused exactly when the ring is empty. */
  lemma PopAlone<T>(cap: nat, f: Fields<T>, u: State<T>, pushed: seq<T>, popped: seq<T>)
    returns (u': State<T>, trail: Trail<T>)
    requires Agree(cap, f, u, pushed, popped)
    ensures var (f', out) := PopNow(cap, f);
            && out == (if |popped| < |pushed| then Some(pushed[|popped|]) else None)
            && Leads(cap, u, u', trail)
            && AllPopped(trail.events) == (if out.Some? then [out.value] else []) && AllPushed(trail.events) == []
            && Agree(cap, f', u', pushed, if out.Some? then popped + [out.value] else popped)
  {
    PopNowUnwrapped(cap, |pushed|, u.headCache, |popped|, u.tailCache, u.buf);
    u', trail := PopToDecision(cap, u, pushed, popped);
    if u'.cp.CRead? {
      u', trail := PopToStore(cap, u, u', trail, pushed, popped);
    }
  }

  // ------------------------------------------------------------- any sequence of calls is a bounded FIFO queue

  datatype Call<T> = Push(item: T) | Pop

  datatype Answer<T> = Accepted(ok: bool) | Delivered(out: Option<T>)

  function RingCall<T>(cap: nat, f: Fields<T>, call: Call<T>): (Fields<T>, Answer<T>)
    requires 1 <= cap == |f.buf|
  {
    match call
    case Push(item) => var (f', ok) := PushNow(cap, f, item); (f', Accepted(ok))
    case Pop => var (f', out) := PopNow(cap, f); (f', Delivered(out))
  }

  /** The same call on a queue that holds at most `cap` items. */
  function QueueCall<T>(cap: nat, queue: seq<T>, call: Call<T>): (seq<T>, Answer<T>) {
    match call
    case Push(item) => if |queue| < cap then (queue + [item], Accepted(true)) else (queue, Accepted(false))
    case Pop => if queue == [] then (queue, Delivered(None)) else (queue[1..], Delivered(Some(queue[0])))
  }

  function RingAnswers<T>(cap: nat, f: Fields<T>, calls: seq<Call<T>>): seq<Answer<T>>
    requires 1 <= cap == |f.buf|
    decreases |calls|
  {
    if calls == [] then [] else
    var (f', answer) := RingCall(cap, f, calls[0]);
    [answer] + RingAnswers(cap, f', calls[1..])
  }

  function QueueAnswers<T>(cap: nat, queue: seq<T>, calls: seq<Call<T>>): seq<Answer<T>>
    decreases |calls|
  {
    if calls == [] then [] else
    var (queue', answer) := QueueCall(cap, queue, calls[0]);
    [answer] + QueueAnswers(cap, queue', calls[1..])
  }

  lemma QueuePush<T>(cap: nat, pushed: seq<T>, n: nat, item: T)
    requires n <= |pushed|
    ensures QueueCall(cap, pushed[n..], Push(item)) ==
            if |pushed| - n < cap then ((pushed + [item])[n..], Accepted(true)) else (pushed[n..], Accepted(false))
  {
    assert (pushed + [item])[n..] == pushed[n..] + [item];
  }

  lemma QueuePop<T>(cap: nat, pushed: seq<T>, n: nat)
    requires n <= |pushed|
    ensures QueueCall(cap, pushed[n..], Pop) ==
            if n < |pushed| then (pushed[n + 1..], Delivered(Some(pushed[n]))) else (pushed[n..], Delivered(None))
  {
    if n < |pushed| {
      assert pushed[n + 1..] == pushed[n..][1..];
    }
  }

  lemma PushIsQueuePush<T>(cap: nat, f: Fields<T>, u: State<T>, pushed: seq<T>, popped: seq<T>, item: T)
    returns (u': State<T>, pushed': seq<T>)
    requires Agree(cap, f, u, pushed, popped)
    ensures Agree(cap, PushNow(cap, f, item).0, u', pushed', popped)
    ensures RingCall(cap, f, Push(item)).1 == QueueCall(cap, pushed[|popped|..], Push(item)).1
    ensures pushed'[|popped|..] == QueueCall(cap, pushed[|popped|..], Push(item)).0
  {
    var trail;
    u', trail := PushAlone(cap, f, u, item, pushed, popped);
    pushed' := if PushNow(cap, f, item).1 then pushed + [item] else pushed;
    QueuePush(cap, pushed, |popped|, item);
  }

  lemma PopIsQueuePop<T>(cap: nat, f: Fields<T>, u: State<T>, pushed: seq<T>, popped: seq<T>)
    returns (u': State<T>, popped': seq<T>)
    requires Agree(cap, f, u, pushed, popped)
    ensures Agree(cap, PopNow(cap, f).0, u', pushed, popped')
    ensures RingCall(cap, f, Pop).1 == QueueCall(cap, pushed[|popped|..], Pop).1
    ensures pushed[|popped'|..] == QueueCall(cap, pushed[|popped|..], Pop).0
  {
    var trail;
    u', trail := PopAlone(cap, f, u, pushed, popped);
    popped' := if |popped| < |pushed| then popped + [pushed[|popped|]] else popped;
    QueuePop(cap, pushed, |popped|);
  }

  /** Called from one place at a time, the ring cannot be told apart from a bounded queue. */
  lemma {:induction false} RingIsBoundedQueue<T>(cap: nat, f: Fields<T>, u: State<T>, pushed: seq<T>, popped: seq<T>,
                                                 calls: seq<Call<T>>)
    requires Agree(cap, f, u, pushed, popped)
    ensures RingAnswers(cap, f, calls) == QueueAnswers(cap, pushed[|popped|..], calls)
    decreases |calls|
  {
    if calls != [] {
      match calls[0]
      case Push(item) =>
        var u', pushed' := PushIsQueuePush(cap, f, u, pushed, popped, item);
        RingIsBoundedQueue(cap, PushNow(cap, f, item).0, u', pushed', popped, calls[1..]);
      case Pop =>
        var u', popped' := PopIsQueuePop(cap, f, u, pushed, popped);
        RingIsBoundedQueue(cap, PopNow(cap, f).0, u', pushed, popped', calls[1..]);
    }
  }

  function TakenFrom<T>(queue: seq<T>): (Option<T>, seq<T>) {
    if queue == [] then (None, queue) else (Some(queue[0]), queue[1..])
  }

  function Grown<T>(s: seq<T>, x: Option<T>): seq<T> {
    if x.None? then s else s + [x.value]
  }

  lemma FrontOfQueue<T>(pushed: seq<T>, popped: seq<T>)
    requires |popped| <= |pushed|
    ensures var out := if |popped| < |pushed| then Some(pushed[|popped|]) else None;
            && |Grown(popped, out)| <= |pushed|
            && (out, pushed[|Grown(popped, out)|..]) == TakenFrom(pushed[|popped|..])
  {
    if |popped| < |pushed| {
      assert pushed[|popped| + 1..] == pushed[|popped|..][1..];
    }
  }

  /** An uninterrupted `try_pop` takes the front of the queue. */
  lemma PopTakesFront<T>(cap: nat, f: Fields<T>, u: State<T>, pushed: seq<T>, popped: seq<T>)
    returns (u': State<T>, popped': seq<T>)
    requires Agree(cap, f, u, pushed, popped)
    ensures Agree(cap, PopNow(cap, f).0, u', pushed, popped') && |popped'| <= |pushed|
    ensures popped' == Grown(popped, PopNow(cap, f).1)
    ensures (PopNow(cap, f).1, pushed[|popped'|..]) == TakenFrom(pushed[|popped|..])
  {
    var trail;
    u', trail := PopAlone(cap, f, u, pushed, popped);
    popped' := Grown(popped, PopNow(cap, f).1);
    FrontOfQueue(pushed, popped);
  }

  class SpscRing<T> {
    const cap: nat
    var tail: U64
    var headCache: U64
    var head: U64
    var tailCache: U64
    const buf: array<T>
    ghost var machine: State<T>
    ghost var pushed: seq<T>
    ghost var popped: seq<T>

    ghost function Members(): Fields<T>
      reads this, buf
    {
      Fields(tail, headCache, head, tailCache, buf[..])
    }

    /** The members agree with a machine through which these items have passed. */
    ghost predicate Valid()
      reads this, buf
    {
      Agree(cap, Members(), machine, pushed, popped)
    }

    /** The items pushed and not yet popped. */
    ghost function Queue(): seq<T>
      reads this, buf
      requires Valid()
    {
      pushed[|popped|..]
    }

    /** A new ring is an empty queue. */
    constructor (capacity: nat, filler: T)
      requires IsCapacity(capacity) && capacity < W
      ensures fresh(buf) && cap == capacity == buf.Length
      ensures Valid() && Queue() == []
    {
      cap := capacity;
      tail, headCache, head, tailCache := 0, 0, 0, 0;
      buf := new T[capacity](_ => filler);
      pushed, popped := [], [];
      new;
      machine := State([Stamped(0, 0)], [Stamped(0, 0)], 0, 0, 0, 0, buf[..], 0, 0,
                       seq(capacity, i => 0), seq(capacity, i => 0), 0, 0, PIdle, CIdle);
      InitRefines(capacity, machine);
    }

    /** Appends to the queue unless it is full. */
    method TryPush(item: T) returns (ok: bool)
      requires Valid()
      modifies this`tail, this`headCache, this`machine, this`pushed, buf
      ensures Valid()
      ensures ok == (|old(Queue())| < cap)
      ensures Queue() == if ok then old(Queue()) + [item] else old(Queue())
      ensures pushed == (if ok then old(pushed) + [item] else old(pushed))
    {
      ghost var u, trail := PushAlone(cap, Members(), machine, item, pushed, popped);
      QueuePush(cap, pushed, |popped|, item);
      ok := PushMembers(item);
      machine := u;
      pushed := if ok then pushed + [item] else pushed;
    }

    /** The program's `try_push` on the data members. */
    method PushMembers(item: T) returns (ok: bool)
      requires 1 <= cap == buf.Length
      modifies this`tail, this`headCache, buf
      ensures (Members(), ok) == PushNow(cap, old(Members()), item)
    {
      var t := tail;
      if Minus64(t, headCache) == cap {
        headCache := head;
        if Minus64(t, headCache) == cap {
          return false;
        }
      }
      buf[BitAnd(t, cap - 1)] := item;
      tail := Inc64(t);
      ok := true;
    }

    /** Takes the front of the queue, if there is one. */
    method TryPop() returns (out: Option<T>)
      requires Valid()
      modifies this`head, this`tailCache, this`machine, this`popped
      ensures Valid()
      ensures (out, Queue()) == TakenFrom(old(Queue()))
      ensures popped == Grown(old(popped), out)
    {
      ghost var u, popped' := PopTakesFront(cap, Members(), machine, pushed, popped);
      out := PopMembers();
      machine, popped := u, popped';
    }

    /** The program's `try_pop` on the data members. */
    method PopMembers() returns (out: Option<T>)
      requires 1 <= cap == buf.Length
      modifies this`head, this`tailCache
      ensures (Members(), out) == PopNow(cap, old(Members()))
    {
      var h := head;
      if h == tailCache {
        tailCache := tail;
        if h == tailCache {
          return None;
        }
      }
      out := Some(buf[BitAnd(h, cap - 1)]);
      head := Inc64(h);
    }
  }
}
