/** What the 64-bit ring promises in every state of every run. */
module RingTheorems {
  import opened Bits
  import opened Ring
  import opened RingWrap

  /** The 64-bit run up to `n`, seen through its unbounded twin. */
  lemma {:induction false} TwinAt<T>(cap: nat, states: seq<State<T>>, actions: seq<Action<T>>, events: seq<Event<T>>,
                                     n: nat)
    returns (u: State<T>)
    requires IsCapacity(cap) && cap < W
    requires Path(Word, cap, states, actions, events) && Init(cap, states[0]) && n <= |events|
    ensures states[n] == Wrap(u)
    ensures Inv(cap, u, AllPushed(events[..n]), AllPopped(events[..n]))
  {
    var us := RunRefines(cap, states, actions, events);
    InvAlong(cap, us, actions, events, n);
    u := us[n];
  }

  /** FIFO: at every point of every run the popped values are a prefix of the pushed ones, at most
      `cap` items are in flight, and the slots of the indices in flight hold exactly those items. */
  lemma FifoAlways<T>(cap: nat, states: seq<State<T>>, actions: seq<Action<T>>, events: seq<Event<T>>, n: nat)
    requires IsCapacity(cap) && cap < W
    requires Path(Word, cap, states, actions, events) && Init(cap, states[0]) && n <= |events|
    ensures AllPopped(events[..n]) <= AllPushed(events[..n])
    ensures |AllPushed(events[..n])| - |AllPopped(events[..n])| <= cap == |states[n].buf|
    ensures forall i :: |AllPopped(events[..n])| <= i < |AllPushed(events[..n])| ==>
                        states[n].buf[Slot(Word, cap, Rem(i, W))] == AllPushed(events[..n])[i]
  {
    var u := TwinAt(cap, states, actions, events, n);
    WrappedContents(cap, u, AllPushed(events[..n]), AllPopped(events[..n]));
  }

  lemma WrappedContents<T>(cap: nat, u: State<T>, pushed: seq<T>, popped: seq<T>)
    requires IsCapacity(cap) && cap < W && Inv(cap, u, pushed, popped)
    ensures forall i :: |popped| <= i < |pushed| ==> u.buf[Slot(Word, cap, Rem(i, W))] == pushed[i]
  {
    forall i | |popped| <= i < |pushed| ensures u.buf[Slot(Word, cap, Rem(i, W))] == pushed[i] {
      SlotWraps(cap, i);
    }
  }

  /** No slot access ever races, and the two threads never stand at the same slot. */
  lemma NoDataRace<T>(cap: nat, states: seq<State<T>>, actions: seq<Action<T>>, events: seq<Event<T>>, n: nat)
    requires IsCapacity(cap) && cap < W
    requires Path(Word, cap, states, actions, events) && Init(cap, states[0]) && n <= |events|
    ensures Shape(cap, states[n])
    ensures states[n].pp.PWrite? ==> WriteIsOrdered(Word, cap, states[n])
    ensures states[n].cp.CRead? ==> ReadIsOrdered(Word, cap, states[n])
    ensures states[n].pp.PWrite? && states[n].cp.CRead? ==>
              Slot(Word, cap, states[n].pp.t) != Slot(Word, cap, states[n].cp.h)
  {
    var u := TwinAt(cap, states, actions, events, n);
    var pushed, popped := AllPushed(events[..n]), AllPopped(events[..n]);
    if u.pp.PWrite? {
      SlotWraps(cap, u.pp.t);
      WriteNeverRaces(cap, u, pushed, popped);
    }
    if u.cp.CRead? {
      SlotWraps(cap, u.cp.h);
      ReadNeverRaces(cap, u, pushed, popped);
    }
    if u.pp.PWrite? && u.cp.CRead? && Rem(u.pp.t, cap) == Rem(u.cp.h, cap) {
      FarApart(u.cp.h, u.pp.t, cap);
    }
  }

  /** A push is refused exactly when the head it has just read leaves no room; so when that load
      returned the newest head, the ring really is full. */
  lemma RefusedPushSawFullRing<T>(cap: nat, states: seq<State<T>>, actions: seq<Action<T>>, events: seq<Event<T>>,
                                  n: nat)
    requires IsCapacity(cap) && cap < W
    requires Path(Word, cap, states, actions, events) && Init(cap, states[0]) && n < |events|
    requires actions[n].PushRefresh?
    ensures var pushed, popped := AllPushed(events[..n]), AllPopped(events[..n]);
            var seen := states[n + 1].headSeen;
            && seen <= |popped|
            && (events[n].PushFailed? <==> |pushed| - seen == cap)
            && (events[n].PushFailed? ==> events[n] == PushFailed(seen))
            && (seen == |popped| ==> (events[n].PushFailed? <==> |pushed| - |popped| == cap))
  {
    var u := TwinAt(cap, states, actions, events, n);
    assert Step(Word, cap, states[n], actions[n], events[n], states[n + 1]);
    var u' := StepRefines(cap, u, actions[n], events[n], states[n + 1], AllPushed(events[..n]), AllPopped(events[..n]));
  }

  /** A pop is refused exactly when the tail it has just read shows nothing beyond the head. */
  lemma RefusedPopSawEmptyRing<T>(cap: nat, states: seq<State<T>>, actions: seq<Action<T>>, events: seq<Event<T>>,
                                  n: nat)
    requires IsCapacity(cap) && cap < W
    requires Path(Word, cap, states, actions, events) && Init(cap, states[0]) && n < |events|
    requires actions[n].PopRefresh?
    ensures var pushed, popped := AllPushed(events[..n]), AllPopped(events[..n]);
            var seen := states[n + 1].tailSeen;
            && seen <= |pushed|
            && (events[n].PopFailed? <==> seen == |popped|)
            && (events[n].PopFailed? ==> events[n] == PopFailed(seen))
            && (seen == |pushed| ==> (events[n].PopFailed? <==> |pushed| == |popped|))
  {
    var u := TwinAt(cap, states, actions, events, n);
    assert Step(Word, cap, states[n], actions[n], events[n], states[n + 1]);
    var u' := StepRefines(cap, u, actions[n], events[n], states[n + 1], AllPushed(events[..n]), AllPopped(events[..n]));
  }

  function PushRank<T>(pp: ProducerPc<T>): nat {
    match pp case PIdle => 0 case PStore(_, _) => 1 case PWrite(_, _) => 2 case PRefresh(_, _) => 3
  }

  function PopRank<T>(cp: ConsumerPc<T>): nat {
    match cp case CIdle => 0 case CStore(_, _) => 1 case CRead(_) => 2 case CRefresh(_) => 3
  }

  /** Wait-freedom: whatever the other thread does, a call in progress can always take its next
      step, each of its own steps brings it closer to returning, and no step of the other thread
      sets it back. */
  lemma CallsAreWaitFree<T>(w: Arithmetic, cap: nat, s: State<T>) returns (push: Action<T>, pop: Action<T>)
    requires Shape(cap, s)
    ensures !s.pp.PIdle? ==> ByProducer(push) && Enabled(w, cap, s, push)
    ensures !s.cp.CIdle? ==> !ByProducer(pop) && Enabled(w, cap, s, pop)
    ensures forall a :: Enabled(w, cap, s, a) && ByProducer(a) && !s.pp.PIdle? ==>
                        PushRank(Apply(w, cap, s, a).pp) < PushRank(s.pp)
    ensures forall a :: Enabled(w, cap, s, a) && !ByProducer(a) && !s.cp.CIdle? ==>
                        PopRank(Apply(w, cap, s, a).cp) < PopRank(s.cp)
    ensures forall a :: Enabled(w, cap, s, a) ==>
                        if ByProducer(a) then Apply(w, cap, s, a).cp == s.cp else Apply(w, cap, s, a).pp == s.pp
  {
    push := match s.pp
      case PRefresh(_, _) => PushRefresh(s.headSeen)
      case PWrite(t, item) => PushWrite(s.buf[Slot(w, cap, t) := item])
      case _ => PushStore;
    pop := match s.cp
      case CRefresh(_) => PopRefresh(s.tailSeen)
      case CRead(h) => PopRead(s.buf[Slot(w, cap, h)])
      case _ => PopStore;
  }
}
