/** The ring with 64-bit counters refines the ring with unbounded ones, step by step and run by run. */
module RingWrap {
  import opened Bits
  import opened Ring

  function WrapStores(stores: seq<Stamped>): seq<Stamped> {
    seq(|stores|, i requires 0 <= i < |stores| => Stamped(Rem(stores[i].value, W), stores[i].view))
  }

  function WrapProducer<T>(pp: ProducerPc<T>): ProducerPc<T> {
    match pp
    case PIdle => PIdle
    case PRefresh(t, item) => PRefresh(Rem(t, W), item)
    case PWrite(t, item) => PWrite(Rem(t, W), item)
    case PStore(t, item) => PStore(Rem(t, W), item)
  }

  function WrapConsumer<T>(cp: ConsumerPc<T>): ConsumerPc<T> {
    match cp
    case CIdle => CIdle
    case CRefresh(h) => CRefresh(Rem(h, W))
    case CRead(h) => CRead(Rem(h, W))
    case CStore(h, value) => CStore(Rem(h, W), value)
  }

  /** The machine state in which every counter has been reduced to 64 bits. */
  function Wrap<T>(u: State<T>): State<T> {
    u.(tails := WrapStores(u.tails), heads := WrapStores(u.heads),
       headCache := Rem(u.headCache, W), tailCache := Rem(u.tailCache, W),
       pp := WrapProducer(u.pp), cp := WrapConsumer(u.cp))
  }

  lemma FullWraps(cap: nat, t: nat, h: nat)
    requires cap < W && h <= t <= h + cap
    ensures Full(Word, cap, Rem(t, W), Rem(h, W)) == Full(Unbounded, cap, t, h)
  {
    GapWraps(t, h);
  }

  lemma EmptyWraps(cap: nat, h: nat, t: nat)
    requires cap < W && h <= t <= h + cap
    ensures Empty(Word, Rem(h, W), Rem(t, W)) == Empty(Unbounded, h, t)
  {
    GapWraps(t, h);
  }

  lemma SlotWraps(cap: nat, x: nat)
    requires IsCapacity(cap) && cap < W
    ensures Slot(Word, cap, Rem(x, W)) == Slot(Unbounded, cap, x)
  {
    MaskedIndex(cap, x);
  }

  lemma NextWraps(x: nat)
    ensures Next(Word, Rem(x, W)) == Rem(Next(Unbounded, x), W)
  {
    RemNext(x, W);
  }

  /** Wrapping commutes with the step: same guard, same event, wrapped result. */
  predicate Commutes<T(==)>(cap: nat, u: State<T>, a: Action<T>) {
    && (Enabled(Word, cap, Wrap(u), a) <==> Enabled(Unbounded, cap, u, a))
    && (Enabled(Unbounded, cap, u, a) ==>
          && EventOf(Word, cap, Wrap(u), a) == EventOf(Unbounded, cap, u, a)
          && Apply(Word, cap, Wrap(u), a) == Wrap(Apply(Unbounded, cap, u, a)))
  }

  lemma PushCallCommutes<T>(cap: nat, u: State<T>, a: Action<T>, pushed: seq<T>, popped: seq<T>)
    requires IsCapacity(cap) && cap < W && Inv(cap, u, pushed, popped) && a.PushCall?
    ensures Commutes(cap, u, a)
  {
    FullWraps(cap, |pushed|, u.headCache);
  }

  lemma PushRefreshCommutes<T>(cap: nat, u: State<T>, a: Action<T>, pushed: seq<T>, popped: seq<T>)
    requires IsCapacity(cap) && cap < W && Inv(cap, u, pushed, popped) && a.PushRefresh?
    ensures Commutes(cap, u, a)
  {
    if Enabled(Unbounded, cap, u, a) {
      FullWraps(cap, u.pp.t, a.seen);
    }
  }

  lemma PushWriteCommutes<T>(cap: nat, u: State<T>, a: Action<T>, pushed: seq<T>, popped: seq<T>)
    requires IsCapacity(cap) && cap < W && Inv(cap, u, pushed, popped) && a.PushWrite?
    ensures Commutes(cap, u, a)
  {
    if u.pp.PWrite? {
      SlotWraps(cap, u.pp.t);
    }
  }

  lemma PushStoreCommutes<T>(cap: nat, u: State<T>, a: Action<T>, pushed: seq<T>, popped: seq<T>)
    requires IsCapacity(cap) && cap < W && Inv(cap, u, pushed, popped) && a.PushStore?
    ensures Commutes(cap, u, a)
  {
    if u.pp.PStore? {
      NextWraps(u.pp.t);
    }
  }

  lemma PopCallCommutes<T>(cap: nat, u: State<T>, a: Action<T>, pushed: seq<T>, popped: seq<T>)
    requires IsCapacity(cap) && cap < W && Inv(cap, u, pushed, popped) && a.PopCall?
    ensures Commutes(cap, u, a)
  {
    EmptyWraps(cap, |popped|, u.tailCache);
  }

  lemma PopRefreshCommutes<T>(cap: nat, u: State<T>, a: Action<T>, pushed: seq<T>, popped: seq<T>)
    requires IsCapacity(cap) && cap < W && Inv(cap, u, pushed, popped) && a.PopRefresh?
    ensures Commutes(cap, u, a)
  {
    if Enabled(Unbounded, cap, u, a) {
      EmptyWraps(cap, u.cp.h, a.seen);
    }
  }

  lemma PopReadCommutes<T>(cap: nat, u: State<T>, a: Action<T>, pushed: seq<T>, popped: seq<T>)
    requires IsCapacity(cap) && cap < W && Inv(cap, u, pushed, popped) && a.PopRead?
    ensures Commutes(cap, u, a)
  {
    if u.cp.CRead? {
      SlotWraps(cap, u.cp.h);
    }
  }

  lemma PopStoreCommutes<T>(cap: nat, u: State<T>, a: Action<T>, pushed: seq<T>, popped: seq<T>)
    requires IsCapacity(cap) && cap < W && Inv(cap, u, pushed, popped) && a.PopStore?
    ensures Commutes(cap, u, a)
  {
    if u.cp.CStore? {
      NextWraps(u.cp.h);
    }
  }

  /** In every state that satisfies the invariant, the 64-bit ring and the unbounded ring allow the
      same actions, show the same events and stay images of each other. */
  lemma StepCommutes<T>(cap: nat, u: State<T>, a: Action<T>, pushed: seq<T>, popped: seq<T>)
    requires IsCapacity(cap) && cap < W && Inv(cap, u, pushed, popped)
    ensures Commutes(cap, u, a)
  {
    match a
    case PushCall(_) => PushCallCommutes(cap, u, a, pushed, popped);
    case PushRefresh(_) => PushRefreshCommutes(cap, u, a, pushed, popped);
    case PushWrite(_) => PushWriteCommutes(cap, u, a, pushed, popped);
    case PushStore => PushStoreCommutes(cap, u, a, pushed, popped);
    case PopCall => PopCallCommutes(cap, u, a, pushed, popped);
    case PopRefresh(_) => PopRefreshCommutes(cap, u, a, pushed, popped);
    case PopRead(_) => PopReadCommutes(cap, u, a, pushed, popped);
    case PopStore => PopStoreCommutes(cap, u, a, pushed, popped);
  }

  lemma InitRefines<T>(cap: nat, s: State<T>)
    requires Init(cap, s)
    ensures Wrap(s) == s && Inv(cap, s, [], [])
  {
    assert WrapStores(s.tails) == s.tails;
    assert WrapStores(s.heads) == s.heads;
  }

  /** One 64-bit step, followed by its unbounded twin. */
  lemma StepRefines<T>(cap: nat, u: State<T>, a: Action<T>, ev: Event<T>, s': State<T>, pushed: seq<T>, popped: seq<T>)
    returns (u': State<T>)
    requires IsCapacity(cap) && cap < W && Inv(cap, u, pushed, popped)
    requires Step(Word, cap, Wrap(u), a, ev, s')
    ensures Step(Unbounded, cap, u, a, ev, u') && s' == Wrap(u')
    ensures Inv(cap, u', pushed + PushOf(ev), popped + PopOf(ev))
  {
    StepCommutes(cap, u, a, pushed, popped);
    u' := Apply(Unbounded, cap, u, a);
    StepKeepsInv(cap, u, a, ev, u', pushed, popped);
  }

  lemma OneMoreEvent<T>(events: seq<Event<T>>, n: nat)
    requires 0 < n <= |events|
    ensures AllPushed(events[..n]) == AllPushed(events[..n - 1]) + PushOf(events[n - 1])
    ensures AllPopped(events[..n]) == AllPopped(events[..n - 1]) + PopOf(events[n - 1])
  {
    assert events[..n][..n - 1] == events[..n - 1];
  }

  /** The invariant holds in every state of every run of the unbounded ring. */
  lemma {:induction false} InvAlong<T>(cap: nat, us: seq<State<T>>, actions: seq<Action<T>>, events: seq<Event<T>>,
                                       n: nat)
    requires Path(Unbounded, cap, us, actions, events) && Init(cap, us[0])
    requires n <= |events|
    ensures Inv(cap, us[n], AllPushed(events[..n]), AllPopped(events[..n]))
  {
    if n == 0 {
      InitRefines(cap, us[0]);
    } else {
      InvAlong(cap, us, actions, events, n - 1);
      OneMoreEvent(events, n);
      assert Step(Unbounded, cap, us[n - 1], actions[n - 1], events[n - 1], us[n]);
      StepKeepsInv(cap, us[n - 1], actions[n - 1], events[n - 1], us[n],
                   AllPushed(events[..n - 1]), AllPopped(events[..n - 1]));
    }
  }

  lemma PathPrefix<T>(w: Arithmetic, cap: nat, states: seq<State<T>>, actions: seq<Action<T>>, events: seq<Event<T>>,
                      n: nat)
    requires Path(w, cap, states, actions, events) && n <= |events|
    ensures Path(w, cap, states[..n + 1], actions[..n], events[..n])
  {
  }

  lemma PathExtend<T>(w: Arithmetic, cap: nat, states: seq<State<T>>, actions: seq<Action<T>>, events: seq<Event<T>>,
                      a: Action<T>, ev: Event<T>, s': State<T>)
    requires Path(w, cap, states, actions, events) && Step(w, cap, states[|events|], a, ev, s')
    ensures Path(w, cap, states + [s'], actions + [a], events + [ev])
  {
    forall i | 0 <= i < |events| + 1
      ensures Step(w, cap, (states + [s'])[i], (actions + [a])[i], (events + [ev])[i], (states + [s'])[i + 1])
    {
      if i < |events| {
        assert Step(w, cap, states[i], actions[i], events[i], states[i + 1]);
      }
    }
  }

  predicate IsWrapOf<T(==)>(states: seq<State<T>>, us: seq<State<T>>) {
    |states| == |us| && forall i :: 0 <= i < |states| ==> states[i] == Wrap(us[i])
  }

  lemma TwinStep<T>(cap: nat, us: seq<State<T>>, actions: seq<Action<T>>, events: seq<Event<T>>,
                    a: Action<T>, ev: Event<T>, s': State<T>)
    returns (u': State<T>)
    requires IsCapacity(cap) && cap < W
    requires Path(Unbounded, cap, us, actions, events) && Init(cap, us[0])
    requires Step(Word, cap, Wrap(us[|events|]), a, ev, s')
    ensures Step(Unbounded, cap, us[|events|], a, ev, u') && s' == Wrap(u')
  {
    var n := |events|;
    InvAlong(cap, us, actions, events, n);
    u' := StepRefines(cap, us[n], a, ev, s', AllPushed(events[..n]), AllPopped(events[..n]));
  }

  /** Every run of the 64-bit ring, however long, is the wrapped image of a run of the unbounded
      ring under the same schedule and with the same events. */
  lemma {:induction false} RunRefines<T>(cap: nat, states: seq<State<T>>, actions: seq<Action<T>>,
                                         events: seq<Event<T>>)
    returns (us: seq<State<T>>)
    requires IsCapacity(cap) && cap < W
    requires Path(Word, cap, states, actions, events) && Init(cap, states[0])
    ensures Path(Unbounded, cap, us, actions, events) && us[0] == states[0]
    ensures IsWrapOf(states, us)
    decreases |events|
  {
    if events == [] {
      InitRefines(cap, states[0]);
      us := states;
    } else {
      var n := |events| - 1;
      PathPrefix(Word, cap, states, actions, events, n);
      var us0 := RunRefines(cap, states[..n + 1], actions[..n], events[..n]);
      assert Step(Word, cap, Wrap(us0[n]), actions[n], events[n], states[n + 1]) by {
        assert states[n] == states[..n + 1][n] == Wrap(us0[n]);
      }
      var u' := TwinStep(cap, us0, actions[..n], events[..n], actions[n], events[n], states[n + 1]);
      PathExtend(Unbounded, cap, us0, actions[..n], events[..n], actions[n], events[n], u');
      us := us0 + [u'];
      assert actions == actions[..n] + [actions[n]];
      assert events == events[..n] + [events[n]] && states == states[..n + 1] + [states[n + 1]];
    }
  }
}
