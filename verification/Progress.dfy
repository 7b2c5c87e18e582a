/** What can still happen: as long as no thread has seen the stop, everything generated can still be
    carried to its report; and once threads see it, they end after a few steps of their own. */
module Progress {
  import opened Bits
  import opened Messages
  import Ring
  import RingTheorems
  import RingWrap
  import P = Pipeline
  import C = Conversation
  import S = System

  // ------------------------------------------------------------- one call on a ring

  /** Steps a push still needs, counting the call itself. */
  function PushLeft<T>(pp: Ring.ProducerPc<T>): nat {
    match pp case PIdle => 4 case PRefresh(_, _) => 3 case PWrite(_, _) => 2 case PStore(_, _) => 1
  }

  function PopLeft<T>(cp: Ring.ConsumerPc<T>): nat {
    match cp case CIdle => 4 case CRefresh(_) => 3 case CRead(_) => 2 case CStore(_, _) => 1
  }

  /** The step of the producer that brings its push further when the ring has room. */
  lemma PushCanGoOn<T>(h: P.Hop<T>, u: Ring.State<T>, item: T) returns (a: Ring.Action<T>)
    requires P.Linked(h, u) && P.Holds(h, item) && |h.pushed| - |h.popped| < P.CAP
    ensures Ring.ByProducer(a) && P.CanStep(h, a) && (a.PushCall? ==> a.item == item)
    ensures P.EventAt(h, a).Pushed? ||
            (P.EventAt(h, a).Tau? && PushLeft(P.HopStep(h, a).ring.pp) < PushLeft(h.ring.pp))
  {
    a := match u.pp
      case PIdle => Ring.PushCall(item)
      case PRefresh(_, _) => Ring.PushRefresh(|h.popped|)
      case PWrite(t, x) => Ring.PushWrite(u.buf[Ring.Slot(Ring.Unbounded, P.CAP, t) := x])
      case PStore(_, _) => Ring.PushStore;
    P.CapIsCapacity();
    RingWrap.StepCommutes(P.CAP, u, a, h.pushed, h.popped);
  }

  /** The step of the consumer that brings its pop further when the ring is not empty. */
  lemma PopCanGoOn<T>(h: P.Hop<T>, u: Ring.State<T>) returns (a: Ring.Action<T>)
    requires P.Linked(h, u) && |h.popped| < |h.pushed|
    ensures !Ring.ByProducer(a) && P.CanStep(h, a)
    ensures P.EventAt(h, a).Popped? ||
            (P.EventAt(h, a).Tau? && PopLeft(P.HopStep(h, a).ring.cp) < PopLeft(h.ring.cp))
  {
    a := match u.cp
      case CIdle => Ring.PopCall
      case CRefresh(_) => Ring.PopRefresh(|h.pushed|)
      case CRead(k) => Ring.PopRead(u.buf[Ring.Slot(Ring.Unbounded, P.CAP, k)])
      case CStore(_, _) => Ring.PopStore;
    P.CapIsCapacity();
    RingWrap.StepCommutes(P.CAP, u, a, h.pushed, h.popped);
  }

  /** A step of one side of a ring ends its call or brings it closer to its end, and leaves the other side. */
  lemma ProducerStepLowers<T>(h: P.Hop<T>, a: Ring.Action<T>)
    requires P.CanStep(h, a) && Ring.ByProducer(a)
    ensures P.HopStep(h, a).ring.cp == h.ring.cp
    ensures match P.EventAt(h, a)
            case Tau => PushLeft(P.HopStep(h, a).ring.pp) < PushLeft(h.ring.pp)
            case Pushed(_) => true
            case PushFailed(_) => true
            case _ => false
  {
  }

  lemma ConsumerStepLowers<T>(h: P.Hop<T>, a: Ring.Action<T>)
    requires P.CanStep(h, a) && !Ring.ByProducer(a)
    ensures P.HopStep(h, a).ring.pp == h.ring.pp
    ensures match P.EventAt(h, a)
            case Tau => PopLeft(P.HopStep(h, a).ring.cp) < PopLeft(h.ring.cp)
            case Popped(_) => true
            case PopFailed(_) => true
            case _ => false
  {
  }

  lemma ProducerCanStep<T>(h: P.Hop<T>, u: Ring.State<T>, item: T) returns (a: Ring.Action<T>)
    requires P.Linked(h, u)
    ensures Ring.ByProducer(a) && P.CanStep(h, a) && (a.PushCall? ==> a.item == item)
  {
    var push, pop := RingTheorems.CallsAreWaitFree(Ring.Word, P.CAP, h.ring);
    a := if h.ring.pp.PIdle? then Ring.PushCall(item) else push;
  }

  lemma ConsumerCanStep<T>(h: P.Hop<T>, u: Ring.State<T>) returns (a: Ring.Action<T>)
    requires P.Linked(h, u)
    ensures !Ring.ByProducer(a) && P.CanStep(h, a)
  {
    var push, pop := RingTheorems.CallsAreWaitFree(Ring.Word, P.CAP, h.ring);
    a := if h.ring.cp.CIdle? then Ring.PopCall else pop;
  }

  // ------------------------------------------------------------- carrying everything through the pipeline

  predicate Unstopped(s: P.State) {
    !s.md.stopped && !s.st.stopped && !s.gw.stopped && !s.gw.pc.GwDone?
  }

  /** Hand-overs still to come for what has been generated: four for each tick in all. */
  function Backlog(s: P.State): int {
    4 * |s.md.generated| - |s.hop1.pushed| - |s.hop1.popped| - |s.hop2.pushed| - |s.hop2.popped|
  }

  function MdLeft(s: P.State): nat {
    match s.md.pc case MdRetry(_) => 5 case MdPush(_) => PushLeft(s.hop1.ring.pp) case _ => 0
  }

  function StLeft(s: P.State): nat {
    match s.st.pc
    case StTop => 5
    case StPop => PopLeft(s.hop1.ring.cp)
    case StRetry(_) => 5
    case StPush(_) => PushLeft(s.hop2.ring.pp)
    case StDone => 0
  }

  function GwLeft(s: P.State): nat {
    match s.gw.pc case GwTop => 5 case GwPop => PopLeft(s.hop2.ring.cp) case GwDone => 0
  }

  /** Steps until the threads' next hand-overs. */
  function Left(s: P.State): nat {
    MdLeft(s) + StLeft(s) + GwLeft(s)
  }

  /** The step hands something over, or brings some thread closer to it; nothing new is generated. */
  predicate Lowers(s: P.State, s': P.State) {
    && Unstopped(s') && s'.md.generated == s.md.generated
    && (Backlog(s') < Backlog(s) || (Backlog(s') == Backlog(s) && Left(s') < Left(s)))
  }

  lemma GwPopLowers(rule: P.Rule, s: P.State, d: Ring.Action<Order>)
    requires Unstopped(s) && s.gw.pc.GwPop? && P.Enabled(s, P.GwPopRing(d))
    requires P.EventAt(s.hop2, d).Popped? ||
             (P.EventAt(s.hop2, d).Tau? && PopLeft(P.HopStep(s.hop2, d).ring.cp) < PopLeft(s.hop2.ring.cp))
    ensures Lowers(s, P.Apply(rule, s, P.GwPopRing(d)))
  {
    ConsumerStepLowers(s.hop2, d);
  }

  lemma GatewayGoesOn(rule: P.Rule, s: P.State, u1: Ring.State<Tick>, u2: Ring.State<Order>) returns (act: P.Action)
    requires P.Inv(rule, s, u1, u2) && Unstopped(s) && |s.hop2.popped| < |s.hop2.pushed|
    ensures P.Enabled(s, act) && Lowers(s, P.Apply(rule, s, act))
  {
    if s.gw.pc.GwTop? {
      act := P.GwCheck(true);
    } else {
      var d := PopCanGoOn(s.hop2, u2);
      act := P.GwPopRing(d);
      GwPopLowers(rule, s, d);
    }
  }

  lemma StPushLowers(rule: P.Rule, s: P.State, c: Ring.Action<Order>)
    requires Unstopped(s) && s.st.pc.StPush? && P.Enabled(s, P.StPushRing(c))
    requires P.EventAt(s.hop2, c).Pushed? ||
             (P.EventAt(s.hop2, c).Tau? && PushLeft(P.HopStep(s.hop2, c).ring.pp) < PushLeft(s.hop2.ring.pp))
    ensures Lowers(s, P.Apply(rule, s, P.StPushRing(c)))
  {
    ProducerStepLowers(s.hop2, c);
  }

  lemma StrategyPushes(rule: P.Rule, s: P.State, u1: Ring.State<Tick>, u2: Ring.State<Order>) returns (act: P.Action)
    requires P.Inv(rule, s, u1, u2) && Unstopped(s) && |s.hop2.popped| == |s.hop2.pushed|
    requires s.st.pc.StPush? || s.st.pc.StRetry?
    ensures P.Enabled(s, act) && Lowers(s, P.Apply(rule, s, act))
  {
    if s.st.pc.StRetry? {
      act := P.StRecheck(true);
    } else {
      var c := PushCanGoOn(s.hop2, u2, s.st.pc.order);
      act := P.StPushRing(c);
      StPushLowers(rule, s, c);
    }
  }

  lemma StPopLowers(rule: P.Rule, s: P.State, b: Ring.Action<Tick>)
    requires Unstopped(s) && s.st.pc.StPop? && P.Enabled(s, P.StPopRing(b))
    requires P.EventAt(s.hop1, b).Popped? ||
             (P.EventAt(s.hop1, b).Tau? && PopLeft(P.HopStep(s.hop1, b).ring.cp) < PopLeft(s.hop1.ring.cp))
    ensures Lowers(s, P.Apply(rule, s, P.StPopRing(b)))
  {
    ConsumerStepLowers(s.hop1, b);
  }

  lemma StrategyPops(rule: P.Rule, s: P.State, u1: Ring.State<Tick>, u2: Ring.State<Order>) returns (act: P.Action)
    requires P.Inv(rule, s, u1, u2) && Unstopped(s) && |s.hop1.popped| < |s.hop1.pushed|
    requires s.st.pc.StTop? || s.st.pc.StPop?
    ensures P.Enabled(s, act) && Lowers(s, P.Apply(rule, s, act))
  {
    if s.st.pc.StTop? {
      act := P.StCheck(true);
    } else {
      var b := PopCanGoOn(s.hop1, u1);
      act := P.StPopRing(b);
      StPopLowers(rule, s, b);
    }
  }

  lemma MdPushLowers(rule: P.Rule, s: P.State, a: Ring.Action<Tick>)
    requires Unstopped(s) && s.md.pc.MdPush? && P.Enabled(s, P.MdRing(a))
    requires P.EventAt(s.hop1, a).Pushed? ||
             (P.EventAt(s.hop1, a).Tau? && PushLeft(P.HopStep(s.hop1, a).ring.pp) < PushLeft(s.hop1.ring.pp))
    ensures Lowers(s, P.Apply(rule, s, P.MdRing(a)))
  {
    ProducerStepLowers(s.hop1, a);
  }

  lemma MarketDataPushes(rule: P.Rule, s: P.State, u1: Ring.State<Tick>, u2: Ring.State<Order>) returns (act: P.Action)
    requires P.Inv(rule, s, u1, u2) && Unstopped(s) && |s.hop1.popped| == |s.hop1.pushed|
    requires s.md.pc.MdPush? || s.md.pc.MdRetry?
    ensures P.Enabled(s, act) && Lowers(s, P.Apply(rule, s, act))
  {
    if s.md.pc.MdRetry? {
      act := P.MdRecheck(true);
    } else {
      var a := PushCanGoOn(s.hop1, u1, s.md.pc.tick);
      act := P.MdRing(a);
      MdPushLowers(rule, s, a);
    }
  }

  /** While something generated has not reached the gateway, some thread can bring it closer. */
  lemma PipeGoesOn(rule: P.Rule, s: P.State, u1: Ring.State<Tick>, u2: Ring.State<Order>) returns (act: P.Action)
    requires P.Inv(rule, s, u1, u2) && Unstopped(s) && |s.hop2.popped| < |s.md.generated|
    ensures P.Enabled(s, act) && Lowers(s, P.Apply(rule, s, act))
  {
    P.LinkedFacts(s.hop1, u1);
    P.LinkedFacts(s.hop2, u2);
    if |s.hop2.popped| < |s.hop2.pushed| {
      act := GatewayGoesOn(rule, s, u1, u2);
    } else if s.st.pc.StPush? || s.st.pc.StRetry? {
      act := StrategyPushes(rule, s, u1, u2);
    } else if |s.hop1.popped| < |s.hop1.pushed| {
      act := StrategyPops(rule, s, u1, u2);
    } else {
      act := MarketDataPushes(rule, s, u1, u2);
    }
  }

  lemma BacklogIsNatural(rule: P.Rule, s: P.State, u1: Ring.State<Tick>, u2: Ring.State<Order>)
    requires P.Inv(rule, s, u1, u2)
    ensures Backlog(s) >= 0
  {
    P.LinkedFacts(s.hop1, u1);
    P.LinkedFacts(s.hop2, u2);
  }

  // ------------------------------------------------------------- the whole system

  lemma PathPrepend(rule: P.Rule, proto: C.Protocol, s: S.State, a: S.Action, states: seq<S.State>,
                    actions: seq<S.Action>)
    requires S.Path(rule, proto, states, actions) && S.Enabled(proto, s, a) && states[0] == S.Apply(rule, proto, s, a)
    ensures S.Path(rule, proto, [s] + states, [a] + actions)
  {
    forall i | 0 <= i < |actions| + 1
      ensures S.Enabled(proto, ([s] + states)[i], ([a] + actions)[i])
      ensures ([s] + states)[i + 1] == S.Apply(rule, proto, ([s] + states)[i], ([a] + actions)[i])
    {
      if i > 0 {
        assert ([s] + states)[i] == states[i - 1] && ([a] + actions)[i] == actions[i - 1];
      }
    }
  }

  /** The system's step for a step of the pipeline. */
  function Joint(s: S.State, act: P.Action): S.Action
    requires P.Enabled(s.pipe, act)
  {
    if S.HandsOver(s.pipe, act) then S.PopAndSend(act.d, 0) else S.Internal(act)
  }

  lemma JointStep(rule: P.Rule, proto: C.Protocol, s: S.State) returns (a: S.Action)
    requires S.Fits(rule, proto) && S.Inv(rule, proto, s) && Unstopped(s.pipe)
    requires |s.pipe.hop2.popped| < |s.pipe.md.generated|
    ensures S.Enabled(proto, s, a) && Lowers(s.pipe, S.Apply(rule, proto, s, a).pipe)
    ensures Backlog(s.pipe) >= 0
  {
    var u1, u2 :| P.Inv(rule, s.pipe, u1, u2);
    BacklogIsNatural(rule, s.pipe, u1, u2);
    var act := PipeGoesOn(rule, s.pipe, u1, u2);
    assert |s.conv.pending| == C.PENDING;
    a := Joint(s, act);
  }

  /** The pipeline can deliver all it has generated to the gateway. */
  lemma {:induction false} Deliver(rule: P.Rule, proto: C.Protocol, s: S.State)
    returns (states: seq<S.State>, actions: seq<S.Action>)
    requires S.Fits(rule, proto) && S.Inv(rule, proto, s) && Unstopped(s.pipe)
    ensures S.Path(rule, proto, states, actions) && states[0] == s
    ensures var last := states[|actions|];
            && S.Inv(rule, proto, last) && last.pipe.md.generated == s.pipe.md.generated
            && |last.pipe.hop2.popped| == |s.pipe.md.generated| && !last.pipe.gw.pc.GwDone?
    decreases Backlog(s.pipe), Left(s.pipe)
  {
    if |s.pipe.hop2.popped| == |s.pipe.md.generated| {
      return [s], [];
    }
    assert |s.pipe.hop2.popped| < |s.pipe.md.generated| by {
      var u1, u2 :| P.Inv(rule, s.pipe, u1, u2);
      P.PrefixHolds(rule, s.pipe, u1, u2);
    }
    var a := JointStep(rule, proto, s);
    S.StepKeepsInv(rule, proto, s, a);
    var s' := S.Apply(rule, proto, s, a);
    var states', actions' := Deliver(rule, proto, s');
    PathPrepend(rule, proto, s, a, states', actions');
    states, actions := [s] + states', [a] + actions';
    assert states[|actions|] == states'[|actions'|];
  }

  function PopToGo(s: P.State): nat {
    if s.gw.pc.GwPop? then PopLeft(s.hop2.ring.cp) else 0
  }

  /** A gateway in the middle of a pop from an empty ring can return from it. */
  lemma {:induction false} ReturnToTop(rule: P.Rule, proto: C.Protocol, s: S.State)
    returns (states: seq<S.State>, actions: seq<S.Action>)
    requires S.Fits(rule, proto) && S.Inv(rule, proto, s) && !s.pipe.gw.pc.GwDone?
    requires |s.pipe.hop2.popped| == |s.pipe.md.generated|
    ensures S.Path(rule, proto, states, actions) && states[0] == s
    ensures var last := states[|actions|];
            && S.Inv(rule, proto, last) && last.pipe.gw.pc.GwTop? && last.pipe.md.generated == s.pipe.md.generated
            && |last.pipe.hop2.popped| == |s.pipe.md.generated|
    decreases PopToGo(s.pipe)
  {
    if s.pipe.gw.pc.GwTop? {
      return [s], [];
    }
    var d := PopReturns(rule, s.pipe);
    var a := S.Internal(P.GwPopRing(d));
    S.StepKeepsInv(rule, proto, s, a);
    var s' := S.Apply(rule, proto, s, a);
    var states', actions' := ReturnToTop(rule, proto, s');
    PathPrepend(rule, proto, s, a, states', actions');
    states, actions := [s] + states', [a] + actions';
    assert states[|actions|] == states'[|actions'|];
  }

  /** A pop from an empty ring takes nothing, and goes on until it fails. */
  lemma PopReturns(rule: P.Rule, s: P.State) returns (d: Ring.Action<Order>)
    requires S.PipeInv(rule, s) && s.gw.pc.GwPop? && |s.hop2.popped| == |s.md.generated|
    ensures P.Enabled(s, P.GwPopRing(d)) && !S.HandsOver(s, P.GwPopRing(d))
    ensures var s' := P.Apply(rule, s, P.GwPopRing(d));
            && s'.md == s.md && s'.hop2.popped == s.hop2.popped && !s'.gw.pc.GwDone?
            && PopToGo(s') < PopToGo(s)
  {
    var u1, u2 :| P.Inv(rule, s, u1, u2);
    P.LinkedFacts(s.hop1, u1);
    P.LinkedFacts(s.hop2, u2);
    d := ConsumerCanStep(s.hop2, u2);
    ConsumerStepLowers(s.hop2, d);
    var u := P.PopStep(s.hop2, u2, d);
  }

  /** A run of the network alone, as a run of the system. */
  lemma {:induction false} NetworkRun(rule: P.Rule, proto: C.Protocol, pipe: P.State, convs: seq<C.State>,
                                      steps: seq<C.Action>)
    returns (states: seq<S.State>, actions: seq<S.Action>)
    requires C.Path(proto, convs, steps) && C.NoSend(steps) && pipe.gw.pc.GwTop?
    ensures S.Path(rule, proto, states, actions) && states[0] == S.State(pipe, convs[0])
    ensures states[|actions|] == S.State(pipe, convs[|steps|])
  {
    states := seq(|convs|, i requires 0 <= i < |convs| => S.State(pipe, convs[i]));
    actions := seq(|steps|, i requires 0 <= i < |steps| => S.Network(steps[i]));
    forall i | 0 <= i < |actions|
      ensures S.Enabled(proto, states[i], actions[i])
      ensures states[i + 1] == S.Apply(rule, proto, states[i], actions[i])
    {
      assert C.Enabled(proto, convs[i], steps[i]);
    }
  }

  lemma {:induction false} PathConcat(rule: P.Rule, proto: C.Protocol, xs: seq<S.State>, xacts: seq<S.Action>,
                                      ys: seq<S.State>, bs: seq<S.Action>)
    requires S.Path(rule, proto, xs, xacts) && S.Path(rule, proto, ys, bs) && xs[|xacts|] == ys[0]
    ensures S.Path(rule, proto, xs + ys[1..], xacts + bs) && (xs + ys[1..])[|xacts + bs|] == ys[|bs|]
  {
    var zs, cs := xs + ys[1..], xacts + bs;
    forall i | 0 <= i < |cs|
      ensures S.Enabled(proto, zs[i], cs[i]) && zs[i + 1] == S.Apply(rule, proto, zs[i], cs[i])
    {
      if i >= |xacts| {
        assert zs[i] == ys[i - |xacts|] && zs[i + 1] == ys[i - |xacts| + 1] && cs[i] == bs[i - |xacts|];
      }
    }
  }

  /** From every state the system's invariant allows and in which no thread has seen a stop, some
      continuation brings every tick generated so far its report. */
  lemma EveryTickCanBeReported(rule: P.Rule, proto: C.Protocol, s: S.State, ts: string)
    returns (states: seq<S.State>, actions: seq<S.Action>)
    requires S.Fits(rule, proto) && S.Inv(rule, proto, s) && Unstopped(s.pipe) && proto.stamp(ts)
    ensures S.Path(rule, proto, states, actions) && states[0] == s
    ensures var last := states[|actions|];
            && last.pipe.md.generated == s.pipe.md.generated
            && |last.conv.fills| == |s.pipe.md.generated|
  {
    var xs, xacts := Deliver(rule, proto, s);
    var ws, wacts := ReturnToTop(rule, proto, xs[|xacts|]);
    PathConcat(rule, proto, xs, xacts, ws, wacts);
    var mid := ws[|wacts|];
    var handled, answers :| C.Inv(proto, mid.conv, handled, answers);
    var convs, steps := C.Settle(proto, mid.conv, handled, answers, ts);
    var ys, yacts := NetworkRun(rule, proto, mid.pipe, convs, steps);
    PathConcat(rule, proto, xs + ws[1..], xacts + wacts, ys, yacts);
    states, actions := xs + ws[1..] + ys[1..], xacts + wacts + yacts;
  }

  // ------------------------------------------------------------- the stop flag along runs

  /** A thread that has seen the stop saw it rightly; the gateway ends with it. */
  predicate FlagInv(s: P.State) {
    && (s.md.stopped || s.st.stopped || s.gw.stopped ==> !s.running)
    && (s.gw.pc.GwDone? <==> s.gw.stopped)
  }

  lemma StepKeepsFlags(rule: P.Rule, s: P.State, act: P.Action)
    requires FlagInv(s) && P.Enabled(s, act)
    ensures FlagInv(P.Apply(rule, s, act))
  {
  }

  lemma {:induction false} FlagsAlong(rule: P.Rule, proto: C.Protocol, states: seq<S.State>, actions: seq<S.Action>,
                                      n: nat)
    requires S.Path(rule, proto, states, actions) && S.Init(states[0]) && n <= |actions|
    ensures FlagInv(states[n].pipe)
  {
    if n > 0 {
      FlagsAlong(rule, proto, states, actions, n - 1);
      var s, a := states[n - 1], actions[n - 1];
      assert S.Enabled(proto, s, a);
      match a
      case Internal(p) => StepKeepsFlags(rule, s.pipe, p);
      case PopAndSend(d, _) => StepKeepsFlags(rule, s.pipe, P.GwPopRing(d));
      case Network(_) =>
    }
  }

  predicate NoneStopped(s: P.State) {
    !s.md.stopped && !s.st.stopped && !s.gw.stopped
  }

  /** At every point of every run at which no thread has seen a stop, every tick generated so far can
      still get its report. */
  lemma TicksCanBeReported(rule: P.Rule, proto: C.Protocol, states: seq<S.State>, actions: seq<S.Action>, n: nat,
                           ts: string)
    returns (more: seq<S.State>, steps: seq<S.Action>)
    requires S.Fits(rule, proto) && S.Path(rule, proto, states, actions) && S.Init(states[0]) && n <= |actions|
    requires proto.stamp(ts) && NoneStopped(states[n].pipe)
    ensures S.Path(rule, proto, more, steps) && more[0] == states[n]
    ensures var ticks, last := states[n].pipe.md.generated, more[|steps|];
            last.pipe.md.generated == ticks && |last.conv.fills| == |ticks|
  {
    S.InvAlong(rule, proto, states, actions, n);
    FlagsAlong(rule, proto, states, actions, n);
    more, steps := EveryTickCanBeReported(rule, proto, states[n], ts);
  }

  // ------------------------------------------------------------- threads end after a stop

  predicate ByMd(act: P.Action) {
    act.MdCheck? || act.MdRing? || act.MdRecheck?
  }

  predicate BySt(act: P.Action) {
    act.StCheck? || act.StPopRing? || act.StPushRing? || act.StRecheck?
  }

  predicate ByGw(act: P.Action) {
    act.GwCheck? || act.GwPopRing?
  }

  /** Loads of the flag return that it has been cleared. */
  predicate SeesStop(act: P.Action) {
    match act
    case MdCheck(go, _) => !go
    case MdRecheck(go) => !go
    case StCheck(go) => !go
    case StRecheck(go) => !go
    case GwCheck(go) => !go
    case _ => true
  }

  /** Own steps each thread still takes once its loads of the flag return the stop. */
  function MdToGo(s: P.State): nat {
    match s.md.pc
    case MdDone => 0
    case MdTop => 1
    case MdRetry(_) => 2
    case MdPush(_) => 2 + PushLeft(s.hop1.ring.pp)
  }

  function StToGo(s: P.State): nat {
    match s.st.pc
    case StDone => 0
    case StTop => 1
    case StRetry(_) => 2
    case StPush(_) => 2 + PushLeft(s.hop2.ring.pp)
    case StPop => 6 + PopLeft(s.hop1.ring.cp)
  }

  function GwToGo(s: P.State): nat {
    match s.gw.pc
    case GwDone => 0
    case GwTop => 1
    case GwPop => 1 + PopLeft(s.hop2.ring.cp)
  }

  lemma RingStepLowers(s: P.State, act: P.Action)
    requires P.Enabled(s, act)
    ensures act.MdRing? ==> P.HopStep(s.hop1, act.a).ring.cp == s.hop1.ring.cp
    ensures act.StPopRing? ==> P.HopStep(s.hop1, act.b).ring.pp == s.hop1.ring.pp
    ensures act.StPushRing? ==> P.HopStep(s.hop2, act.c).ring.cp == s.hop2.ring.cp
    ensures act.GwPopRing? ==> P.HopStep(s.hop2, act.d).ring.pp == s.hop2.ring.pp
  {
  }

  lemma OthersUndisturbed(rule: P.Rule, s: P.State, act: P.Action)
    requires P.Enabled(s, act)
    ensures !ByMd(act) ==> MdToGo(P.Apply(rule, s, act)) == MdToGo(s)
    ensures !BySt(act) ==> StToGo(P.Apply(rule, s, act)) == StToGo(s)
    ensures !ByGw(act) ==> GwToGo(P.Apply(rule, s, act)) == GwToGo(s)
  {
    RingStepLowers(s, act);
  }

  lemma MdStopIsPrompt(rule: P.Rule, s: P.State, act: P.Action)
    requires P.Enabled(s, act) && SeesStop(act) && ByMd(act)
    ensures MdToGo(P.Apply(rule, s, act)) < MdToGo(s)
  {
    if act.MdRing? {
      ProducerStepLowers(s.hop1, act.a);
    }
  }

  lemma StStopIsPrompt(rule: P.Rule, s: P.State, act: P.Action)
    requires P.Enabled(s, act) && SeesStop(act) && BySt(act)
    ensures StToGo(P.Apply(rule, s, act)) < StToGo(s)
  {
    if act.StPopRing? {
      ConsumerStepLowers(s.hop1, act.b);
    } else if act.StPushRing? {
      ProducerStepLowers(s.hop2, act.c);
    }
  }

  lemma GwStopIsPrompt(rule: P.Rule, s: P.State, act: P.Action)
    requires P.Enabled(s, act) && SeesStop(act) && ByGw(act)
    ensures GwToGo(P.Apply(rule, s, act)) < GwToGo(s)
  {
    if act.GwPopRing? {
      ConsumerStepLowers(s.hop2, act.d);
    }
  }

  /** Every own step of a thread that sees the stop brings it closer to its end, which is at most ten
      steps away, and no other thread sets it back; whatever the rings hold. */
  lemma StopIsPrompt(rule: P.Rule, s: P.State, act: P.Action)
    requires P.Enabled(s, act) && SeesStop(act)
    ensures MdToGo(s) <= 6 && StToGo(s) <= 10 && GwToGo(s) <= 5
    ensures var s' := P.Apply(rule, s, act);
            && (if ByMd(act) then MdToGo(s') < MdToGo(s) else MdToGo(s') == MdToGo(s))
            && (if BySt(act) then StToGo(s') < StToGo(s) else StToGo(s') == StToGo(s))
            && (if ByGw(act) then GwToGo(s') < GwToGo(s) else GwToGo(s') == GwToGo(s))
  {
    OthersUndisturbed(rule, s, act);
    if ByMd(act) {
      MdStopIsPrompt(rule, s, act);
    } else if BySt(act) {
      StStopIsPrompt(rule, s, act);
    } else if ByGw(act) {
      GwStopIsPrompt(rule, s, act);
    }
  }

  /** After the stop no thread is ever stuck before its end. */
  lemma ThreadsCanStop(rule: P.Rule, s: P.State, u1: Ring.State<Tick>, u2: Ring.State<Order>)
    returns (m: P.Action, t: P.Action, g: P.Action)
    requires P.Inv(rule, s, u1, u2) && !s.running
    ensures !s.md.pc.MdDone? ==> ByMd(m) && P.Enabled(s, m) && SeesStop(m)
    ensures !s.st.pc.StDone? ==> BySt(t) && P.Enabled(s, t) && SeesStop(t)
    ensures !s.gw.pc.GwDone? ==> ByGw(g) && P.Enabled(s, g) && SeesStop(g)
  {
    m, t, g := P.MdCheck(false, 0), P.StCheck(false), P.GwCheck(false);
    match s.md.pc {
      case MdPush(tick) => var a := ProducerCanStep(s.hop1, u1, tick); m := P.MdRing(a);
      case MdRetry(_) => m := P.MdRecheck(false);
      case _ =>
    }
    match s.st.pc {
      case StPop => var b := ConsumerCanStep(s.hop1, u1); t := P.StPopRing(b);
      case StPush(o) => var c := ProducerCanStep(s.hop2, u2, o); t := P.StPushRing(c);
      case StRetry(_) => t := P.StRecheck(false);
      case _ =>
    }
    if s.gw.pc.GwPop? {
      var d := ConsumerCanStep(s.hop2, u2);
      g := P.GwPopRing(d);
    }
  }

  /** A thread that has seen the stop ends with its very next step. */
  lemma SeenStopEnds(rule: P.Rule, s: P.State, act: P.Action, u1: Ring.State<Tick>, u2: Ring.State<Order>)
    requires P.Inv(rule, s, u1, u2) && FlagInv(s) && P.Enabled(s, act)
    ensures var s' := P.Apply(rule, s, act);
            && (s.md.stopped && ByMd(act) ==> s'.md.pc.MdDone?)
            && (s.st.stopped && BySt(act) ==> s'.st.pc.StDone?)
            && (s.gw.stopped ==> !ByGw(act) && s'.gw.pc.GwDone?)
  {
  }

  // ------------------------------------------------------------- shutting down

  predicate AllDone(s: P.State) {
    s.md.pc.MdDone? && s.st.pc.StDone? && s.gw.pc.GwDone?
  }

  function ToGo(s: P.State): nat {
    MdToGo(s) + StToGo(s) + GwToGo(s)
  }

  lemma PipePathPrepend(rule: P.Rule, s: P.State, act: P.Action, states: seq<P.State>, actions: seq<P.Action>)
    requires P.Path(rule, states, actions) && P.Enabled(s, act) && states[0] == P.Apply(rule, s, act)
    ensures P.Path(rule, [s] + states, [act] + actions)
  {
    forall i | 0 <= i < |actions| + 1
      ensures P.Enabled(([s] + states)[i], ([act] + actions)[i])
      ensures ([s] + states)[i + 1] == P.Apply(rule, ([s] + states)[i], ([act] + actions)[i])
    {
      if i > 0 {
        assert ([s] + states)[i] == states[i - 1] && ([act] + actions)[i] == actions[i - 1];
      }
    }
  }

  /** Some thread takes a step towards its end. */
  lemma SomeThreadSteps(rule: P.Rule, s: P.State) returns (act: P.Action)
    requires S.PipeInv(rule, s) && !s.running && !AllDone(s)
    ensures P.Enabled(s, act) && !P.Apply(rule, s, act).running && ToGo(P.Apply(rule, s, act)) < ToGo(s)
  {
    var u1, u2 :| P.Inv(rule, s, u1, u2);
    var m, t, g := ThreadsCanStop(rule, s, u1, u2);
    act := if !s.md.pc.MdDone? then m else if !s.st.pc.StDone? then t else g;
    StopIsPrompt(rule, s, act);
  }

  lemma {:induction false} RunDown(rule: P.Rule, s: P.State) returns (states: seq<P.State>, actions: seq<P.Action>)
    requires S.PipeInv(rule, s) && !s.running
    ensures P.Path(rule, states, actions) && states[0] == s && AllDone(states[|actions|])
    ensures |actions| <= ToGo(s)
    decreases ToGo(s)
  {
    if AllDone(s) {
      return [s], [];
    }
    var act := SomeThreadSteps(rule, s);
    S.PipeKeepsInv(rule, s, act);
    var s' := P.Apply(rule, s, act);
    var states', actions' := RunDown(rule, s');
    PipePathPrepend(rule, s, act, states', actions');
    states, actions := [s] + states', [act] + actions';
    assert states[|actions|] == states'[|actions'|];
  }

  /** Whatever the threads are doing and whatever the rings hold, a stop can be followed by the end of all
      three threads within twenty-one steps. */
  lemma StopEndsAll(rule: P.Rule, s: P.State) returns (states: seq<P.State>, actions: seq<P.Action>)
    requires S.PipeInv(rule, s)
    ensures P.Path(rule, states, actions) && states[0] == s && actions != [] && actions[0] == P.Stop
    ensures AllDone(states[|actions|]) && |actions| <= 22
  {
    S.PipeKeepsInv(rule, s, P.Stop);
    var s' := P.Apply(rule, s, P.Stop);
    var states', actions' := RunDown(rule, s');
    PipePathPrepend(rule, s, P.Stop, states', actions');
    states, actions := [s] + states', [P.Stop] + actions';
    assert states[|actions|] == states'[|actions'|];
  }
}
