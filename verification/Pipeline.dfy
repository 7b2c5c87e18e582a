/** The engine's three hot threads, the two rings between them and the stop flag, as one machine.
    Every ring access is a separate step of the 64-bit ring machine. The stop flag is read with relaxed
    loads: a thread may miss a stop for any time, but once it has seen it, it keeps seeing it. The
    strategy's rule (decide, then encode) is a parameter, as it is in the program. */
module Pipeline {
  import opened Bits
  import opened Messages
  import Ring
  import RingWrap

  const CAP: nat := 4096

  type Rule = (Tick, U64) -> Order

  /** Where the market-data thread stands; `MdPush` is inside `try_push`, `MdRetry` just after it failed. */
  datatype MdPc = MdTop | MdPush(tick: Tick) | MdRetry(tick: Tick) | MdDone

  datatype MarketData = MarketData(pc: MdPc, stopped: bool, sym: nat, seqno: nat, generated: seq<Tick>)

  datatype StPc = StTop | StPop | StPush(order: Order) | StRetry(order: Order) | StDone

  datatype Strategy = Strategy(pc: StPc, stopped: bool, clordid: U64)

  datatype GwPc = GwTop | GwPop | GwDone

  datatype Gateway = Gateway(pc: GwPc, stopped: bool)

  /** A ring together with the items whose push or pop has completed. */
  datatype Hop<T> = Hop(ring: Ring.State<T>, pushed: seq<T>, popped: seq<T>)

  datatype State = State(running: bool, md: MarketData, hop1: Hop<Tick>, st: Strategy, hop2: Hop<Order>, gw: Gateway)

  datatype Action =
    | Stop
    | MdCheck(go: bool, t0: U64)
    | MdRing(a: Ring.Action<Tick>)
    | MdRecheck(go: bool)
    | StCheck(go: bool)
    | StPopRing(b: Ring.Action<Tick>)
    | StPushRing(c: Ring.Action<Order>)
    | StRecheck(go: bool)
    | GwCheck(go: bool)
    | GwPopRing(d: Ring.Action<Order>)

  /** A relaxed load of the flag by a thread that has or has not seen it false before. */
  predicate MayLoad(running: bool, stopped: bool, go: bool) {
    if go then !stopped else !running
  }

  predicate Fresh<T(==)>(h: Hop<T>) {
    Ring.Init(CAP, h.ring) && h.pushed == [] && h.popped == []
  }

  predicate Init(s: State) {
    && Fresh(s.hop1) && Fresh(s.hop2)
    && s == State(true, MarketData(MdTop, false, 0, 0, []), s.hop1, Strategy(StTop, false, 1), s.hop2,
                  Gateway(GwTop, false))
  }

  // ------------------------------------------------------------- steps of each thread

  predicate CanStep<T(==)>(h: Hop<T>, a: Ring.Action<T>) {
    Ring.Enabled(Ring.Word, CAP, h.ring, a)
  }

  function EventAt<T>(h: Hop<T>, a: Ring.Action<T>): Ring.Event<T>
    requires CanStep(h, a)
  {
    Ring.EventOf(Ring.Word, CAP, h.ring, a)
  }

  function HopStep<T>(h: Hop<T>, a: Ring.Action<T>): Hop<T>
    requires CanStep(h, a)
  {
    var ev := EventAt(h, a);
    Hop(Ring.Apply(Ring.Word, CAP, h.ring, a), h.pushed + Ring.PushOf(ev), h.popped + Ring.PopOf(ev))
  }

  function NextSym(sym: nat): nat {
    (sym + 1) % |SYMBOLS|
  }

  function NextSeq(seqno: nat): nat {
    (seqno + 1) % 0x1_0000_0000
  }

  function MdLoop(m: MarketData, go: bool, t0: U64): MarketData {
    if !go then m.(pc := MdDone, stopped := true) else
    var t := GeneratedTick(t0, m.sym, m.seqno);
    m.(pc := MdPush(t), generated := m.generated + [t])
  }

  function MdAdvance(m: MarketData): MarketData {
    m.(pc := MdTop, sym := NextSym(m.sym), seqno := NextSeq(m.seqno))
  }

  function MdAfter(m: MarketData, ev: Ring.Event<Tick>): MarketData
    requires m.pc.MdPush?
  {
    match ev
    case Pushed(_) => MdAdvance(m)
    case PushFailed(_) => m.(pc := MdRetry(m.pc.tick))
    case _ => m
  }

  function MdAgain(m: MarketData, go: bool): MarketData
    requires m.pc.MdRetry?
  {
    if go then m.(pc := MdPush(m.pc.tick)) else MdAdvance(m).(stopped := true)
  }

  function StLoop(t: Strategy, go: bool): Strategy {
    if go then t.(pc := StPop) else t.(pc := StDone, stopped := true)
  }

  function StAfterPop(rule: Rule, t: Strategy, ev: Ring.Event<Tick>): Strategy {
    match ev
    case Popped(tick) => t.(pc := StPush(rule(tick, t.clordid)))
    case PopFailed(_) => t.(pc := StTop)
    case _ => t
  }

  function StAdvance(t: Strategy): Strategy {
    t.(pc := StTop, clordid := Inc64(t.clordid))
  }

  function StAfterPush(t: Strategy, ev: Ring.Event<Order>): Strategy
    requires t.pc.StPush?
  {
    match ev
    case Pushed(_) => StAdvance(t)
    case PushFailed(_) => t.(pc := StRetry(t.pc.order))
    case _ => t
  }

  function StAgain(t: Strategy, go: bool): Strategy
    requires t.pc.StRetry?
  {
    if go then t.(pc := StPush(t.pc.order)) else StAdvance(t).(stopped := true)
  }

  function GwAfter(g: Gateway, ev: Ring.Event<Order>): Gateway {
    if ev.Popped? || ev.PopFailed? then g.(pc := GwTop) else g
  }

  predicate Enabled(s: State, act: Action) {
    match act
    case Stop => true
    case MdCheck(go, _) => s.md.pc.MdTop? && MayLoad(s.running, s.md.stopped, go)
    case MdRing(a) =>
      s.md.pc.MdPush? && Ring.ByProducer(a) && CanStep(s.hop1, a) && (a.PushCall? ==> a.item == s.md.pc.tick)
    case MdRecheck(go) => s.md.pc.MdRetry? && MayLoad(s.running, s.md.stopped, go)
    case StCheck(go) => s.st.pc.StTop? && MayLoad(s.running, s.st.stopped, go)
    case StPopRing(b) => s.st.pc.StPop? && !Ring.ByProducer(b) && CanStep(s.hop1, b)
    case StPushRing(c) =>
      s.st.pc.StPush? && Ring.ByProducer(c) && CanStep(s.hop2, c) && (c.PushCall? ==> c.item == s.st.pc.order)
    case StRecheck(go) => s.st.pc.StRetry? && MayLoad(s.running, s.st.stopped, go)
    case GwCheck(go) => s.gw.pc.GwTop? && MayLoad(s.running, s.gw.stopped, go)
    case GwPopRing(d) => s.gw.pc.GwPop? && !Ring.ByProducer(d) && CanStep(s.hop2, d)
  }

  function Apply(rule: Rule, s: State, act: Action): State
    requires Enabled(s, act)
  {
    match act
    case Stop => s.(running := false)
    case MdCheck(go, t0) => s.(md := MdLoop(s.md, go, t0))
    case MdRing(a) => s.(hop1 := HopStep(s.hop1, a), md := MdAfter(s.md, EventAt(s.hop1, a)))
    case MdRecheck(go) => s.(md := MdAgain(s.md, go))
    case StCheck(go) => s.(st := StLoop(s.st, go))
    case StPopRing(b) => s.(hop1 := HopStep(s.hop1, b), st := StAfterPop(rule, s.st, EventAt(s.hop1, b)))
    case StPushRing(c) => s.(hop2 := HopStep(s.hop2, c), st := StAfterPush(s.st, EventAt(s.hop2, c)))
    case StRecheck(go) => s.(st := StAgain(s.st, go))
    case GwCheck(go) => s.(gw := if go then s.gw.(pc := GwPop) else Gateway(GwDone, true))
    case GwPopRing(d) => s.(hop2 := HopStep(s.hop2, d), gw := GwAfter(s.gw, EventAt(s.hop2, d)))
  }

  /** A run: any interleaving of the threads, a stop at any point or never. */
  predicate Path(rule: Rule, states: seq<State>, actions: seq<Action>) {
    && |states| == |actions| + 1
    && forall i :: 0 <= i < |actions| ==>
                   Enabled(states[i], actions[i]) && states[i + 1] == Apply(rule, states[i], actions[i])
  }

  // ------------------------------------------------------------- the rings inside the pipeline

  /** A ring in use: the wrapped image of an unbounded ring in which these items have passed. */
  predicate Linked<T(==)>(h: Hop<T>, u: Ring.State<T>) {
    h.ring == RingWrap.Wrap(u) && Ring.Inv(CAP, u, h.pushed, h.popped)
  }

  /** A call in progress, if any, is pushing `item`. */
  predicate Holds<T(==)>(h: Hop<T>, item: T) {
    h.ring.pp.PIdle? || h.ring.pp.item == item
  }

  predicate Quiet<T>(h: Hop<T>) {
    h.ring.pp.PIdle?
  }

  lemma CapIsCapacity()
    ensures IsCapacity(CAP) && CAP < W
  {
    assert Pow2(6) == 64;
    Pow2Double(6, 64);
  }

  lemma FreshIsLinked<T>(h: Hop<T>)
    requires Fresh(h)
    ensures Linked(h, h.ring) && Quiet(h)
  {
    RingWrap.InitRefines(CAP, h.ring);
  }

  lemma PushStep<T>(h: Hop<T>, u: Ring.State<T>, a: Ring.Action<T>, item: T) returns (u': Ring.State<T>)
    requires Linked(h, u) && CanStep(h, a) && Ring.ByProducer(a)
    requires Holds(h, item) && (a.PushCall? ==> a.item == item)
    ensures Linked(HopStep(h, a), u') && HopStep(h, a).popped == h.popped
    ensures match EventAt(h, a)
            case Tau => Holds(HopStep(h, a), item) && HopStep(h, a).pushed == h.pushed
            case Pushed(_) => HopStep(h, a).pushed == h.pushed + [item] && Quiet(HopStep(h, a))
            case PushFailed(_) => HopStep(h, a).pushed == h.pushed && Quiet(HopStep(h, a))
            case _ => false
  {
    CapIsCapacity();
    u' := RingWrap.StepRefines(CAP, u, a, EventAt(h, a), HopStep(h, a).ring, h.pushed, h.popped);
    assert h.popped + [] == h.popped && h.pushed + [] == h.pushed;
  }

  lemma PopStep<T>(h: Hop<T>, u: Ring.State<T>, a: Ring.Action<T>) returns (u': Ring.State<T>)
    requires Linked(h, u) && CanStep(h, a) && !Ring.ByProducer(a)
    ensures Linked(HopStep(h, a), u') && HopStep(h, a).pushed == h.pushed
    ensures HopStep(h, a).ring.pp == h.ring.pp
    ensures match EventAt(h, a)
            case Popped(x) =>
              |h.popped| < |h.pushed| && x == h.pushed[|h.popped|] && HopStep(h, a).popped == h.popped + [x]
            case Tau => HopStep(h, a).popped == h.popped
            case PopFailed(_) => HopStep(h, a).popped == h.popped
            case _ => false
  {
    CapIsCapacity();
    u' := RingWrap.StepRefines(CAP, u, a, EventAt(h, a), HopStep(h, a).ring, h.pushed, h.popped);
    assert h.popped + [] == h.popped && h.pushed + [] == h.pushed;
  }

  lemma LinkedFacts<T>(h: Hop<T>, u: Ring.State<T>)
    requires Linked(h, u)
    ensures h.popped <= h.pushed && |h.pushed| - |h.popped| <= CAP
  {
  }

  // ------------------------------------------------------------- what the threads have in hand

  /** The `i`-th generated tick. */
  predicate IsTick(t: Tick, i: nat) {
    t == GeneratedTick(t.t0, i % |SYMBOLS|, i % 0x1_0000_0000)
  }

  predicate Ticks(generated: seq<Tick>) {
    forall i :: 0 <= i < |generated| ==> IsTick(generated[i], i)
  }

  /** The orders made of the first ticks, with ids counting up from one. */
  predicate Orders(rule: Rule, orders: seq<Order>, ticks: seq<Tick>) {
    |orders| <= |ticks| && forall i :: 0 <= i < |orders| ==> orders[i] == rule(ticks[i], Rem(i + 1, W))
  }

  predicate AtTick(m: MarketData, i: nat) {
    m.sym == i % |SYMBOLS| && m.seqno == i % 0x1_0000_0000
  }

  /** How far the market-data thread is ahead of its ring: a tick in hand while it is pushing, and
      possibly one abandoned tick once it has seen the stop, after which it generates no more. */
  predicate MdInv(m: MarketData, pushed: seq<Tick>) {
    && Ticks(m.generated)
    && pushed <= m.generated
    && |m.generated| <= |pushed| + 1
    && (!m.stopped ==> AtTick(m, |pushed|))
    && match m.pc
       case MdPush(t) => !m.stopped && m.generated == pushed + [t]
       case MdRetry(t) => !m.stopped && m.generated == pushed + [t]
       case MdTop => !m.stopped ==> m.generated == pushed
       case MdDone => m.stopped
  }

  /** How far the strategy is ahead of its second ring. */
  predicate StInv(rule: Rule, t: Strategy, popped: seq<Tick>, pushed: seq<Order>) {
    && Orders(rule, pushed, popped)
    && |popped| <= |pushed| + 1
    && (!t.stopped ==> t.clordid == Rem(|pushed| + 1, W))
    && match t.pc
       case StTop => !t.stopped ==> |popped| == |pushed|
       case StPop => !t.stopped && |popped| == |pushed|
       case StPush(o) => !t.stopped && |popped| == |pushed| + 1 && o == rule(popped[|pushed|], Rem(|pushed| + 1, W))
       case StRetry(o) => !t.stopped && |popped| == |pushed| + 1 && o == rule(popped[|pushed|], Rem(|pushed| + 1, W))
       case StDone => t.stopped
  }

  /** Between calls the producers are quiet; during a call they push what they have in hand. */
  predicate InHand(s: State) {
    && (if s.md.pc.MdPush? then Holds(s.hop1, s.md.pc.tick) else Quiet(s.hop1))
    && (if s.st.pc.StPush? then Holds(s.hop2, s.st.pc.order) else Quiet(s.hop2))
  }

  predicate Inv(rule: Rule, s: State, u1: Ring.State<Tick>, u2: Ring.State<Order>) {
    && Linked(s.hop1, u1)
    && Linked(s.hop2, u2)
    && InHand(s)
    && MdInv(s.md, s.hop1.pushed)
    && StInv(rule, s.st, s.hop1.popped, s.hop2.pushed)
  }

  // ------------------------------------------------------------- every step keeps it

  lemma {:induction false} CyclicNext(n: nat, m: nat)
    requires m >= 1
    ensures (n % m + 1) % m == (n + 1) % m
  {
    SameRemainder(n + 1, n % m + 1, m, n / m);
  }

  lemma MdAdvances(m: MarketData, pushed: seq<Tick>, t: Tick)
    requires MdInv(m, pushed) && m.pc == MdPush(t)
    ensures MdInv(MdAdvance(m), pushed + [t])
  {
    CyclicNext(|pushed|, |SYMBOLS|);
    CyclicNext(|pushed|, 0x1_0000_0000);
  }

  lemma StAdvances(rule: Rule, t: Strategy, popped: seq<Tick>, pushed: seq<Order>, o: Order)
    requires StInv(rule, t, popped, pushed) && t.pc == StPush(o)
    ensures StInv(rule, StAdvance(t), popped, pushed + [o])
  {
    RemNext(|pushed| + 1, W);
  }

  lemma MdRingKeepsInv(rule: Rule, s: State, a: Ring.Action<Tick>, u1: Ring.State<Tick>, u2: Ring.State<Order>)
    returns (u1': Ring.State<Tick>)
    requires Inv(rule, s, u1, u2) && Enabled(s, MdRing(a))
    ensures Inv(rule, Apply(rule, s, MdRing(a)), u1', u2)
  {
    u1' := PushStep(s.hop1, u1, a, s.md.pc.tick);
    MdAdvances(s.md, s.hop1.pushed, s.md.pc.tick);
  }

  lemma StPopKeepsInv(rule: Rule, s: State, b: Ring.Action<Tick>, u1: Ring.State<Tick>, u2: Ring.State<Order>)
    returns (u1': Ring.State<Tick>)
    requires Inv(rule, s, u1, u2) && Enabled(s, StPopRing(b))
    ensures Inv(rule, Apply(rule, s, StPopRing(b)), u1', u2)
  {
    u1' := PopStep(s.hop1, u1, b);
  }

  lemma StPushKeepsInv(rule: Rule, s: State, c: Ring.Action<Order>, u1: Ring.State<Tick>, u2: Ring.State<Order>)
    returns (u2': Ring.State<Order>)
    requires Inv(rule, s, u1, u2) && Enabled(s, StPushRing(c))
    ensures Inv(rule, Apply(rule, s, StPushRing(c)), u1, u2')
  {
    u2' := PushStep(s.hop2, u2, c, s.st.pc.order);
    StAdvances(rule, s.st, s.hop1.popped, s.hop2.pushed, s.st.pc.order);
  }

  lemma GwPopKeepsInv(rule: Rule, s: State, d: Ring.Action<Order>, u1: Ring.State<Tick>, u2: Ring.State<Order>)
    returns (u2': Ring.State<Order>)
    requires Inv(rule, s, u1, u2) && Enabled(s, GwPopRing(d))
    ensures Inv(rule, Apply(rule, s, GwPopRing(d)), u1, u2')
  {
    u2' := PopStep(s.hop2, u2, d);
  }

  lemma FlagKeepsInv(rule: Rule, s: State, act: Action, u1: Ring.State<Tick>, u2: Ring.State<Order>)
    requires Inv(rule, s, u1, u2) && Enabled(s, act)
    requires !act.MdRing? && !act.StPopRing? && !act.StPushRing? && !act.GwPopRing?
    ensures Inv(rule, Apply(rule, s, act), u1, u2)
  {
  }

  lemma StepKeepsInv(rule: Rule, s: State, act: Action, u1: Ring.State<Tick>, u2: Ring.State<Order>)
    returns (u1': Ring.State<Tick>, u2': Ring.State<Order>)
    requires Inv(rule, s, u1, u2) && Enabled(s, act)
    ensures Inv(rule, Apply(rule, s, act), u1', u2')
  {
    u1', u2' := u1, u2;
    match act
    case MdRing(a) => u1' := MdRingKeepsInv(rule, s, a, u1, u2);
    case StPopRing(b) => u1' := StPopKeepsInv(rule, s, b, u1, u2);
    case StPushRing(c) => u2' := StPushKeepsInv(rule, s, c, u1, u2);
    case GwPopRing(d) => u2' := GwPopKeepsInv(rule, s, d, u1, u2);
    case _ => FlagKeepsInv(rule, s, act, u1, u2);
  }

  lemma {:induction false} InvAlong(rule: Rule, states: seq<State>, actions: seq<Action>, n: nat)
    returns (u1: Ring.State<Tick>, u2: Ring.State<Order>)
    requires Path(rule, states, actions) && Init(states[0]) && n <= |actions|
    ensures Inv(rule, states[n], u1, u2)
  {
    if n == 0 {
      FreshIsLinked(states[0].hop1);
      FreshIsLinked(states[0].hop2);
      u1, u2 := states[0].hop1.ring, states[0].hop2.ring;
    } else {
      u1, u2 := InvAlong(rule, states, actions, n - 1);
      assert Enabled(states[n - 1], actions[n - 1]);
      u1, u2 := StepKeepsInv(rule, states[n - 1], actions[n - 1], u1, u2);
    }
  }

  // ------------------------------------------------------------- what the gateway receives

  /** The orders popped are the first ticks put through the rule with ids 1, 2, 3, ... */
  lemma PrefixHolds(rule: Rule, s: State, u1: Ring.State<Tick>, u2: Ring.State<Order>)
    requires Inv(rule, s, u1, u2)
    ensures Ticks(s.md.generated)
    ensures Orders(rule, s.hop2.popped, s.md.generated)
    ensures |s.md.generated| <= |s.hop2.popped| + 2 * CAP + 2
  {
    LinkedFacts(s.hop1, u1);
    LinkedFacts(s.hop2, u2);
    forall i | 0 <= i < |s.hop2.popped|
      ensures s.hop2.popped[i] == rule(s.md.generated[i], Rem(i + 1, W))
    {
      assert s.hop2.popped[i] == s.hop2.pushed[i];
      assert s.hop1.popped[i] == s.hop1.pushed[i] == s.md.generated[i];
    }
  }

  /** At every point of every run, stopped or not, whatever the gateway has not received is a suffix, of
      at most the two rings' contents and one item in each producer's hand. */
  lemma GatewayReceivesPrefix(rule: Rule, states: seq<State>, actions: seq<Action>, n: nat)
    requires Path(rule, states, actions) && Init(states[0]) && n <= |actions|
    ensures Ticks(states[n].md.generated)
    ensures Orders(rule, states[n].hop2.popped, states[n].md.generated)
    ensures |states[n].md.generated| <= |states[n].hop2.popped| + 2 * CAP + 2
  {
    var u1, u2 := InvAlong(rule, states, actions, n);
    PrefixHolds(rule, states[n], u1, u2);
  }

  /** Both producers are at the top of their loops, have not been stopped, and the rings are empty. */
  predicate AtRest(s: State) {
    && s.md.pc.MdTop? && !s.md.stopped && s.st.pc.StTop? && !s.st.stopped
    && s.hop1.popped == s.hop1.pushed && s.hop2.popped == s.hop2.pushed
  }

  lemma RestMeansReceived(rule: Rule, s: State, u1: Ring.State<Tick>, u2: Ring.State<Order>)
    requires Inv(rule, s, u1, u2) && AtRest(s)
    ensures |s.hop2.popped| == |s.md.generated|
  {
  }

  /** Nothing is lost but by stopping: at rest the gateway has received an order for every tick. */
  lemma NothingLostAtRest(rule: Rule, states: seq<State>, actions: seq<Action>, n: nat)
    requires Path(rule, states, actions) && Init(states[0]) && n <= |actions| && AtRest(states[n])
    ensures Orders(rule, states[n].hop2.popped, states[n].md.generated)
    ensures |states[n].hop2.popped| == |states[n].md.generated|
  {
    var u1, u2 := InvAlong(rule, states, actions, n);
    PrefixHolds(rule, states[n], u1, u2);
    RestMeansReceived(rule, states[n], u1, u2);
  }

  // ------------------------------------------------------------- the time a tick carries

  /** The clock readings of the rounds that generated a tick, in order. */
  function Readings(actions: seq<Action>): seq<U64> {
    if actions == [] then [] else
    var last := actions[|actions| - 1];
    Readings(actions[..|actions| - 1]) + if last.MdCheck? && last.go then [last.t0] else []
  }

  /** Every tick carries the reading of the round that generated it. */
  lemma {:induction false} TicksCarryReadings(rule: Rule, states: seq<State>, actions: seq<Action>, n: nat)
    requires Path(rule, states, actions) && Init(states[0]) && n <= |actions|
    ensures |states[n].md.generated| == |Readings(actions[..n])|
    ensures forall i :: 0 <= i < |states[n].md.generated| ==>
                        states[n].md.generated[i].t0 == Readings(actions[..n])[i]
  {
    if n > 0 {
      TicksCarryReadings(rule, states, actions, n - 1);
      assert actions[..n][..n - 1] == actions[..n - 1];
      var s, act := states[n - 1], actions[n - 1];
      assert Enabled(s, act) && states[n] == Apply(rule, s, act);
      GeneratedBy(rule, s, act);
    }
  }

  lemma GeneratedBy(rule: Rule, s: State, act: Action)
    requires Enabled(s, act)
    ensures var before, after := s.md.generated, Apply(rule, s, act).md.generated;
            if act.MdCheck? && act.go then
              |after| == |before| + 1 && after[..|before|] == before && after[|before|].t0 == act.t0
            else after == before
  {
  }
}
