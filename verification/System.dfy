/** The whole engine with its exchange: the pipeline's last ring feeds the conversation. An order is
    sent when the gateway's pop completes; everything else happens in any order. The strategy's rule
    and the wire protocol are parameters. */
module System {
  import opened Bits
  import opened Messages
  import P = Pipeline
  import C = Conversation
  import Ring

  datatype State = State(pipe: P.State, conv: C.State)

  datatype Action =
    | Internal(p: P.Action)
    | PopAndSend(d: Ring.Action<Order>, pdt: nat)
    | Network(c: C.Action)

  predicate Init(s: State) {
    P.Init(s.pipe) && C.Init(s.conv)
  }

  /** A step of the gateway that completes a pop. */
  predicate HandsOver(s: P.State, act: P.Action)
    requires P.Enabled(s, act)
  {
    act.GwPopRing? && P.EventAt(s.hop2, act.d).Popped?
  }

  /** The gateway receives and handles between its pops, not during one and not after it has ended. */
  predicate ByGateway(c: C.Action) {
    c.EngineRecv? || c.EngineHandle?
  }

  /** Nothing is asked of the order that is sent: that it is well made is proved. */
  predicate Enabled(proto: C.Protocol, s: State, a: Action) {
    match a
    case Internal(p) => P.Enabled(s.pipe, p) && !HandsOver(s.pipe, p)
    case PopAndSend(d, _) =>
      |s.conv.pending| == C.PENDING && P.Enabled(s.pipe, P.GwPopRing(d)) && HandsOver(s.pipe, P.GwPopRing(d))
    case Network(c) => !c.Send? && C.Enabled(proto, s.conv, c) && (ByGateway(c) ==> s.pipe.gw.pc.GwTop?)
  }

  function Apply(rule: P.Rule, proto: C.Protocol, s: State, a: Action): State
    requires Enabled(proto, s, a)
  {
    match a
    case Internal(p) => s.(pipe := P.Apply(rule, s.pipe, p))
    case PopAndSend(d, pdt) =>
      State(P.Apply(rule, s.pipe, P.GwPopRing(d)), C.SendOrder(s.conv, P.EventAt(s.pipe.hop2, d).value, pdt))
    case Network(c) => s.(conv := C.Apply(proto, s.conv, c))
  }

  predicate Path(rule: P.Rule, proto: C.Protocol, states: seq<State>, actions: seq<Action>) {
    && |states| == |actions| + 1
    && forall i :: 0 <= i < |actions| ==>
                   Enabled(proto, states[i], actions[i]) && states[i + 1] == Apply(rule, proto, states[i], actions[i])
  }

  /** The rule keeps the tick's time and the id, and makes orders the protocol can carry. */
  ghost predicate Fits(rule: P.Rule, proto: C.Protocol) {
    && C.Sound(proto)
    && (forall t, id :: rule(t, id).t0 == t.t0 && rule(t, id).clordid == id)
    && (forall t, i: nat :: P.IsTick(t, i) ==> proto.made(rule(t, Rem(i + 1, W)), i))
  }

  // ------------------------------------------------------------- every step

  ghost predicate PipeInv(rule: P.Rule, s: P.State) {
    exists u1, u2 :: P.Inv(rule, s, u1, u2)
  }

  ghost predicate ConvInv(proto: C.Protocol, s: C.State) {
    exists handled, answers :: C.Inv(proto, s, handled, answers)
  }

  ghost predicate Inv(rule: P.Rule, proto: C.Protocol, s: State) {
    s.conv.sent == s.pipe.hop2.popped && PipeInv(rule, s.pipe) && ConvInv(proto, s.conv)
  }

  /** The order handed over is the next one of the pipeline, and fit to be sent. */
  lemma HandedOverIsMade(rule: P.Rule, proto: C.Protocol, s: P.State, d: Ring.Action<Order>)
    requires Fits(rule, proto) && PipeInv(rule, s)
    requires P.Enabled(s, P.GwPopRing(d)) && HandsOver(s, P.GwPopRing(d))
    ensures var o := P.EventAt(s.hop2, d).value;
            P.Apply(rule, s, P.GwPopRing(d)).hop2.popped == s.hop2.popped + [o] && proto.made(o, |s.hop2.popped|)
  {
    var u1, u2 :| P.Inv(rule, s, u1, u2);
    var u := P.PopStep(s.hop2, u2, d);
    var k := |s.hop2.popped|;
    assert P.IsTick(s.md.generated[k], k);
    assert s.hop1.popped[k] == s.md.generated[k] by { P.LinkedFacts(s.hop1, u1); }
  }

  lemma InternalKeepsPopped(rule: P.Rule, s: P.State, act: P.Action)
    requires P.Enabled(s, act) && !HandsOver(s, act) && PipeInv(rule, s)
    ensures P.Apply(rule, s, act).hop2.popped == s.hop2.popped
  {
    var u1, u2 :| P.Inv(rule, s, u1, u2);
    if act.GwPopRing? {
      var u := P.PopStep(s.hop2, u2, act.d);
    } else if act.StPushRing? {
      var u := P.PushStep(s.hop2, u2, act.c, s.st.pc.order);
    }
  }

  lemma PipeKeepsInv(rule: P.Rule, s: P.State, act: P.Action)
    requires P.Enabled(s, act) && PipeInv(rule, s)
    ensures PipeInv(rule, P.Apply(rule, s, act))
  {
    var u1, u2 :| P.Inv(rule, s, u1, u2);
    u1, u2 := P.StepKeepsInv(rule, s, act, u1, u2);
  }

  lemma ConvKeepsInv(proto: C.Protocol, s: C.State, act: C.Action)
    requires C.Sound(proto) && C.Enabled(proto, s, act) && ConvInv(proto, s)
    ensures ConvInv(proto, C.Apply(proto, s, act))
  {
    var handled, answers :| C.Inv(proto, s, handled, answers);
    handled, answers := C.StepKeepsInv(proto, s, act, handled, answers);
  }

  lemma HandOverKeepsInv(rule: P.Rule, proto: C.Protocol, s: State, d: Ring.Action<Order>, pdt: nat)
    requires Fits(rule, proto) && Inv(rule, proto, s) && Enabled(proto, s, PopAndSend(d, pdt))
    ensures Inv(rule, proto, Apply(rule, proto, s, PopAndSend(d, pdt)))
  {
    HandedOverIsMade(rule, proto, s.pipe, d);
    PipeKeepsInv(rule, s.pipe, P.GwPopRing(d));
    ConvKeepsInv(proto, s.conv, C.Send(P.EventAt(s.pipe.hop2, d).value, pdt));
  }

  lemma StepKeepsInv(rule: P.Rule, proto: C.Protocol, s: State, a: Action)
    requires Fits(rule, proto) && Inv(rule, proto, s) && Enabled(proto, s, a)
    ensures Inv(rule, proto, Apply(rule, proto, s, a))
  {
    match a
    case Internal(p) =>
      InternalKeepsPopped(rule, s.pipe, p);
      PipeKeepsInv(rule, s.pipe, p);
    case PopAndSend(d, pdt) =>
      HandOverKeepsInv(rule, proto, s, d, pdt);
    case Network(c) =>
      C.NetworkKeepsSent(proto, s.conv, c);
      ConvKeepsInv(proto, s.conv, c);
  }

  // ------------------------------------------------------------- every run

  lemma InitInv(rule: P.Rule, proto: C.Protocol, s: State)
    requires Init(s)
    ensures Inv(rule, proto, s)
  {
    P.FreshIsLinked(s.pipe.hop1);
    P.FreshIsLinked(s.pipe.hop2);
    assert P.Inv(rule, s.pipe, s.pipe.hop1.ring, s.pipe.hop2.ring);
    assert C.Inv(proto, s.conv, 0, []);
  }

  lemma {:induction false} InvAlong(rule: P.Rule, proto: C.Protocol, states: seq<State>, actions: seq<Action>, n: nat)
    requires Fits(rule, proto) && Path(rule, proto, states, actions) && Init(states[0]) && n <= |actions|
    ensures Inv(rule, proto, states[n])
  {
    if n == 0 {
      InitInv(rule, proto, states[0]);
    } else {
      InvAlong(rule, proto, states, actions, n - 1);
      assert Enabled(proto, states[n - 1], actions[n - 1]);
      StepKeepsInv(rule, proto, states[n - 1], actions[n - 1]);
    }
  }

  /** The reports carry the ids in order, each timed against its own tick within the window. */
  predicate Matched(ticks: seq<Tick>, fills: seq<C.Fill>) {
    && |fills| <= |ticks|
    && (forall j :: 0 <= j < |fills| ==> fills[j].id == Rem(j + 1, W))
    && (forall j :: 0 <= j < |fills| && fills[j].sentBefore <= j + C.PENDING ==> fills[j].t0 == ticks[j].t0)
  }

  lemma AccountedIsMatched(rule: P.Rule, proto: C.Protocol, ticks: seq<Tick>, sent: seq<Order>, fills: seq<C.Fill>)
    requires Fits(rule, proto) && P.Orders(rule, sent, ticks) && C.AllAccounted(sent, fills)
    ensures Matched(ticks, fills)
  {
    forall j | 0 <= j < |fills|
      ensures fills[j].id == Rem(j + 1, W) && (fills[j].sentBefore <= j + C.PENDING ==> fills[j].t0 == ticks[j].t0)
    {
      assert C.Accounted(sent, fills, j);
      assert sent[j] == rule(ticks[j], Rem(j + 1, W));
    }
  }

  /** What a tick becomes: the orders sent are the first generated ticks put through the rule with ids
      1, 2, 3, ...; at most the rings' contents and two items are missing; the reports match. Nothing is
      lost on the way: with no bytes under way every order sent has its report, and with the pipeline
      at rest too, every tick generated has. */
  predicate EndToEnd(rule: P.Rule, s: State) {
    && P.Ticks(s.pipe.md.generated)
    && P.Orders(rule, s.conv.sent, s.pipe.md.generated)
    && |s.pipe.md.generated| <= |s.conv.sent| + 2 * P.CAP + 2
    && |s.conv.fills| <= |s.conv.sent|
    && Matched(s.pipe.md.generated, s.conv.fills)
    && (C.AtRest(s.conv) ==> |s.conv.fills| == |s.conv.sent|)
    && (C.AtRest(s.conv) && P.AtRest(s.pipe) ==> |s.conv.fills| == |s.pipe.md.generated|)
  }

  lemma InvIsEndToEnd(rule: P.Rule, proto: C.Protocol, s: State)
    requires Fits(rule, proto) && Inv(rule, proto, s)
    ensures EndToEnd(rule, s)
  {
    var u1, u2 :| P.Inv(rule, s.pipe, u1, u2);
    P.PrefixHolds(rule, s.pipe, u1, u2);
    var handled, answers :| C.Inv(proto, s.conv, handled, answers);
    AccountedIsMatched(rule, proto, s.pipe.md.generated, s.conv.sent, s.conv.fills);
    if C.AtRest(s.conv) {
      C.RestMeansFilled(proto, s.conv, handled, answers);
    }
    if P.AtRest(s.pipe) {
      P.RestMeansReceived(rule, s.pipe, u1, u2);
    }
  }

  /** At every point of every run, with a stop at any time and any chunking of both directions. */
  lemma RunsAreEndToEnd(rule: P.Rule, proto: C.Protocol, states: seq<State>, actions: seq<Action>, n: nat)
    requires Fits(rule, proto) && Path(rule, proto, states, actions) && Init(states[0]) && n <= |actions|
    ensures EndToEnd(rule, states[n])
  {
    InvAlong(rule, proto, states, actions, n);
    InvIsEndToEnd(rule, proto, states[n]);
  }
}
