/** A client and a server talking over TCP, as one machine. TCP is a FIFO of bytes in each direction,
    delivered in chunks of any size; each side appends a chunk to its buffer and takes complete
    messages off it one by one. The client is the engine's gateway with its table of pending orders,
    the server is the exchange; how bytes become messages is a parameter. */
module Conversation {
  import opened Bits
  import opened Options
  import opened Messages
  import opened Draining

  const PENDING: nat := 4096
  const WARMUP: nat := 500

  /** How the two sides read and write bytes. */
  datatype Protocol = Protocol(
    /** cut one message off a buffer */
    next: Cutter,
    /** the bytes the server answers to a message, given its sequence number and a time stamp */
    reply: (string, U64, string) -> (string, U64),
    /** the order id of an ExecutionReport; other messages are ignored */
    report: string -> Option<U64>,
    /** an order as the strategy hands it over for sending at a given position */
    made: (Order, nat) -> bool,
    /** a time stamp as the clock gives it */
    stamp: string -> bool)

  /** One ExecutionReport as the gateway accounts for it: the id it carries, the timestamp looked up in
      `pending`, and how many orders had been sent by then. */
  datatype Fill = Fill(id: U64, t0: U64, sentBefore: nat)

  datatype State = State(
    sent: seq<Order>,
    toExchange: string,
    exchangeBuf: string,
    exchangeSeq: U64,
    toEngine: string,
    engineBuf: string,
    pending: seq<U64>,
    fills: seq<Fill>,
    t2t: seq<nat>,
    rtt: seq<nat>)

  datatype Action =
    | Send(order: Order, pdt: nat)
    | ExchangeRecv(n: nat)
    | ExchangeHandle(ts: string)
    | EngineRecv(n: nat)
    | EngineHandle(dt: nat)

  /** The slot of an id in the direct-mapped table. */
  function PendingSlot(id: U64): (k: nat)
    ensures k < PENDING
  {
    BitAnd(id, PENDING - 1)
  }

  predicate Init(s: State) {
    && |s.pending| == PENDING
    && s == State([], "", "", s.exchangeSeq, "", "", s.pending, [], [], [])
  }

  predicate Enabled(p: Protocol, s: State, a: Action) {
    && |s.pending| == PENDING
    && match a
       case Send(o, _) => p.made(o, |s.sent|)
       case ExchangeRecv(n) => 0 < n <= |s.toExchange| && p.next(s.exchangeBuf).None?
       case ExchangeHandle(ts) => p.stamp(ts) && p.next(s.exchangeBuf).Some?
       case EngineRecv(n) => 0 < n <= |s.toEngine| && p.next(s.engineBuf).None?
       case EngineHandle(_) => p.next(s.engineBuf).Some?
  }

  /** What a 64-bit counter shows after `n` increments. */
  function Counter(n: nat): U64 {
    Rem(n, W)
  }

  /** The gateway's treatment of one order popped from its ring. */
  function SendOrder(s: State, o: Order, pdt: nat): State
    requires |s.pending| == PENDING
  {
    s.(t2t := if Counter(|s.sent|) >= WARMUP then s.t2t + [pdt] else s.t2t,
       pending := s.pending[PendingSlot(o.clordid) := o.t0],
       toExchange := s.toExchange + o.wire,
       sent := s.sent + [o])
  }

  /** The gateway's treatment of one message taken off its framer. */
  function TakeReport(s: State, report: Option<U64>, dt: nat): State
    requires |s.pending| == PENDING
  {
    if report.None? then s else
    s.(rtt := if Counter(|s.fills|) >= WARMUP then s.rtt + [dt] else s.rtt,
       fills := s.fills + [Fill(report.value, s.pending[PendingSlot(report.value)], |s.sent|)])
  }

  function Apply(p: Protocol, s: State, a: Action): State
    requires Enabled(p, s, a)
  {
    match a
    case Send(o, pdt) => SendOrder(s, o, pdt)
    case ExchangeRecv(n) => s.(exchangeBuf := s.exchangeBuf + s.toExchange[..n], toExchange := s.toExchange[n..])
    case ExchangeHandle(ts) =>
      var (msg, rest) := p.next(s.exchangeBuf).value;
      var (wire, seqno) := p.reply(msg, s.exchangeSeq, ts);
      s.(exchangeBuf := rest, exchangeSeq := seqno, toEngine := s.toEngine + wire)
    case EngineRecv(n) => s.(engineBuf := s.engineBuf + s.toEngine[..n], toEngine := s.toEngine[n..])
    case EngineHandle(dt) =>
      var (msg, rest) := p.next(s.engineBuf).value;
      TakeReport(s.(engineBuf := rest), p.report(msg), dt)
  }

  /** A run: any interleaving of sends, deliveries of any size and message handling. */
  predicate Path(p: Protocol, states: seq<State>, actions: seq<Action>) {
    && |states| == |actions| + 1
    && forall i :: 0 <= i < |actions| ==>
                   Enabled(p, states[i], actions[i]) && states[i + 1] == Apply(p, states[i], actions[i])
  }

  // ------------------------------------------------------------- what the protocol has to provide

  /** A message the client recognises, and recognises as the report for `o`. */
  ghost predicate Answers(p: Protocol, msg: string, o: Order) {
    Recognises(p.next, msg) && p.report(msg) == Some(o.clordid)
  }

  /** Every order is recognised by the server. */
  ghost predicate Recognised(p: Protocol) {
    forall o: Order, position: nat :: p.made(o, position) ==>
      o.clordid == Rem(position + 1, W) && Recognises(p.next, o.wire)
  }

  /** Every reply to an order is recognised by the client. */
  ghost predicate Answered(p: Protocol) {
    forall o: Order, position: nat, seqno: U64, ts: string :: p.made(o, position) && p.stamp(ts) ==>
      Answers(p, p.reply(o.wire, seqno, ts).0, o)
  }

  /** Every reply to an order takes one number. */
  ghost predicate Numbered(p: Protocol) {
    forall o: Order, position: nat, seqno: U64, ts: string :: p.made(o, position) && p.stamp(ts) ==>
      p.reply(o.wire, seqno, ts).1 == Inc64(seqno)
  }

  ghost predicate Sound(p: Protocol) {
    p.next("").None? && Recognised(p) && Answered(p) && Numbered(p)
  }

  // ------------------------------------------------------------- what is under way

  function Wires(orders: seq<Order>): seq<string> {
    seq(|orders|, i requires 0 <= i < |orders| => orders[i].wire)
  }

  ghost predicate AllAnswer(p: Protocol, msgs: seq<string>, orders: seq<Order>) {
    |msgs| == |orders| && forall i :: 0 <= i < |msgs| ==> Answers(p, msgs[i], orders[i])
  }

  predicate AllMade(p: Protocol, sent: seq<Order>) {
    forall i :: 0 <= i < |sent| ==> p.made(sent[i], i)
  }

  /** The orders the exchange has not read yet are under way as bytes, whole and in order. */
  predicate OrdersUnderWay(s: State, handled: nat) {
    && |s.fills| <= handled <= |s.sent|
    && Carries(s.exchangeBuf, s.toExchange, Wires(s.sent[handled..]))
  }

  /** So are the answers the gateway has not read yet. */
  ghost predicate AnswersUnderWay(p: Protocol, s: State, handled: nat, answers: seq<string>) {
    && |s.fills| <= handled <= |s.sent|
    && AllAnswer(p, answers, s.sent[|s.fills|..handled])
    && Carries(s.engineBuf, s.toEngine, answers)
  }

  // ------------------------------------------------------------- the pending table

  /** Each of the last 4096 orders still has its timestamp in its slot. */
  predicate PendingHolds(pending: seq<U64>, sent: seq<Order>) {
    && |pending| == PENDING
    && forall i :: 0 <= i < |sent| <= i + PENDING ==> pending[Rem(i + 1, PENDING)] == sent[i].t0
  }

  /** The order whose timestamp a lookup for order `j` finds once `n` orders have been sent: the
      latest one that shares its slot. It is order `j` itself exactly within the window. */
  function SlotOwner(j: nat, n: nat): (i: nat)
    requires j < n
    ensures j <= i < n <= i + PENDING
    ensures Rem(i + 1, PENDING) == Rem(j + 1, PENDING)
    ensures i == j <==> n <= j + PENDING
    decreases n - j
  {
    if n <= j + PENDING then j else RemAdd(j + 1, PENDING); SlotOwner(j + PENDING, n)
  }

  /** What the account of the `j`-th report says: the id of the `j`-th order, and the timestamp of the
      order that owned its slot at that time. */
  predicate Accounted(sent: seq<Order>, fills: seq<Fill>, j: nat)
    requires j < |fills|
  {
    var f := fills[j];
    && j < f.sentBefore <= |sent|
    && f.id == sent[j].clordid
    && f.t0 == sent[SlotOwner(j, f.sentBefore)].t0
  }

  predicate AllAccounted(sent: seq<Order>, fills: seq<Fill>) {
    |fills| <= |sent| && forall j :: 0 <= j < |fills| ==> Accounted(sent, fills, j)
  }

  function PastWarmup(n: nat): nat {
    if n > WARMUP then n - WARMUP else 0
  }

  /** How many of `n` events are sampled: those that find the counter past the warm-up. */
  function Sampled(n: nat): nat {
    if n == 0 then 0 else Sampled(n - 1) + if Counter(n - 1) >= WARMUP then 1 else 0
  }

  /** All but the first 500, exactly until the counter has wrapped around. */
  lemma {:induction false} SampledIsPastWarmup(n: nat)
    ensures Sampled(n) == PastWarmup(n) <==> n <= W
    ensures Sampled(n) <= PastWarmup(n)
  {
    if n > 0 {
      SampledIsPastWarmup(n - 1);
      if n == W + 1 {
        assert Counter(W) == 0;
      }
    }
  }

  ghost predicate Inv(p: Protocol, s: State, handled: nat, answers: seq<string>) {
    && AllMade(p, s.sent)
    && OrdersUnderWay(s, handled)
    && AnswersUnderWay(p, s, handled, answers)
    && PendingHolds(s.pending, s.sent)
    && AllAccounted(s.sent, s.fills)
    && |s.t2t| == Sampled(|s.sent|)
    && |s.rtt| == Sampled(|s.fills|)
  }

  // ------------------------------------------------------------- sending

  lemma SendKeepsOrders(s: State, o: Order, pdt: nat, handled: nat)
    requires |s.pending| == PENDING && OrdersUnderWay(s, handled)
    ensures OrdersUnderWay(SendOrder(s, o, pdt), handled)
  {
    var wires := Wires(s.sent[handled..]);
    CarriesOneMore(s.exchangeBuf, s.toExchange, wires, o.wire);
    assert (s.sent + [o])[handled..] == s.sent[handled..] + [o];
    assert Wires((s.sent + [o])[handled..]) == wires + [o.wire];
  }

  lemma SlotOfId(position: nat)
    ensures PendingSlot(Rem(position + 1, W)) == Rem(position + 1, PENDING)
  {
    assert Pow2(12) == PENDING by {
      assert Pow2(6) == 64;
      Pow2Double(6, 64);
    }
    MaskedIndex(PENDING, position + 1);
  }

  lemma SendKeepsPending(pending: seq<U64>, sent: seq<Order>, o: Order)
    requires PendingHolds(pending, sent) && o.clordid == Rem(|sent| + 1, W)
    ensures PendingHolds(pending[PendingSlot(o.clordid) := o.t0], sent + [o])
  {
    var n := |sent|;
    SlotOfId(n);
    var k := Rem(n + 1, PENDING);
    forall i | 0 <= i < n + 1 <= i + PENDING
      ensures pending[k := o.t0][Rem(i + 1, PENDING)] == (sent + [o])[i].t0
    {
      if i < n && Rem(i + 1, PENDING) == k {
        FarApart(i + 1, n + 1, PENDING);
      }
    }
  }

  lemma SendKeepsAccounts(sent: seq<Order>, fills: seq<Fill>, o: Order)
    requires AllAccounted(sent, fills)
    ensures AllAccounted(sent + [o], fills)
  {
    forall j | 0 <= j < |fills| ensures Accounted(sent + [o], fills, j) {
      assert Accounted(sent, fills, j);
    }
  }

  lemma SendKeepsSamples(p: Protocol, s: State, o: Order, pdt: nat)
    requires |s.pending| == PENDING && AllMade(p, s.sent) && p.made(o, |s.sent|) && |s.t2t| == Sampled(|s.sent|)
    ensures AllMade(p, SendOrder(s, o, pdt).sent) && |SendOrder(s, o, pdt).t2t| == Sampled(|s.sent| + 1)
  {
  }

  lemma SendKeepsInv(p: Protocol, s: State, o: Order, pdt: nat, handled: nat, answers: seq<string>)
    requires o.clordid == Rem(|s.sent| + 1, W) && Inv(p, s, handled, answers) && p.made(o, |s.sent|)
    ensures Inv(p, SendOrder(s, o, pdt), handled, answers)
  {
    var s' := SendOrder(s, o, pdt);
    assert OrdersUnderWay(s', handled) by { SendKeepsOrders(s, o, pdt, handled); }
    assert AnswersUnderWay(p, s', handled, answers);
    assert PendingHolds(s'.pending, s'.sent) by { SendKeepsPending(s.pending, s.sent, o); }
    assert AllAccounted(s'.sent, s'.fills) by { SendKeepsAccounts(s.sent, s.fills, o); }
    assert AllMade(p, s'.sent) && |s'.t2t| == Sampled(|s'.sent|) by { SendKeepsSamples(p, s, o, pdt); }
  }

  // ------------------------------------------------------------- receiving and handling

  lemma RecvKeepsInv(p: Protocol, s: State, a: Action, handled: nat, answers: seq<string>)
    requires Inv(p, s, handled, answers) && Enabled(p, s, a) && (a.ExchangeRecv? || a.EngineRecv?)
    ensures Inv(p, Apply(p, s, a), handled, answers)
  {
    if a.ExchangeRecv? {
      CarriesChunk(s.exchangeBuf, s.toExchange, Wires(s.sent[handled..]), a.n);
    } else {
      CarriesChunk(s.engineBuf, s.toEngine, answers, a.n);
    }
  }

  /** The exchange reads the oldest order it has not read. */
  lemma ExchangeTakesOrder(p: Protocol, s: State, handled: nat)
    requires Sound(p) && AllMade(p, s.sent) && OrdersUnderWay(s, handled) && p.next(s.exchangeBuf).Some?
    ensures handled < |s.sent|
    ensures p.next(s.exchangeBuf).value.0 == s.sent[handled].wire
    ensures Carries(p.next(s.exchangeBuf).value.1, s.toExchange, Wires(s.sent[handled + 1..]))
  {
    var wires := Wires(s.sent[handled..]);
    if wires != [] {
      assert p.made(s.sent[handled], handled);
    }
    TakesFirst(p.next, s.exchangeBuf, s.toExchange, wires);
    assert wires[1..] == Wires(s.sent[handled + 1..]);
  }

  lemma AnswerJoins(p: Protocol, s: State, s': State, handled: nat, answers: seq<string>, wire: string)
    requires AnswersUnderWay(p, s, handled, answers) && handled < |s.sent| && Answers(p, wire, s.sent[handled])
    requires s' == s.(exchangeBuf := s'.exchangeBuf, exchangeSeq := s'.exchangeSeq, toEngine := s.toEngine + wire)
    ensures AnswersUnderWay(p, s', handled + 1, answers + [wire])
  {
    var o := s.sent[handled];
    assert s.sent[|s.fills|..handled + 1] == s.sent[|s.fills|..handled] + [o];
    CarriesOneMore(s.engineBuf, s.toEngine, answers, wire);
  }

  lemma ExchangeKeepsInv(p: Protocol, s: State, ts: string, handled: nat, answers: seq<string>) returns (wire: string)
    requires Sound(p) && Inv(p, s, handled, answers) && Enabled(p, s, ExchangeHandle(ts))
    ensures Inv(p, Apply(p, s, ExchangeHandle(ts)), handled + 1, answers + [wire])
  {
    ExchangeTakesOrder(p, s, handled);
    var o := s.sent[handled];
    assert p.made(o, handled);
    wire := p.reply(o.wire, s.exchangeSeq, ts).0;
    AnswerJoins(p, s, Apply(p, s, ExchangeHandle(ts)), handled, answers, wire);
  }

  /** The gateway reads the oldest answer it has not read; it carries the id of the oldest unanswered order. */
  lemma EngineTakesAnswer(p: Protocol, s: State, handled: nat, answers: seq<string>)
    requires p.next("").None? && AnswersUnderWay(p, s, handled, answers) && p.next(s.engineBuf).Some?
    ensures answers != [] && |s.fills| < handled
    ensures p.report(p.next(s.engineBuf).value.0) == Some(s.sent[|s.fills|].clordid)
    ensures Carries(p.next(s.engineBuf).value.1, s.toEngine, answers[1..])
    ensures AllAnswer(p, answers[1..], s.sent[|s.fills| + 1..handled])
  {
    TakesFirst(p.next, s.engineBuf, s.toEngine, answers);
    assert s.sent[|s.fills|..handled][0] == s.sent[|s.fills|];
    assert s.sent[|s.fills|..handled][1..] == s.sent[|s.fills| + 1..handled];
  }

  lemma LookupFindsOwner(pending: seq<U64>, sent: seq<Order>, j: nat)
    requires PendingHolds(pending, sent) && j < |sent| && sent[j].clordid == Rem(j + 1, W)
    ensures pending[PendingSlot(sent[j].clordid)] == sent[SlotOwner(j, |sent|)].t0
  {
    SlotOfId(j);
    var i := SlotOwner(j, |sent|);
    assert pending[Rem(i + 1, PENDING)] == sent[i].t0;
  }

  lemma FillJoinsAccounts(sent: seq<Order>, fills: seq<Fill>, f: Fill)
    requires AllAccounted(sent, fills) && |fills| < |sent| == f.sentBefore
    requires f.id == sent[|fills|].clordid && f.t0 == sent[SlotOwner(|fills|, |sent|)].t0
    ensures AllAccounted(sent, fills + [f])
  {
    forall j | 0 <= j < |fills| + 1 ensures Accounted(sent, fills + [f], j) {
      if j < |fills| {
        assert Accounted(sent, fills, j);
      }
    }
  }

  lemma ReportIsAccounted(s: State)
    requires PendingHolds(s.pending, s.sent) && AllAccounted(s.sent, s.fills) && |s.fills| < |s.sent|
    requires s.sent[|s.fills|].clordid == Rem(|s.fills| + 1, W)
    ensures var id := s.sent[|s.fills|].clordid;
            AllAccounted(s.sent, s.fills + [Fill(id, s.pending[PendingSlot(id)], |s.sent|)])
  {
    LookupFindsOwner(s.pending, s.sent, |s.fills|);
    var id := s.sent[|s.fills|].clordid;
    FillJoinsAccounts(s.sent, s.fills, Fill(id, s.pending[PendingSlot(id)], |s.sent|));
  }

  lemma EngineKeepsInv(p: Protocol, s: State, dt: nat, handled: nat, answers: seq<string>)
    requires Sound(p) && Inv(p, s, handled, answers) && Enabled(p, s, EngineHandle(dt))
    ensures answers != [] && Inv(p, Apply(p, s, EngineHandle(dt)), handled, answers[1..])
    ensures |Apply(p, s, EngineHandle(dt)).fills| == |s.fills| + 1
  {
    EngineTakesAnswer(p, s, handled, answers);
    assert p.made(s.sent[|s.fills|], |s.fills|);
    ReportIsAccounted(s);
  }

  // ------------------------------------------------------------- every run

  lemma StepKeepsInv(p: Protocol, s: State, a: Action, handled: nat, answers: seq<string>)
    returns (handled': nat, answers': seq<string>)
    requires Sound(p) && Inv(p, s, handled, answers) && Enabled(p, s, a)
    ensures Inv(p, Apply(p, s, a), handled', answers')
    ensures handled' == if a.ExchangeHandle? then handled + 1 else handled
    ensures a.EngineHandle? ==> |Apply(p, s, a).fills| == |s.fills| + 1
  {
    handled', answers' := handled, answers;
    match a
    case Send(o, pdt) => SendKeepsInv(p, s, o, pdt, handled, answers);
    case ExchangeHandle(ts) =>
      var wire := ExchangeKeepsInv(p, s, ts, handled, answers);
      handled', answers' := handled + 1, answers + [wire];
    case EngineHandle(dt) =>
      EngineKeepsInv(p, s, dt, handled, answers);
      answers' := answers[1..];
    case _ => RecvKeepsInv(p, s, a, handled, answers);
  }

  /** How many messages the exchange has handled. */
  function Handles(actions: seq<Action>): nat {
    if actions == [] then 0 else
    Handles(actions[..|actions| - 1]) + if actions[|actions| - 1].ExchangeHandle? then 1 else 0
  }

  lemma {:induction false} InvAlong(p: Protocol, states: seq<State>, actions: seq<Action>, n: nat)
    returns (handled: nat, answers: seq<string>)
    requires Sound(p) && Path(p, states, actions) && Init(states[0]) && n <= |actions|
    ensures Inv(p, states[n], handled, answers) && handled == Handles(actions[..n])
  {
    if n == 0 {
      handled, answers := 0, [];
    } else {
      handled, answers := InvAlong(p, states, actions, n - 1);
      assert Enabled(p, states[n - 1], actions[n - 1]);
      handled, answers := StepKeepsInv(p, states[n - 1], actions[n - 1], handled, answers);
      assert actions[..n][..n - 1] == actions[..n - 1];
    }
  }

  function SentIds(s: State): seq<U64> {
    seq(|s.sent|, i requires 0 <= i < |s.sent| => s.sent[i].clordid)
  }

  function FilledIds(s: State): seq<U64> {
    seq(|s.fills|, i requires 0 <= i < |s.fills| => s.fills[i].id)
  }

  /** The ids the gateway reads from ExecutionReports are a prefix, in order, of the ids it sent. */
  lemma FillsEchoOrders(p: Protocol, states: seq<State>, actions: seq<Action>, n: nat)
    requires Sound(p) && Path(p, states, actions) && Init(states[0]) && n <= |actions|
    ensures FilledIds(states[n]) <= SentIds(states[n])
  {
    var handled, answers := InvAlong(p, states, actions, n);
    var s := states[n];
    forall i | 0 <= i < |s.fills| ensures FilledIds(s)[i] == SentIds(s)[i] {
      assert Accounted(s.sent, s.fills, i);
    }
  }

  /** Every report is timed against the latest order in its slot; that is its own order exactly when at
      most 4096 orders had been sent from it on. At all times the table holds the last 4096 orders, and
      the histograms hold every sample after the warm-up (until 2^64 events have wrapped the counters). */
  lemma FillsAreTimed(p: Protocol, states: seq<State>, actions: seq<Action>, n: nat)
    requires Sound(p) && Path(p, states, actions) && Init(states[0]) && n <= |actions|
    ensures AllAccounted(states[n].sent, states[n].fills)
    ensures forall j :: 0 <= j < |states[n].fills| && states[n].fills[j].sentBefore <= j + PENDING ==>
                        states[n].fills[j].t0 == states[n].sent[j].t0
    ensures PendingHolds(states[n].pending, states[n].sent)
    ensures |states[n].fills| <= |states[n].sent|
    ensures |states[n].t2t| == Sampled(|states[n].sent|) && |states[n].rtt| == Sampled(|states[n].fills|)
    ensures |states[n].sent| <= W ==> |states[n].t2t| == PastWarmup(|states[n].sent|)
    ensures |states[n].fills| <= W ==> |states[n].rtt| == PastWarmup(|states[n].fills|)
  {
    var handled, answers := InvAlong(p, states, actions, n);
    var s := states[n];
    SampledIsPastWarmup(|s.sent|);
    SampledIsPastWarmup(|s.fills|);
    forall j | 0 <= j < |s.fills| && s.fills[j].sentBefore <= j + PENDING ensures s.fills[j].t0 == s.sent[j].t0 {
      assert Accounted(s.sent, s.fills, j);
    }
  }

  // ------------------------------------------------------------- nothing is lost

  /** No bytes are under way and none are waiting in a buffer. */
  predicate AtRest(s: State) {
    s.toExchange == "" && s.exchangeBuf == "" && s.toEngine == "" && s.engineBuf == ""
  }

  /** Bytes of whole messages that have all arrived yield the first of them, if there is any. */
  lemma ArrivedIsYielded(p: Protocol, buf: string, msgs: seq<string>)
    requires Carries(buf, "", msgs) && (msgs != [] ==> Recognises(p.next, msgs[0]))
    ensures msgs != [] ==> buf != "" && p.next(buf).Some?
  {
    assert buf + "" == buf;
    if msgs != [] {
      assert buf == msgs[0] + Concat(msgs[1..]);
    }
  }

  /** The ids read back when there are as many reports as orders. */
  lemma AllFilled(p: Protocol, s: State, handled: nat, answers: seq<string>)
    requires Inv(p, s, handled, answers) && |s.fills| == |s.sent|
    ensures FilledIds(s) == SentIds(s)
  {
    forall i | 0 <= i < |s.fills| ensures FilledIds(s)[i] == SentIds(s)[i] {
      assert Accounted(s.sent, s.fills, i);
    }
  }

  /** With nothing under way, every order has been answered. */
  lemma RestMeansFilled(p: Protocol, s: State, handled: nat, answers: seq<string>)
    requires Sound(p) && Inv(p, s, handled, answers) && AtRest(s)
    ensures |s.fills| == |s.sent| && FilledIds(s) == SentIds(s)
  {
    ArrivedIsYielded(p, s.exchangeBuf, Wires(s.sent[handled..]));
    ArrivedIsYielded(p, s.engineBuf, answers);
    AllFilled(p, s, handled, answers);
  }

  /** In every run: once no bytes are under way, the ids read back are exactly the ids sent. */
  lemma NothingLostAtRest(p: Protocol, states: seq<State>, actions: seq<Action>, n: nat)
    requires Sound(p) && Path(p, states, actions) && Init(states[0]) && n <= |actions| && AtRest(states[n])
    ensures FilledIds(states[n]) == SentIds(states[n])
  {
    var handled, answers := InvAlong(p, states, actions, n);
    RestMeansFilled(p, states[n], handled, answers);
  }

  // ------------------------------------------------------------- every order can still be answered

  /** While an order is unanswered, some side can receive or handle something. */
  lemma NeverStuck(p: Protocol, s: State, handled: nat, answers: seq<string>, ts: string) returns (a: Action)
    requires Sound(p) && Inv(p, s, handled, answers) && p.stamp(ts) && |s.fills| < |s.sent|
    ensures Enabled(p, s, a) && !a.Send?
  {
    if p.next(s.engineBuf).Some? {
      a := EngineHandle(0);
    } else if s.toEngine != "" {
      a := EngineRecv(|s.toEngine|);
    } else if p.next(s.exchangeBuf).Some? {
      a := ExchangeHandle(ts);
    } else {
      ArrivedIsYielded(p, s.engineBuf, answers);
      if s.toExchange == "" {
        ArrivedIsYielded(p, s.exchangeBuf, Wires(s.sent[handled..]));
      }
      a := ExchangeRecv(|s.toExchange|);
    }
  }

  predicate NoSend(actions: seq<Action>) {
    forall i :: 0 <= i < |actions| ==> !actions[i].Send?
  }

  lemma PathPrepend(p: Protocol, s: State, a: Action, states: seq<State>, actions: seq<Action>)
    requires Path(p, states, actions) && Enabled(p, s, a) && states[0] == Apply(p, s, a)
    ensures Path(p, [s] + states, [a] + actions)
  {
    forall i | 0 <= i < |actions| + 1
      ensures Enabled(p, ([s] + states)[i], ([a] + actions)[i])
      ensures ([s] + states)[i + 1] == Apply(p, ([s] + states)[i], ([a] + actions)[i])
    {
      if i > 0 {
        assert ([s] + states)[i] == states[i - 1] && ([a] + actions)[i] == actions[i - 1];
      }
    }
  }

  lemma NetworkKeepsSent(p: Protocol, s: State, a: Action)
    requires Enabled(p, s, a) && !a.Send?
    ensures Apply(p, s, a).sent == s.sent
    ensures a.ExchangeRecv? ==> |Apply(p, s, a).toExchange| < |s.toExchange| && Apply(p, s, a).fills == s.fills
    ensures a.EngineRecv? ==> |Apply(p, s, a).toEngine| < |s.toEngine| && Apply(p, s, a).fills == s.fills
    ensures !a.ExchangeRecv? ==> Apply(p, s, a).toExchange == s.toExchange
  {
  }

  /** From every state of every run, receiving and handling alone lead to a state where every order has
      been answered. */
  lemma {:induction false} Settle(p: Protocol, s: State, handled: nat, answers: seq<string>, ts: string)
    returns (states: seq<State>, actions: seq<Action>)
    requires Sound(p) && Inv(p, s, handled, answers) && p.stamp(ts)
    ensures Path(p, states, actions) && NoSend(actions) && states[0] == s
    ensures var last := states[|actions|];
            last.sent == s.sent && |last.fills| == |last.sent| && FilledIds(last) == SentIds(last)
    decreases |s.sent| - handled, |s.toExchange|, handled - |s.fills|, |s.toEngine|
  {
    if |s.fills| == |s.sent| {
      AllFilled(p, s, handled, answers);
      return [s], [];
    }
    var a := NeverStuck(p, s, handled, answers, ts);
    var handled', answers' := StepKeepsInv(p, s, a, handled, answers);
    NetworkKeepsSent(p, s, a);
    var s' := Apply(p, s, a);
    var states', actions' := Settle(p, s', handled', answers', ts);
    PathPrepend(p, s, a, states', actions');
    states, actions := [s] + states', [a] + actions';
    assert states[|actions|] == states'[|actions'|];
  }
}
