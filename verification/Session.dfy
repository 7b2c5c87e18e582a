/** The engine and the exchange speaking FIX: the codec, the framer and the exchange's replies plugged
    into the conversation, and what follows for every run of orders and every chunking. */
module Session {
  import opened Bits
  import opened Options
  import opened TagValue
  import opened Fix
  import opened Messages
  import opened Framing
  import opened Draining
  import opened Exchange
  import opened Conversation
  import opened Measurements

  /** An order as the strategy hands it over: the next id, a known symbol, its own encoding. */
  predicate WellMade(o: Order, position: nat) {
    && o.clordid == Rem(position + 1, W)
    && o.sym < |SYMBOLS| && I64_MIN <= o.qty <= I64_MAX && I64_MIN <= o.px <= I64_MAX
    && o.wire == EncodeNos(o)
  }

  predicate TimeStamp(ts: string) {
    Lacks(ts, SOH) && |ts| <= 24
  }

  /** The gateway acts on ExecutionReports only and reads the id as a number. */
  function ReportOf(msg: string): Option<U64> {
    if Get(msg, 35) == "8" then Some(AsU64(GetInt(msg, 11, 0))) else None
  }

  const FIX: Protocol := Protocol(NextMessage, Reply, ReportOf, WellMade, TimeStamp)

  lemma WireIsRecognised(o: Order, position: nat)
    requires WellMade(o, position)
    ensures Recognises(NextMessage, o.wire)
  {
    var t := TextOf(o);
    NumbersAreShort(AsI64(o.clordid));
    NumbersAreShort(o.qty);
    NumbersAreShort(o.px);
    TwoDigitTag(SideCode(o.side));
    NosBodyLength(t);
    assert |t.sym| <= 9;
    FrameIsRecognised(BodyBytes(NosFields(t)));
  }

  lemma FillIsRecognised(o: Order, position: nat, seqno: U64, ts: string)
    requires WellMade(o, position) && TimeStamp(ts)
    ensures Recognises(NextMessage, Message(FillOf(o, seqno, ts)))
  {
    FillFits(o, seqno, ts);
    FrameIsRecognised(BodyBytes(FillOf(o, seqno, ts)));
  }

  lemma FillIsReported(o: Order, position: nat, seqno: U64, ts: string)
    requires WellMade(o, position) && TimeStamp(ts)
    ensures Reply(o.wire, seqno, ts).0 == Message(FillOf(o, seqno, ts))
    ensures ReportOf(Message(FillOf(o, seqno, ts))) == Some(o.clordid)
  {
    OrderIsFilled(o, seqno, ts);
    IdRoundTrip(o.clordid);
  }

  lemma FillAnswers(o: Order, position: nat, seqno: U64, ts: string)
    requires WellMade(o, position) && TimeStamp(ts)
    ensures Answers(FIX, Reply(o.wire, seqno, ts).0, o)
  {
    FillIsReported(o, position, seqno, ts);
    FillIsRecognised(o, position, seqno, ts);
  }

  lemma OrdersRecognised()
    ensures Recognised(FIX)
  {
    forall o: Order, position: nat | FIX.made(o, position)
      ensures o.clordid == Rem(position + 1, W) && Recognises(FIX.next, o.wire)
    {
      WireIsRecognised(o, position);
    }
  }

  lemma FillsAnswer()
    ensures Answered(FIX)
  {
    forall o: Order, position: nat, seqno: U64, ts: string | FIX.made(o, position) && FIX.stamp(ts)
      ensures Answers(FIX, FIX.reply(o.wire, seqno, ts).0, o)
    {
      FillAnswers(o, position, seqno, ts);
    }
  }

  lemma FillsNumbered()
    ensures Numbered(FIX)
  {
    forall o: Order, position: nat, seqno: U64, ts: string | FIX.made(o, position) && FIX.stamp(ts)
      ensures FIX.reply(o.wire, seqno, ts).1 == Inc64(seqno)
    {
      OrderIsFilled(o, seqno, ts);
    }
  }

  /** The codec provides what the conversation needs. */
  lemma FixIsSound()
    ensures Sound(FIX)
  {
    NothingIsYielded();
    OrdersRecognised();
    FillsAnswer();
    FillsNumbered();
  }

  lemma NothingIsYielded()
    ensures FIX.next("").None?
  {
  }

  /** For every run of orders and every chunking of both directions: what comes back are the ids that
      were sent, in order, none skipped and none repeated; each is timed against its own order within
      the window of the pending table; and the counters agree with the histograms. */
  lemma EveryRun(states: seq<State>, actions: seq<Action>, n: nat)
    requires Path(FIX, states, actions) && Init(states[0]) && n <= |actions|
    ensures FilledIds(states[n]) <= SentIds(states[n])
    ensures AllAccounted(states[n].sent, states[n].fills)
    ensures PendingHolds(states[n].pending, states[n].sent)
    ensures |states[n].t2t| == Sampled(|states[n].sent|) && |states[n].rtt| == Sampled(|states[n].fills|)
    ensures AtRest(states[n]) ==> FilledIds(states[n]) == SentIds(states[n])
  {
    FixIsSound();
    FillsEchoOrders(FIX, states, actions, n);
    FillsAreTimed(FIX, states, actions, n);
    if AtRest(states[n]) {
      NothingLostAtRest(FIX, states, actions, n);
    }
  }

  /** At every point of every run, receiving and handling alone can bring every order its answer. */
  lemma EveryOrderCanBeFilled(states: seq<State>, actions: seq<Action>, n: nat)
    returns (more: seq<State>, steps: seq<Action>)
    requires Path(FIX, states, actions) && Init(states[0]) && n <= |actions|
    ensures Path(FIX, more, steps) && NoSend(steps) && more[0] == states[n]
    ensures var last := more[|steps|];
            last.sent == states[n].sent && FilledIds(last) == SentIds(last)
  {
    FixIsSound();
    var handled, answers := InvAlong(FIX, states, actions, n);
    assert FIX.stamp("");
    more, steps := Settle(FIX, states[n], handled, answers, "");
  }

  /** In every run the exchange answers the `k`-th order it handles with that order's fill, numbered from
      where the exchange began. */
  lemma FillsInOrder(states: seq<State>, actions: seq<Action>, n: nat)
    requires Path(FIX, states, actions) && Init(states[0]) && n < |actions| && actions[n].ExchangeHandle?
    ensures var k, s := Handles(actions[..n]), states[n];
            && k < |s.sent| && s.sent[k].sym < |SYMBOLS|
            && states[n + 1].toEngine
               == s.toEngine + Message(FillOf(s.sent[k], Rem(states[0].exchangeSeq + k, W), actions[n].ts))
  {
    FixIsSound();
    AnswersInOrder(FIX, states, actions, n);
    var handled, answers := InvAlong(FIX, states, actions, n);
    var k := Handles(actions[..n]);
    assert FIX.made(states[n].sent[k], k);
    assert Enabled(FIX, states[n], actions[n]);
    OrderIsFilled(states[n].sent[k], Rem(states[0].exchangeSeq + k, W), actions[n].ts);
  }

  // ------------------------------------------------------------- what the gateway ignores

  /** Messages of any other type than 8 are ignored; an ExecutionReport without an id counts for id 0. */
  lemma OnlyReportsCount(fields: seq<Field>, mtype: string)
    requires fields != [] && fields[0] == Field(35, mtype) && AllPlain(fields)
    ensures mtype != "8" ==> ReportOf(Message(fields)) == None
    ensures mtype == "8" && (forall i :: 0 <= i < |fields| ==> fields[i].tag != 11) ==>
              ReportOf(Message(fields)) == Some(0)
  {
    ReadsField(fields, 0);
    if mtype == "8" && forall i :: 0 <= i < |fields| ==> fields[i].tag != 11 {
      PlainIsWritable(fields);
      BuilderViewRoundTrip(fields, 11);
      FirstValueAbsent(fields, 11);
    }
  }

  /** An ExecutionReport counts for the id it was printed with. */
  lemma ReportsCountForTheirId(fields: seq<Field>, k: nat, id: U64)
    requires |fields| > k && fields[0] == Field(35, "8") && AllPlain(fields)
    requires fields[k] == Field(11, Number(id)) && forall i :: 0 <= i < k ==> fields[i].tag != 11
    ensures ReportOf(Message(fields)) == Some(id)
  {
    ReadsField(fields, 0);
    ReadsField(fields, k);
    NumberReadsBack(Message(fields), 11, AsI64(id));
    IdRoundTrip(id);
  }
}
