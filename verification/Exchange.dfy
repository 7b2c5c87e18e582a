/** The mock exchange: one received message in, at most one reply out. */
module Exchange {
  import opened Bits
  import opened Options
  import opened Text
  import opened TagValue
  import opened Fix
  import opened Messages
  import opened Codec

  /** The fields `send_msg` puts in front of every reply. */
  function SessionFields(mtype: string, seqno: string, ts: string): seq<Field> {
    [Field(35, mtype), Field(49, "EXCHANGE"), Field(56, "TRADER"), Field(34, seqno), Field(52, ts)]
  }

  function OrElse(v: string, d: string): string {
    if v == "" then d else v
  }

  function EchoOf(nos: string): OrderText {
    OrderText(Get(nos, 11), OrElse(Get(nos, 55), "NIFTY"), OrElse(Get(nos, 54), "1"), OrElse(Get(nos, 38), "1"),
         OrElse(Get(nos, 44), "0"))
  }

  /** An ExecutionReport: the session fields and the fill; `id` is the sequence number after it has been advanced. */
  function FillFields(seqno: string, ts: string, id: string, e: OrderText): seq<Field> {
    [Field(35, "8"),
     Field(49, "EXCHANGE"),
     Field(56, "TRADER"),
     Field(34, seqno),
     Field(52, ts),
     Field(37, id),
     Field(11, e.clordid),
     Field(17, id),
     Field(150, "2"),
     Field(39, "2"),
     Field(55, e.sym),
     Field(54, e.side),
     Field(38, e.qty),
     Field(32, e.qty),
     Field(31, e.px)]
  }

  function Number(u: U64): string {
    ToChars(AsI64(u))
  }

  /** The reply to `msg`, if its type asks for one. */
  function ReplyFields(msg: string, seqno: U64, ts: string): Option<seq<Field>> {
    var mtype := Get(msg, 35);
    if mtype == "A" then Some(AckFields(Number(seqno), ts))
    else if mtype == "D" then Some(FillFields(Number(seqno), ts, Number(Inc64(seqno)), EchoOf(msg)))
    else if mtype == "1" then Some(SessionFields("0", Number(seqno), ts))
    else None
  }

  /** The bytes sent in reply (none for other message types) and the next sequence number. */
  function Reply(msg: string, seqno: U64, ts: string): (string, U64) {
    var fields := ReplyFields(msg, seqno, ts);
    if fields.None? then ("", seqno) else (Message(fields.value), Inc64(seqno))
  }

  // ------------------------------------------------------------- replies to the engine's orders

  /** Every field of a fill that a reader looks at. */
  predicate IsFillOf(msg: string, seqno: string, ts: string, id: string, e: OrderText) {
    && Get(msg, 35) == "8" && Get(msg, 49) == "EXCHANGE" && Get(msg, 56) == "TRADER" && Get(msg, 11) == e.clordid
    && Get(msg, 34) == seqno && Get(msg, 52) == ts && Get(msg, 37) == id && Get(msg, 17) == id
    && Get(msg, 150) == "2" && Get(msg, 39) == "2"
    && Get(msg, 55) == e.sym && Get(msg, 54) == e.side && Get(msg, 31) == e.px
    && Get(msg, 38) == e.qty && Get(msg, 32) == e.qty
  }

  lemma FillTexts(msg: string, fs: seq<Field>, seqno: string, ts: string, id: string, e: OrderText)
    requires fs == FillFields(seqno, ts, id, e) && ReadsAll(msg, fs)
    ensures IsFillOf(msg, seqno, ts, id, e)
  {
    assert fs[0].tag == 35 && fs[1].tag == 49 && fs[2].tag == 56 && fs[3].tag == 34 && fs[4].tag == 52;
    assert fs[5].tag == 37 && fs[6].tag == 11;
    assert fs[7].tag == 17 && fs[8].tag == 150 && fs[9].tag == 39 && fs[10].tag == 55 && fs[11].tag == 54;
    assert fs[12].tag == 38 && fs[13].tag == 32 && fs[14].tag == 31;
  }

  lemma FillIsPlain(seqno: string, ts: string, id: string, e: OrderText)
    requires Lacks(seqno, SOH) && Lacks(ts, SOH) && Lacks(id, SOH) && PlainText(e)
    ensures AllPlain(FillFields(seqno, ts, id, e))
  {
  }

  lemma FillTags(seqno: string, ts: string, id: string, e: OrderText)
    ensures DistinctTags(FillFields(seqno, ts, id, e)) && AvoidsEnvelope(FillFields(seqno, ts, id, e))
  {
  }

  lemma FillReadsBack(seqno: string, ts: string, id: string, e: OrderText)
    requires Lacks(seqno, SOH) && Lacks(ts, SOH) && Lacks(id, SOH) && PlainText(e)
    ensures IsFillOf(Message(FillFields(seqno, ts, id, e)), seqno, ts, id, e)
  {
    FillIsPlain(seqno, ts, id, e);
    FillTags(seqno, ts, id, e);
    MessageReadsAll(FillFields(seqno, ts, id, e));
    FillTexts(Message(FillFields(seqno, ts, id, e)), FillFields(seqno, ts, id, e), seqno, ts, id, e);
  }

  /** The exchange recognises an order of the engine and takes over its text unchanged. */
  lemma OrderIsEchoed(o: Order)
    requires o.sym < |SYMBOLS|
    ensures Get(EncodeNos(o), 35) == "D" && EchoOf(EncodeNos(o)) == TextOf(o)
  {
    OrderTextIsPlain(o);
    NosReadsBack(TextOf(o));
  }

  function FillOf(o: Order, seqno: U64, ts: string): seq<Field>
    requires o.sym < |SYMBOLS|
  {
    FillFields(Number(seqno), ts, Number(Inc64(seqno)), TextOf(o))
  }

  /** Every NewOrderSingle of the engine is answered by an ExecutionReport that carries its ClOrdID. */
  lemma OrderIsFilled(o: Order, seqno: U64, ts: string)
    requires o.sym < |SYMBOLS| && Lacks(ts, SOH)
    ensures Reply(EncodeNos(o), seqno, ts) == (Message(FillOf(o, seqno, ts)), Inc64(seqno))
    ensures Get(Message(FillOf(o, seqno, ts)), 35) == "8"
    ensures GetInt(Message(FillOf(o, seqno, ts)), 11, 0) == AsI64(o.clordid)
  {
    OrderIsEchoed(o);
    OrderTextIsPlain(o);
    NumbersLackSoh(AsI64(seqno));
    NumbersLackSoh(AsI64(Inc64(seqno)));
    NumbersLackSoh(AsI64(o.clordid));
    FillReadsBack(Number(seqno), ts, Number(Inc64(seqno)), TextOf(o));
    NumberRoundTrip(AsI64(o.clordid), I64_MIN, I64_MAX);
  }

  /** Whoever parses the fill of an order gets the order's symbol, side, price and full quantity, filled,
      and an order and execution id one above the message's sequence number. */
  lemma FillCarriesOrder(o: Order, seqno: U64, ts: string)
    requires o.sym < |SYMBOLS| && Lacks(ts, SOH)
    requires I64_MIN <= o.qty <= I64_MAX && I64_MIN <= o.px <= I64_MAX
    ensures var msg := Message(FillOf(o, seqno, ts));
            && Get(msg, 55) == SYMBOLS[o.sym] && GetInt(msg, 54, 0) == SideCode(o.side)
            && GetInt(msg, 31, 0) == o.px && GetInt(msg, 38, 0) == o.qty && GetInt(msg, 32, 0) == o.qty
            && Get(msg, 150) == "2" && Get(msg, 39) == "2" && Get(msg, 52) == ts
            && Get(msg, 35) == "8" && Get(msg, 49) == "EXCHANGE" && Get(msg, 56) == "TRADER"
            && AsU64(GetInt(msg, 34, 0)) == seqno
            && AsU64(GetInt(msg, 37, 0)) == Inc64(seqno) && AsU64(GetInt(msg, 17, 0)) == Inc64(seqno)
  {
    OrderTextIsPlain(o);
    NumbersLackSoh(AsI64(seqno));
    NumbersLackSoh(AsI64(Inc64(seqno)));
    FillReadsBack(Number(seqno), ts, Number(Inc64(seqno)), TextOf(o));
    FillNumbersReadBack(o, seqno, ts, Message(FillOf(o, seqno, ts)));
  }

  lemma FillNumbersReadBack(o: Order, seqno: U64, ts: string, msg: string)
    requires I64_MIN <= o.qty <= I64_MAX && I64_MIN <= o.px <= I64_MAX
    requires o.sym < |SYMBOLS| && IsFillOf(msg, Number(seqno), ts, Number(Inc64(seqno)), TextOf(o))
    ensures GetInt(msg, 54, 0) == SideCode(o.side) && GetInt(msg, 31, 0) == o.px
    ensures GetInt(msg, 38, 0) == o.qty && GetInt(msg, 32, 0) == o.qty
    ensures AsU64(GetInt(msg, 34, 0)) == seqno
    ensures AsU64(GetInt(msg, 37, 0)) == Inc64(seqno) && AsU64(GetInt(msg, 17, 0)) == Inc64(seqno)
  {
    IdRoundTrip(seqno);
    IdRoundTrip(Inc64(seqno));
    NumberReadsBack(msg, 54, SideCode(o.side));
    NumberReadsBack(msg, 31, o.px);
    NumberReadsBack(msg, 38, o.qty);
    NumberReadsBack(msg, 32, o.qty);
    NumberReadsBack(msg, 34, AsI64(seqno));
    NumberReadsBack(msg, 37, AsI64(Inc64(seqno)));
    NumberReadsBack(msg, 17, AsI64(Inc64(seqno)));
  }

  // ------------------------------------------------------------- replies to any client's orders

  /** What a fill says for a text of the order: the text itself, or the default when it is missing. */
  predicate Echoes(msg: string, tag: int, order: string, of: int, default: string) {
    Get(msg, tag) == if Get(order, of) != "" then Get(order, of) else default
  }

  lemma EchoIsPlain(order: string)
    ensures PlainText(EchoOf(order))
  {
    GetLacksSoh(order, 11);
    GetLacksSoh(order, 55);
    GetLacksSoh(order, 54);
    GetLacksSoh(order, 38);
    GetLacksSoh(order, 44);
  }

  /** Any message of type D, well formed or not, is answered by one fill that echoes its ClOrdID and its
      terms, with NIFTY, side 1, quantity 1 and price 0 for those that are missing. */
  lemma AnyOrderIsFilled(order: string, seqno: U64, ts: string)
    requires Get(order, 35) == "D" && Lacks(ts, SOH)
    ensures var (wire, seqno') := Reply(order, seqno, ts);
            && seqno' == Inc64(seqno)
            && IsSessionOf(wire, "8", Number(seqno), ts)
            && Get(wire, 37) == Number(Inc64(seqno)) && Get(wire, 17) == Number(Inc64(seqno))
            && Get(wire, 150) == "2" && Get(wire, 39) == "2"
            && Get(wire, 11) == Get(order, 11)
            && Echoes(wire, 55, order, 55, "NIFTY") && Echoes(wire, 54, order, 54, "1")
            && Echoes(wire, 38, order, 38, "1") && Echoes(wire, 32, order, 38, "1") && Echoes(wire, 31, order, 44, "0")
  {
    EchoIsPlain(order);
    NumbersLackSoh(AsI64(seqno));
    NumbersLackSoh(AsI64(Inc64(seqno)));
    FillReadsBack(Number(seqno), ts, Number(Inc64(seqno)), EchoOf(order));
  }

  /** Every reply starts with its type; the order of all its fields is fixed. */
  lemma ReplyOrder(msg: string, seqno: U64, ts: string)
    ensures var mtype, fs := Get(msg, 35), ReplyFields(msg, seqno, ts);
            if mtype == "D" then
              fs.Some? && TagsOf(fs.value) == [35, 49, 56, 34, 52, 37, 11, 17, 150, 39, 55, 54, 38, 32, 31]
            else if mtype == "A" then fs.Some? && TagsOf(fs.value) == [35, 49, 56, 34, 52, 98, 108]
            else if mtype == "1" then fs.Some? && TagsOf(fs.value) == [35, 49, 56, 34, 52]
            else fs.None?
  {
  }

  // ------------------------------------------------------------- replies to other messages

  /** The session fields of a reply, as a reader gets them. */
  predicate IsSessionOf(msg: string, mtype: string, seqno: string, ts: string) {
    && Get(msg, 35) == mtype && Get(msg, 49) == "EXCHANGE" && Get(msg, 56) == "TRADER"
    && Get(msg, 34) == seqno && Get(msg, 52) == ts
  }

  lemma SessionTexts(msg: string, fs: seq<Field>, mtype: string, seqno: string, ts: string)
    requires |fs| >= 5 && fs[..5] == SessionFields(mtype, seqno, ts) && ReadsAll(msg, fs)
    ensures IsSessionOf(msg, mtype, seqno, ts)
  {
    assert fs[0] == fs[..5][0] && fs[1] == fs[..5][1] && fs[2] == fs[..5][2];
    assert fs[3] == fs[..5][3] && fs[4] == fs[..5][4];
  }

  function AckFields(seqno: string, ts: string): seq<Field> {
    SessionFields("A", seqno, ts) + [Field(98, "0"), Field(108, "30")]
  }

  lemma AckIsPlain(seqno: string, ts: string, fs: seq<Field>)
    requires Lacks(seqno, SOH) && Lacks(ts, SOH) && fs == AckFields(seqno, ts)
    ensures AllPlain(fs) && DistinctTags(fs) && AvoidsEnvelope(fs)
    ensures fs[..5] == SessionFields("A", seqno, ts) && fs[5] == Field(98, "0") && fs[6] == Field(108, "30")
  {
  }

  lemma HeartbeatIsPlain(seqno: string, ts: string, fs: seq<Field>)
    requires Lacks(seqno, SOH) && Lacks(ts, SOH) && fs == SessionFields("0", seqno, ts)
    ensures AllPlain(fs) && DistinctTags(fs) && AvoidsEnvelope(fs) && fs[..5] == fs
  {
  }

  lemma AckTexts(seqno: string, ts: string, fs: seq<Field>)
    requires Lacks(seqno, SOH) && Lacks(ts, SOH) && fs == AckFields(seqno, ts)
    ensures IsSessionOf(Message(fs), "A", seqno, ts)
    ensures Get(Message(fs), 98) == "0" && Get(Message(fs), 108) == "30"
  {
    AckIsPlain(seqno, ts, fs);
    MessageReadsAll(fs);
    SessionTexts(Message(fs), fs, "A", seqno, ts);
    assert fs[5].tag == 98 && fs[6].tag == 108;
  }

  lemma HeartbeatTexts(seqno: string, ts: string, fs: seq<Field>)
    requires Lacks(seqno, SOH) && Lacks(ts, SOH) && fs == SessionFields("0", seqno, ts)
    ensures IsSessionOf(Message(fs), "0", seqno, ts)
  {
    HeartbeatIsPlain(seqno, ts, fs);
    MessageReadsAll(fs);
    SessionTexts(Message(fs), fs, "0", seqno, ts);
  }

  /** A logon is acknowledged, a test request answered by a heartbeat, both under the next sequence
      number; any message that is neither of these nor an order is ignored. */
  lemma OtherReplies(msg: string, seqno: U64, ts: string)
    requires Lacks(ts, SOH)
    ensures var mtype, (wire, seqno') := Get(msg, 35), Reply(msg, seqno, ts);
            && (mtype == "A" ==> seqno' == Inc64(seqno) && IsSessionOf(wire, "A", Number(seqno), ts)
                                 && Get(wire, 98) == "0" && Get(wire, 108) == "30")
            && (mtype == "1" ==> seqno' == Inc64(seqno) && IsSessionOf(wire, "0", Number(seqno), ts))
            && (mtype != "A" && mtype != "1" && mtype != "D" ==> wire == "" && seqno' == seqno)
  {
    NumbersLackSoh(AsI64(seqno));
    if Get(msg, 35) == "A" {
      AckTexts(Number(seqno), ts, ReplyFields(msg, seqno, ts).value);
    } else if Get(msg, 35) == "1" {
      HeartbeatTexts(Number(seqno), ts, ReplyFields(msg, seqno, ts).value);
    }
  }

  // ------------------------------------------------------------- when replies fit the fixed buffers

  /** The variable part of a fill: sequence number, time stamp, the id twice, and the echoed texts. */
  function FillChars(seqno: U64, ts: string, e: OrderText): nat {
    |Number(seqno)| + |ts| + 2 * |Number(Inc64(seqno))|
    + |e.clordid| + |e.sym| + |e.side| + 2 * |e.qty| + |e.px|
  }

  lemma BodyOfFifteen(fs: seq<Field>)
    requires |fs| == 15
    ensures |BodyBytes(fs)| == FiveLengths(fs, 0) + FiveLengths(fs, 5) + FiveLengths(fs, 10)
  {
    BodyLengthIsTotal(fs);
    assert fs == fs[..5] + fs[5..] && fs[5..] == fs[5..10] + fs[10..];
    TotalAppend(fs[..5], fs[5..]);
    TotalAppend(fs[5..10], fs[10..]);
    TotalOfFive(fs[..5]);
    TotalOfFive(fs[5..10]);
    TotalOfFive(fs[10..]);
  }

  lemma SessionPart(fs: seq<Field>, seqno: string, ts: string, id: string, e: OrderText)
    requires fs == FillFields(seqno, ts, id, e)
    ensures FiveLengths(fs, 0) == 35 + |seqno| + |ts|
  {
    LengthUnder(fs[0]); LengthUnder(fs[1]); LengthUnder(fs[2]); LengthUnder(fs[3]); LengthUnder(fs[4]);
  }

  lemma IdsPart(fs: seq<Field>, seqno: string, ts: string, id: string, e: OrderText)
    requires fs == FillFields(seqno, ts, id, e)
    ensures FiveLengths(fs, 5) == 23 + 2 * |id| + |e.clordid|
  {
    LengthUnder(fs[5]); LengthUnder(fs[6]); LengthUnder(fs[7]); LengthUnder(fs[8]); LengthUnder(fs[9]);
  }

  lemma TermsPart(fs: seq<Field>, seqno: string, ts: string, id: string, e: OrderText)
    requires fs == FillFields(seqno, ts, id, e)
    ensures FiveLengths(fs, 10) == 20 + |e.sym| + |e.side| + 2 * |e.qty| + |e.px|
  {
    LengthUnder(fs[10]); LengthUnder(fs[11]); LengthUnder(fs[12]); LengthUnder(fs[13]); LengthUnder(fs[14]);
  }

  lemma FillLengthOf(fs: seq<Field>, seqno: U64, ts: string, e: OrderText)
    requires fs == FillFields(Number(seqno), ts, Number(Inc64(seqno)), e)
    ensures |BodyBytes(fs)| == 78 + FillChars(seqno, ts, e)
  {
    assert |fs| == 15;
    BodyOfFifteen(fs);
    SessionPart(fs, Number(seqno), ts, Number(Inc64(seqno)), e);
    IdsPart(fs, Number(seqno), ts, Number(Inc64(seqno)), e);
    TermsPart(fs, Number(seqno), ts, Number(Inc64(seqno)), e);
  }

  lemma FillLength(seqno: U64, ts: string, e: OrderText)
    ensures |BodyBytes(FillFields(Number(seqno), ts, Number(Inc64(seqno)), e))| == 78 + FillChars(seqno, ts, e)
  {
    FillLengthOf(FillFields(Number(seqno), ts, Number(Inc64(seqno)), e), seqno, ts, e);
  }

  /** Lengths a caller can read off the message: only a fill can be too long, and it is so exactly when
      its variable part takes more than 402 characters. */
  predicate ReplyFits(msg: string, seqno: U64, ts: string) {
    |ts| <= 24 && (Get(msg, 35) == "D" ==> FillChars(seqno, ts, EchoOf(msg)) <= 402)
  }

  lemma SessionLength(mtype: string, seqno: U64, ts: string)
    ensures |BodyBytes(SessionFields(mtype, Number(seqno), ts))| == 34 + |mtype| + |Number(seqno)| + |ts|
  {
    var fs := SessionFields(mtype, Number(seqno), ts);
    BodyLengthIsTotal(fs);
    TotalOfFive(fs);
    forall i | 0 <= i < 5 ensures FieldLength(fs[i]) == |fs[i].value| + 4 {
      LengthUnder(fs[i]);
    }
  }

  lemma AckLength(seqno: U64, ts: string)
    ensures |BodyBytes(AckFields(Number(seqno), ts))| == 47 + |Number(seqno)| + |ts|
  {
    SessionLength("A", seqno, ts);
    BodyBytesAppend(SessionFields("A", Number(seqno), ts), [Field(98, "0"), Field(108, "30")]);
    assert [Field(98, "0"), Field(108, "30")] == [Field(98, "0")] + [Field(108, "30")];
    BodyBytesAppend([Field(98, "0")], [Field(108, "30")]);
    BodyBytesOne(Field(98, "0"));
    BodyBytesOne(Field(108, "30"));
    TwoDigitTag(98);
    TwoDigitTag(108);
  }

  lemma SessionRepliesFit(seqno: U64, ts: string)
    requires |ts| <= 24
    ensures |BodyBytes(AckFields(Number(seqno), ts))| <= BODY_CAPACITY
    ensures |BodyBytes(SessionFields("0", Number(seqno), ts))| <= BODY_CAPACITY
  {
    NumbersAreShort(AsI64(seqno));
    AckLength(seqno, ts);
    SessionLength("0", seqno, ts);
  }

  /** Exactly then does the reply, if there is one, fit the builder's 480 bytes. */
  lemma ReplyFitsExactly(msg: string, seqno: U64, ts: string)
    requires |ts| <= 24
    ensures var fields := ReplyFields(msg, seqno, ts);
            ReplyFits(msg, seqno, ts) <==> (fields.Some? ==> |BodyBytes(fields.value)| <= BODY_CAPACITY)
  {
    SessionRepliesFit(seqno, ts);
    FillLength(seqno, ts, EchoOf(msg));
  }

  predicate SmallTags(fs: seq<Field>) {
    forall i :: 0 <= i < |fs| ==> 0 <= fs[i].tag < 1000
  }

  lemma FillTagsSmall(seqno: string, ts: string, id: string, e: OrderText)
    ensures SmallTags(FillFields(seqno, ts, id, e))
  {
  }

  lemma SessionTagsSmall(mtype: string, seqno: string, ts: string)
    ensures SmallTags(SessionFields(mtype, seqno, ts)) && SmallTags(AckFields(seqno, ts))
  {
  }

  lemma ReplyTags(msg: string, seqno: U64, ts: string)
    requires ReplyFields(msg, seqno, ts).Some?
    ensures SmallTags(ReplyFields(msg, seqno, ts).value)
  {
    FillTagsSmall(Number(seqno), ts, Number(Inc64(seqno)), EchoOf(msg));
    SessionTagsSmall("0", Number(seqno), ts);
  }

  /** Any client order with a symbol of more than 402 characters overruns the body. */
  lemma LongSymbolOverruns(msg: string, seqno: U64, ts: string)
    requires Get(msg, 35) == "D" && |Get(msg, 55)| > 402
    ensures var reply := ReplyFields(msg, seqno, ts);
            reply.Some? && |BodyBytes(reply.value)| > BODY_CAPACITY
  {
    FillLength(seqno, ts, EchoOf(msg));
  }

  lemma NumbersAreShort(n: int)
    requires I64_MIN <= n <= I64_MAX
    ensures |ToChars(n)| <= 20
  {
    var m: nat := if n < 0 then -n else n;
    DigitCount(m, 19);
    Pow10Nineteen();
  }

  lemma Pow10Nineteen()
    ensures Pow10(19) == 10_000_000_000_000_000_000
  {
    Pow10Values();
    assert Pow10(10) == 10_000_000_000;
    assert Pow10(12) == 1_000_000_000_000;
    assert Pow10(14) == 100_000_000_000_000;
    assert Pow10(16) == 10_000_000_000_000_000;
    assert Pow10(18) == 1_000_000_000_000_000_000;
  }

  /** The fill of every order of the engine fits the builder's body and the exchange's send buffer. */
  lemma FillFits(o: Order, seqno: U64, ts: string)
    requires o.sym < |SYMBOLS| && |ts| <= 24
    requires I64_MIN <= o.qty <= I64_MAX && I64_MIN <= o.px <= I64_MAX
    ensures |BodyBytes(FillOf(o, seqno, ts))| <= BODY_CAPACITY && |Message(FillOf(o, seqno, ts))| <= 512
  {
    NumbersAreShort(AsI64(seqno));
    NumbersAreShort(AsI64(Inc64(seqno)));
    NumbersAreShort(AsI64(o.clordid));
    NumbersAreShort(SideCode(o.side));
    NumbersAreShort(o.qty);
    NumbersAreShort(o.px);
    assert |SYMBOLS[o.sym]| <= 9;
    FillLength(seqno, ts, TextOf(o));
    MessageFits(BodyBytes(FillOf(o, seqno, ts)));
  }

  /** So every order of the engine meets the condition. */
  lemma OrdersReplyFits(o: Order, seqno: U64, ts: string)
    requires o.sym < |SYMBOLS| && |ts| <= 24
    requires I64_MIN <= o.qty <= I64_MAX && I64_MIN <= o.px <= I64_MAX
    ensures ReplyFits(EncodeNos(o), seqno, ts)
  {
    OrderIsEchoed(o);
    FillFits(o, seqno, ts);
    FillLength(seqno, ts, TextOf(o));
  }
}
