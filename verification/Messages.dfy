/** The payloads of the pipeline and the FIX messages made from them. */
module Messages {
  import opened Bits
  import opened Text
  import opened TagValue
  import opened Fix

  const SYMBOLS: seq<string> := ["NIFTY", "BANKNIFTY", "RELIANCE", "TCS", "INFY", "HDFCBANK"]
  const BASE_PRICE := 10000
  const ORDER_QTY := 5000

  datatype Tick = Tick(t0: U64, sym: nat, seqno: nat, bid: int, ask: int)

  datatype Side = Buy | Sell

  function SideCode(s: Side): int {
    if s.Buy? then 1 else 2
  }

  /** An order with its encoded NewOrderSingle. */
  datatype Order = Order(t0: U64, clordid: U64, sym: nat, side: Side, px: int, qty: int, wire: string)

  /** `static_cast<i64>` of a `u64`, and back. */
  function AsI64(u: U64): int {
    if u <= I64_MAX then u else u - W
  }

  function AsU64(i: int): U64
    requires I64_MIN <= i <= I64_MAX
  {
    if i >= 0 then i else i + W
  }

  /** Integer division by two, rounding toward zero. */
  function Halve(x: int): int {
    if x >= 0 then x / 2 else -(-x / 2)
  }

  /** The trading rule: alternate sides by order id, quote the mid, fixed size. */
  function Decide(t: Tick, clordid: U64): Order {
    Order(t.t0, clordid, t.sym, if clordid % 2 == 1 then Buy else Sell, Halve(t.bid + t.ask), ORDER_QTY, "")
  }

  /** The variable fields of an order as text; this is also what an ExecutionReport takes over. */
  datatype OrderText = OrderText(clordid: string, sym: string, side: string, qty: string, px: string)

  function TextOf(o: Order): OrderText
    requires o.sym < |SYMBOLS|
  {
    OrderText(ToChars(AsI64(o.clordid)), SYMBOLS[o.sym], ToChars(SideCode(o.side)), ToChars(o.qty), ToChars(o.px))
  }

  function NosFields(t: OrderText): seq<Field> {
    [Field(35, "D"),
     Field(49, "TRADER"),
     Field(56, "EXCHANGE"),
     Field(34, t.clordid),
     Field(11, t.clordid),
     Field(55, t.sym),
     Field(54, t.side),
     Field(38, t.qty),
     Field(40, "2"),
     Field(44, t.px)]
  }

  function EncodeNos(o: Order): string
    requires o.sym < |SYMBOLS|
  {
    Message(NosFields(TextOf(o)))
  }

  // ------------------------------------------------------------- reading a NewOrderSingle back

  lemma TwoDigitTag(tag: int)
    requires 0 <= tag < 1000
    ensures |ToChars(tag)| == if tag < 10 then 1 else if tag < 100 then 2 else 3
  {
    DigitCount(tag, 1);
    DigitCount(tag, 2);
    DigitCount(tag, 3);
    Pow10Values();
  }

  predicate Plain(f: Field) {
    0 <= f.tag < 1000 && Lacks(f.value, SOH)
  }

  predicate AllPlain(fields: seq<Field>) {
    forall i :: 0 <= i < |fields| ==> Plain(fields[i])
  }

  lemma PlainIsWritable(fields: seq<Field>)
    requires AllPlain(fields)
    ensures AllWritable(fields)
  {
    forall i | 0 <= i < |fields| ensures Writable(fields[i]) {
      TwoDigitTag(fields[i].tag);
    }
  }

  lemma NumbersLackSoh(n: int)
    ensures Lacks(ToChars(n), SOH) && ToChars(n) != ""
  {
  }

  predicate PlainText(t: OrderText) {
    Lacks(t.clordid, SOH) && Lacks(t.sym, SOH) && Lacks(t.side, SOH) && Lacks(t.qty, SOH) && Lacks(t.px, SOH)
  }

  predicate FullText(t: OrderText) {
    t.sym != "" && t.side != "" && t.qty != "" && t.px != ""
  }

  lemma OrderTextIsPlain(o: Order)
    requires o.sym < |SYMBOLS|
    ensures PlainText(TextOf(o)) && FullText(TextOf(o))
  {
    NumbersLackSoh(AsI64(o.clordid));
    NumbersLackSoh(SideCode(o.side));
    NumbersLackSoh(o.qty);
    NumbersLackSoh(o.px);
    assert Lacks(SYMBOLS[o.sym], SOH) && SYMBOLS[o.sym] != "";
  }

  lemma NosIsPlain(t: OrderText)
    requires PlainText(t)
    ensures AllPlain(NosFields(t)) && DistinctTags(NosFields(t)) && AvoidsEnvelope(NosFields(t))
  {
  }

  /** The position of a tag in a list that has not used it before. */
  lemma {:induction false} FirstValueAt(fields: seq<Field>, k: nat)
    requires k < |fields| && forall i :: 0 <= i < k ==> fields[i].tag != fields[k].tag
    ensures FirstValue(fields, fields[k].tag) == fields[k].value
    decreases k
  {
    if k > 0 {
      FirstValueAt(fields[1..], k - 1);
    }
  }

  lemma {:induction false} FirstValueAbsent(fields: seq<Field>, tag: int)
    requires forall i :: 0 <= i < |fields| ==> fields[i].tag != tag
    ensures FirstValue(fields, tag) == ""
    decreases |fields|
  {
    if fields != [] {
      FirstValueAbsent(fields[1..], tag);
    }
  }

  lemma ReadsField(fields: seq<Field>, k: nat)
    requires AllPlain(fields) && k < |fields|
    requires forall i :: 0 <= i < k ==> fields[i].tag != fields[k].tag
    requires fields[k].tag != 8 && fields[k].tag != 9 && fields[k].tag != 10
    ensures Get(Message(fields), fields[k].tag) == fields[k].value
  {
    PlainIsWritable(fields);
    BuilderViewRoundTrip(fields, fields[k].tag);
    FirstValueAt(fields, k);
  }

  predicate DistinctTags(fields: seq<Field>) {
    forall i, j :: 0 <= i < j < |fields| ==> fields[i].tag != fields[j].tag
  }

  predicate AvoidsEnvelope(fields: seq<Field>) {
    forall i :: 0 <= i < |fields| ==> fields[i].tag != 8 && fields[i].tag != 9 && fields[i].tag != 10
  }

  /** Every listed field can be read from the message. */
  predicate ReadsAll(msg: string, fields: seq<Field>) {
    forall k :: 0 <= k < |fields| ==> Get(msg, fields[k].tag) == fields[k].value
  }

  lemma MessageReadsAll(fields: seq<Field>)
    requires AllPlain(fields) && DistinctTags(fields) && AvoidsEnvelope(fields)
    ensures ReadsAll(Message(fields), fields)
  {
    forall k | 0 <= k < |fields| ensures Get(Message(fields), fields[k].tag) == fields[k].value {
      ReadsField(fields, k);
    }
  }

  /** Every field of a NewOrderSingle, as a reader gets it. */
  predicate IsNosOf(msg: string, t: OrderText) {
    && Get(msg, 35) == "D" && Get(msg, 49) == "TRADER" && Get(msg, 56) == "EXCHANGE"
    && Get(msg, 34) == t.clordid && Get(msg, 11) == t.clordid
    && Get(msg, 55) == t.sym && Get(msg, 54) == t.side && Get(msg, 38) == t.qty
    && Get(msg, 40) == "2" && Get(msg, 44) == t.px
  }

  lemma NosTexts(msg: string, fs: seq<Field>, t: OrderText)
    requires fs == NosFields(t) && ReadsAll(msg, fs)
    ensures IsNosOf(msg, t)
  {
    assert fs[0].tag == 35 && fs[1].tag == 49 && fs[2].tag == 56 && fs[3].tag == 34 && fs[4].tag == 11;
    assert fs[5].tag == 55 && fs[6].tag == 54 && fs[7].tag == 38 && fs[8].tag == 40 && fs[9].tag == 44;
  }

  /** Every field comes back as it was written. */
  lemma NosReadsBack(t: OrderText)
    requires PlainText(t)
    ensures IsNosOf(Message(NosFields(t)), t)
  {
    NosIsPlain(t);
    MessageReadsAll(NosFields(t));
    NosTexts(Message(NosFields(t)), NosFields(t), t);
  }

  /** The tags of a field list, in the order they go on the wire. */
  function TagsOf(fs: seq<Field>): seq<int> {
    seq(|fs|, i requires 0 <= i < |fs| => fs[i].tag)
  }

  /** The order of the fields of a NewOrderSingle is fixed; its type comes first. */
  lemma NosOrder(t: OrderText)
    ensures TagsOf(NosFields(t)) == [35, 49, 56, 34, 11, 55, 54, 38, 40, 44]
  {
  }

  lemma NumberReadsBack(msg: string, tag: int, n: int)
    requires Get(msg, tag) == ToChars(n) && I64_MIN <= n <= I64_MAX
    ensures GetInt(msg, tag, 0) == n
  {
    NumberRoundTrip(n, I64_MIN, I64_MAX);
  }

  lemma IdRoundTrip(u: U64)
    ensures I64_MIN <= AsI64(u) <= I64_MAX && AsU64(AsI64(u)) == u
  {
  }

  /** Whoever parses the message gets the order: id, symbol, side, quantity and price. */
  lemma OrderRoundTrip(o: Order)
    requires o.sym < |SYMBOLS| && I64_MIN <= o.qty <= I64_MAX && I64_MIN <= o.px <= I64_MAX
    ensures var msg := EncodeNos(o);
            && AsU64(GetInt(msg, 11, 0)) == o.clordid && AsU64(GetInt(msg, 34, 0)) == o.clordid
            && Get(msg, 55) == SYMBOLS[o.sym]
            && GetInt(msg, 54, 0) == (if o.side.Buy? then 1 else 2)
            && GetInt(msg, 38, 0) == o.qty && GetInt(msg, 44, 0) == o.px
            && Get(msg, 40) == "2" && Get(msg, 49) == "TRADER" && Get(msg, 56) == "EXCHANGE"
  {
    OrderTextIsPlain(o);
    NosReadsBack(TextOf(o));
    OrderNumbersReadBack(o, EncodeNos(o));
  }

  lemma OrderNumbersReadBack(o: Order, msg: string)
    requires I64_MIN <= o.qty <= I64_MAX && I64_MIN <= o.px <= I64_MAX
    requires o.sym < |SYMBOLS| && IsNosOf(msg, TextOf(o))
    ensures AsU64(GetInt(msg, 11, 0)) == o.clordid && AsU64(GetInt(msg, 34, 0)) == o.clordid
    ensures GetInt(msg, 54, 0) == SideCode(o.side) && GetInt(msg, 38, 0) == o.qty && GetInt(msg, 44, 0) == o.px
  {
    IdRoundTrip(o.clordid);
    NumberReadsBack(msg, 11, AsI64(o.clordid));
    NumberReadsBack(msg, 34, AsI64(o.clordid));
    NumberReadsBack(msg, 54, SideCode(o.side));
    NumberReadsBack(msg, 38, o.qty);
    NumberReadsBack(msg, 44, o.px);
  }

  // ------------------------------------------------------------- the length of a NewOrderSingle

  function FieldLength(f: Field): nat {
    |ToChars(f.tag)| + |f.value| + 2
  }

  function TotalLength(fields: seq<Field>): nat {
    if fields == [] then 0 else FieldLength(fields[0]) + TotalLength(fields[1..])
  }

  lemma {:induction false} BodyLengthIsTotal(fields: seq<Field>)
    ensures |BodyBytes(fields)| == TotalLength(fields)
    decreases |fields|
  {
    if fields != [] {
      assert fields == [fields[0]] + fields[1..];
      BodyBytesAppend([fields[0]], fields[1..]);
      BodyBytesOne(fields[0]);
      BodyLengthIsTotal(fields[1..]);
    }
  }

  /** The variable part of a NewOrderSingle; the id appears twice. */
  function VariableChars(t: OrderText): nat {
    2 * |t.clordid| + |t.sym| + |t.qty| + |t.px|
  }

  lemma {:induction false} TotalAppend(xs: seq<Field>, ys: seq<Field>)
    ensures TotalLength(xs + ys) == TotalLength(xs) + TotalLength(ys)
    decreases |xs|
  {
    if xs == [] {
      assert xs + ys == ys;
    } else {
      assert (xs + ys)[1..] == xs[1..] + ys;
      TotalAppend(xs[1..], ys);
    }
  }

  lemma TotalOfFive(fs: seq<Field>)
    requires |fs| == 5
    ensures TotalLength(fs) == FiveLengths(fs, 0)
  {
    assert fs[1..][1..] == fs[2..] && fs[2..][1..] == fs[3..] && fs[3..][1..] == fs[4..] && fs[4..][1..] == [];
    assert TotalLength(fs[4..]) == FieldLength(fs[4]);
    assert TotalLength(fs[3..]) == FieldLength(fs[3]) + TotalLength(fs[4..]);
    assert TotalLength(fs[2..]) == FieldLength(fs[2]) + TotalLength(fs[3..]);
    assert TotalLength(fs[1..]) == FieldLength(fs[1]) + TotalLength(fs[2..]);
  }

  function FiveLengths(fs: seq<Field>, k: nat): nat
    requires k + 5 <= |fs|
  {
    FieldLength(fs[k]) + FieldLength(fs[k + 1]) + FieldLength(fs[k + 2]) + FieldLength(fs[k + 3])
    + FieldLength(fs[k + 4])
  }

  lemma BodyOfTen(fs: seq<Field>)
    requires |fs| == 10
    ensures |BodyBytes(fs)| == FiveLengths(fs, 0) + FiveLengths(fs, 5)
  {
    BodyLengthIsTotal(fs);
    assert fs == fs[..5] + fs[5..];
    TotalAppend(fs[..5], fs[5..]);
    TotalOfFive(fs[..5]);
    TotalOfFive(fs[5..]);
  }

  /** Field length under a tag of two digits. */
  lemma LengthUnder(f: Field)
    requires 10 <= f.tag < 1000
    ensures FieldLength(f) == |f.value| + if f.tag < 100 then 4 else 5
  {
    TwoDigitTag(f.tag);
  }

  lemma NosFirstHalf(fs: seq<Field>, t: OrderText)
    requires fs == NosFields(t)
    ensures FiveLengths(fs, 0) == 35 + 2 * |t.clordid|
  {
    LengthUnder(fs[0]); LengthUnder(fs[1]); LengthUnder(fs[2]); LengthUnder(fs[3]); LengthUnder(fs[4]);
  }

  lemma NosSecondHalf(fs: seq<Field>, t: OrderText)
    requires fs == NosFields(t)
    ensures FiveLengths(fs, 5) == 21 + |t.sym| + |t.side| + |t.qty| + |t.px|
  {
    LengthUnder(fs[5]); LengthUnder(fs[6]); LengthUnder(fs[7]); LengthUnder(fs[8]); LengthUnder(fs[9]);
  }

  lemma NosBodyLength(t: OrderText)
    requires |t.side| == 1
    ensures |BodyBytes(NosFields(t))| == 57 + VariableChars(t)
  {
    NosBodyLengthOf(NosFields(t), t);
  }

  lemma NosBodyLengthOf(fs: seq<Field>, t: OrderText)
    requires fs == NosFields(t) && |t.side| == 1
    ensures |BodyBytes(fs)| == 57 + VariableChars(t)
  {
    assert |fs| == 10;
    BodyOfTen(fs);
    NosFirstHalf(fs, t);
    NosSecondHalf(fs, t);
  }

  const SCRATCH_SIZE := 112

  /** `Order::fix`, where the encoded message is copied. */
  const ORDER_FIX_SIZE := 120

  /** Message length from the number of variable characters. */
  function NosSize(v: nat): nat {
    77 + v + |DigitsOf(57 + v)|
  }

  lemma NosSizeBelow100(v: nat)
    ensures v < 43 ==> NosSize(v) == 79 + v
    ensures v >= 43 ==> NosSize(v) >= 123
  {
    DigitCount(57 + v, 1);
    DigitCount(57 + v, 2);
    Pow10Values();
  }

  /** The exact length, and exactly when the message fits the pooled scratch buffer and the order. */
  lemma NosLength(o: Order)
    requires o.sym < |SYMBOLS|
    ensures |EncodeNos(o)| == NosSize(VariableChars(TextOf(o)))
    ensures |EncodeNos(o)| <= SCRATCH_SIZE <==> VariableChars(TextOf(o)) <= 33
    ensures |EncodeNos(o)| <= ORDER_FIX_SIZE <==> VariableChars(TextOf(o)) <= 41
  {
    TwoDigitTag(SideCode(o.side));
    NosBodyLength(TextOf(o));
    FrameLength(BodyBytes(NosFields(TextOf(o))));
    NosSizeBelow100(VariableChars(TextOf(o)));
  }

  /** What the market-data thread generates for its `seqno`-th tick. */
  function GeneratedMid(seqno: nat): int {
    BASE_PRICE + (seqno % 20 - 10) * 5
  }

  function GeneratedTick(t0: U64, sym: nat, seqno: nat): Tick {
    Tick(t0, sym, seqno, GeneratedMid(seqno) - 5, GeneratedMid(seqno) + 5)
  }

  /** Halving drops at most one and rounds toward zero. */
  lemma HalveTowardZero(x: int)
    ensures if x >= 0 then x - 1 <= 2 * Halve(x) <= x else x <= 2 * Halve(x) <= x + 1
  {
  }

  /** The mid moves up by five from tick to tick and falls back by ninety-five every twenty. */
  lemma MidSteps(seqno: nat)
    ensures GeneratedMid(seqno + 1) == GeneratedMid(seqno) + if seqno % 20 == 19 then -95 else 5
    ensures GeneratedMid(0) == 9950
  {
  }

  /** The strategy quotes every generated tick at its mid, strictly inside the spread, alternates sides
      with consecutive ids starting with a purchase, and carries the tick's time and symbol along. */
  lemma RuleOnGeneratedTicks(t0: U64, sym: nat, seqno: nat, clordid: U64)
    ensures var t := GeneratedTick(t0, sym, seqno);
            var o := Decide(t, clordid);
            && t.bid < o.px < t.ask && o.px - t.bid == t.ask - o.px == 5 && 9950 <= o.px <= 10045
            && (seqno % 20 == 10 ==> o.px == BASE_PRICE)
            && (o.side == Buy <==> Decide(t, Inc64(clordid)).side == Sell)
            && Decide(t, 1).side == Buy
            && (o.t0, o.sym, o.clordid, o.qty) == (t0, sym, clordid, ORDER_QTY)
  {
    assert Inc64(clordid) % 2 != clordid % 2;
  }

  function GeneratedChars(sym: nat, seqno: nat, clordid: U64): nat
    requires sym < |SYMBOLS|
  {
    2 * |ToChars(AsI64(clordid))| + |SYMBOLS[sym]| + |ToChars(GeneratedMid(seqno))|
  }

  lemma GeneratedPrice(seqno: nat)
    ensures |ToChars(GeneratedMid(seqno))| == if seqno % 20 < 10 then 4 else 5
    ensures |ToChars(ORDER_QTY)| == 4
  {
    Pow10Values();
    ExactDigits(GeneratedMid(seqno), if seqno % 20 < 10 then 4 else 5);
    ExactDigits(ORDER_QTY, 4);
  }

  lemma GeneratedSize(t0: U64, sym: nat, seqno: nat, clordid: U64)
    requires sym < |SYMBOLS|
    ensures |EncodeNos(Decide(GeneratedTick(t0, sym, seqno), clordid))|
         == NosSize(GeneratedChars(sym, seqno, clordid) + 4)
  {
    var o := Decide(GeneratedTick(t0, sym, seqno), clordid);
    assert |TextOf(o).qty| == 4 by { GeneratedPrice(seqno); }
    assert VariableChars(TextOf(o)) == GeneratedChars(sym, seqno, clordid) + 4;
    NosLength(o);
  }

  lemma SmallIdDigits(clordid: U64)
    ensures clordid < 10_000_000 ==> |ToChars(AsI64(clordid))| <= 7
    ensures 10_000_000 <= clordid < 100_000_000 ==> |ToChars(AsI64(clordid))| == 8
  {
    Pow10Values();
    DigitCount(clordid, 7);
    DigitCount(clordid, 8);
  }

  lemma FitsByChars(t0: U64, sym: nat, seqno: nat, clordid: U64)
    requires sym < |SYMBOLS|
    ensures var wire := EncodeNos(Decide(GeneratedTick(t0, sym, seqno), clordid));
            && (|wire| <= SCRATCH_SIZE <==> GeneratedChars(sym, seqno, clordid) <= 29)
            && (GeneratedChars(sym, seqno, clordid) <= 28 ==> |wire| <= 111)
  {
    GeneratedSize(t0, sym, seqno, clordid);
    NosSizeBelow100(GeneratedChars(sym, seqno, clordid) + 4);
  }

  lemma SmallIdChars(sym: nat, seqno: nat, clordid: U64)
    requires sym < |SYMBOLS| && clordid < 10_000_000
    ensures GeneratedChars(sym, seqno, clordid) <= 28
  {
    GeneratedPrice(seqno);
    SmallIdDigits(clordid);
  }

  /** Orders made from generated ticks stay inside the scratch buffer for every id below ten million;
      in general they fit exactly while id (counted twice), symbol and price take at most 29 characters. */
  lemma GeneratedOrderFits(t0: U64, sym: nat, seqno: nat, clordid: U64)
    requires sym < |SYMBOLS|
    ensures var wire := EncodeNos(Decide(GeneratedTick(t0, sym, seqno), clordid));
            && (|wire| <= SCRATCH_SIZE <==> GeneratedChars(sym, seqno, clordid) <= 29)
            && (clordid < 10_000_000 ==> |wire| <= 111)
  {
    FitsByChars(t0, sym, seqno, clordid);
    if clordid < 10_000_000 {
      SmallIdChars(sym, seqno, clordid);
    }
  }

  /** The family that overruns first: eight-digit ids with the longest symbol and a five-digit price. */
  lemma EightDigitIdsOverrun(t0: U64, seqno: nat, clordid: U64)
    requires 10_000_000 <= clordid < 100_000_000 && seqno % 20 >= 10
    ensures |EncodeNos(Decide(GeneratedTick(t0, 1, seqno), clordid))| == 113
  {
    GeneratedPrice(seqno);
    SmallIdDigits(clordid);
    assert GeneratedChars(1, seqno, clordid) == 30;
    GeneratedSize(t0, 1, seqno, clordid);
    NosSizeBelow100(34);
  }

  lemma LongestGenerated(sym: nat, seqno: nat, clordid: U64)
    requires sym < |SYMBOLS| && clordid < 100_000_000
    ensures GeneratedChars(sym, seqno, clordid) > 29 <==> clordid >= 10_000_000 && sym == 1 && seqno % 20 >= 10
  {
    GeneratedPrice(seqno);
    SmallIdDigits(clordid);
  }

  /** Below a hundred million ids that is the only family: eight digits, BANKNIFTY, a five-digit price. */
  lemma OverrunsExactly(t0: U64, sym: nat, seqno: nat, clordid: U64)
    requires sym < |SYMBOLS| && clordid < 100_000_000
    ensures |EncodeNos(Decide(GeneratedTick(t0, sym, seqno), clordid))| > SCRATCH_SIZE <==>
            clordid >= 10_000_000 && sym == 1 && seqno % 20 >= 10
  {
    FitsByChars(t0, sym, seqno, clordid);
    LongestGenerated(sym, seqno, clordid);
  }
}
