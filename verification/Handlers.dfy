/** The code around the codec: encoding an order and the exchange's connection handler, as the objects
    that are updated in place. */
module Handlers {
  import opened Bits
  import opened Options
  import opened Text
  import opened TagValue
  import opened Fix
  import opened Messages
  import opened Codec
  import opened Exchange
  import opened Framing
  import opened Draining
  import opened Transducer

  // ------------------------------------------------------------- filling a builder

  lemma PrefixFits(fs: seq<Field>, k: nat)
    requires k < |fs|
    ensures BodyBytes(fs[..k + 1]) == BodyBytes(fs[..k]) + FieldBytes(fs[k])
    ensures |BodyBytes(fs[..k + 1])| <= |BodyBytes(fs)|
  {
    assert fs[..k + 1] == fs[..k] + [fs[k]];
    BodyBytesAppend(fs[..k], [fs[k]]);
    BodyBytesOne(fs[k]);
    assert fs == fs[..k + 1] + fs[k + 1..];
    BodyBytesAppend(fs[..k + 1], fs[k + 1..]);
  }

  predicate FitsBuilder(fs: seq<Field>) {
    |BodyBytes(fs)| <= BODY_CAPACITY && SmallTags(fs)
  }

  /** `text(k)` is the text of the first `k` fields, and all of them fit the builder. */
  ghost predicate Spells(text: nat -> string, fs: seq<Field>) {
    && |text(|fs|)| <= BODY_CAPACITY
    && SmallTags(fs)
    && (forall k {:trigger fs[..k]} :: 0 <= k <= |fs| ==> text(k) == BodyBytes(fs[..k]))
  }

  lemma WholeText(text: nat -> string, fs: seq<Field>)
    requires Spells(text, fs)
    ensures text(|fs|) == BodyBytes(fs)
  {
    assert fs[..|fs|] == fs;
  }

  /** The builder holds the first `k` fields of the text. */
  ghost predicate Holds(b: Builder, text: nat -> string, k: nat)
    reads b, b.body
  {
    b.Valid() && b.Content() == text(k)
  }

  /** `b.add(tag, val)` as the `k`-th of the fields to be written. */
  method Add(b: Builder, ghost text: nat -> string, ghost fs: seq<Field>, ghost k: nat, tag: int, val: string)
    requires Holds(b, text, k) && Spells(text, fs)
    requires k < |fs| && fs[k] == Field(tag, val)
    modifies b, b.body
    ensures Holds(b, text, k + 1)
  {
    WholeText(text, fs);
    PrefixFits(fs, k);
    TwoDigitTag(tag);
    b.AddText(tag, val);
  }

  method Start(b: Builder, ghost text: nat -> string, ghost fs: seq<Field>)
    requires b.Valid() && Spells(text, fs)
    modifies b
    ensures Holds(b, text, 0)
  {
    b.Reset();
    assert BodyBytes(fs[..0]) == "";
  }

  ghost function TextOfPrefix(fs: seq<Field>): nat -> string {
    (k: nat) => if k <= |fs| then BodyBytes(fs[..k]) else ""
  }

  lemma TextSpells(fs: seq<Field>)
    requires FitsBuilder(fs)
    ensures Spells(TextOfPrefix(fs), fs)
    ensures TextOfPrefix(fs)(|fs|) == BodyBytes(fs)
  {
    assert fs[..|fs|] == fs;
  }

  /** Encodes the NewOrderSingle of an order into `out`. */
  method EncodeOrder(b: Builder, o: Order, out: array<char>) returns (n: nat)
    requires b.Valid() && out != b.body
    requires o.sym < |SYMBOLS| && I64_MIN <= o.qty <= I64_MAX && I64_MIN <= o.px <= I64_MAX
    requires |EncodeNos(o)| <= out.Length
    modifies b, b.body, out
    ensures b.Valid()
    ensures n <= out.Length && out[..n] == EncodeNos(o)
  {
    ghost var fs := NosFields(TextOf(o));
    OrderFitsBuilder(o);
    TextSpells(fs);
    AddOrder(b, TextOfPrefix(fs), fs, TextOf(o));
    n := b.Finalize(out);
  }

  method AddOrder(b: Builder, ghost text: nat -> string, ghost fs: seq<Field>, t: OrderText)
    requires b.Valid() && Spells(text, fs) && fs == NosFields(t)
    modifies b, b.body
    ensures Holds(b, text, |fs|)
  {
    Start(b, text, fs);
    Add(b, text, fs, 0, 35, "D");
    Add(b, text, fs, 1, 49, "TRADER");
    Add(b, text, fs, 2, 56, "EXCHANGE");
    Add(b, text, fs, 3, 34, t.clordid);
    Add(b, text, fs, 4, 11, t.clordid);
    AddOrderTerms(b, text, fs, t);
  }

  method AddOrderTerms(b: Builder, ghost text: nat -> string, ghost fs: seq<Field>, t: OrderText)
    requires Holds(b, text, 5) && Spells(text, fs) && |fs| == 10
    requires fs[5] == Field(55, t.sym) && fs[6] == Field(54, t.side) && fs[7] == Field(38, t.qty)
    requires fs[8] == Field(40, "2") && fs[9] == Field(44, t.px)
    modifies b, b.body
    ensures Holds(b, text, 10)
  {
    Add(b, text, fs, 5, 55, t.sym);
    Add(b, text, fs, 6, 54, t.side);
    Add(b, text, fs, 7, 38, t.qty);
    Add(b, text, fs, 8, 40, "2");
    Add(b, text, fs, 9, 44, t.px);
  }

  lemma OrderFitsBuilder(o: Order)
    requires o.sym < |SYMBOLS| && I64_MIN <= o.qty <= I64_MAX && I64_MIN <= o.px <= I64_MAX
    ensures FitsBuilder(NosFields(TextOf(o)))
  {
    OrderTextIsPlain(o);
    NosIsPlain(TextOf(o));
    NumbersAreShort(AsI64(o.clordid));
    NumbersAreShort(o.qty);
    NumbersAreShort(o.px);
    TwoDigitTag(SideCode(o.side));
    NosBodyLength(TextOf(o));
    assert |SYMBOLS[o.sym]| <= 9;
  }

  // ------------------------------------------------------------- the exchange's connection handler

  lemma ReplyFitsBuilder(msg: string, seqno: U64, ts: string)
    requires ReplyFits(msg, seqno, ts) && ReplyFields(msg, seqno, ts).Some?
    ensures FitsBuilder(ReplyFields(msg, seqno, ts).value)
  {
    ReplyFitsExactly(msg, seqno, ts);
    ReplyTags(msg, seqno, ts);
  }

  class Connection {
    const framer: Framer
    const builder: Builder
    var seqno: U64

    ghost predicate Valid()
      reads this, builder
    {
      builder.Valid()
    }

    constructor ()
      ensures Valid() && framer.buf == "" && seqno == 1
      ensures fresh(framer) && fresh(builder) && fresh(builder.body)
    {
      framer := new Framer();
      builder := new Builder();
      seqno := 1;
    }

    /** The part of `send_msg` before the caller's own fields. */
    method Begin(ghost text: nat -> string, ghost fs: seq<Field>, mtype: string, ts: string)
      requires Valid() && Spells(text, fs)
      requires |fs| >= 5
      requires fs[0] == Field(35, mtype) && fs[1] == Field(49, "EXCHANGE") && fs[2] == Field(56, "TRADER")
      requires fs[3] == Field(34, Number(seqno)) && fs[4] == Field(52, ts)
      modifies this, builder, builder.body
      ensures Valid() && Holds(builder, text, 5) && seqno == Inc64(old(seqno))
    {
      Start(builder, text, fs);
      Add(builder, text, fs, 0, 35, mtype);
      Add(builder, text, fs, 1, 49, "EXCHANGE");
      Add(builder, text, fs, 2, 56, "TRADER");
      Add(builder, text, fs, 3, 34, Number(seqno));
      seqno := Inc64(seqno);
      Add(builder, text, fs, 4, 52, ts);
    }

    method AcknowledgeLogon(ghost text: nat -> string, ghost fs: seq<Field>, ts: string)
      requires Valid() && Spells(text, fs)
      requires fs == AckFields(Number(seqno), ts)
      modifies this, builder, builder.body
      ensures Valid() && Holds(builder, text, |fs|) && seqno == Inc64(old(seqno))
    {
      Begin(text, fs, "A", ts);
      Add(builder, text, fs, 5, 98, ToChars(0));
      Add(builder, text, fs, 6, 108, ToChars(30));
    }

    method Heartbeat(ghost text: nat -> string, ghost fs: seq<Field>, ts: string)
      requires Valid() && Spells(text, fs)
      requires fs == SessionFields("0", Number(seqno), ts)
      modifies this, builder, builder.body
      ensures Valid() && Holds(builder, text, |fs|) && seqno == Inc64(old(seqno))
    {
      Begin(text, fs, "0", ts);
    }

    method Fill(ghost text: nat -> string, ghost fs: seq<Field>, e: OrderText, ts: string)
      requires Valid() && Spells(text, fs)
      requires fs == FillFields(Number(seqno), ts, Number(Inc64(seqno)), e)
      modifies this, builder, builder.body
      ensures Valid() && Holds(builder, text, |fs|) && seqno == Inc64(old(seqno))
    {
      Begin(text, fs, "8", ts);
      AddIds(text, fs, e.clordid);
      AddTerms(text, fs, e);
    }

    method AddIds(ghost text: nat -> string, ghost fs: seq<Field>, clordid: string)
      requires Valid() && Spells(text, fs) && |fs| == 15 && Holds(builder, text, 5)
      requires fs[5] == Field(37, Number(seqno)) && fs[6] == Field(11, clordid) && fs[7] == Field(17, Number(seqno))
      requires fs[8] == Field(150, "2") && fs[9] == Field(39, "2")
      modifies builder, builder.body
      ensures Holds(builder, text, 10)
    {
      Add(builder, text, fs, 5, 37, Number(seqno));
      Add(builder, text, fs, 6, 11, clordid);
      Add(builder, text, fs, 7, 17, Number(seqno));
      Add(builder, text, fs, 8, 150, "2");
      Add(builder, text, fs, 9, 39, "2");
    }

    method AddTerms(ghost text: nat -> string, ghost fs: seq<Field>, e: OrderText)
      requires Valid() && Spells(text, fs) && |fs| == 15 && Holds(builder, text, 10)
      requires fs[10] == Field(55, e.sym) && fs[11] == Field(54, e.side) && fs[12] == Field(38, e.qty)
      requires fs[13] == Field(32, e.qty) && fs[14] == Field(31, e.px)
      modifies builder, builder.body
      ensures Holds(builder, text, 15)
    {
      Add(builder, text, fs, 10, 55, e.sym);
      Add(builder, text, fs, 11, 54, e.side);
      Add(builder, text, fs, 12, 38, e.qty);
      Add(builder, text, fs, 13, 32, e.qty);
      Add(builder, text, fs, 14, 31, e.px);
    }

    /** The fields of the answer to a message of a type that is answered. */
    method Compose(ghost text: nat -> string, ghost fs: seq<Field>, msg: string, mtype: string, ts: string)
      requires Valid() && Spells(text, fs)
      requires mtype == Get(msg, 35) && ReplyFields(msg, seqno, ts) == Some(fs)
      modifies this, builder, builder.body
      ensures Valid() && Holds(builder, text, |fs|) && seqno == Inc64(old(seqno))
    {
      if mtype == "A" {
        AcknowledgeLogon(text, fs, ts);
      } else if mtype == "D" {
        var e := ReadEcho(msg);
        Fill(text, fs, e, ts);
      } else {
        Heartbeat(text, fs, ts);
      }
    }

    /** The bytes handed to the socket in answer to one message, by its type. */
    method Answer(msg: string, ts: string) returns (wire: string)
      requires Valid() && ReplyFits(msg, seqno, ts)
      modifies this, builder, builder.body
      ensures Valid() && (wire, seqno) == Reply(msg, old(seqno), ts)
    {
      var v := View(msg);
      var mtype := v.Get(35);
      if mtype != "A" && mtype != "D" && mtype != "1" {
        return "";
      }
      ghost var fs := ReplyFields(msg, seqno, ts).value;
      ReplyFitsBuilder(msg, seqno, ts);
      TextSpells(fs);
      Compose(TextOfPrefix(fs), fs, msg, mtype, ts);
      var out := new char[512];
      MessageFits(builder.Content());
      var n := builder.Finalize(out);
      wire := out[..n];
    }

    /** One round of the loop over complete messages; `more` is false when there is none. */
    method Handle(ts: string) returns (more: bool, wire: string)
      requires Valid()
      requires NextMessage(framer.buf).Some? ==> ReplyFits(NextMessage(framer.buf).value.0, seqno, ts)
      modifies this, framer, builder, builder.body
      ensures Valid()
      ensures more == NextMessage(old(framer.buf)).Some?
      ensures more ==> framer.buf == NextMessage(old(framer.buf)).value.1
      ensures more ==> (wire, seqno) == Reply(NextMessage(old(framer.buf)).value.0, old(seqno), ts)
      ensures !more ==> framer.buf == old(framer.buf) && seqno == old(seqno) && wire == ""
    {
      var next := framer.Next();
      if next.None? {
        return false, "";
      }
      more := true;
      wire := Answer(next.value, ts);
    }

    /** The handler's state as a server that has read the clock `ticks` times. */
    function AsServer(ticks: nat): Server
      reads this, framer
    {
      Server(framer.buf, seqno, ticks)
    }

    /** One round of the loop, for a behaviour that is the exchange's. */
    method Round(ghost next: Cutter, ghost reply: Replier, ghost fits: Check, clock: nat -> string, ticks: nat)
      returns (more: bool, wire: string)
      requires Valid() && IsExchange(next, reply, fits)
      requires next(framer.buf).Some? ==> fits(next(framer.buf).value.0, seqno, clock(ticks))
      modifies this, framer, builder, builder.body
      ensures Valid() && more == next(old(framer.buf)).Some?
      ensures more ==> Served(wire, AsServer(ticks + 1)) == Transducer.Answer(next, reply, clock, old(AsServer(ticks)))
      ensures !more ==> wire == "" && AsServer(ticks) == old(AsServer(ticks))
    {
      assert next(framer.buf) == NextMessage(framer.buf);
      ghost var front := next(framer.buf);
      if front.Some? {
        assert fits(front.value.0, seqno, clock(ticks)) == ReplyFits(front.value.0, seqno, clock(ticks));
        assert reply(front.value.0, seqno, clock(ticks)) == Reply(front.value.0, seqno, clock(ticks));
      }
      more, wire := Handle(clock(ticks));
    }

    /** Answers every complete message in the buffer. */
    method Rounds(ghost next: Cutter, ghost reply: Replier, ghost fits: Check, clock: nat -> string, ticks: nat)
      returns (sent: string, ticks': nat)
      requires Valid() && IsExchange(next, reply, fits) && WellFramed(next, framer.buf)
      requires AllFit(next, reply, fits, clock, AsServer(ticks))
      modifies this, framer, builder, builder.body
      ensures Valid()
      ensures Served(sent, AsServer(ticks')) == Serve(next, reply, clock, old(AsServer(ticks)))
    {
      sent, ticks' := "", ticks;
      var more := true;
      ghost var all := Serve(next, reply, clock, AsServer(ticks));
      ThenNothing(all);
      while more
        invariant Valid() && WellFramed(next, framer.buf)
        invariant AllFit(next, reply, fits, clock, AsServer(ticks'))
        invariant all == Then(sent, Serve(next, reply, clock, AsServer(ticks')))
        invariant !more ==> next(framer.buf).None?
        decreases |framer.buf|, more
      {
        ghost var was := sent;
        var wire;
        more, wire := Round(next, reply, fits, clock, ticks');
        sent := sent + wire;
        if more {
          ticks' := ticks' + 1;
          ThenThen(was, wire, Serve(next, reply, clock, AsServer(ticks')));
        }
      }
    }

    /** One received chunk: append it, then answer every complete message. */
    method Receive(chunk: string, clock: nat -> string, ticks: nat) returns (sent: string, ticks': nat)
      requires Valid() && SoundStream(framer.buf + chunk)
      requires (WellFramedIffSound(framer.buf + chunk);
                AllFit(NextMessage, Reply, ReplyFits, clock, Received(AsServer(ticks), chunk)))
      modifies this, framer, builder, builder.body
      ensures Valid()
      ensures (WellFramedIffSound(old(framer.buf) + chunk);
               Served(sent, AsServer(ticks'))
            == Serve(NextMessage, Reply, clock, Received(old(AsServer(ticks)), chunk)))
    {
      WellFramedIffSound(framer.buf + chunk);
      framer.Append(chunk);
      sent, ticks' := Rounds(NextMessage, Reply, ReplyFits, clock, ticks);
    }
  }

  type Check = (string, U64, string) -> bool

  ghost predicate IsExchange(next: Cutter, reply: Replier, fits: Check) {
    && (forall buf {:trigger NextMessage(buf)} :: next(buf) == NextMessage(buf))
    && (forall m, q, t {:trigger Reply(m, q, t)} :: reply(m, q, t) == Reply(m, q, t))
    && (forall m, q, t {:trigger ReplyFits(m, q, t)} :: fits(m, q, t) == ReplyFits(m, q, t))
  }

  /** The fields of a NewOrderSingle that its fill takes over. */
  method ReadEcho(msg: string) returns (e: OrderText)
    ensures e == EchoOf(msg)
  {
    var v := View(msg);
    var clordid := v.Get(11);
    var sym := v.Get(55);
    var side := v.Get(54);
    var qty := v.Get(38);
    var px := v.Get(44);
    e := OrderText(clordid, OrElse(sym, "NIFTY"), OrElse(side, "1"), OrElse(qty, "1"), OrElse(px, "0"));
  }

  /** The bytes the exchange sends do not depend on how the client's bytes arrive. */
  lemma ExchangeIgnoresChunking(clock: nat -> string, seqno: U64, ticks: nat, chunks: seq<string>)
    requires SoundStream(Concat(chunks))
    ensures WellFramed(NextMessage, Concat(chunks))
    ensures Persistent(NextMessage) && "" + Concat(chunks) == Concat(chunks)
    ensures ServeChunks(NextMessage, Reply, clock, Server("", seqno, ticks), chunks)
         == Serve(NextMessage, Reply, clock, Server(Concat(chunks), seqno, ticks))
  {
    WellFramedIffSound(Concat(chunks));
    FramerIsPersistent();
    assert "" + Concat(chunks) == Concat(chunks);
    ServingIgnoresChunking(NextMessage, Reply, clock, Server("", seqno, ticks), chunks);
  }

  predicate Encodable(o: Order) {
    o.sym < |SYMBOLS| && I64_MIN <= o.qty <= I64_MAX && I64_MIN <= o.px <= I64_MAX
  }

  function Encoding(o: Order): string {
    if o.sym < |SYMBOLS| then EncodeNos(o) else ""
  }

  function FillMessage(o: Order, seqno: U64, ts: string): string {
    if o.sym < |SYMBOLS| then Message(FillOf(o, seqno, ts)) else ""
  }

  lemma EncodingCutOff(o: Order)
    requires Encodable(o)
    ensures CutsOff(NextMessage, Encoding(o))
  {
    OrderFitsBuilder(o);
    FrameIsCutOff(BodyBytes(NosFields(TextOf(o))));
  }

  lemma OrderIsServed(o: Order, clock: nat -> string)
    requires Encodable(o) && forall k :: Lacks(clock(k), SOH)
    ensures Serves(NextMessage, Reply, Encoding, FillMessage, clock, o)
  {
    EncodingCutOff(o);
    forall seqno: U64, k: nat
      ensures Reply(Encoding(o), seqno, clock(k)) == (FillMessage(o, seqno, clock(k)), Inc64(seqno))
    {
      OrderIsFilled(o, seqno, clock(k));
    }
  }

  /** On the encodings of any orders the exchange sends exactly their fills, in order, numbered from `q` on;
      by `ExchangeIgnoresChunking`, however the bytes arrive. */
  lemma OrdersAreAnswered(orders: seq<Order>, clock: nat -> string, q: nat, t: nat)
    requires (forall i :: 0 <= i < |orders| ==> Encodable(orders[i])) && (forall k :: Lacks(clock(k), SOH))
    ensures WellFramed(NextMessage, Concat(Requests(Encoding, orders)))
    ensures Serve(NextMessage, Reply, clock, Server(Concat(Requests(Encoding, orders)), Rem(q, W), t))
         == Served(Concat(Responses(FillMessage, orders, clock, q, t)), Server("", Rem(q + |orders|, W), t + |orders|))
  {
    EmptyYieldsNothing();
    forall i | 0 <= i < |orders| ensures Serves(NextMessage, Reply, Encoding, FillMessage, clock, orders[i]) {
      OrderIsServed(orders[i], clock);
    }
    RequestsAreServed(NextMessage, Reply, Encoding, FillMessage, clock, q, t, orders);
  }

  lemma EmptyYieldsNothing()
    ensures NextMessage("").None?
  {
  }
}
