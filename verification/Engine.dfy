/** The system with the program's own strategy and the FIX session. */
module Engine {
  import opened Bits
  import opened Fix
  import opened Messages
  import opened Session
  import Pipeline
  import Progress
  import System

  /** The strategy's work on one tick: decide, then encode the decision into the order. */
  function OrderFor(t: Tick, id: U64): Order {
    var o := Decide(t, id);
    if o.sym < |SYMBOLS| then o.(wire := EncodeNos(o)) else o
  }

  lemma GeneratedOrderIsWellMade(t: Tick, i: nat)
    requires Pipeline.IsTick(t, i)
    ensures WellMade(OrderFor(t, Rem(i + 1, W)), i)
  {
    var o := Decide(t, Rem(i + 1, W));
    var wire := EncodeNos(o);
    assert TextOf(o) == TextOf(o.(wire := wire));
  }

  lemma EngineFits()
    ensures System.Fits(OrderFor, FIX)
  {
    FixIsSound();
    forall t: Tick, i: nat | Pipeline.IsTick(t, i) ensures FIX.made(OrderFor(t, Rem(i + 1, W)), i) {
      GeneratedOrderIsWellMade(t, i);
    }
  }

  /** The encoding of the `i`-th order fits the 112 bytes of scratch it is written to. */
  predicate Fits(sent: seq<Order>, i: nat)
    requires i < |sent|
  {
    |sent[i].wire| <= SCRATCH_SIZE
  }

  lemma GeneratedFits(t0: U64, i: nat)
    requires i + 1 < 100_000_000
    ensures |EncodeNos(Decide(GeneratedTick(t0, i % |SYMBOLS|, i % 0x1_0000_0000), Rem(i + 1, W)))| <= SCRATCH_SIZE
            <==> i + 1 < 10_000_000 || i % 6 != 1 || i % 20 < 10
  {
    assert Rem(i + 1, W) == i + 1 && i % 0x1_0000_0000 == i;
    OverrunsExactly(t0, i % |SYMBOLS|, i, i + 1);
  }

  /** Which of the orders sent fit: in general those with at most 29 characters of id (counted twice),
      symbol and price; so all of the first 9,999,999, and of the first 99,999,999 all but those for
      BANKNIFTY at a five-digit price. */
  lemma SentOrderFits(ticks: seq<Tick>, sent: seq<Order>, i: nat)
    requires Pipeline.Ticks(ticks) && Pipeline.Orders(OrderFor, sent, ticks) && i < |sent|
    ensures Fits(sent, i) <==> GeneratedChars(i % |SYMBOLS|, i % 0x1_0000_0000, Rem(i + 1, W)) <= 29
    ensures i + 1 < 100_000_000 ==> (Fits(sent, i) <==> i + 1 < 10_000_000 || i % 6 != 1 || i % 20 < 10)
  {
    var t := ticks[i];
    assert Pipeline.IsTick(t, i);
    assert sent[i] == OrderFor(t, Rem(i + 1, W));
    GeneratedOrderFits(t.t0, i % |SYMBOLS|, i % 0x1_0000_0000, Rem(i + 1, W));
    if i + 1 < 100_000_000 {
      GeneratedFits(t.t0, i);
    }
  }

  /** The `i`-th order sent, in plain terms: id `i + 1`, the symbols in turn, sides in turn beginning with
      a purchase, five thousand at the middle of the tick's spread of ten, which moves around 100.00. */
  predicate Traded(ticks: seq<Tick>, sent: seq<Order>, i: nat)
    requires i < |sent| <= |ticks|
  {
    var t, o := ticks[i], sent[i];
    && o.clordid == Rem(i + 1, W) && o.t0 == t.t0
    && o.sym == t.sym == i % 6
    && (o.side == Buy <==> i % 2 == 0)
    && o.qty == 5000
    && 2 * o.px == t.bid + t.ask && t.ask == t.bid + 10
    && o.px == 10000 + (i % 0x1_0000_0000 % 20 - 10) * 5
  }

  /** And so its bytes say, to whoever parses them. */
  predicate Says(o: Order) {
    && Get(o.wire, 35) == "D" && Get(o.wire, 49) == "TRADER" && Get(o.wire, 56) == "EXCHANGE"
    && AsU64(GetInt(o.wire, 11, 0)) == o.clordid
    && o.sym < |SYMBOLS| && Get(o.wire, 55) == SYMBOLS[o.sym]
    && GetInt(o.wire, 54, 0) == (if o.side == Buy then 1 else 2)
    && GetInt(o.wire, 38, 0) == o.qty && GetInt(o.wire, 44, 0) == o.px
  }

  lemma IdParity(i: nat)
    ensures Rem(i + 1, W) % 2 == 1 <==> i % 2 == 0
  {
    RemIsMod(i + 1, W);
    ModOfMultiple(i + 1, 2, W / 2);
  }

  lemma TickTraded(t: Tick, i: nat)
    requires Pipeline.IsTick(t, i)
    ensures Traded(seq(i + 1, _ => t), seq(i + 1, _ => OrderFor(t, Rem(i + 1, W))), i)
  {
    IdParity(i);
    RuleOnGeneratedTicks(t.t0, i % |SYMBOLS|, i % 0x1_0000_0000, Rem(i + 1, W));
  }

  lemma WireSays(t: Tick, i: nat)
    requires Pipeline.IsTick(t, i)
    ensures Says(OrderFor(t, Rem(i + 1, W)))
  {
    var o := OrderFor(t, Rem(i + 1, W));
    GeneratedOrderIsWellMade(t, i);
    OrderRoundTrip(o);
    OrderTextIsPlain(o);
    NosReadsBack(TextOf(o));
  }

  lemma AllTraded(ticks: seq<Tick>, sent: seq<Order>)
    requires Pipeline.Ticks(ticks) && Pipeline.Orders(OrderFor, sent, ticks)
    ensures forall i :: 0 <= i < |sent| ==> Traded(ticks, sent, i) && Says(sent[i])
  {
    forall i | 0 <= i < |sent| ensures Traded(ticks, sent, i) && Says(sent[i]) {
      assert Pipeline.IsTick(ticks[i], i);
      assert sent[i] == OrderFor(ticks[i], Rem(i + 1, W));
      TickTraded(ticks[i], i);
      WireSays(ticks[i], i);
    }
  }

  /** From tick to fill, at every point of every run of the engine against the exchange; and which of
      the orders sent fit the buffer they were encoded in, so that the program did what the run says. */
  lemma TickToFill(states: seq<System.State>, actions: seq<System.Action>, n: nat)
    requires System.Path(OrderFor, FIX, states, actions) && System.Init(states[0]) && n <= |actions|
    ensures System.EndToEnd(OrderFor, states[n])
    ensures var ticks, sent := states[n].pipe.md.generated, states[n].conv.sent;
            && |sent| <= |ticks| <= |sent| + 8194
            && forall i :: 0 <= i < |sent| ==> Traded(ticks, sent, i) && Says(sent[i])
    ensures var sent := states[n].conv.sent;
            forall i :: 0 <= i < |sent| && i + 1 < 100_000_000 ==>
              (Fits(sent, i) <==> i + 1 < 10_000_000 || i % 6 != 1 || i % 20 < 10)
  {
    EngineFits();
    System.RunsAreEndToEnd(OrderFor, FIX, states, actions, n);
    var ticks, sent := states[n].pipe.md.generated, states[n].conv.sent;
    AllTraded(ticks, sent);
    forall i | 0 <= i < |sent| && i + 1 < 100_000_000
      ensures Fits(sent, i) <==> i + 1 < 10_000_000 || i % 6 != 1 || i % 20 < 10
    {
      SentOrderFits(ticks, sent, i);
    }
  }

  /** At every point of every run of the engine at which no thread has seen a stop, every tick
      generated so far can still get its ExecutionReport. */
  lemma EveryTickCanBeFilled(states: seq<System.State>, actions: seq<System.Action>, n: nat)
    returns (more: seq<System.State>, steps: seq<System.Action>)
    requires System.Path(OrderFor, FIX, states, actions) && System.Init(states[0]) && n <= |actions|
    requires Progress.NoneStopped(states[n].pipe)
    ensures System.Path(OrderFor, FIX, more, steps) && more[0] == states[n]
    ensures var ticks, last := states[n].pipe.md.generated, more[|steps|];
            last.pipe.md.generated == ticks && |last.conv.fills| == |ticks|
  {
    EngineFits();
    assert FIX.stamp("");
    more, steps := Progress.TicksCanBeReported(OrderFor, FIX, states, actions, n, "");
  }
}
