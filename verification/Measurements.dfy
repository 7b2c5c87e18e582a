/** What the gateway records and how the exchange numbers its answers, over whole runs of the conversation. */
module Measurements {
  import opened Bits
  import opened Messages
  import opened Draining
  import opened Conversation

  // ------------------------------------------------------------- the samples

  /** The times measured when orders were sent, in order. */
  function SendTimes(actions: seq<Action>): seq<nat> {
    if actions == [] then [] else
    var last := actions[|actions| - 1];
    SendTimes(actions[..|actions| - 1]) + if last.Send? then [last.pdt] else []
  }

  /** The times measured when messages were taken off the gateway's framer, in order. */
  function ReportTimes(actions: seq<Action>): seq<nat> {
    if actions == [] then [] else
    var last := actions[|actions| - 1];
    ReportTimes(actions[..|actions| - 1]) + if last.EngineHandle? then [last.dt] else []
  }

  /** The times whose measurement found the counter past the warm-up. */
  function Kept(times: seq<nat>): seq<nat> {
    if times == [] then [] else
    Kept(times[..|times| - 1]) + if Counter(|times| - 1) >= WARMUP then [times[|times| - 1]] else []
  }

  /** Those are all but the first 500, until 2^64 events have wrapped the counter. */
  lemma {:induction false} KeptIsAfterWarmup(times: seq<nat>)
    requires |times| <= W
    ensures Kept(times) == if |times| <= 500 then [] else times[500..]
  {
    if times != [] {
      var init, last := times[..|times| - 1], times[|times| - 1];
      KeptIsAfterWarmup(init);
      assert Counter(|init|) == |init|;
      if |times| > 500 {
        assert times[500..] == init[500..] + [last];
      }
    }
  }

  lemma KeptOneMore(times: seq<nat>, t: nat)
    ensures Kept(times + [t]) == Kept(times) + if Counter(|times|) >= WARMUP then [t] else []
  {
    assert (times + [t])[..|times|] == times;
  }

  /** The samples recorded so far are the kept ones of the times measured so far. */
  predicate Recorded(s: State, sends: seq<nat>, reports: seq<nat>) {
    && |sends| == |s.sent| && s.t2t == Kept(sends)
    && |reports| == |s.fills| && s.rtt == Kept(reports)
  }

  lemma StepRecords(p: Protocol, s: State, a: Action, sends: seq<nat>, reports: seq<nat>)
    requires Enabled(p, s, a) && Recorded(s, sends, reports)
    requires a.EngineHandle? ==> |Apply(p, s, a).fills| == |s.fills| + 1
    ensures Recorded(Apply(p, s, a), sends + if a.Send? then [a.pdt] else [],
                     reports + if a.EngineHandle? then [a.dt] else [])
  {
    assert sends + [] == sends && reports + [] == reports;
    if a.Send? {
      KeptOneMore(sends, a.pdt);
    } else if a.EngineHandle? {
      KeptOneMore(reports, a.dt);
    }
  }

  /** At every point of every run the histograms have received exactly the times measured for orders
      sent and reports read, in order, from the 501st on. */
  lemma {:induction false} SamplesAreMeasured(p: Protocol, states: seq<State>, actions: seq<Action>, n: nat)
    requires Sound(p) && Path(p, states, actions) && Init(states[0]) && n <= |actions|
    ensures Recorded(states[n], SendTimes(actions[..n]), ReportTimes(actions[..n]))
  {
    if n > 0 {
      SamplesAreMeasured(p, states, actions, n - 1);
      var s, a := states[n - 1], actions[n - 1];
      assert actions[..n][..n - 1] == actions[..n - 1];
      assert Enabled(p, s, a);
      var handled, answers := InvAlong(p, states, actions, n - 1);
      handled, answers := StepKeepsInv(p, s, a, handled, answers);
      StepRecords(p, s, a, SendTimes(actions[..n - 1]), ReportTimes(actions[..n - 1]));
    }
  }

  /** The same without the counters: up to 2^64 orders, all but the first 500 times. */
  lemma SamplesAfterWarmup(p: Protocol, states: seq<State>, actions: seq<Action>, n: nat)
    requires Sound(p) && Path(p, states, actions) && Init(states[0]) && n <= |actions|
    requires |states[n].sent| <= W
    ensures var sends, reports := SendTimes(actions[..n]), ReportTimes(actions[..n]);
            && states[n].t2t == (if |sends| <= 500 then [] else sends[500..])
            && states[n].rtt == (if |reports| <= 500 then [] else reports[500..])
  {
    SamplesAreMeasured(p, states, actions, n);
    FillsAreTimed(p, states, actions, n);
    KeptIsAfterWarmup(SendTimes(actions[..n]));
    KeptIsAfterWarmup(ReportTimes(actions[..n]));
  }

  // ------------------------------------------------------------- the exchange's numbering

  lemma NumberTaken(p: Protocol, s: State, a: Action, handled: nat, answers: seq<string>, x: nat)
    requires Sound(p) && Inv(p, s, handled, answers) && Enabled(p, s, a) && s.exchangeSeq == Rem(x, W)
    ensures Apply(p, s, a).exchangeSeq == Rem(if a.ExchangeHandle? then x + 1 else x, W)
  {
    if a.ExchangeHandle? {
      ExchangeTakesOrder(p, s, handled);
      assert p.made(s.sent[handled], handled);
      RemNext(x, W);
    }
  }

  lemma HandlesNext(actions: seq<Action>, n: nat)
    requires 0 < n <= |actions|
    ensures Handles(actions[..n]) == Handles(actions[..n - 1]) + if actions[n - 1].ExchangeHandle? then 1 else 0
  {
    assert actions[..n][..n - 1] == actions[..n - 1];
  }

  lemma {:induction false} NumberAt(p: Protocol, states: seq<State>, actions: seq<Action>, n: nat, q: nat)
    returns (x: nat)
    requires Sound(p) && Path(p, states, actions) && Init(states[0]) && n <= |actions|
    requires states[0].exchangeSeq == Rem(q, W)
    ensures x == q + Handles(actions[..n]) && states[n].exchangeSeq == Rem(x, W)
  {
    if n == 0 {
      x := q;
    } else {
      x := NumberAt(p, states, actions, n - 1, q);
      assert Enabled(p, states[n - 1], actions[n - 1]);
      var handled, answers := InvAlong(p, states, actions, n - 1);
      NumberTaken(p, states[n - 1], actions[n - 1], handled, answers, x);
      HandlesNext(actions, n);
      x := if actions[n - 1].ExchangeHandle? then x + 1 else x;
    }
  }

  /** The exchange numbers its answers consecutively from where it began. */
  lemma NumbersCountUp(p: Protocol, states: seq<State>, actions: seq<Action>, n: nat)
    requires Sound(p) && Path(p, states, actions) && Init(states[0]) && n <= |actions|
    ensures states[n].exchangeSeq == Rem(states[0].exchangeSeq + Handles(actions[..n]), W)
  {
    var x := NumberAt(p, states, actions, n, states[0].exchangeSeq);
  }

  /** The `k`-th message the exchange handles is the `k`-th order, and what it sends is the answer to that
      order under the `k`-th number, whole and behind everything sent before. */
  lemma AnswersInOrder(p: Protocol, states: seq<State>, actions: seq<Action>, n: nat)
    requires Sound(p) && Path(p, states, actions) && Init(states[0]) && n < |actions|
    requires actions[n].ExchangeHandle?
    ensures var k, s := Handles(actions[..n]), states[n];
            && k < |s.sent|
            && states[n + 1].toEngine
               == s.toEngine + p.reply(s.sent[k].wire, Rem(states[0].exchangeSeq + k, W), actions[n].ts).0
  {
    assert Enabled(p, states[n], actions[n]);
    var handled, answers := InvAlong(p, states, actions, n);
    ExchangeTakesOrder(p, states[n], handled);
    NumbersCountUp(p, states, actions, n);
  }
}
