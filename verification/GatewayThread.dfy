/** The gateway thread's own state: the table of pending orders, its counters and the samples it
    records. Each operation is the corresponding step of the conversation. */
module GatewayThread {
  import opened Bits
  import opened Options
  import opened Messages
  import opened Codec
  import opened Framing
  import opened Session
  import C = Conversation

  class Gateway {
    const framer: Framer
    const pending: array<U64>
    var orders: U64
    var fills: U64
    var t2t: seq<nat>
    var rtt: seq<nat>

    /** The gateway's part of a state of the conversation. */
    ghost predicate Represents(s: C.State)
      reads this, framer, pending
    {
      && pending[..] == s.pending && |s.pending| == C.PENDING
      && framer.buf == s.engineBuf
      && orders == C.Counter(|s.sent|) && fills == C.Counter(|s.fills|)
      && t2t == s.t2t && rtt == s.rtt
    }

    constructor ()
      ensures fresh(framer) && fresh(pending)
      ensures exists s :: C.Init(s) && Represents(s)
    {
      framer := new Framer();
      pending := new U64[C.PENDING](_ => 0);
      orders, fills, t2t, rtt := 0, 0, [], [];
      new;
      var s := C.State([], "", "", 1, "", "", pending[..], [], [], []);
      assert C.Init(s) && Represents(s);
    }

    /** An order popped from the ring: record, remember its time, and hand its bytes to the socket. */
    method Send(o: Order, pdt: nat, ghost s: C.State) returns (wire: string)
      requires Represents(s)
      modifies this, pending
      ensures Represents(C.SendOrder(s, o, pdt)) && wire == o.wire
      ensures t2t == old(t2t) + if old(orders) >= 500 then [pdt] else []
      ensures pending[..] == old(pending[..])[C.PendingSlot(o.clordid) := o.t0]
    {
      if orders >= C.WARMUP {
        t2t := t2t + [pdt];
      }
      pending[C.PendingSlot(o.clordid)] := o.t0;
      wire := o.wire;
      RemNext(|s.sent|, W);
      orders := Inc64(orders);
    }

    method Append(chunk: string, ghost s: C.State)
      requires Represents(s)
      modifies framer
      ensures Represents(s.(engineBuf := s.engineBuf + chunk))
    {
      framer.Append(chunk);
    }

    /** One ExecutionReport: look its order up and record; `elapsed` is the clock's answer for a start time. */
    method Account(id: U64, elapsed: U64 -> nat, ghost s: C.State)
      requires Represents(s)
      modifies this
      ensures Represents(C.TakeReport(s, Some(id), elapsed(s.pending[C.PendingSlot(id)])))
      ensures rtt == old(rtt) + if old(fills) >= 500 then [elapsed(old(pending[C.PendingSlot(id)]))] else []
    {
      var t0 := pending[C.PendingSlot(id)];
      if fills >= C.WARMUP {
        rtt := rtt + [elapsed(t0)];
      }
      RemNext(|s.fills|, W);
      fills := Inc64(fills);
    }

    method ReadReport(msg: string) returns (report: Option<U64>)
      ensures report == ReportOf(msg)
    {
      var v := View(msg);
      var mtype := v.Get(35);
      if mtype != "8" {
        return None;
      }
      var id := v.GetInt(11, 0);
      report := Some(AsU64(id));
    }

    /** One round of the loop over complete messages. */
    method HandleNext(elapsed: U64 -> nat, ghost s: C.State) returns (more: bool)
      requires Represents(s)
      modifies this, framer
      ensures more == NextMessage(s.engineBuf).Some?
      ensures !more ==> Represents(s)
      ensures more ==>
                var (msg, rest) := NextMessage(s.engineBuf).value;
                var r := ReportOf(msg);
                var dt := if r.Some? then elapsed(s.pending[C.PendingSlot(r.value)]) else 0;
                Represents(C.TakeReport(s.(engineBuf := rest), r, dt))
    {
      var next := framer.Next();
      if next.None? {
        return false;
      }
      var report := ReadReport(next.value);
      if report.Some? {
        Account(report.value, elapsed, s.(engineBuf := framer.buf));
      }
      more := true;
    }
  }
}
