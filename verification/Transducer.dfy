/** A server on a byte stream: it cuts messages off its buffer and answers each of them, numbering its
    answers. Stated for any way of cutting and answering. */
module Transducer {
  import opened Bits
  import opened Options
  import opened Text
  import opened Draining

  /** The bytes answered to a message under a sequence number and a time stamp, and the next number. */
  type Replier = (string, U64, string) -> (string, U64)

  /** The server's buffer, its next sequence number and how often it has read the clock. */
  datatype Server = Server(buf: string, seqno: U64, ticks: nat)

  /** What serving comes to: the bytes sent and the server afterwards. */
  datatype Served = Served(sent: string, server: Server)

  function Then(sent: string, r: Served): Served {
    r.(sent := sent + r.sent)
  }

  /** The server after answering the message in front, and the answer. */
  function Answer(next: Cutter, reply: Replier, clock: nat -> string, s: Server): Served
    requires next(s.buf).Some?
  {
    var (msg, rest) := next(s.buf).value;
    var (wire, seqno) := reply(msg, s.seqno, clock(s.ticks));
    Served(wire, Server(rest, seqno, s.ticks + 1))
  }

  /** Answer everything that can be cut off the buffer. */
  ghost function Serve(next: Cutter, reply: Replier, clock: nat -> string, s: Server): Served
    requires WellFramed(next, s.buf)
    decreases |s.buf|
  {
    if next(s.buf).None? then Served("", s) else
    var a := Answer(next, reply, clock, s);
    Then(a.sent, Serve(next, reply, clock, a.server))
  }

  /** Every answer on the way satisfies `fits`. */
  ghost predicate AllFit(next: Cutter, reply: Replier, fits: (string, U64, string) -> bool, clock: nat -> string,
                         s: Server)
    requires WellFramed(next, s.buf)
    decreases |s.buf|
  {
    next(s.buf).Some? ==>
      && fits(next(s.buf).value.0, s.seqno, clock(s.ticks))
      && AllFit(next, reply, fits, clock, Answer(next, reply, clock, s).server)
  }

  lemma ThenNothing(r: Served)
    ensures Then("", r) == r
  {
    assert "" + r.sent == r.sent;
  }

  lemma ThenThen(a: string, b: string, r: Served)
    ensures Then(a, Then(b, r)) == Then(a + b, r)
  {
    Assoc(a, b, r.sent);
  }

  function Received(s: Server, x: string): Server {
    s.(buf := s.buf + x)
  }

  /** Serving leaves the buffer that draining leaves. */
  lemma {:induction false} ServeDrains(next: Cutter, reply: Replier, clock: nat -> string, s: Server)
    requires WellFramed(next, s.buf)
    ensures Serve(next, reply, clock, s).server.buf == Drain(next, s.buf).1
    decreases |s.buf|
  {
    if next(s.buf).Some? {
      ServeDrains(next, reply, clock, Answer(next, reply, clock, s).server);
    }
  }

  /** Serving, receiving `x` and serving again is serving once. */
  lemma {:induction false} ServeThenMore(next: Cutter, reply: Replier, clock: nat -> string, s: Server, x: string)
    requires WellFramed(next, s.buf) && WellFramed(next, s.buf + x)
    requires WellFramed(next, Serve(next, reply, clock, s).server.buf + x)
    ensures var r := Serve(next, reply, clock, s);
            Serve(next, reply, clock, Received(s, x)) == Then(r.sent, Serve(next, reply, clock, Received(r.server, x)))
    decreases |s.buf|
  {
    var r := Serve(next, reply, clock, s);
    var last := Serve(next, reply, clock, Received(r.server, x));
    if next(s.buf).None? {
      ThenNothing(last);
    } else {
      var a := Answer(next, reply, clock, s);
      assert Answer(next, reply, clock, Received(s, x)) == Served(a.sent, Received(a.server, x));
      ServeThenMore(next, reply, clock, a.server, x);
      ThenThen(a.sent, Serve(next, reply, clock, a.server).sent, last);
    }
  }

  /** The receive loop of the server. */
  ghost function ServeChunks(next: Cutter, reply: Replier, clock: nat -> string, s: Server, chunks: seq<string>): Served
    requires Persistent(next) && WellFramed(next, s.buf + Concat(chunks))
    decreases |chunks|
  {
    if chunks == [] then Served("", s) else
    ChunkKeepsFraming(next, reply, clock, s, chunks);
    var r := Serve(next, reply, clock, Received(s, chunks[0]));
    Then(r.sent, ServeChunks(next, reply, clock, r.server, chunks[1..]))
  }

  lemma ChunkKeepsFraming(next: Cutter, reply: Replier, clock: nat -> string, s: Server, chunks: seq<string>)
    requires Persistent(next) && chunks != [] && WellFramed(next, s.buf + Concat(chunks))
    ensures WellFramed(next, s.buf + chunks[0])
    ensures WellFramed(next, Serve(next, reply, clock, Received(s, chunks[0])).server.buf + Concat(chunks[1..]))
  {
    Assoc(s.buf, chunks[0], Concat(chunks[1..]));
    PartWellFramed(next, s.buf + chunks[0], Concat(chunks[1..]));
    ServeDrains(next, reply, clock, Received(s, chunks[0]));
  }

  /** What a server sends does not depend on how its input was chopped up. */
  lemma {:induction false} ServingIgnoresChunking(next: Cutter, reply: Replier, clock: nat -> string, s: Server,
                                                  chunks: seq<string>)
    requires Persistent(next) && WellFramed(next, s.buf + Concat(chunks)) && next(s.buf).None?
    ensures ServeChunks(next, reply, clock, s, chunks) == Serve(next, reply, clock, Received(s, Concat(chunks)))
    decreases |chunks|
  {
    if chunks == [] {
      assert s.buf + Concat(chunks) == s.buf;
    } else {
      var here, rest := Received(s, chunks[0]), Concat(chunks[1..]);
      ChunkKeepsFraming(next, reply, clock, s, chunks);
      Assoc(s.buf, chunks[0], rest);
      var r := Serve(next, reply, clock, here);
      ServeDrains(next, reply, clock, here);
      DrainLeavesNothing(next, here.buf);
      ServingIgnoresChunking(next, reply, clock, r.server, chunks[1..]);
      ServeThenMore(next, reply, clock, here, rest);
    }
  }

  // ------------------------------------------------------------- what is answered

  /** The `k`-th answer is the reply to the `k`-th message under the `k`-th number from `q` on and the
      `k`-th reading of the clock from `t` on. */
  predicate AnswerList(reply: Replier, clock: nat -> string, q: nat, t: nat, msgs: seq<string>, answers: seq<string>) {
    && |msgs| == |answers|
    && forall k :: 0 <= k < |msgs| ==>
                   reply(msgs[k], Rem(q + k, W), clock(t + k)) == (answers[k], Rem(q + k + 1, W))
  }

  lemma AnswerListTail(reply: Replier, clock: nat -> string, q: nat, t: nat, msgs: seq<string>, answers: seq<string>)
    requires AnswerList(reply, clock, q, t, msgs, answers) && msgs != []
    ensures reply(msgs[0], Rem(q, W), clock(t)) == (answers[0], Rem(q + 1, W))
    ensures AnswerList(reply, clock, q + 1, t + 1, msgs[1..], answers[1..])
  {
    assert reply(msgs[0], Rem(q + 0, W), clock(t + 0)) == (answers[0], Rem(q + 0 + 1, W));
    forall k | 0 <= k < |msgs[1..]|
      ensures reply(msgs[1..][k], Rem(q + 1 + k, W), clock(t + 1 + k)) == (answers[1..][k], Rem(q + 1 + k + 1, W))
    {
      assert reply(msgs[k + 1], Rem(q + (k + 1), W), clock(t + (k + 1))) == (answers[k + 1], Rem(q + (k + 1) + 1, W));
    }
  }

  /** The server on a stream of whole messages sends exactly these answers, in order, and nothing else. */
  lemma {:induction false} AnswersEach(next: Cutter, reply: Replier, clock: nat -> string, q: nat, t: nat,
                                       msgs: seq<string>, answers: seq<string>)
    requires next("").None? && (forall i :: 0 <= i < |msgs| ==> CutsOff(next, msgs[i]))
    requires AnswerList(reply, clock, q, t, msgs, answers)
    ensures WellFramed(next, Concat(msgs))
    ensures Serve(next, reply, clock, Server(Concat(msgs), Rem(q, W), t))
         == Served(Concat(answers), Server("", Rem(q + |msgs|, W), t + |msgs|))
    decreases |msgs|
  {
    if msgs != [] {
      var rest := Concat(msgs[1..]);
      CutsOffIsStable(next, msgs[0], rest);
      AnswerListTail(reply, clock, q, t, msgs, answers);
      AnswersEach(next, reply, clock, q + 1, t + 1, msgs[1..], answers[1..]);
      assert Answer(next, reply, clock, Server(Concat(msgs), Rem(q, W), t))
          == Served(answers[0], Server(rest, Rem(q + 1, W), t + 1));
    }
  }

  /** What is sent for each of a list of requests, and what is answered to each. */
  function Requests<O>(encode: O -> string, list: seq<O>): seq<string> {
    seq(|list|, i requires 0 <= i < |list| => encode(list[i]))
  }

  function Responses<O>(fill: (O, U64, string) -> string, list: seq<O>, clock: nat -> string, q: nat, t: nat)
    : seq<string>
  {
    seq(|list|, k requires 0 <= k < |list| => fill(list[k], Rem(q + k, W), clock(t + k)))
  }

  /** The request is recognised, and every reply to it is its response under the next number. */
  ghost predicate Serves<O>(next: Cutter, reply: Replier, encode: O -> string, fill: (O, U64, string) -> string,
                             clock: nat -> string, o: O) {
    && CutsOff(next, encode(o))
    && forall seqno: U64, k: nat :: reply(encode(o), seqno, clock(k)) == (fill(o, seqno, clock(k)), Inc64(seqno))
  }

  /** Then the server sends exactly the responses, in order. */
  lemma RequestsAreServed<O>(next: Cutter, reply: Replier, encode: O -> string, fill: (O, U64, string) -> string,
                             clock: nat -> string, q: nat, t: nat, list: seq<O>)
    requires next("").None?
    requires forall i :: 0 <= i < |list| ==> Serves(next, reply, encode, fill, clock, list[i])
    ensures WellFramed(next, Concat(Requests(encode, list)))
    ensures Serve(next, reply, clock, Server(Concat(Requests(encode, list)), Rem(q, W), t))
         == Served(Concat(Responses(fill, list, clock, q, t)), Server("", Rem(q + |list|, W), t + |list|))
  {
    var msgs, answers := Requests(encode, list), Responses(fill, list, clock, q, t);
    forall k | 0 <= k < |list|
      ensures CutsOff(next, msgs[k])
      ensures reply(msgs[k], Rem(q + k, W), clock(t + k)) == (answers[k], Rem(q + k + 1, W))
    {
      assert Serves(next, reply, encode, fill, clock, list[k]);
      RemNext(q + k, W);
      var seqno: U64 := Rem(q + k, W);
      assert reply(encode(list[k]), seqno, clock(t + k)) == (fill(list[k], seqno, clock(t + k)), Inc64(seqno));
    }
    AnswersEach(next, reply, clock, q, t, msgs, answers);
  }
}
