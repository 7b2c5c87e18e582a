/** Receive loops over a byte stream: append a chunk, take messages off the front until none is left,
    repeat. Stated for any function that cuts one message off a buffer. */
module Draining {
  import opened Options
  import opened Text

  type Cutter = string -> Option<(string, string)>

  /** `next` takes a message off `buf`, consumes input, and would do the same whatever bytes follow. */
  ghost predicate CutsStably(next: Cutter, buf: string) {
    && next(buf).Some?
    && |next(buf).value.1| < |buf|
    && forall x: string :: next(buf + x) == Some((next(buf).value.0, next(buf).value.1 + x))
  }

  /** Every message the loop takes from `buf` is cut off stably. */
  ghost predicate WellFramed(next: Cutter, buf: string)
    decreases |buf|
  {
    next(buf).Some? ==> CutsStably(next, buf) && WellFramed(next, next(buf).value.1)
  }

  /** `while (auto msg = framer.next())`: the messages taken and the buffer left behind. */
  ghost function Drain(next: Cutter, buf: string): (seq<string>, string)
    requires WellFramed(next, buf)
    decreases |buf|
  {
    if next(buf).None? then ([], buf) else
    var (msg, rest) := next(buf).value;
    var (msgs, left) := Drain(next, rest);
    ([msg] + msgs, left)
  }

  lemma CutStaysStable(next: Cutter, buf: string, x: string)
    requires CutsStably(next, buf)
    ensures CutsStably(next, buf + x)
  {
    var (msg, rest) := next(buf).value;
    forall y: string ensures next((buf + x) + y) == Some((msg, (rest + x) + y)) {
      Assoc(buf, x, y);
      Assoc(rest, x, y);
    }
  }

  /** Draining, receiving `x` and draining again is draining once. */
  lemma {:induction false} DrainThenMore(next: Cutter, buf: string, x: string)
    requires WellFramed(next, buf) && WellFramed(next, Drain(next, buf).1 + x)
    ensures WellFramed(next, buf + x)
    ensures Drain(next, buf + x).0 == Drain(next, buf).0 + Drain(next, Drain(next, buf).1 + x).0
    ensures Drain(next, buf + x).1 == Drain(next, Drain(next, buf).1 + x).1
    decreases |buf|
  {
    if next(buf).Some? {
      CutStaysStable(next, buf, x);
      DrainThenMore(next, next(buf).value.1, x);
    }
  }

  function Concat(chunks: seq<string>): string {
    if chunks == [] then "" else chunks[0] + Concat(chunks[1..])
  }

  /** No chunk brings the loop to a message that is not cut off stably. */
  ghost predicate ChunksWellFramed(next: Cutter, buf: string, chunks: seq<string>)
    decreases |chunks|
  {
    chunks != [] ==>
      && WellFramed(next, buf + chunks[0])
      && ChunksWellFramed(next, Drain(next, buf + chunks[0]).1, chunks[1..])
  }

  /** The receive loop. */
  ghost function DrainChunks(next: Cutter, buf: string, chunks: seq<string>): (seq<string>, string)
    requires ChunksWellFramed(next, buf, chunks)
    decreases |chunks|
  {
    if chunks == [] then ([], buf) else
    var (msgs, left) := Drain(next, buf + chunks[0]);
    var (more, end) := DrainChunks(next, left, chunks[1..]);
    (msgs + more, end)
  }

  lemma {:induction false} DrainLeavesNothing(next: Cutter, buf: string)
    requires WellFramed(next, buf)
    ensures next(Drain(next, buf).1).None?
    decreases |buf|
  {
    if next(buf).Some? {
      DrainLeavesNothing(next, next(buf).value.1);
    }
  }

  /** Chunking does not matter: draining after every chunk gives what draining the whole stream gives. */
  lemma {:induction false} ChunkingIsIrrelevant(next: Cutter, buf: string, chunks: seq<string>)
    requires ChunksWellFramed(next, buf, chunks) && next(buf).None?
    ensures WellFramed(next, buf + Concat(chunks))
    ensures DrainChunks(next, buf, chunks) == Drain(next, buf + Concat(chunks))
    decreases |chunks|
  {
    if chunks == [] {
      assert buf + Concat(chunks) == buf;
    } else {
      var here, rest := buf + chunks[0], Concat(chunks[1..]);
      Assoc(buf, chunks[0], rest);
      DrainLeavesNothing(next, here);
      ChunkingIsIrrelevant(next, Drain(next, here).1, chunks[1..]);
      DrainThenMore(next, here, rest);
    }
  }

  /** `next` never changes its mind: a message it cuts off stays available when more bytes arrive,
      and if the later cut is stable then so was the earlier one. */
  ghost predicate Persistent(next: Cutter) {
    forall buf: string, x: string :: next(buf).Some? ==>
      next(buf + x).Some? && (CutsStably(next, buf + x) ==> CutsStably(next, buf))
  }

  lemma {:induction false} PartWellFramed(next: Cutter, buf: string, x: string)
    requires Persistent(next) && WellFramed(next, buf + x)
    ensures WellFramed(next, buf) && WellFramed(next, Drain(next, buf).1 + x)
    decreases |buf|
  {
    if next(buf).Some? {
      assert CutsStably(next, buf);
      PartWellFramed(next, next(buf).value.1, x);
    }
  }

  /** A stream that is well framed as a whole is well framed however it is chopped up. */
  lemma {:induction false} AnyChunksWellFramed(next: Cutter, buf: string, chunks: seq<string>)
    requires Persistent(next) && WellFramed(next, buf + Concat(chunks))
    ensures ChunksWellFramed(next, buf, chunks)
    decreases |chunks|
  {
    if chunks != [] {
      var here, rest := buf + chunks[0], Concat(chunks[1..]);
      Assoc(buf, chunks[0], rest);
      PartWellFramed(next, here, rest);
      AnyChunksWellFramed(next, Drain(next, here).1, chunks[1..]);
    }
  }

  // ------------------------------------------------------------- streams of whole messages

  /** Whatever follows, `msg` is cut off the front. */
  ghost predicate CutsOff(next: Cutter, msg: string) {
    msg != "" && forall x: string :: next(msg + x) == Some((msg, x))
  }

  lemma CutsOffIsStable(next: Cutter, msg: string, rest: string)
    requires CutsOff(next, msg)
    ensures CutsStably(next, msg + rest) && next(msg + rest) == Some((msg, rest))
  {
    forall x: string ensures next((msg + rest) + x) == Some((msg, rest + x)) {
      Assoc(msg, rest, x);
    }
  }

  /** A concatenation of messages followed by something that yields nothing is split exactly there. */
  lemma {:induction false} MessagesAreSplit(next: Cutter, msgs: seq<string>, part: string)
    requires forall i :: 0 <= i < |msgs| ==> CutsOff(next, msgs[i])
    requires next(part).None?
    ensures WellFramed(next, Concat(msgs) + part) && Drain(next, Concat(msgs) + part) == (msgs, part)
    decreases |msgs|
  {
    if msgs == [] {
      assert Concat(msgs) + part == part;
    } else {
      var rest := Concat(msgs[1..]) + part;
      MessagesAreSplit(next, msgs[1..], part);
      Assoc(msgs[0], Concat(msgs[1..]), part);
      CutsOffIsStable(next, msgs[0], rest);
      assert [msgs[0]] + msgs[1..] == msgs;
    }
  }

  /** `next` recognises `msg` exactly when it is complete. */
  ghost predicate Recognises(next: Cutter, msg: string) {
    CutsOff(next, msg) && forall k :: 0 <= k < |msg| ==> next(msg[..k]).None?
  }

  lemma SplitAtMessage(buf: string, flight: string, msg: string, rest: string)
    requires buf + flight == msg + rest
    ensures |buf| < |msg| ==> buf == msg[..|buf|]
    ensures |buf| >= |msg| ==> buf == msg + buf[|msg|..] && buf[|msg|..] + flight == rest
  {
    var all := msg + rest;
    if |buf| < |msg| {
      assert buf == all[..|buf|];
    } else {
      assert buf[..|msg|] == all[..|msg|] == msg;
      assert buf == buf[..|msg|] + buf[|msg|..];
      assert all[|msg|..] == rest;
    }
  }

  /** If the bytes buffered and in flight are whole messages, the receiver takes the first of them and
      nothing else. */
  lemma TakesFirst(next: Cutter, buf: string, flight: string, msgs: seq<string>)
    requires Carries(buf, flight, msgs) && next(buf).Some? && next("").None?
    requires msgs != [] ==> Recognises(next, msgs[0])
    ensures msgs != [] && next(buf).value.0 == msgs[0]
    ensures Carries(next(buf).value.1, flight, msgs[1..])
  {
    assert msgs == [] ==> |buf| == 0;
    assert msgs == [] ==> buf == "";
    if msgs != [] {
      SplitAtMessage(buf, flight, msgs[0], Concat(msgs[1..]));
    }
  }

  lemma {:induction false} ConcatAppend(msgs: seq<string>, m: string)
    ensures Concat(msgs + [m]) == Concat(msgs) + m
    decreases |msgs|
  {
    if msgs == [] {
      assert [] + [m] == [m] && [m][1..] == [];
      assert m + "" == m;
    } else {
      assert (msgs + [m])[1..] == msgs[1..] + [m];
      ConcatAppend(msgs[1..], m);
      Assoc(msgs[0], Concat(msgs[1..]), m);
    }
  }

  /** The bytes buffered and in flight make up these messages. */
  predicate Carries(buf: string, flight: string, msgs: seq<string>) {
    buf + flight == Concat(msgs)
  }

  lemma CarriesOneMore(buf: string, flight: string, msgs: seq<string>, m: string)
    requires Carries(buf, flight, msgs)
    ensures Carries(buf, flight + m, msgs + [m])
  {
    ConcatAppend(msgs, m);
    Assoc(buf, flight, m);
  }

  lemma CarriesChunk(buf: string, flight: string, msgs: seq<string>, n: nat)
    requires Carries(buf, flight, msgs) && n <= |flight|
    ensures Carries(buf + flight[..n], flight[n..], msgs)
  {
    Assoc(buf, flight[..n], flight[n..]);
    assert flight[..n] + flight[n..] == flight;
  }
}
