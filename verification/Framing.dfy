/** Cutting messages out of a TCP byte stream: one call of `Framer::next`, and the loop that drains
    the buffer after every received chunk. */
module Framing {
  import opened Bits
  import opened Options
  import opened Text
  import opened TagValue
  import opened Fix
  import opened Draining

  // ------------------------------------------------------------- one call

  /** What the framer learns from the front of the buffer before it decides. */
  datatype Header = Header(start: nat, bodyStart: nat, bodyLength: int)

  function ParseHeader(buf: string): (r: Option<Header>)
    ensures r.Some? ==> r.value.start < r.value.bodyStart <= |buf| && INT_MIN <= r.value.bodyLength <= INT_MAX
  {
    var s := FindText(buf, "8=", 0);
    if s == |buf| then None else
    var nine := FindText(buf, [SOH] + "9=", s);
    if nine == |buf| then None else ParseLength(buf, s, nine + 3)
  }

  function ParseLength(buf: string, start: nat, lenStart: nat): (r: Option<Header>)
    requires start < lenStart <= |buf|
    ensures r.Some? ==> r.value.start < r.value.bodyStart <= |buf| && INT_MIN <= r.value.bodyLength <= INT_MAX
  {
    var soh := FindChar(buf, SOH, lenStart);
    if soh == |buf| then None
    else Some(Header(start, soh + 1, Or(FromChars(buf[lenStart..soh], INT_MIN, INT_MAX), 0)))
  }

  /** `msg_end`, in `std::size_t` arithmetic: a negative length wraps around. */
  function EndOf(h: Header): nat
    requires h.bodyLength >= INT_MIN
  {
    var e := h.bodyStart + h.bodyLength + 7;
    if e >= 0 then e else e + W
  }

  /** The message and the remaining buffer. When `msg_end` lies before the start, the unsigned count
      passed to `substr` is huge and everything from the start on is taken. */
  function Cut(buf: string, h: Header): Option<(string, string)>
    requires h.start <= |buf| && h.bodyLength >= INT_MIN
  {
    var end := EndOf(h);
    if |buf| < end then None
    else if h.start <= end then Some((buf[h.start..end], buf[end..]))
    else Some((buf[h.start..], buf[end..]))
  }

  function NextMessage(buf: string): Option<(string, string)> {
    var h := ParseHeader(buf);
    if h.None? then None else Cut(buf, h.value)
  }

  /** The header is complete and its computed end is not before its start. */
  predicate Steady(buf: string) {
    var h := ParseHeader(buf);
    h.Some? && h.value.start <= EndOf(h.value)
  }

  /** Once the header is complete, further bytes do not change how it is read. */
  lemma HeaderStays(buf: string, x: string)
    requires ParseHeader(buf).Some?
    ensures ParseHeader(buf + x) == ParseHeader(buf)
  {
    var s := FindText(buf, "8=", 0);
    FoundTextStays(buf, x, "8=", 0);
    var nine := FindText(buf, [SOH] + "9=", s);
    FoundTextStays(buf, x, [SOH] + "9=", s);
    LengthStays(buf, x, s, nine + 3);
  }

  lemma LengthStays(buf: string, x: string, start: nat, lenStart: nat)
    requires start < lenStart <= |buf| && ParseLength(buf, start, lenStart).Some?
    ensures ParseLength(buf + x, start, lenStart) == ParseLength(buf, start, lenStart)
  {
    FoundCharStays(buf, x, SOH, lenStart);
    var soh := FindChar(buf, SOH, lenStart);
    assert (buf + x)[lenStart..soh] == buf[lenStart..soh];
  }

  lemma CutStays(buf: string, x: string, h: Header)
    requires h.start <= |buf| && h.bodyLength >= INT_MIN && Cut(buf, h).Some? && h.start <= EndOf(h)
    ensures Cut(buf + x, h) == Some((Cut(buf, h).value.0, Cut(buf, h).value.1 + x))
  {
    var end := EndOf(h);
    assert (buf + x)[h.start..end] == buf[h.start..end];
    assert (buf + x)[end..] == buf[end..] + x;
  }

  lemma YieldStays(buf: string, x: string)
    requires NextMessage(buf).Some?
    ensures NextMessage(buf + x).Some? && Steady(buf + x) == Steady(buf)
    ensures Steady(buf) ==> NextMessage(buf + x) == Some((NextMessage(buf).value.0, NextMessage(buf).value.1 + x))
  {
    HeaderStays(buf, x);
    if Steady(buf) {
      CutStays(buf, x, ParseHeader(buf).value);
    }
  }

  /** The condition a caller can read off the header: the message does not end before it starts, and
      not at the very front of the buffer. Every non-negative BodyLength meets it. */
  predicate SoundHeader(h: Header)
    requires h.bodyLength >= INT_MIN
  {
    h.start <= EndOf(h) && EndOf(h) != 0
  }

  /** A yielded message is cut off stably (consuming input, and the same whatever bytes follow)
      exactly when its header is sound. */
  lemma StableIffSound(buf: string)
    requires NextMessage(buf).Some?
    ensures CutsStably(NextMessage, buf) <==> SoundHeader(ParseHeader(buf).value)
  {
    var h := ParseHeader(buf).value;
    if SoundHeader(h) {
      forall x: string
        ensures NextMessage(buf + x) == Some((NextMessage(buf).value.0, NextMessage(buf).value.1 + x))
      {
        YieldStays(buf, x);
      }
    } else if EndOf(h) != 0 {
      var x := "0";
      HeaderStays(buf, x);
      assert |NextMessage(buf + x).value.0| == |NextMessage(buf).value.0| + 1;
    }
  }

  lemma NonNegativeLengthIsSound(h: Header)
    requires h.start < h.bodyStart && h.bodyLength >= 0
    ensures SoundHeader(h)
  {
  }

  lemma FramerIsPersistent()
    ensures Persistent(NextMessage)
  {
    forall buf: string, x: string | NextMessage(buf).Some?
      ensures NextMessage(buf + x).Some? && (CutsStably(NextMessage, buf + x) ==> CutsStably(NextMessage, buf))
    {
      YieldStays(buf, x);
      HeaderStays(buf, x);
      StableIffSound(buf);
      StableIffSound(buf + x);
    }
  }

  lemma SoundShrinks(buf: string)
    requires NextMessage(buf).Some? && SoundHeader(ParseHeader(buf).value)
    ensures |NextMessage(buf).value.1| < |buf|
  {
  }

  /** Every header the receive loop meets in the buffer is sound. */
  predicate SoundStream(buf: string)
    decreases |buf|
  {
    NextMessage(buf).Some? ==>
      SoundHeader(ParseHeader(buf).value) && (SoundShrinks(buf); SoundStream(NextMessage(buf).value.1))
  }

  /** A stream is well framed exactly when its headers are sound. */
  lemma {:induction false} WellFramedIffSound(buf: string)
    ensures WellFramed(NextMessage, buf) <==> SoundStream(buf)
    decreases |buf|
  {
    if NextMessage(buf).Some? {
      StableIffSound(buf);
      if SoundHeader(ParseHeader(buf).value) {
        SoundShrinks(buf);
        WellFramedIffSound(NextMessage(buf).value.1);
      }
    }
  }

  lemma WellFramedChunks(chunks: seq<string>)
    requires WellFramed(NextMessage, Concat(chunks))
    ensures ChunksWellFramed(NextMessage, "", chunks)
    ensures DrainChunks(NextMessage, "", chunks) == Drain(NextMessage, Concat(chunks))
  {
    FramerIsPersistent();
    assert "" + Concat(chunks) == Concat(chunks);
    AnyChunksWellFramed(NextMessage, "", chunks);
    assert FindText("", "8=", 0) == 0;
    ChunkingIsIrrelevant(NextMessage, "", chunks);
  }

  /** The framer does not care how the stream was chopped up: whenever the headers of the whole stream
      are sound, the receive loop takes the same messages as one pass over everything. */
  lemma FramerIgnoresChunking(chunks: seq<string>)
    requires SoundStream(Concat(chunks))
    ensures WellFramed(NextMessage, Concat(chunks))
    ensures ChunksWellFramed(NextMessage, "", chunks)
    ensures DrainChunks(NextMessage, "", chunks) == Drain(NextMessage, Concat(chunks))
  {
    WellFramedIffSound(Concat(chunks));
    WellFramedChunks(chunks);
  }

  /** What the framer takes for the header: the first `8=`, the first SOH `9=` from there on, the first SOH
      after that, and the number in between, or zero when there is none. */
  lemma HeaderIs(buf: string, start: nat, nine: nat, soh: nat)
    requires start <= nine && nine + 3 <= soh < |buf|
    requires MatchesAt(buf, "8=", start) && forall j :: 0 <= j < start ==> !MatchesAt(buf, "8=", j)
    requires MatchesAt(buf, [SOH] + "9=", nine)
    requires forall j :: start <= j < nine ==> !MatchesAt(buf, [SOH] + "9=", j)
    requires buf[soh] == SOH && forall j :: nine + 3 <= j < soh ==> buf[j] != SOH
    ensures ParseHeader(buf) == Some(Header(start, soh + 1, Or(FromChars(buf[nine + 3..soh], INT_MIN, INT_MAX), 0)))
  {
    FirstChar(buf, SOH, nine + 3, soh);
  }

  /** A length so negative that the end would lie before the buffer yields nothing: the end wraps around
      to a place no buffer reaches. */
  lemma NegativeEndYieldsNothing(buf: string)
    requires |buf| < W - 0x8000_0000 && ParseHeader(buf).Some?
    requires var h := ParseHeader(buf).value; h.bodyStart + h.bodyLength + 7 < 0
    ensures NextMessage(buf).None?
  {
  }

  /** An end inside the buffer but before the start hands out everything from the start on and keeps
      what follows the end. */
  lemma BackwardEndTakesAll(buf: string)
    requires ParseHeader(buf).Some?
    requires var h := ParseHeader(buf).value; 0 <= h.bodyStart + h.bodyLength + 7 < h.start
    ensures var h := ParseHeader(buf).value;
            NextMessage(buf) == Some((buf[h.start..], buf[h.bodyStart + h.bodyLength + 7..]))
  {
  }

  /** A message is yielded as soon as the buffer reaches seven bytes beyond the announced body, and not
      before; what precedes it is dropped. */
  lemma CompleteIffReached(buf: string)
    requires ParseHeader(buf).Some? && ParseHeader(buf).value.bodyLength >= 0
    ensures var h := ParseHeader(buf).value;
            var end := h.bodyStart + h.bodyLength + 7;
            && (NextMessage(buf).Some? <==> end <= |buf|)
            && (end <= |buf| ==> NextMessage(buf) == Some((buf[h.start..end], buf[end..])))
  {
  }

  /** Without it both can fail: everything after the first byte of this buffer is handed out as a
      message, nothing is consumed, and one more byte would make it a different message. */
  lemma NegativeLengthNeverEnds()
    ensures var buf: string := ['x', '8', '=', SOH, '9', '=', '-', '1', '7', SOH];
            NextMessage(buf) == Some((buf[1..], buf)) && !SoundHeader(ParseHeader(buf).value)
  {
    var buf: string := ['x', '8', '=', SOH, '9', '=', '-', '1', '7', SOH];
    var eight: string, pat: string := ['8', '='], [SOH, '9', '='];
    assert eight == "8=";
    assert pat == [SOH] + "9=";
    assert MatchesAt(buf, eight, 1) by { assert buf[1..3] == eight; }
    assert !MatchesAt(buf, eight, 0) by { assert buf[0..2][0] == 'x'; }
    assert MatchesAt(buf, pat, 3) by { assert buf[3..6] == pat; }
    assert !MatchesAt(buf, pat, 1) by { assert buf[1..4][0] == '8'; }
    assert !MatchesAt(buf, pat, 2) by { assert buf[2..5][0] == '='; }
    FirstChar(buf, SOH, 6, 9);
    MinusSeventeen();
    assert buf[6..9] == ['-', '1', '7'];
    assert ParseHeader(buf) == Some(Header(1, 10, -17));
    assert buf[0..] == buf;
  }

  lemma MinusSeventeen()
    ensures FromChars(['-', '1', '7'], INT_MIN, INT_MAX) == Some(-17)
  {
    assert DigitsOf(1) == [Digit(1)] && 17 / 10 == 1 && 17 % 10 == 7;
    assert DigitsOf(17) == DigitsOf(1) + [Digit(7)];
    assert ToChars(-17) == ['-', '1', '7'];
    NumberRoundTrip(-17, INT_MIN, INT_MAX);
  }

  // ------------------------------------------------------------- streams of finished messages

  /** The bytes the framer reads before it knows where a message ends. */
  function Head(n: nat): string {
    "8=FIX.4.2" + [SOH] + "9=" + ToChars(n) + [SOH]
  }

  lemma FrameStartsWithHead(body: string)
    ensures |Head(|body|)| < |Frame(body)| == |Head(|body|)| + |body| + 7
    ensures Frame(body)[..|Head(|body|)|] == Head(|body|)
  {
    var n := |body|;
    assert ToChars(8) == "8" && ToChars(9) == "9";
    assert |ToChars(10)| == 2 by { assert |DigitsOf(1)| == 1; }
    assert FieldBytes(BEGIN_STRING) == "8=FIX.4.2" + [SOH];
    assert FieldBytes(BodyLength(body)) == "9=" + ToChars(n) + [SOH];
    assert FieldBytes(BEGIN_STRING) + FieldBytes(BodyLength(body)) == Head(n);
  }

  /** Byte by byte: SOH stands at position 9 and at the end of the head, nowhere else. */
  lemma HeadBytes(n: nat)
    ensures var d := |ToChars(n)|;
            && |Head(n)| == 13 + d
            && Head(n)[0] == '8' && Head(n)[1] == '='
            && Head(n)[9] == SOH && Head(n)[10] == '9' && Head(n)[11] == '='
            && Head(n)[12..12 + d] == ToChars(n)
            && Head(n)[12 + d] == SOH
            && (forall j :: 0 <= j < 12 + d && j != 9 ==> Head(n)[j] != SOH)
  {
    var d := |ToChars(n)|;
    var front := "8=FIX.4.2" + [SOH] + "9=";
    assert Head(n) == front + ToChars(n) + [SOH];
    assert Head(n)[..12] == front;
    assert Head(n)[12..12 + d] == ToChars(n);
    forall j | 0 <= j < 12 + d && j != 9 ensures Head(n)[j] != SOH {
      if j < 12 {
        assert Head(n)[j] == front[j];
      } else {
        assert Head(n)[j] == ToChars(n)[j - 12];
      }
    }
  }

  lemma NoEarlyNine(buf: string)
    requires forall j :: 0 <= j < |buf| && j < 9 ==> buf[j] != SOH
    ensures forall j :: 0 <= j < 9 ==> !MatchesAt(buf, [SOH] + "9=", j)
  {
    forall j | 0 <= j < 9 ensures !MatchesAt(buf, [SOH] + "9=", j) {
      if j + 3 <= |buf| {
        assert buf[j..j + 3][0] == buf[j];
      }
    }
  }

  /** A buffer that starts with a complete head is read as that head. */
  lemma CompleteHead(buf: string, n: nat)
    requires n <= INT_MAX && |Head(n)| <= |buf| && buf[..|Head(n)|] == Head(n)
    ensures ParseHeader(buf) == Some(Header(0, |Head(n)|, n))
  {
    var hd, pat, d := Head(n), [SOH] + "9=", |ToChars(n)|;
    HeadBytes(n);
    forall j | 0 <= j < |hd| ensures buf[j] == hd[j] {
      assert buf[..|hd|][j] == buf[j];
    }
    assert MatchesAt(buf, "8=", 0) by { assert buf[0..2] == "8="; }
    NoEarlyNine(buf);
    assert MatchesAt(buf, pat, 9) by { assert buf[9..12] == pat; }
    FirstChar(buf, SOH, 12, 12 + d);
    assert buf[12..12 + d] == ToChars(n);
    NumberRoundTrip(n, INT_MIN, INT_MAX);
  }

  /** A buffer that is cut off inside the head is not read at all. */
  lemma PartialHead(buf: string, n: nat)
    requires |buf| < |Head(n)| && buf == Head(n)[..|buf|]
    ensures ParseHeader(buf).None?
  {
    var hd, pat := Head(n), [SOH] + "9=";
    HeadBytes(n);
    forall j | 0 <= j < |buf| ensures buf[j] == hd[j] {
    }
    NoEarlyNine(buf);
    if |buf| >= 2 {
      assert MatchesAt(buf, "8=", 0) by { assert buf[0..2] == "8="; }
      if |buf| >= 12 {
        assert MatchesAt(buf, pat, 9) by { assert buf[9..12] == pat; }
        assert FindChar(buf, SOH, 12) == |buf|;
      } else {
        assert FindText(buf, pat, 0) == |buf|;
      }
    } else {
      assert FindText(buf, "8=", 0) == |buf|;
    }
  }

  /** A buffer that begins with a finished message yields exactly that message. */
  lemma NextOfFrame(body: string, x: string)
    requires |body| <= INT_MAX
    ensures NextMessage(Frame(body) + x) == Some((Frame(body), x))
  {
    var n, msg := |body|, Frame(body);
    var buf := msg + x;
    FrameStartsWithHead(body);
    assert buf[..|Head(n)|] == msg[..|Head(n)|];
    CompleteHead(buf, n);
    assert buf[0..|msg|] == msg && buf[|msg|..] == x;
  }

  /** A proper prefix of a finished message yields nothing. */
  lemma NextOfPartialFrame(body: string, buf: string)
    requires |body| <= INT_MAX && |buf| < |Frame(body)| && buf == Frame(body)[..|buf|]
    ensures NextMessage(buf).None?
  {
    var n, hd := |body|, Head(|body|);
    FrameStartsWithHead(body);
    if |buf| < |hd| {
      assert buf == hd[..|buf|];
      PartialHead(buf, n);
    } else {
      assert buf[..|hd|] == Frame(body)[..|hd|];
      CompleteHead(buf, n);
    }
  }

  function Frames(bodies: seq<string>): seq<string> {
    seq(|bodies|, i requires 0 <= i < |bodies| => Frame(bodies[i]))
  }

  predicate Sendable(bodies: seq<string>) {
    forall i :: 0 <= i < |bodies| ==> |bodies[i]| <= INT_MAX
  }

  /** `part` is what is left over when the stream of finished messages stops at an arbitrary byte. */
  predicate Unfinished(part: string, following: seq<string>) {
    if following == [] then part == ""
    else |part| < |Frame(following[0])| && part == Frame(following[0])[..|part|]
  }

  lemma FrameIsCutOff(body: string)
    requires |body| <= INT_MAX
    ensures CutsOff(NextMessage, Frame(body))
  {
    FrameStartsWithHead(body);
    forall x: string ensures NextMessage(Frame(body) + x) == Some((Frame(body), x)) {
      NextOfFrame(body, x);
    }
  }

  lemma UnfinishedYieldsNothing(part: string, following: seq<string>)
    requires Sendable(following) && Unfinished(part, following)
    ensures NextMessage(part).None?
  {
    if following == [] {
      assert FindText("", "8=", 0) == 0;
    } else {
      NextOfPartialFrame(following[0], part);
    }
  }

  /** Any stream of finished messages, cut off at any byte and chopped up in any way, is split into
      exactly those messages that are complete; the incomplete one stays in the buffer. */
  lemma StreamIsSplit(bodies: seq<string>, part: string, following: seq<string>, chunks: seq<string>)
    requires Sendable(bodies) && Sendable(following) && Unfinished(part, following)
    requires Concat(chunks) == Concat(Frames(bodies)) + part
    ensures ChunksWellFramed(NextMessage, "", chunks)
    ensures DrainChunks(NextMessage, "", chunks) == (Frames(bodies), part)
  {
    forall i | 0 <= i < |bodies| ensures CutsOff(NextMessage, Frames(bodies)[i]) {
      FrameIsCutOff(bodies[i]);
    }
    UnfinishedYieldsNothing(part, following);
    MessagesAreSplit(NextMessage, Frames(bodies), part);
    WellFramedChunks(chunks);
  }

  lemma FrameIsRecognised(body: string)
    requires |body| <= INT_MAX
    ensures Recognises(NextMessage, Frame(body))
  {
    FrameIsCutOff(body);
    forall k | 0 <= k < |Frame(body)| ensures NextMessage(Frame(body)[..k]).None? {
      NextOfPartialFrame(body, Frame(body)[..k]);
    }
  }

}
