/** The codec as the program has it: a builder over fixed buffers, a reading view, a framer. */
module Codec {
  import opened Options
  import opened Text
  import opened TagValue
  import opened Fix
  import Framing

  const BODY_CAPACITY := 480

  /** `p` equals `was` except for `s` written at `at`. */
  predicate Overwritten(p: seq<char>, was: seq<char>, at: nat, s: string) {
    && at + |s| <= |was| == |p|
    && p[..at] == was[..at]
    && p[at..at + |s|] == s
    && p[at + |s|..] == was[at + |s|..]
  }

  /** `std::memcpy` of a view. */
  method Copy(p: array<char>, at: nat, s: string)
    requires at + |s| <= p.Length
    modifies p
    ensures Overwritten(p[..], old(p[..]), at, s)
  {
    for i := 0 to |s|
      invariant p[..at] == old(p[..at])
      invariant p[at..at + i] == s[..i]
      invariant p[at + i..] == old(p[at + i..])
    {
      p[at + i] := s[i];
    }
  }

  /** Writes `s` right behind what has been written at `at` so far. */
  method WriteBehind(p: array<char>, ghost was: seq<char>, at: nat, ghost done: string, k: nat, s: string)
    requires k == at + |done| && k + |s| <= p.Length
    requires Overwritten(p[..], was, at, done)
    modifies p
    ensures Overwritten(p[..], was, at, done + s)
  {
    ghost var mid := p[..];
    Copy(p, k, s);
  }

  method WritePair(p: array<char>, at: nat, pair: Pair)
    requires at + |PairBytes(pair)| <= p.Length
    modifies p
    ensures Overwritten(p[..], old(p[..]), at, PairBytes(pair))
  {
    ghost var was := p[..];
    Copy(p, at, pair.name);
    var k := at + |pair.name|;
    WriteBehind(p, was, at, pair.name, k, "=");
    WriteBehind(p, was, at, pair.name + "=", k + 1, pair.value);
    WriteBehind(p, was, at, pair.name + "=" + pair.value, k + 1 + |pair.value|, [SOH]);
  }

  /** One field at `at`; returns its length. */
  method WriteField(p: array<char>, at: nat, tag: int, val: string) returns (n: nat)
    requires |ToChars(tag)| <= 10
    requires at + |FieldBytes(Field(tag, val))| <= p.Length
    modifies p
    ensures n == |FieldBytes(Field(tag, val))|
    ensures p[..at + n] == old(p[..at]) + FieldBytes(Field(tag, val))
    ensures p[at + n..] == old(p[at + n..])
  {
    var pair := Pair(ToChars(tag), val);
    WritePair(p, at, pair);
    n := |pair.name| + |val| + 2;
  }

  lemma ByteSumWraps(sum: nat, total: nat, b: nat)
    requires sum % 256 == total % 256
    ensures (sum + b) % 0x1_0000_0000 % 256 == (total + b) % 256
  {
  }

  /** Byte sum modulo 256, accumulated in 32 bits. */
  method Checksum(bytes: array<char>, n: nat) returns (ck: nat)
    requires n <= bytes.Length
    ensures ck == ByteSum(bytes[..n]) % 256
  {
    var sum := 0;
    for i := 0 to n
      invariant sum % 256 == ByteSum(bytes[..i]) % 256 && 0 <= sum < 0x1_0000_0000
    {
      assert bytes[..i + 1][..i] == bytes[..i];
      ByteSumWraps(sum, ByteSum(bytes[..i]), bytes[i] as int % 256);
      sum := (sum + bytes[i] as int % 256) % 0x1_0000_0000;
    }
    ck := sum % 256;
  }

  /** The pieces of a message stay inside any buffer that can hold the message. */
  lemma MessageFits(body: string)
    requires |body| <= BODY_CAPACITY
    ensures |Frame(body)| == |FieldBytes(BEGIN_STRING)| + |FieldBytes(BodyLength(body))| + |body|
                             + |FieldBytes(CheckSum(body))|
    ensures |Frame(body)| <= 503
    ensures |ToChars(8)| <= 10 && |ToChars(9)| <= 10 && |ToChars(10)| <= 10
  {
    FrameLength(body);
    DigitCount(|body|, 3);
    assert Pow10(3) == 1000;
    EnvelopeWritable(body);
  }

  class Builder {
    const body: array<char>
    var bodyLen: nat

    ghost predicate Valid()
      reads this
    {
      bodyLen <= body.Length == BODY_CAPACITY
    }

    /** The body bytes added since the last reset. */
    ghost function Content(): string
      requires Valid()
      reads this, body
    {
      body[..bodyLen]
    }

    constructor ()
      ensures Valid() && fresh(body) && Content() == ""
    {
      body := new char[BODY_CAPACITY];
      bodyLen := 0;
    }

    method Reset()
      requires Valid()
      modifies this
      ensures Valid() && Content() == ""
    {
      bodyLen := 0;
    }

    method AddText(tag: int, val: string)
      requires Valid() && |ToChars(tag)| <= 10
      requires bodyLen + |FieldBytes(Field(tag, val))| <= BODY_CAPACITY
      modifies this, body
      ensures Valid() && Content() == old(Content()) + FieldBytes(Field(tag, val))
    {
      var n := WriteField(body, bodyLen, tag, val);
      assert body[..bodyLen + n] == body[..bodyLen] + body[bodyLen..bodyLen + n];
      bodyLen := bodyLen + n;
    }

    method AddNumber(tag: int, val: int)
      requires Valid() && |ToChars(tag)| <= 10 && I64_MIN <= val <= I64_MAX
      requires bodyLen + |FieldBytes(Field(tag, ToChars(val)))| <= BODY_CAPACITY
      modifies this, body
      ensures Valid() && Content() == old(Content()) + FieldBytes(Field(tag, ToChars(val)))
    {
      AddText(tag, ToChars(val));
    }

    /** Writes the framed message; 503 bytes of room are always enough. */
    method Finalize(out: array<char>) returns (n: nat)
      requires Valid() && out != body
      requires |Frame(Content())| <= out.Length
      modifies out
      ensures n == |Frame(Content())| <= 503
      ensures out[..n] == Frame(Content())
    {
      MessageFits(Content());
      n := WritePrologue(out);
      var ck := Checksum(out, n);
      var k := WriteField(out, n, 10, ThreeDigits(ck));
      n := n + k;
    }

    /** BeginString, BodyLength and the body. */
    method WritePrologue(out: array<char>) returns (n: nat)
      requires Valid() && out != body
      requires |Prologue(Content())| <= out.Length
      modifies out
      ensures n == |Prologue(Content())| && out[..n] == Prologue(Content())
    {
      n := WriteHead(out, bodyLen);
      ghost var was := out[..];
      Copy(out, n, body[..bodyLen]);
      n := n + bodyLen;
    }
  }

  method WriteHead(out: array<char>, bodyLen: nat) returns (n: nat)
    requires |FieldBytes(BEGIN_STRING)| + |FieldBytes(Field(9, ToChars(bodyLen)))| <= out.Length
    modifies out
    ensures n == |FieldBytes(BEGIN_STRING)| + |FieldBytes(Field(9, ToChars(bodyLen)))|
    ensures out[..n] == FieldBytes(BEGIN_STRING) + FieldBytes(Field(9, ToChars(bodyLen)))
  {
    assert |ToChars(8)| <= 10 && |ToChars(9)| <= 10;
    n := WriteField(out, 0, 8, "FIX.4.2");
    var k := WriteField(out, n, 9, ToChars(bodyLen));
    n := n + k;
  }

  datatype View = View(msg: string) {
    /** One round of the scan: the field that starts at `i`. */
    method FieldAt(i: nat) returns (r: Found)
      ensures r == See(msg, i)
    {
      if i >= |msg| {
        return Nothing;
      }
      var eq := FindChar(msg, '=', i);
      if eq == |msg| {
        return Nothing;
      }
      var soh := FindChar(msg, SOH, eq + 1);
      r := Found(Pair(msg[i..eq], msg[eq + 1..soh]), soh + 1);
    }

    /** Linear scan for the first field with the tag. */
    method Get(tag: int) returns (v: string)
      ensures v == Fix.Get(msg, tag)
    {
      var i := 0;
      var field := FieldAt(i);
      while field.Found?
        invariant field == See(msg, i)
        invariant Scan(TagOf, msg, tag, 0) == Scan(TagOf, msg, tag, i)
        decreases |msg| + 1 - i
      {
        if TagOf(field.pair.name) == tag {
          return field.pair.value;
        }
        i := field.next;
        field := FieldAt(i);
      }
      v := "";
    }

    method GetInt(tag: int, def: int) returns (x: int)
      ensures x == Fix.GetInt(msg, tag, def)
    {
      var v := Get(tag);
      if v == "" {
        return def;
      }
      x := Or(FromChars(v, I64_MIN, I64_MAX), def);
    }
  }

  class Framer {
    var buf: string

    constructor ()
      ensures buf == ""
    {
      buf := "";
    }

    method Append(chunk: string)
      modifies this
      ensures buf == old(buf) + chunk
    {
      buf := buf + chunk;
    }

    method ReadHeader() returns (h: Option<Framing.Header>)
      ensures h == Framing.ParseHeader(buf)
    {
      var s := FindText(buf, "8=", 0);
      if s == |buf| {
        return None;
      }
      var nine := FindText(buf, [SOH] + "9=", s);
      if nine == |buf| {
        return None;
      }
      var lenStart := nine + 3;
      var soh := FindChar(buf, SOH, lenStart);
      if soh == |buf| {
        return None;
      }
      var bodyLen := Or(FromChars(buf[lenStart..soh], INT_MIN, INT_MAX), 0);
      h := Some(Framing.Header(s, soh + 1, bodyLen));
    }

    /** The next complete message, cut off the buffer; nothing and no change when there is none. */
    method Next() returns (msg: Option<string>)
      modifies this
      ensures var r := Framing.NextMessage(old(buf));
              && (msg.Some? <==> r.Some?)
              && (r.Some? ==> (msg.value, buf) == r.value)
              && (r.None? ==> buf == old(buf))
    {
      var header := ReadHeader();
      if header.None? {
        return None;
      }
      var h := header.value;
      var end := Framing.EndOf(h);
      if |buf| < end {
        return None;
      }
      msg := Some(if h.start <= end then buf[h.start..end] else buf[h.start..]);
      buf := buf[end..];
    }
  }
}
