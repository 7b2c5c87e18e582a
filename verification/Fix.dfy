/** FIX 4.2 text encoding: what `Builder` writes, what `View` reads back, and that the two undo each other. */
module Fix {
  import opened Options
  import opened Text
  import opened TagValue

  const INT_MIN := -0x8000_0000
  const INT_MAX := 0x7FFF_FFFF
  const I64_MIN := -0x8000_0000_0000_0000
  const I64_MAX := 0x7FFF_FFFF_FFFF_FFFF

  datatype Field = Field(tag: int, value: string)

  // ------------------------------------------------------------- what is written

  function PairOf(f: Field): Pair {
    Pair(ToChars(f.tag), f.value)
  }

  function Pairs(fields: seq<Field>): seq<Pair> {
    seq(|fields|, i requires 0 <= i < |fields| => PairOf(fields[i]))
  }

  /** `tag=value` followed by SOH. */
  function FieldBytes(f: Field): (s: string)
    ensures |s| == |ToChars(f.tag)| + |f.value| + 2
  {
    PairBytes(PairOf(f))
  }

  function BodyBytes(fields: seq<Field>): string {
    Bytes(Pairs(fields))
  }

  /** Sum of the bytes, each taken as an unsigned char. */
  function ByteSum(s: string): nat {
    if s == [] then 0 else ByteSum(s[..|s| - 1]) + s[|s| - 1] as int % 256
  }

  /** Adding bytes up: nothing for nothing, and each byte counts once. */
  ghost predicate IsByteSum(f: string -> nat) {
    f("") == 0 && forall s: string, c: char :: f(s + [c]) == f(s) + c as int % 256
  }

  /** There is only one way to add up the bytes of a string. */
  lemma {:induction false} ByteSumIsTheSum(f: string -> nat, s: string)
    requires IsByteSum(f)
    ensures f(s) == ByteSum(s)
  {
    if s == [] {
      assert s == "";
    } else {
      var init, last := s[..|s| - 1], s[|s| - 1];
      ByteSumIsTheSum(f, init);
      assert s == init + [last];
      assert f(init + [last]) == f(init) + last as int % 256;
    }
  }

  lemma {:induction false} ByteSumAppend(a: string, b: string)
    ensures ByteSum(a + b) == ByteSum(a) + ByteSum(b)
    decreases |b|
  {
    if b == [] {
      assert a + b == a;
    } else {
      ByteSumAppend(a, b[..|b| - 1]);
      assert (a + b)[..|a + b| - 1] == a + b[..|b| - 1];
    }
  }

  lemma ByteSumOne(c: char)
    requires c as int < 256
    ensures ByteSum([c]) == c as int
  {
    assert [c][..0] == [];
  }

  function ThreeDigits(ck: nat): (s: string)
    requires ck < 256
    ensures |s| == 3
  {
    [Digit(ck / 100), Digit(ck / 10 % 10), Digit(ck % 10)]
  }

  const BEGIN_STRING := Field(8, "FIX.4.2")

  function BodyLength(body: string): Field {
    Field(9, ToChars(|body|))
  }

  /** Everything the checksum covers. */
  function Prologue(body: string): string {
    FieldBytes(BEGIN_STRING) + FieldBytes(BodyLength(body)) + body
  }

  function CheckSum(body: string): Field {
    Field(10, ThreeDigits(ByteSum(Prologue(body)) % 256))
  }

  /** The whole message around a body. */
  function Frame(body: string): string {
    Prologue(body) + FieldBytes(CheckSum(body))
  }

  function Message(fields: seq<Field>): string {
    Frame(BodyBytes(fields))
  }

  /** The fields a reader meets in a finished message, in order. */
  function AllFields(fields: seq<Field>): seq<Field> {
    var body := BodyBytes(fields);
    [BEGIN_STRING] + [BodyLength(body)] + fields + [CheckSum(body)]
  }

  lemma BodyBytesAppend(xs: seq<Field>, ys: seq<Field>)
    ensures BodyBytes(xs + ys) == BodyBytes(xs) + BodyBytes(ys)
  {
    assert Pairs(xs + ys) == Pairs(xs) + Pairs(ys);
    BytesAppend(Pairs(xs), Pairs(ys));
  }

  lemma BodyBytesOne(f: Field)
    ensures BodyBytes([f]) == FieldBytes(f)
  {
    assert Pairs([f]) == [PairOf(f)];
    BytesOne(PairOf(f));
  }

  /** A finished message is nothing but the bytes of its fields. */
  lemma MessageIsFields(fields: seq<Field>)
    ensures Message(fields) == BodyBytes(AllFields(fields))
  {
    var body := BodyBytes(fields);
    var begin, length, check := [BEGIN_STRING], [BodyLength(body)], [CheckSum(body)];
    BodyBytesAppend(begin + length + fields, check);
    BodyBytesAppend(begin + length, fields);
    BodyBytesAppend(begin, length);
    BodyBytesOne(BEGIN_STRING);
    BodyBytesOne(BodyLength(body));
    BodyBytesOne(CheckSum(body));
  }

  // ------------------------------------------------------------- what is read

  function Or(o: Option<int>, d: int): int {
    if o.Some? then o.value else d
  }

  /** The tag the scan reads; text that is no `int` leaves the initial zero. */
  function TagOf(s: string): int {
    Or(FromChars(s, INT_MIN, INT_MAX), 0)
  }

  function Get(msg: string, tag: int): string {
    Scan(TagOf, msg, tag, 0)
  }

  function GetInt(msg: string, tag: int, def: int): (n: int)
    ensures I64_MIN <= def <= I64_MAX ==> I64_MIN <= n <= I64_MAX
  {
    var v := Get(msg, tag);
    if v == "" then def else Or(FromChars(v, I64_MIN, I64_MAX), def)
  }

  // ------------------------------------------------------------- writing and reading undo each other

  /** The first value added under `tag`, or the empty view. */
  function FirstValue(fields: seq<Field>, tag: int): string {
    if fields == [] then "" else
    if fields[0].tag == tag then fields[0].value else FirstValue(fields[1..], tag)
  }

  /** What `write_field` can write faithfully: an `int` tag of at most ten characters, a value without SOH. */
  predicate Writable(f: Field) {
    INT_MIN <= f.tag <= INT_MAX && |ToChars(f.tag)| <= 10 && Lacks(f.value, SOH)
  }

  predicate AllWritable(fields: seq<Field>) {
    forall i :: 0 <= i < |fields| ==> Writable(fields[i])
  }

  lemma TagRoundTrip(tag: int)
    requires INT_MIN <= tag <= INT_MAX
    ensures TagOf(ToChars(tag)) == tag
  {
    NumberRoundTrip(tag, INT_MIN, INT_MAX);
  }

  lemma {:induction false} FirstMatchIsFirstValue(fields: seq<Field>, tag: int)
    requires AllWritable(fields)
    ensures FirstMatch(TagOf, Pairs(fields), tag) == FirstValue(fields, tag)
    decreases |fields|
  {
    if fields != [] {
      TagRoundTrip(fields[0].tag);
      assert Pairs(fields)[1..] == Pairs(fields[1..]);
      FirstMatchIsFirstValue(fields[1..], tag);
    }
  }

  lemma ReadFindsFirst(fields: seq<Field>, tag: int)
    requires AllWritable(fields)
    ensures Get(BodyBytes(fields), tag) == FirstValue(fields, tag)
  {
    assert AllSeparable(Pairs(fields));
    ScanFindsFirst(TagOf, Pairs(fields), tag);
    FirstMatchIsFirstValue(fields, tag);
  }

  lemma {:induction false} FirstValueSkips(xs: seq<Field>, ys: seq<Field>, tag: int)
    requires forall i :: 0 <= i < |xs| ==> xs[i].tag != tag
    ensures FirstValue(xs + ys, tag) == FirstValue(ys, tag)
    decreases |xs|
  {
    if xs == [] {
      assert xs + ys == ys;
    } else {
      assert (xs + ys)[1..] == xs[1..] + ys;
      FirstValueSkips(xs[1..], ys, tag);
    }
  }

  lemma {:induction false} FirstValueIgnoresTail(xs: seq<Field>, f: Field, tag: int)
    requires f.tag != tag
    ensures FirstValue(xs + [f], tag) == FirstValue(xs, tag)
    decreases |xs|
  {
    if xs == [] {
      assert (xs + [f])[1..] == [];
    } else {
      assert (xs + [f])[1..] == xs[1..] + [f];
      FirstValueIgnoresTail(xs[1..], f, tag);
    }
  }

  lemma EnvelopeWritable(body: string)
    ensures Writable(BEGIN_STRING) && Writable(BodyLength(body)) && Writable(CheckSum(body))
  {
    assert |DigitsOf(1)| == 1;
    assert |ToChars(8)| == 1 && |ToChars(9)| == 1 && |ToChars(10)| == 2;
  }

  /** `get` on a finished message returns the first value written under the tag; the envelope fields
      8, 9 and 10 take part like all others. */
  lemma BuilderViewRoundTrip(fields: seq<Field>, tag: int)
    requires AllWritable(fields)
    ensures Get(Message(fields), tag) == FirstValue(AllFields(fields), tag)
    ensures tag != 8 && tag != 9 && tag != 10 ==> Get(Message(fields), tag) == FirstValue(fields, tag)
  {
    var body := BodyBytes(fields);
    var all := AllFields(fields);
    MessageIsFields(fields);
    EnvelopeWritable(body);
    ReadFindsFirst(all, tag);
    if tag != 8 && tag != 9 && tag != 10 {
      FirstValueIgnoresTail([BEGIN_STRING] + [BodyLength(body)] + fields, CheckSum(body), tag);
      FirstValueSkips([BEGIN_STRING] + [BodyLength(body)], fields, tag);
    }
  }

  /** `get_int` gives back every `i64` that was added first under the tag, whatever the default. */
  lemma IntegerRoundTrip(fields: seq<Field>, tag: int, n: int, def: int)
    requires AllWritable(fields) && I64_MIN <= n <= I64_MAX
    requires tag != 8 && tag != 9 && tag != 10
    requires FirstValue(fields, tag) == ToChars(n)
    ensures GetInt(Message(fields), tag, def) == n
  {
    BuilderViewRoundTrip(fields, tag);
    NumberRoundTrip(n, I64_MIN, I64_MAX);
  }

  /** Total length as a function of the body length alone. */
  lemma FrameLength(body: string)
    ensures |Frame(body)| == 20 + |DigitsOf(|body|)| + |body|
  {
    assert |DigitsOf(1)| == 1;
    assert |ToChars(8)| == 1 && |ToChars(9)| == 1 && |ToChars(10)| == 2;
  }

  // ------------------------------------------------------------- the envelope of a finished message

  lemma NatOfThree(a: nat, b: nat, c: nat)
    requires a < 10 && b < 10 && c < 10
    ensures NatOf([Digit(a), Digit(b), Digit(c)]) == 100 * a + 10 * b + c
  {
    assert [Digit(a), Digit(b), Digit(c)][..2] == [Digit(a), Digit(b)];
    assert [Digit(a), Digit(b)][..1] == [Digit(a)];
    assert [Digit(a)][..0] == [];
    assert NatOf([Digit(a)]) == a;
    assert NatOf([Digit(a), Digit(b)]) == 10 * a + b;
  }

  lemma AllDigitsRead(s: string)
    requires s != "" && AllDigits(s) && NatOf(s) <= I64_MAX
    ensures FromChars(s, I64_MIN, I64_MAX) == Some(NatOf(s))
  {
    DigitRunAll(s);
    assert s[..|s|] == s;
    assert IsDigit(s[0]);
  }

  lemma ThreeDigitSum(ck: nat)
    ensures ck == 100 * (ck / 100) + 10 * (ck / 10 % 10) + ck % 10
  {
    assert ck / 10 / 10 == ck / 100;
  }

  lemma ThreeDigitsRead(ck: nat)
    requires ck < 256
    ensures FromChars(ThreeDigits(ck), I64_MIN, I64_MAX) == Some(ck)
  {
    var s := ThreeDigits(ck);
    assert AllDigits(s) && NatOf(s) == ck by {
      NatOfThree(ck / 100, ck / 10 % 10, ck % 10);
      ThreeDigitSum(ck);
    }
    AllDigitsRead(s);
  }

  lemma LastFieldIsCheckSum(fields: seq<Field>)
    requires forall i :: 0 <= i < |fields| ==> fields[i].tag != 10
    ensures FirstValue(AllFields(fields), 10) == CheckSum(BodyBytes(fields)).value
  {
    var body := BodyBytes(fields);
    FirstValueSkips([BEGIN_STRING] + [BodyLength(body)] + fields, [CheckSum(body)], 10);
  }

  lemma SecondFieldIsBodyLength(fields: seq<Field>)
    ensures FirstValue(AllFields(fields), 9) == ToChars(|BodyBytes(fields)|)
  {
    var body := BodyBytes(fields);
    var rest := [BodyLength(body)] + fields + [CheckSum(body)];
    assert AllFields(fields) == [BEGIN_STRING] + rest;
    FirstValueSkips([BEGIN_STRING], rest, 9);
  }

  lemma FrameSplits(body: string)
    ensures var msg := Frame(body);
            && |msg| >= 7 + |body|
            && msg[..|msg| - 7] == Prologue(body)
            && msg[|msg| - 7 - |body|..|msg| - 7] == body
  {
    assert |ToChars(10)| == 2;
    var msg := Frame(body);
    assert |FieldBytes(CheckSum(body))| == 7;
    assert msg[..|msg| - 7] == Prologue(body);
  }

  lemma BodyLengthReadsBack(fields: seq<Field>, def: int)
    requires AllWritable(fields) && |BodyBytes(fields)| <= I64_MAX
    ensures GetInt(Message(fields), 9, def) == |BodyBytes(fields)|
  {
    BuilderViewRoundTrip(fields, 9);
    SecondFieldIsBodyLength(fields);
    NumberRoundTrip(|BodyBytes(fields)|, I64_MIN, I64_MAX);
  }

  lemma CheckSumReadsBack(fields: seq<Field>, def: int)
    requires AllWritable(fields) && forall i :: 0 <= i < |fields| ==> fields[i].tag != 10
    ensures GetInt(Message(fields), 10, def) == ByteSum(Prologue(BodyBytes(fields))) % 256
  {
    BuilderViewRoundTrip(fields, 10);
    LastFieldIsCheckSum(fields);
    ThreeDigitsRead(ByteSum(Prologue(BodyBytes(fields))) % 256);
  }

  /** Reading a finished message back: BodyLength counts exactly the body bytes, which end seven bytes
      before the end, and CheckSum is the sum of all bytes before it modulo 256, however it is added up. */
  lemma EnvelopeIsRight(fields: seq<Field>, def: int)
    requires AllWritable(fields) && |BodyBytes(fields)| <= I64_MAX
    ensures var msg, body := Message(fields), BodyBytes(fields);
            && |msg| >= 7 + |body|
            && msg[|msg| - 7 - |body|..|msg| - 7] == body
            && GetInt(msg, 9, def) == |body|
            && ((forall i :: 0 <= i < |fields| ==> fields[i].tag != 10) ==>
                  GetInt(msg, 10, def) == ByteSum(msg[..|msg| - 7]) % 256)
    ensures var msg := Message(fields);
            (forall i :: 0 <= i < |fields| ==> fields[i].tag != 10) ==>
              forall f :: IsByteSum(f) ==> GetInt(msg, 10, def) == f(msg[..|msg| - 7]) % 256
  {
    FrameSplits(BodyBytes(fields));
    BodyLengthReadsBack(fields, def);
    if forall i :: 0 <= i < |fields| ==> fields[i].tag != 10 {
      CheckSumReadsBack(fields, def);
      var msg := Message(fields);
      forall f | IsByteSum(f) ensures GetInt(msg, 10, def) == f(msg[..|msg| - 7]) % 256 {
        ByteSumIsTheSum(f, msg[..|msg| - 7]);
      }
    }
  }

  // ------------------------------------------------------------- one message, byte for byte

  lemma TagsInDecimal()
    ensures ToChars(8) == ['8'] && ToChars(9) == ['9'] && ToChars(10) == ['1', '0'] && ToChars(35) == ['3', '5']
    ensures ToChars(5) == ['5']
  {
    assert DigitsOf(1) == [Digit(1)] && DigitsOf(3) == [Digit(3)];
    assert DigitsOf(10) == DigitsOf(1) + [Digit(0)] && DigitsOf(35) == DigitsOf(3) + [Digit(5)];
  }

  /** A body of one field, printed: 35=0 and a byte of value one. */
  lemma OneFieldBody()
    ensures BodyBytes([Field(35, "0")]) == ['3', '5', '=', '0', '\U{0001}']
  {
    TagsInDecimal();
    BodyBytesOne(Field(35, "0"));
  }

  lemma OneFieldPrologue(body: string)
    requires body == ['3', '5', '=', '0', '\U{0001}']
    ensures Prologue(body) == ['8', '=', 'F', 'I', 'X', '.', '4', '.', '2', '\U{0001}']
                              + ['9', '=', '5', '\U{0001}'] + ['3', '5', '=', '0', '\U{0001}']
  {
    TagsInDecimal();
    assert FieldBytes(BEGIN_STRING) == ['8', '=', 'F', 'I', 'X', '.', '4', '.', '2', '\U{0001}'];
    assert FieldBytes(BodyLength(body)) == ['9', '=', '5', '\U{0001}'];
  }

  lemma SumOfFive(a: char, b: char, c: char, d: char, e: char)
    requires a as int < 256 && b as int < 256 && c as int < 256 && d as int < 256 && e as int < 256
    ensures ByteSum([a, b, c, d, e]) == a as int + b as int + c as int + d as int + e as int
  {
    assert [a, b, c, d, e] == [a] + [b] + [c] + [d] + [e];
    ByteSumOne(a); ByteSumOne(b); ByteSumOne(c); ByteSumOne(d); ByteSumOne(e);
    ByteSumAppend([a], [b]);
    ByteSumAppend([a] + [b], [c]);
    ByteSumAppend([a] + [b] + [c], [d]);
    ByteSumAppend([a] + [b] + [c] + [d], [e]);
  }

  lemma OneFieldSum(s: string)
    requires s == ['8', '=', 'F', 'I', 'X', '.', '4', '.', '2', '\U{0001}']
                  + ['9', '=', '5', '\U{0001}'] + ['3', '5', '=', '0', '\U{0001}']
    ensures ByteSum(s) % 256 == 161
  {
    var p, q := ['8', '=', 'F', 'I', 'X'], ['.', '4', '.', '2', '\U{0001}'];
    var r, t := ['9', '=', '5', '\U{0001}', '3'], ['5', '=', '0', '\U{0001}'];
    assert s == p + q + r + t;
    SumOfFive('8', '=', 'F', 'I', 'X');
    SumOfFive('.', '4', '.', '2', '\U{0001}');
    SumOfFive('9', '=', '5', '\U{0001}', '3');
    SumOfFive('5', '=', '0', '\U{0001}', '0');
    ByteSumAppend(t, ['0']);
    ByteSumOne('0');
    assert t + ['0'] == ['5', '=', '0', '\U{0001}', '0'];
    SumOfParts(p, q, r, t);
  }

  lemma SumOfParts(p: string, q: string, r: string, t: string)
    ensures ByteSum(p + q + r + t) == ByteSum(p) + ByteSum(q) + ByteSum(r) + ByteSum(t)
  {
    ByteSumAppend(p, q);
    ByteSumAppend(p + q, r);
    ByteSumAppend(p + q + r, t);
  }

  /** The shortest heartbeat: 8=FIX.4.2, 9=5, 35=0, 10=161, each closed by a byte of value one. */
  lemma ShortestHeartbeat()
    ensures Message([Field(35, "0")]) == ['8', '=', 'F', 'I', 'X', '.', '4', '.', '2', '\U{0001}']
                                         + ['9', '=', '5', '\U{0001}'] + ['3', '5', '=', '0', '\U{0001}']
                                         + ['1', '0', '=', '1', '6', '1', '\U{0001}']
  {
    var body := BodyBytes([Field(35, "0")]);
    OneFieldBody();
    OneFieldPrologue(body);
    OneFieldSum(Prologue(body));
    TagsInDecimal();
    assert ThreeDigits(161) == ['1', '6', '1'];
    assert FieldBytes(CheckSum(body)) == ['1', '0', '=', '1', '6', '1', '\U{0001}'];
  }

  // ------------------------------------------------------------- reading what no builder wrote

  lemma WritablePairs(fields: seq<Field>)
    requires AllWritable(fields)
    ensures AllSeparable(Pairs(fields))
  {
  }

  /** Trailing text without `=` does not disturb the fields before it. */
  lemma GarbledIsRead(fields: seq<Field>, junk: string, tag: int)
    requires AllWritable(fields) && Lacks(junk, '=')
    ensures Get(BodyBytes(fields) + junk, tag) == FirstValue(fields, tag)
  {
    WritablePairs(fields);
    var msg := BodyBytes(fields) + junk;
    assert msg[0..] == msg;
    JunkIsIgnored(TagOf, msg, 0, Pairs(fields), junk, tag);
    FirstMatchIsFirstValue(fields, tag);
  }

  /** A last field without its closing byte is read like the others. */
  lemma CutOffIsRead(fields: seq<Field>, last: Field, tag: int)
    requires AllWritable(fields) && Writable(last)
    ensures Get(BodyBytes(fields) + (ToChars(last.tag) + "=" + last.value), tag) == FirstValue(fields + [last], tag)
  {
    WritablePairs(fields);
    var tail := ToChars(last.tag) + "=" + last.value;
    var msg := BodyBytes(fields) + tail;
    assert msg[0..] == msg;
    UnclosedIsRead(TagOf, msg, 0, Pairs(fields), PairOf(last), tag);
    assert Pairs(fields) + [PairOf(last)] == Pairs(fields + [last]);
    FirstMatchIsFirstValue(fields + [last], tag);
  }

  /** No value contains SOH, whatever the message. */
  lemma GetLacksSoh(msg: string, tag: int)
    ensures Lacks(Get(msg, tag), SOH)
  {
    ScannedLacksSoh(TagOf, msg, tag, 0);
  }

  /** What `get_int` makes of a value: its leading number if that is an i64, else the default. */
  lemma NumberIsRead(msg: string, tag: int, def: int, digits: string, rest: string)
    requires digits != "" && AllDigits(digits) && (rest != "" ==> !IsDigit(rest[0]))
    ensures Get(msg, tag) == digits + rest ==>
              GetInt(msg, tag, def) == if NatOf(digits) <= I64_MAX then NatOf(digits) else def
    ensures Get(msg, tag) == "-" + digits + rest ==>
              GetInt(msg, tag, def) == if 0 - NatOf(digits) >= I64_MIN then 0 - NatOf(digits) else def
  {
    DigitsParse(digits, rest, I64_MIN, I64_MAX);
  }

  lemma DefaultIsRead(msg: string, tag: int, def: int)
    requires var v := Get(msg, tag);
             v == "" || (!IsDigit(v[0]) && (v[0] == '-' ==> |v| == 1 || !IsDigit(v[1])))
    ensures GetInt(msg, tag, def) == def
  {
    NoNumberParses(Get(msg, tag), I64_MIN, I64_MAX);
  }
}
