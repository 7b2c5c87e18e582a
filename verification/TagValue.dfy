/** `name=value` SOH lists and the linear scan over them, for any way of printing and parsing names. */
module TagValue {
  import opened Text

  const SOH: char := '\U{0001}'

  datatype Pair = Pair(name: string, value: string)

  function PairBytes(p: Pair): (s: string)
    ensures |s| == |p.name| + |p.value| + 2
  {
    p.name + "=" + p.value + [SOH]
  }

  function Bytes(pairs: seq<Pair>): string {
    if pairs == [] then "" else PairBytes(pairs[0]) + Bytes(pairs[1..])
  }

  predicate Lacks(s: string, c: char) {
    forall i :: 0 <= i < |s| ==> s[i] != c
  }

  /** Pairs the scan can tell apart: no `=` in the name, no SOH in the value. */
  predicate Separable(p: Pair) {
    Lacks(p.name, '=') && Lacks(p.value, SOH)
  }

  predicate AllSeparable(pairs: seq<Pair>) {
    forall i :: 0 <= i < |pairs| ==> Separable(pairs[i])
  }

  /** What one round of the scan finds at `i`: nothing more, or a pair and where the next one starts. */
  datatype Found = Nothing | Found(pair: Pair, next: nat)

  function See(msg: string, i: nat): (r: Found)
    ensures r.Found? ==> i < r.next <= |msg| + 1
  {
    if i >= |msg| then Nothing else
    var eq := FindChar(msg, '=', i);
    if eq == |msg| then Nothing else
    var soh := FindChar(msg, SOH, eq + 1);
    Found(Pair(msg[i..eq], msg[eq + 1..soh]), soh + 1)
  }

  /** The scan of `View::get`, standing at `i`. */
  function Scan(parse: string -> int, msg: string, tag: int, i: nat): string
    decreases |msg| + 1 - i
  {
    match See(msg, i)
    case Nothing => ""
    case Found(p, next) => if parse(p.name) == tag then p.value else Scan(parse, msg, tag, next)
  }

  /** The value of the first pair whose name stands for `tag`. */
  function FirstMatch(parse: string -> int, pairs: seq<Pair>, tag: int): string {
    if pairs == [] then "" else
    if parse(pairs[0].name) == tag then pairs[0].value else FirstMatch(parse, pairs[1..], tag)
  }

  lemma {:induction false} BytesAppend(xs: seq<Pair>, ys: seq<Pair>)
    ensures Bytes(xs + ys) == Bytes(xs) + Bytes(ys)
    decreases |xs|
  {
    if xs == [] {
      assert xs + ys == ys;
    } else {
      assert (xs + ys)[0] == xs[0] && (xs + ys)[1..] == xs[1..] + ys;
      BytesAppend(xs[1..], ys);
      Assoc(PairBytes(xs[0]), Bytes(xs[1..]), Bytes(ys));
    }
  }

  lemma BytesOne(p: Pair)
    ensures Bytes([p]) == PairBytes(p)
  {
    assert [p][1..] == [];
  }

  lemma SliceOfSlice(msg: string, i: nat, k: nat, lo: nat, hi: nat)
    requires lo <= hi <= k && i + k <= |msg|
    ensures msg[i..i + k][lo..hi] == msg[i + lo..i + hi]
  {
    var s, t := msg[i..i + k][lo..hi], msg[i + lo..i + hi];
    assert |s| == |t| && forall j :: 0 <= j < |s| ==> s[j] == t[j];
  }

  /** Where the parts of a pair stand in the message. */
  lemma PairStands(msg: string, i: nat, p: Pair)
    requires i + |PairBytes(p)| <= |msg| && msg[i..i + |PairBytes(p)|] == PairBytes(p)
    ensures var eq, soh := i + |p.name|, i + |p.name| + 1 + |p.value|;
            && soh < |msg| && msg[i..eq] == p.name && msg[eq] == '=' && msg[eq + 1..soh] == p.value && msg[soh] == SOH
  {
    var k := |PairBytes(p)|;
    SliceOfSlice(msg, i, k, 0, |p.name|);
    SliceOfSlice(msg, i, k, |p.name| + 1, k - 1);
    assert msg[i..i + k][|p.name|] == msg[i + |p.name|];
    assert msg[i..i + k][k - 1] == msg[i + (k - 1)];
  }

  /** The scan standing at the first byte of a pair sees exactly that pair. */
  lemma ScanSees(msg: string, i: nat, p: Pair)
    requires Separable(p) && i + |PairBytes(p)| <= |msg|
    requires msg[i..i + |PairBytes(p)|] == PairBytes(p)
    ensures See(msg, i) == Found(p, i + |PairBytes(p)|)
  {
    var eq := i + |p.name|;
    var soh := eq + 1 + |p.value|;
    PairStands(msg, i, p);
    FirstChar(msg, '=', i, eq);
    FirstChar(msg, SOH, eq + 1, soh);
  }

  lemma SeeFirst(msg: string, i: nat, pairs: seq<Pair>) returns (next: nat)
    requires AllSeparable(pairs) && pairs != [] && i <= |msg| && msg[i..] == Bytes(pairs)
    ensures See(msg, i) == Found(pairs[0], next) && next <= |msg|
    ensures msg[next..] == Bytes(pairs[1..]) && AllSeparable(pairs[1..])
  {
    SplitAt(msg, i, PairBytes(pairs[0]), Bytes(pairs[1..]));
    next := i + |PairBytes(pairs[0])|;
    ScanSees(msg, i, pairs[0]);
  }

  /** From `i` on, the scan meets exactly these pairs. */
  predicate Meets(msg: string, i: nat, pairs: seq<Pair>)
    decreases |pairs|
  {
    if pairs == [] then See(msg, i).Nothing?
    else
      var seen := See(msg, i);
      seen.Found? && seen.pair == pairs[0] && Meets(msg, seen.next, pairs[1..])
  }

  lemma {:induction false} BytesAreMet(msg: string, i: nat, pairs: seq<Pair>)
    requires AllSeparable(pairs) && i <= |msg| && msg[i..] == Bytes(pairs)
    ensures Meets(msg, i, pairs)
    decreases |pairs|
  {
    if pairs != [] {
      var next := SeeFirst(msg, i, pairs);
      BytesAreMet(msg, next, pairs[1..]);
    }
  }

  lemma {:induction false} ScanIsFirstMatch(parse: string -> int, msg: string, i: nat, pairs: seq<Pair>, tag: int)
    requires Meets(msg, i, pairs)
    ensures Scan(parse, msg, tag, i) == FirstMatch(parse, pairs, tag)
    decreases |pairs|
  {
    if pairs != [] {
      var seen := See(msg, i);
      ScanIsFirstMatch(parse, msg, seen.next, pairs[1..], tag);
    }
  }

  /** Scanning the bytes of any list of pairs finds the first match. */
  lemma ScanFindsFirst(parse: string -> int, pairs: seq<Pair>, tag: int)
    requires AllSeparable(pairs)
    ensures Scan(parse, Bytes(pairs), tag, 0) == FirstMatch(parse, pairs, tag)
  {
    var msg := Bytes(pairs);
    assert msg[0..] == msg;
    BytesAreMet(msg, 0, pairs);
    ScanIsFirstMatch(parse, msg, 0, pairs, tag);
  }

  // ------------------------------------------------------------- messages that are cut off or garbled

  /** Text without `=` after the last pair ends the scan. */
  lemma {:induction false} JunkIsIgnored(parse: string -> int, msg: string, i: nat, pairs: seq<Pair>,
                                         junk: string, tag: int)
    requires AllSeparable(pairs) && Lacks(junk, '=') && i <= |msg| && msg[i..] == Bytes(pairs) + junk
    ensures Scan(parse, msg, tag, i) == FirstMatch(parse, pairs, tag)
    decreases |pairs|
  {
    if pairs == [] {
      assert msg[i..] == junk;
      SliceLacks(msg, i, |msg|, '=');
    } else {
      var next := SeeFirstOf(msg, i, pairs, junk);
      JunkIsIgnored(parse, msg, next, pairs[1..], junk, tag);
    }
  }

  lemma SliceLacks(msg: string, lo: nat, hi: nat, c: char)
    requires lo <= hi <= |msg| && Lacks(msg[lo..hi], c)
    ensures forall j :: lo <= j < hi ==> msg[j] != c
  {
    forall j | lo <= j < hi ensures msg[j] != c {
      assert msg[lo..hi][j - lo] == msg[j];
    }
  }

  lemma SplitAt(msg: string, i: nat, first: string, rest: string)
    requires i <= |msg| && msg[i..] == first + rest
    ensures i + |first| <= |msg| && msg[i..i + |first|] == first && msg[i + |first|..] == rest
  {
    assert msg[i..][..|first|] == msg[i..i + |first|];
    assert msg[i..][|first|..] == msg[i + |first|..];
  }

  lemma SeeFirstOf(msg: string, i: nat, pairs: seq<Pair>, tail: string) returns (next: nat)
    requires AllSeparable(pairs) && pairs != [] && i <= |msg| && msg[i..] == Bytes(pairs) + tail
    ensures See(msg, i) == Found(pairs[0], next) && next <= |msg|
    ensures msg[next..] == Bytes(pairs[1..]) + tail && AllSeparable(pairs[1..])
  {
    var first, others := PairBytes(pairs[0]), Bytes(pairs[1..]);
    Assoc(first, others, tail);
    SplitAt(msg, i, first, others + tail);
    next := i + |first|;
    ScanSees(msg, i, pairs[0]);
  }

  /** A last value whose closing SOH is missing is taken to the end of the text. */
  lemma {:induction false} UnclosedIsRead(parse: string -> int, msg: string, i: nat, pairs: seq<Pair>,
                                          last: Pair, tag: int)
    requires AllSeparable(pairs) && Separable(last) && i <= |msg|
    requires msg[i..] == Bytes(pairs) + (last.name + "=" + last.value)
    ensures Scan(parse, msg, tag, i) == FirstMatch(parse, pairs + [last], tag)
    decreases |pairs|
  {
    if pairs == [] {
      UnclosedSeen(msg, i, last);
      assert See(msg, |msg| + 1).Nothing?;
      assert [last][1..] == [];
      assert [] + [last] == [last];
    } else {
      var next := SeeFirstOf(msg, i, pairs, last.name + "=" + last.value);
      UnclosedIsRead(parse, msg, next, pairs[1..], last, tag);
      assert (pairs + [last])[1..] == pairs[1..] + [last];
    }
  }

  lemma UnclosedSeen(msg: string, i: nat, last: Pair)
    requires Separable(last) && i <= |msg| && msg[i..] == last.name + "=" + last.value
    ensures See(msg, i) == Found(last, |msg| + 1)
  {
    var t, n := msg[i..], |last.name|;
    assert t[..n] == last.name && t[n] == '=' && t[n + 1..] == last.value;
    assert msg[i..i + n] == t[..n] && msg[i + n] == t[n] && msg[i + n + 1..] == t[n + 1..];
    SliceLacks(msg, i, i + n, '=');
    SliceLacks(msg, i + n + 1, |msg|, SOH);
    FirstChar(msg, '=', i, i + n);
  }

  // ------------------------------------------------------------- what a value can be

  /** A value never contains SOH, whatever the message. */
  lemma {:induction false} ScannedLacksSoh(parse: string -> int, msg: string, tag: int, i: nat)
    ensures Lacks(Scan(parse, msg, tag, i), SOH)
    decreases |msg| + 1 - i
  {
    var seen := See(msg, i);
    if seen.Found? && parse(seen.pair.name) != tag {
      ScannedLacksSoh(parse, msg, tag, seen.next);
    }
  }
}
