/** The library calls the FIX codec is made of: `find`, `std::to_chars` and `std::from_chars`. */
module Text {
  import opened Options

  // ------------------------------------------------------------- searching

  /** Index of the first `c` at or after `from`; `|s|` stands for `npos`. */
  function FindChar(s: string, c: char, from: nat): (i: nat)
    requires from <= |s|
    ensures from <= i <= |s|
    ensures i < |s| ==> s[i] == c
    ensures forall j :: from <= j < i ==> s[j] != c
    decreases |s| - from
  {
    if from == |s| || s[from] == c then from else FindChar(s, c, from + 1)
  }

  predicate MatchesAt(s: string, pat: string, i: nat) {
    i + |pat| <= |s| && s[i..i + |pat|] == pat
  }

  /** Index of the first occurrence of `pat` at or after `from`; `|s|` stands for `npos`. */
  function FindText(s: string, pat: string, from: nat): (i: nat)
    requires from <= |s| && |pat| >= 1
    ensures from <= i <= |s|
    ensures i < |s| ==> MatchesAt(s, pat, i)
    ensures forall j :: from <= j < i ==> !MatchesAt(s, pat, j)
    decreases |s| - from
  {
    if from == |s| || MatchesAt(s, pat, from) then from else FindText(s, pat, from + 1)
  }

  lemma Assoc(a: string, b: string, c: string)
    ensures a + b + c == a + (b + c)
  {
  }

  lemma FirstChar(s: string, c: char, from: nat, i: nat)
    requires from <= i < |s| && s[i] == c
    requires forall j :: from <= j < i ==> s[j] != c
    ensures FindChar(s, c, from) == i
  {
  }

  /** What has been found stays the first occurrence when more text arrives. */
  lemma FoundCharStays(s: string, x: string, c: char, from: nat)
    requires from <= |s| && FindChar(s, c, from) < |s|
    ensures FindChar(s + x, c, from) == FindChar(s, c, from)
  {
    FirstChar(s + x, c, from, FindChar(s, c, from));
  }

  lemma FoundTextStays(s: string, x: string, pat: string, from: nat)
    requires |pat| >= 1 && from <= |s| && FindText(s, pat, from) < |s|
    ensures FindText(s + x, pat, from) == FindText(s, pat, from)
  {
    var i := FindText(s, pat, from);
    forall j | from <= j <= i
      ensures MatchesAt(s + x, pat, j) <==> MatchesAt(s, pat, j)
    {
      assert j + |pat| <= |s|;
      assert (s + x)[j..j + |pat|] == s[j..j + |pat|];
    }
  }

  // ------------------------------------------------------------- decimal numbers

  function Digit(d: nat): char
    requires d < 10
  {
    ('0' as int + d) as char
  }

  predicate IsDigit(c: char) {
    '0' <= c <= '9'
  }

  predicate AllDigits(s: string) {
    forall i :: 0 <= i < |s| ==> IsDigit(s[i])
  }

  function DigitsOf(n: nat): (s: string)
    ensures |s| >= 1 && AllDigits(s)
  {
    if n < 10 then [Digit(n)] else DigitsOf(n / 10) + [Digit(n % 10)]
  }

  function NatOf(s: string): nat
    requires AllDigits(s)
  {
    if s == [] then 0 else 10 * NatOf(s[..|s| - 1]) + (s[|s| - 1] as int - '0' as int)
  }

  /** `std::to_chars`: shortest decimal form with a minus sign where needed. */
  function ToChars(n: int): (s: string)
    ensures |s| >= 1
    ensures forall i :: 0 <= i < |s| ==> IsDigit(s[i]) || s[i] == '-'
  {
    if n < 0 then "-" + DigitsOf(-n) else DigitsOf(n)
  }

  /** Length of the longest prefix made of digits. */
  function DigitRun(s: string): (k: nat)
    ensures k <= |s| && AllDigits(s[..k])
    ensures k < |s| ==> !IsDigit(s[k])
  {
    if s == [] || !IsDigit(s[0]) then 0
    else
      var k := 1 + DigitRun(s[1..]);
      assert s[..k] == [s[0]] + s[1..][..k - 1];
      k
  }

  /** `std::from_chars` into a signed type: trailing text is ignored, and nothing is stored (`None`)
      when there are no digits or when the number is out of range. */
  function FromChars(s: string, lo: int, hi: int): Option<int> {
    var negative := s != [] && s[0] == '-';
    var t := if negative then s[1..] else s;
    var k := DigitRun(t);
    if k == 0 then None else
    var v: int := if negative then 0 - NatOf(t[..k]) else NatOf(t[..k]);
    if lo <= v <= hi then Some(v) else None
  }

  lemma {:induction false} NatOfDigits(n: nat)
    ensures NatOf(DigitsOf(n)) == n
  {
    if n < 10 {
      assert [Digit(n)][..0] == [];
    } else {
      NatOfDigits(n / 10);
      var s := DigitsOf(n);
      assert s[..|s| - 1] == DigitsOf(n / 10);
    }
  }

  lemma {:induction false} DigitRunAll(s: string)
    requires AllDigits(s)
    ensures DigitRun(s) == |s|
  {
    if s != [] {
      DigitRunAll(s[1..]);
    }
  }

  lemma PlainDigitsParse(digits: string, rest: string, lo: int, hi: int)
    requires digits != "" && AllDigits(digits) && (rest != "" ==> !IsDigit(rest[0]))
    ensures FromChars(digits + rest, lo, hi) == if lo <= NatOf(digits) <= hi then Some(NatOf(digits)) else None
  {
    var s := digits + rest;
    DigitRunStops(digits, rest);
    assert s[..|digits|] == digits && s[0] == digits[0];
  }

  lemma MinusDigitsParse(digits: string, rest: string, s: string, lo: int, hi: int)
    requires digits != "" && AllDigits(digits) && (rest != "" ==> !IsDigit(rest[0]))
    requires s == "-" + digits + rest
    ensures FromChars(s, lo, hi) == if lo <= 0 - NatOf(digits) <= hi then Some(0 - NatOf(digits)) else None
  {
    var t := s[1..];
    assert t == digits + rest;
    DigitRunStops(digits, rest);
    assert t[..|digits|] == digits && s[0] == '-';
  }

  /** What the parser makes of digits and whatever follows them: the number, if the type holds it. */
  lemma DigitsParse(digits: string, rest: string, lo: int, hi: int)
    requires digits != "" && AllDigits(digits) && (rest != "" ==> !IsDigit(rest[0]))
    ensures FromChars(digits + rest, lo, hi) == if lo <= NatOf(digits) <= hi then Some(NatOf(digits)) else None
    ensures FromChars("-" + digits + rest, lo, hi) ==
            if lo <= 0 - NatOf(digits) <= hi then Some(0 - NatOf(digits)) else None
  {
    PlainDigitsParse(digits, rest, lo, hi);
    MinusDigitsParse(digits, rest, "-" + digits + rest, lo, hi);
  }

  lemma {:induction false} DigitRunStops(digits: string, rest: string)
    requires AllDigits(digits) && (rest != "" ==> !IsDigit(rest[0]))
    ensures DigitRun(digits + rest) == |digits|
  {
    if digits == "" {
      assert digits + rest == rest;
    } else {
      assert (digits + rest)[1..] == digits[1..] + rest;
      DigitRunStops(digits[1..], rest);
    }
  }

  /** Text that does not start like a number is no number. */
  lemma NoNumberParses(s: string, lo: int, hi: int)
    requires s == "" || (!IsDigit(s[0]) && (s[0] == '-' ==> |s| == 1 || !IsDigit(s[1])))
    ensures FromChars(s, lo, hi) == None
  {
  }

  /** Printing and parsing undo each other for every number the target type can hold. */
  lemma NumberRoundTrip(n: int, lo: int, hi: int)
    requires lo <= n <= hi
    ensures FromChars(ToChars(n), lo, hi) == Some(n)
  {
    var m: nat := if n < 0 then -n else n;
    var s := ToChars(n);
    var t := DigitsOf(m);
    NatOfDigits(m);
    DigitRunAll(t);
    assert t[..|t|] == t;
    if n < 0 {
      assert s[0] == '-' && s[1..] == t;
    } else {
      assert IsDigit(s[0]);
    }
  }

  function Pow10(k: nat): (p: nat)
    ensures p >= 1
  {
    if k == 0 then 1 else 10 * Pow10(k - 1)
  }

  /** A positive number of digits suffices exactly below the corresponding power of ten. */
  lemma {:induction false} DigitCount(n: nat, d: nat)
    requires d >= 1
    ensures |DigitsOf(n)| <= d <==> n < Pow10(d)
  {
    if d == 1 {
      assert Pow10(1) == 10;
    } else if n < 10 {
    } else {
      DigitCount(n / 10, d - 1);
    }
  }

  lemma ExactDigits(n: nat, d: nat)
    requires d >= 2 && Pow10(d - 1) <= n < Pow10(d)
    ensures |DigitsOf(n)| == d
  {
    DigitCount(n, d - 1);
    DigitCount(n, d);
  }

  lemma Pow10Values()
    ensures Pow10(1) == 10 && Pow10(2) == 100 && Pow10(3) == 1000 && Pow10(4) == 10_000
    ensures Pow10(5) == 100_000 && Pow10(6) == 1_000_000 && Pow10(7) == 10_000_000 && Pow10(8) == 100_000_000
  {
    assert Pow10(2) == 100;
    assert Pow10(4) == 10_000;
    assert Pow10(6) == 1_000_000;
  }
}
