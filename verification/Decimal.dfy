/** Decimal text: digits10 and ll2string of src/hp_sig.c, myatoi of src/hp_str.c. */
module Decimal {
  import opened Arithmetic
  import opened Common

  const LLONG_MIN := -0x8000_0000_0000_0000
  const LLONG_MAX := 0x7FFF_FFFF_FFFF_FFFF

  /** Ten pairs of digits, for the numbers from 10 * tens. */
  function Row(tens: nat): (s: string)
    requires tens < 10
    ensures |s| == 20
  {
    match tens
    case 0 => "00010203040506070809"
    case 1 => "10111213141516171819"
    case 2 => "20212223242526272829"
    case 3 => "30313233343536373839"
    case 4 => "40414243444546474849"
    case 5 => "50515253545556575859"
    case 6 => "60616263646566676869"
    case 7 => "70717273747576777879"
    case 8 => "80818283848586878889"
    case _ => "90919293949596979899"
  }

  /** The table digits: the pair for i starts at 2 * i. */
  const DIGITS: string := seq(200, i requires 0 <= i < 200 => Row(i / 20)[i % 20])

  // ---------- what a text of digits denotes ----------

  predicate IsDigit(c: char) {
    '0' <= c <= '9'
  }

  function DigitChar(d: nat): (c: char)
    requires d < 10
    ensures IsDigit(c) && Digit(c) == d
  {
    '0' + d as char
  }

  function Digit(c: char): (d: nat)
    requires IsDigit(c)
  {
    c as int - '0' as int
  }

  predicate AllDigits(s: string) {
    forall i :: 0 <= i < |s| ==> IsDigit(s[i])
  }

  ghost function Denote(s: string): (n: nat)
    requires AllDigits(s)
  {
    if s == [] then 0 else 10 * Denote(s[..|s| - 1]) + Digit(s[|s| - 1])
  }

  function Pow10(k: nat): (r: nat)
    ensures r >= 1
  {
    if k == 0 then 1 else 10 * Pow10(k - 1)
  }

  lemma {:induction false} Pow10Add(a: nat, b: nat)
    ensures Pow10(a + b) == Pow10(a) * Pow10(b)
  {
    if b > 0 {
      Pow10Add(a, b - 1);
      Scale(Pow10(a), Pow10(b - 1));
    }
  }

  lemma {:induction false} Pow10Grows(a: nat, b: nat)
    requires a <= b
    ensures Pow10(a) <= Pow10(b)
  {
    if a < b {
      Pow10Grows(a, b - 1);
    }
  }

  lemma {:induction false} DenoteConcat(a: string, b: string)
    requires AllDigits(a) && AllDigits(b)
    ensures AllDigits(a + b) && Denote(a + b) == Denote(a) * Pow10(|b|) + Denote(b)
  {
    if b == [] {
      assert a + b == a;
    } else {
      var c := b[..|b| - 1];
      DenoteConcat(a, c);
      assert (a + b)[..|a + b| - 1] == a + c;
      Scale(Denote(a), Pow10(|c|));
    }
  }

  // ---------- digits10 ----------

  /** d is the number of digits v is written with. */
  ghost predicate DigitCount(v: nat, d: nat) {
    d >= 1 && v < Pow10(d) && (v >= 10 || d > 1 ==> Pow10(d - 1) <= v)
  }

  lemma Powers()
    ensures Pow10(1) == 10 && Pow10(2) == 100 && Pow10(3) == 1000 && Pow10(4) == 10000
    ensures Pow10(5) == 100000 && Pow10(6) == 1000000 && Pow10(7) == 10000000
    ensures Pow10(8) == 100000000 && Pow10(9) == 1000000000 && Pow10(10) == 10000000000
    ensures Pow10(11) == 100000000000 && Pow10(12) == 1000000000000
  {}

  /** digits10: the exact digit count. */
  function Digits10(v: nat): (d: nat)
    ensures DigitCount(v, d)
  {
    Powers();
    if v < 10 then 1
    else if v < 100 then 2
    else if v < 1000 then 3
    else if v < 1000000000000 then
      if v < 100000000 then
        if v < 1000000 then
          if v < 10000 then 4 else 5 + (if v >= 100000 then 1 else 0)
        else 7 + (if v >= 10000000 then 1 else 0)
      else if v < 10000000000 then 9 + (if v >= 1000000000 then 1 else 0)
      else 11 + (if v >= 100000000000 then 1 else 0)
    else
      var d := Digits10(v / 1000000000000);
      TwelveMore(v, d);
      12 + d
  }

  lemma TwelveMore(v: nat, d: nat)
    requires v >= 1000000000000 && DigitCount(v / 1000000000000, d)
    ensures DigitCount(v, 12 + d)
  {
    PowTwelve(d);
    PowTwelve(d - 1);
    Times12(v, v / 1000000000000, Pow10(d - 1), Pow10(d));
  }

  lemma PowTwelve(d: nat)
    ensures Pow10(12 + d) == 1000000000000 * Pow10(d)
  {
    Powers();
    Pow10Add(12, d);
  }

  lemma Times12(v: nat, w: nat, p: nat, q: nat)
    requires w == v / 1000000000000 && p <= w < q
    ensures 1000000000000 * p <= v < 1000000000000 * q
  {}

  /** There is only one digit count. */
  lemma DigitCountUnique(v: nat, d: nat, e: nat)
    requires DigitCount(v, d) && DigitCount(v, e)
    ensures d == e
  {
    if d < e {
      Pow10Grows(d, e - 1);
    } else if e < d {
      Pow10Grows(e, d - 1);
    }
  }

  // ---------- the decimal text of a number ----------

  function Digits(v: nat): (s: string)
    ensures |s| >= 1
  {
    if v < 10 then [DigitChar(v)] else Digits(v / 10) + [DigitChar(v % 10)]
  }

  /** The text of a signed number, as ll2string and the format %d write it. */
  function Text(v: int): (s: string)
    ensures |s| >= 1
  {
    if v < 0 then "-" + Digits(-v) else Digits(v)
  }

  /** The digits denote the number and do not start with a superfluous zero. */
  lemma {:induction false} DigitsMean(v: nat)
    ensures AllDigits(Digits(v)) && Denote(Digits(v)) == v
    ensures Digits(v)[0] == '0' ==> v == 0
  {
    if v >= 10 {
      DigitsMean(v / 10);
      assert Digits(v)[..|Digits(v)| - 1] == Digits(v / 10);
    } else {
      assert Digits(v)[..0] == [];
    }
  }

  lemma {:induction false} DigitsLength(v: nat)
    ensures DigitCount(v, |Digits(v)|)
  {
    if v >= 10 {
      DigitsLength(v / 10);
    }
  }

  /** digits10 gives the length of the text. */
  lemma LengthIsDigits10(v: nat)
    ensures |Digits(v)| == Digits10(v)
  {
    DigitsLength(v);
    DigitCountUnique(v, |Digits(v)|, Digits10(v));
  }

  /** No other text of digits without a superfluous zero denotes the number. */
  lemma {:induction false} DigitsUnique(s: string, v: nat)
    requires |s| >= 1 && AllDigits(s) && Denote(s) == v && (s[0] == '0' ==> |s| == 1)
    ensures s == Digits(v)
  {
    var front := s[..|s| - 1];
    if front == [] {
      assert Denote(front) == 0;
      assert s == [s[0]];
    } else {
      Positive(front);
      DigitsUnique(front, v / 10);
      assert s == front + [s[|s| - 1]];
    }
  }

  lemma {:induction false} Positive(s: string)
    requires |s| >= 1 && AllDigits(s) && s[0] != '0'
    ensures Denote(s) >= 1
  {
    if |s| > 1 {
      Positive(s[..|s| - 1]);
    }
  }

  // ---------- ll2string ----------

  lemma PairOf(row: string, t: char, units: nat)
    requires row == [t, '0', t, '1', t, '2', t, '3', t, '4', t, '5', t, '6', t, '7', t, '8', t, '9']
    requires units < 10
    ensures row[2 * units] == t && IsDigit(row[2 * units + 1]) && Digit(row[2 * units + 1]) == units
  {}

  lemma PairInRow(tens: nat, units: nat)
    requires tens < 10 && units < 10
    ensures Row(tens)[2 * units] == DigitChar(tens)
    ensures IsDigit(Row(tens)[2 * units + 1]) && Digit(Row(tens)[2 * units + 1]) == units
  {
    match tens
    case 0 => PairOf(Row(0), '0', units);
    case 1 => PairOf(Row(1), '1', units);
    case 2 => PairOf(Row(2), '2', units);
    case 3 => PairOf(Row(3), '3', units);
    case 4 => PairOf(Row(4), '4', units);
    case 5 => PairOf(Row(5), '5', units);
    case 6 => PairOf(Row(6), '6', units);
    case 7 => PairOf(Row(7), '7', units);
    case 8 => PairOf(Row(8), '8', units);
    case _ => PairOf(Row(9), '9', units);
  }

  lemma SameDigit(c: char, d: char)
    requires IsDigit(c) && IsDigit(d) && Digit(c) == Digit(d)
    ensures c == d
  {}

  lemma TableAt(i: nat, tens: nat, at: nat)
    requires tens < 10 && at < 20 && i == 20 * tens + at
    ensures |DIGITS| == 200 && DIGITS[i] == Row(tens)[at]
  {
    assert i / 20 == tens && i % 20 == at;
  }

  /** The table shows every number below 100 with two digits. */
  lemma PairTable(k: nat)
    requires k < 100
    ensures |DIGITS| == 200
    ensures DIGITS[2 * k] == DigitChar(k / 10) && DIGITS[2 * k + 1] == DigitChar(k % 10)
  {
    var tens, units := k / 10, k % 10;
    PairInRow(tens, units);
    TableAt(2 * k, tens, 2 * units);
    TableAt(2 * k + 1, tens, 2 * units + 1);
    SameDigit(Row(tens)[2 * units + 1], DigitChar(units));
  }

  /** Two digits off the end at a time. */
  lemma TwoDigits(v: nat, q: nat, r: nat)
    requires v >= 100 && q == v / 100 && r == v % 100
    ensures Digits(v) == Digits(q) + [DigitChar(r / 10), DigitChar(r % 10)]
  {
    assert v / 10 / 10 == q && v / 10 % 10 == r / 10 && v % 10 == r % 10;
    assert Digits(v) == Digits(v / 10) + [DigitChar(v % 10)];
    assert Digits(v / 10) == Digits(q) + [DigitChar(r / 10)];
  }

  /** ll2string: the text and its terminator if they fit, nothing at all otherwise. */
  method Ll2string(dst: array<char>, dstlen: nat, svalue: int) returns (length: nat)
    requires LLONG_MIN <= svalue <= LLONG_MAX && dstlen <= dst.Length
    modifies dst
    ensures length == if |Text(svalue)| < dstlen then |Text(svalue)| else 0
    ensures length > 0 ==> dst[..length] == Text(svalue) && dst[length] == '\0'
    ensures length > 0 ==> dst[length + 1..] == old(dst[length + 1..])
    ensures length == 0 ==> dst[..] == old(dst[..])
  {
    var value, negative := Magnitude(svalue);
    LengthIsDigits10(value);
    length := Digits10(value) + negative;
    if length >= dstlen {
      return 0;
    }
    dst[length] := '\0';
    ghost var tail := dst[length..];
    assert tail[1..] == old(dst[length + 1..]);
    WriteDigits(dst, negative, length, value);
    ghost var digits := dst[negative..length];
    if negative == 1 {
      dst[0] := '-';
      assert dst[..length] == "-" + digits;
    } else {
      assert dst[..length] == digits;
    }
    assert dst[length..] == tail;
    assert dst[length + 1..] == tail[1..];
  }

  /** The absolute value, which LLONG_MIN has no negative for in 64 bits, and the sign. */
  method Magnitude(svalue: int) returns (value: nat, negative: nat)
    requires LLONG_MIN <= svalue <= LLONG_MAX
    ensures negative == (if svalue < 0 then 1 else 0) && value == if svalue < 0 then -svalue else svalue
  {
    if svalue < 0 {
      if svalue != LLONG_MIN {
        value := -svalue;
      } else {
        value := LLONG_MAX + 1;
      }
      negative := 1;
    } else {
      value, negative := svalue, 0;
    }
  }

  /** One pair of digits in dst[at..at + 2). */
  method PutPair(dst: array<char>, at: nat, k: nat, ghost hi: nat)
    requires k < 100 && at + 2 <= hi <= dst.Length
    modifies dst
    ensures dst[at..hi] == [DigitChar(k / 10), DigitChar(k % 10)] + old(dst[at + 2..hi])
    ensures dst[..at] == old(dst[..at]) && dst[hi..] == old(dst[hi..])
  {
    var i := k * 2;
    PairTable(k);
    dst[at + 1] := DIGITS[i + 1];
    dst[at] := DIGITS[i];
  }

  /** The last pair of digits of value, in front of those already there. */
  method NextPair(dst: array<char>, ghost lo: nat, next: nat, ghost hi: nat, value: nat) returns (rest: nat)
    requires value >= 100 && lo <= next < hi <= dst.Length && next + 1 == lo + |Digits(value)|
    modifies dst
    ensures rest < value && lo <= next - 2 && next - 1 == lo + |Digits(rest)|
    ensures Digits(rest) + dst[next - 1..hi] == Digits(value) + old(dst[next + 1..hi])
    ensures dst[..lo] == old(dst[..lo]) && dst[hi..] == old(dst[hi..])
  {
    rest := value / 100;
    var pair := value % 100;
    TwoBefore(value, rest, pair, dst[next + 1..hi]);
    ghost var before := dst[..next - 1];
    PutPair(dst, next - 1, pair, hi);
    assert before[..lo] == dst[..lo];
  }

  lemma TwoBefore(v: nat, q: nat, r: nat, tail: string)
    requires v >= 100 && q == v / 100 && r == v % 100
    ensures |Digits(v)| == |Digits(q)| + 2
    ensures Digits(q) + ([DigitChar(r / 10), DigitChar(r % 10)] + tail) == Digits(v) + tail
  {
    TwoDigits(v, q, r);
    Assoc(Digits(q), [DigitChar(r / 10), DigitChar(r % 10)], tail);
  }

  /** The digits of value, from the right, in dst[lo..hi). */
  method WriteDigits(dst: array<char>, lo: nat, hi: nat, v: nat)
    requires lo < hi < dst.Length && hi == lo + |Digits(v)|
    modifies dst
    ensures dst[lo..hi] == Digits(v)
    ensures dst[..lo] == old(dst[..lo]) && dst[hi..] == old(dst[hi..])
  {
    var value, next := v, hi - 1;
    while value >= 100
      invariant lo <= next < hi && next + 1 == lo + |Digits(value)|
      invariant Digits(v) == Digits(value) + dst[next + 1..hi]
      invariant dst[..lo] == old(dst[..lo]) && dst[hi..] == old(dst[hi..])
    {
      value := NextPair(dst, lo, next, hi, value);
      next := next - 2;
    }
    WriteLast(dst, lo, next, hi, value);
  }

  /** The last one or two digits. */
  method WriteLast(dst: array<char>, lo: nat, next: nat, ghost hi: nat, value: nat)
    requires value < 100 && lo <= next < hi <= dst.Length && next + 1 == lo + |Digits(value)|
    modifies dst
    ensures dst[lo..hi] == Digits(value) + old(dst[next + 1..hi])
    ensures dst[..lo] == old(dst[..lo]) && dst[hi..] == old(dst[hi..])
  {
    if value < 10 {
      dst[next] := '0' + value as char;
    } else {
      assert Digits(value) == [DigitChar(value / 10), DigitChar(value % 10)];
      PutPair(dst, next - 1, value, hi);
    }
  }

  // ---------- myatoi ----------

  /** The digits at the front of s. */
  function DigitRun(s: string): (r: string)
    ensures r <= s && AllDigits(r)
    ensures |r| < |s| ==> !IsDigit(s[|r|])
  {
    if s == [] || !IsDigit(s[0]) then [] else [s[0]] + DigitRun(s[1..])
  }

  predicate Signed(s: string) {
    s != [] && (s[0] == '+' || s[0] == '-')
  }

  function Unsigned(s: string): string {
    if Signed(s) then s[1..] else s
  }

  /** The digits read from a text: behind the sign, up to the first other character. */
  function Body(s: string): (r: string)
    ensures AllDigits(r)
  {
    DigitRun(Unsigned(s))
  }

  /** The number at the front of a text; nothing readable counts as zero. */
  ghost function Atoi(s: string): int {
    var n: int := Denote(Body(s));
    if s != [] && s[0] == '-' then -n else n
  }

  /** What myatoi demands: its digit array holds 64 digits, its result is an int. */
  ghost predicate Fits(s: string) {
    |Body(s)| <= 64 && Denote(Body(s)) <= INT_MAX
  }

  /** The characters myatoi may look at: len of them, or up to a terminator. */
  ghost predicate Spans(mem: string, len: nat) {
    mem != [] && (len <= |mem| || '\0' in mem)
  }

  function Window(mem: string, len: nat): string {
    mem[..if len <= |mem| then len else |mem|]
  }

  /** myatoi: the number at the front of the first len characters. */
  method Myatoi(str: array?<char>, len: nat) returns (r: int)
    requires str != null ==> Spans(str[..], len) && Fits(Window(str[..], len))
    ensures r == if str == null then 0 else Atoi(Window(str[..], len))
    ensures -INT_MAX <= r <= INT_MAX
  {
    if !(str != null && str[0] != '\0' && len > 0) {
      return 0;
    }
    ghost var w := Window(str[..], len);
    var f, start := false, 0;
    if str[0] == '+' || str[0] == '-' {
      if str[0] == '-' {
        f := true;
      }
      start := 1;
    }
    ghost var body := Unsigned(w);
    assert body == w[start..];
    var ints := new int[64];
    WindowRun(str[..], len, start, body);
    var i := ReadDigits(str, start, len, ints, DigitRun(body));
    r := SumDigits(ints, i, DigitRun(body));
    r := if f then -r else r;
  }

  /** Every digit times its power of ten; no partial sum is larger than the result. */
  method SumDigits(ints: array<int>, i: nat, ghost run: string) returns (r: int)
    requires AllDigits(run) && i == |run| <= ints.Length && Denote(run) <= INT_MAX
    requires forall k :: 0 <= k < i ==> ints[k] == Digit(run[k])
    ensures r == Denote(run)
  {
    r := 0;
    var j := 0;
    while j < i
      invariant j <= i && r == Denote(run[..j]) * Pow10(i - j) && r <= INT_MAX
    {
      Accumulate(run, j);
      r := r + ints[j] * Pow10(i - j - 1);
      j := j + 1;
      assert run == run[..j] + run[j..];
      DenoteConcat(run[..j], run[j..]);
    }
    assert run[..i] == run;
  }

  /** The next digit at its weight. */
  lemma Accumulate(run: string, j: nat)
    requires AllDigits(run) && j < |run|
    ensures Denote(run[..j]) * Pow10(|run| - j) + Digit(run[j]) * Pow10(|run| - j - 1)
         == Denote(run[..j + 1]) * Pow10(|run| - j - 1)
  {
    assert run[..j + 1][..j] == run[..j];
    var a, d, p := Denote(run[..j]), Digit(run[j]), Pow10(|run| - j - 1);
    assert Denote(run[..j + 1]) == 10 * a + d;
    assert Pow10(|run| - j) == 10 * p;
    Weigh(a, d, p);
  }

  /** run are the digits from start on, and behind them len is reached or another
      character stands. */
  ghost predicate RunAt(mem: string, len: nat, start: nat, run: string) {
    && start + |run| <= len && start + |run| <= |mem|
    && (forall k :: 0 <= k < |run| ==> mem[start + k] == run[k] && IsDigit(run[k]))
    && (start + |run| < len ==> start + |run| < |mem| && !IsDigit(mem[start + |run|]))
  }

  lemma WindowRun(mem: string, len: nat, start: nat, body: string)
    requires Spans(mem, len) && start <= len && start <= |mem|
    requires '\0' !in mem[..start] && body == Window(mem, len)[start..]
    ensures RunAt(mem, len, start, DigitRun(body))
  {
    var run := DigitRun(body);
    var p := start + |run|;
    forall k | 0 <= k < |run|
      ensures mem[start + k] == run[k] && IsDigit(run[k])
    {
      assert run[k] == body[k];
    }
    if p < |mem| && p < len {
      assert body[|run|] == mem[p];
    } else if p < len {
      Terminated(mem, start, run);
    }
  }

  /** There is a terminator, so the digits do not go on to the end. */
  lemma Terminated(mem: string, start: nat, run: string)
    requires start + |run| <= |mem| && '\0' in mem && '\0' !in mem[..start]
    requires forall k :: 0 <= k < |run| ==> mem[start + k] == run[k] && IsDigit(run[k])
    ensures start + |run| < |mem|
  {
    forall k | 0 <= k < start + |run|
      ensures mem[k] != '\0'
    {
      if k < start {
        assert mem[..start][k] == mem[k];
      } else {
        assert mem[start + (k - start)] == run[k - start];
      }
    }
  }

  /** The digits into the array, up to len or the first other character. */
  method ReadDigits(str: array<char>, start: nat, len: nat, ints: array<int>, ghost run: string)
    returns (i: nat)
    requires RunAt(str[..], len, start, run) && |run| <= ints.Length
    modifies ints
    ensures i == |run| && forall k :: 0 <= k < i ==> ints[k] == Digit(run[k])
  {
    i := 0;
    var p := start;
    ghost var mem := str[..];
    while p != len
      invariant start <= p <= len && i == p - start <= |run|
      invariant forall k :: 0 <= k < i ==> ints[k] == Digit(run[k])
      decreases len - p
    {
      assert i < |run| ==> mem[start + i] == run[i];
      if !('0' <= str[p] <= '9') {
        break;
      }
      ints[i] := str[p] as int - '0' as int;
      i := i + 1;
      p := p + 1;
    }
  }

  // ---------- round trip ----------

  /** A sign counts if it is a minus, and leading zeros do not. */
  lemma SignsAndZeros(t: string)
    requires t != "" && IsDigit(t[0])
    ensures Atoi("+" + t) == Atoi(t) && Atoi("0" + t) == Atoi(t) && Atoi("-" + t) == -Atoi(t)
  {
    SignBehind("+" + t, t);
    SignBehind("-" + t, t);
    ZeroBehind("0" + t, t);
    ZeroInFront(DigitRun(t));
  }

  /** Texts and numbers, for example. */
  lemma TextExample()
    ensures Text(-120) == "-120" && Atoi("-120") == -120 && Text(0) == "0"
  {
    assert Digits(1) == "1" && Digits(12) == "1" + "2" && Digits(120) == Digits(12) + "0";
    assert "-" + Digits(120) == "-120";
    RoundTrip(-120, "");
    assert Text(-120) + "" == Text(-120);
  }

  lemma SignBehind(s: string, t: string)
    requires s == "+" + t || s == "-" + t
    ensures Unsigned(s) == t
  {
    assert s[1..] == t;
  }

  lemma ZeroBehind(s: string, t: string)
    requires s == "0" + t
    ensures Unsigned(s) == s && DigitRun(s) == "0" + DigitRun(t)
  {
    assert s[1..] == t && s[0] == '0' && [s[0]] == "0";
  }

  lemma ZeroInFront(digits: string)
    requires AllDigits(digits)
    ensures Denote("0" + digits) == Denote(digits)
  {
    assert "0"[..0] == [];
    assert Denote("0") == 0;
    DenoteConcat("0", digits);
  }

  /** What follows a text does not extend its digits. */
  predicate Stops(rest: string) {
    rest == [] || !IsDigit(rest[0])
  }

  lemma {:induction false} RunOf(digits: string, rest: string)
    requires AllDigits(digits) && Stops(rest)
    ensures DigitRun(digits + rest) == digits
  {
    if digits == [] {
      assert digits + rest == rest;
    } else {
      assert (digits + rest)[1..] == digits[1..] + rest;
      RunOf(digits[1..], rest);
    }
  }

  /** Reading the text of any number gives the number back, whatever follows it. */
  lemma RoundTrip(v: int, rest: string)
    requires Stops(rest)
    ensures Atoi(Text(v) + rest) == v
    ensures -INT_MAX <= v <= INT_MAX ==> Fits(Text(v) + rest)
  {
    var m := if v < 0 then -v else v;
    DigitsMean(m);
    BodyOf(v, m, rest);
    if m <= INT_MAX {
      TenDigits(m);
    }
  }

  lemma BodyOf(v: int, m: nat, rest: string)
    requires m == (if v < 0 then -v else v) && Stops(rest) && AllDigits(Digits(m))
    ensures Body(Text(v) + rest) == Digits(m)
    ensures (Text(v) + rest)[0] == '-' <==> v < 0
  {
    RunOf(Digits(m), rest);
    var digits := Digits(m) + rest;
    assert digits[0] == Digits(m)[0];
    if v < 0 {
      Assoc("-", Digits(m), rest);
      assert ("-" + digits)[1..] == digits;
    }
  }

  lemma TenDigits(m: nat)
    requires m <= INT_MAX
    ensures |Digits(m)| <= 10
  {
    DigitsLength(m);
    var d := |Digits(m)|;
    Powers();
    if d > 10 {
      Pow10Grows(10, d - 1);
      assert false;
    }
  }

  /** ll2string, then myatoi on what it wrote, with the length it returned or any larger
      one: the value, whenever its magnitude is below 2^31. */
  method PrintThenRead(dst: array<char>, svalue: int, len: nat) returns (r: int)
    requires -INT_MAX <= svalue <= INT_MAX
    requires dst.Length > |Text(svalue)| && |Text(svalue)| <= len
    modifies dst
    ensures r == svalue
  {
    var n := Ll2string(dst, dst.Length, svalue);
    ghost var w := Window(dst[..], len);
    assert w == Text(svalue) + w[n..] && Stops(w[n..]);
    assert dst[n] in dst[..];
    RoundTrip(svalue, w[n..]);
    r := Myatoi(dst, len);
  }
}
