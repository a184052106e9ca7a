/** The input side: hp_rd_read (src/hp_io.c) filling a buffer that doubles when full,
    and hp_io_t_on_data (src/hp_io_t.cpp) parsing and dispatching from it, joined to
    the PMMSG parser. */
module Reader {
  import opened Common
  import opened Framing
  import opened WireFormat

  /** What one read(2) gave: some bytes, "try later", or end of file / an error. */
  datatype Event = Data(bytes: seq<Byte>) | Again | Closed(err: int)

  const EIO := 5

  // ---------- hp_io_t_on_data ----------

  lemma {:induction false} PackModes(b: seq<Byte>, noskip: bool)
    ensures Pack(b, noskip).0.Mismatch? ==> noskip
    decreases |b|
  {
    if |b| >= HEADER_LEN && !MagicAt(b, 0) && !noskip {
      PackModes(b[SkipFrom(b, 1)..], noskip);
    }
  }

  /** The buffer after the data callback, the messages it dispatched, and its result.
      With a dispatch callback (`rc` gives what it returns for a message) the loop is
      left after the first message; without one, messages are parsed and forgotten. */
  datatype DataResult = DataResult(left: seq<Byte>, dispatched: seq<Msg>, rc: int)

  function OnData(buf: seq<Byte>, hasDispatch: bool, noskip: bool, rc: Msg -> int): (r: DataResult)
    ensures |r.left| <= |buf| && |r.dispatched| <= 1
    decreases |buf|
  {
    if buf == [] then DataResult([], [], 0)
    else
      var (o, rest) := Pack(buf, noskip);
      match o
      case Mismatch => DataResult([], [], -1)
      case Got(m) =>
        if hasDispatch then DataResult(rest, [m], rc(m)) else OnData(rest, hasDispatch, noskip, rc)
      case _ => DataResult(rest, [], 0)
  }

  /** The result is that of the dispatch callback if there was a message for it, and
      otherwise 0, or -1 with an emptied buffer if the parser reports a mismatch. */
  lemma {:induction false} OnDataAnswers(buf: seq<Byte>, hasDispatch: bool, noskip: bool, rc: Msg -> int)
    ensures var d := OnData(buf, hasDispatch, noskip, rc);
            && (d.dispatched != [] ==> hasDispatch && d.rc == rc(d.dispatched[0]))
            && (d.dispatched == [] ==> d.rc == 0 || (d.rc == -1 && noskip && d.left == []))
    decreases |buf|
  {
    PackModes(buf, noskip);
    if buf != [] && Pack(buf, noskip).0.Got? && !hasDispatch {
      OnDataAnswers(Pack(buf, noskip).1, hasDispatch, noskip, rc);
    }
  }

  // ---------- hp_rd_read ----------

  /** Where a pass of hp_rd_read ends: buffer, messages dispatched, bytes read, rd->err. */
  datatype PassResult = PassResult(left: seq<Byte>, dispatched: seq<Msg>, nread: nat, err: int)

  /** End of file leaves errno alone; hp_rd_read reports EIO if it was 0. */
  function CloseErr(errno: int): (err: int)
    ensures err != 0
    ensures errno != 0 ==> err == errno
    ensures errno == 0 ==> err == EIO
  {
    if errno == 0 then EIO else errno
  }

  /** A pass that starts with `buf` buffered and sees `trace` from the descriptor. */
  function Pass(buf: seq<Byte>, trace: seq<Event>, err: int, rc: Msg -> int): PassResult
    decreases |trace|
  {
    var d := OnData(buf, true, false, rc);
    if d.rc < 0 then PassResult(d.left, d.dispatched, 0, d.rc)
    else if trace == [] || trace[0].Again? then PassResult(d.left, d.dispatched, 0, err)
    else if trace[0].Closed? then
      var last := OnData(d.left, true, false, rc);
      PassResult(last.left, d.dispatched + last.dispatched, 0, CloseErr(trace[0].err))
    else
      var rest := Pass(d.left + trace[0].bytes, trace[1..], err, rc);
      PassResult(rest.left, d.dispatched + rest.dispatched, |trace[0].bytes| + rest.nread, rest.err)
  }

  /** The callback hands over exactly the first message in the buffer; a mismatch is for
      bytes that are not a message where none may be skipped. */
  lemma OnDataFinds(buf: seq<Byte>, noskip: bool, rc: Msg -> int, m: Msg, left: seq<Byte>)
    ensures OnData(buf, true, noskip, rc) == DataResult(left, [m], rc(m)) <==>
            if noskip then LiesAt(buf, 0, m, left) else exists p: nat :: LiesFirst(buf, p, m, left)
    ensures OnData(buf, true, noskip, rc) == DataResult([], [], -1) <==> noskip && |buf| >= 20 && !WordAt(buf, 0)
  {
    PackModes(buf, noskip);
    if noskip {
      NoskipFinds(buf, m, left);
      NoskipFinds(buf, m, if buf == [] then [] else buf[1..]);
    } else {
      PackFinds(buf, m, left);
    }
  }

  /** Without a dispatch callback all messages are parsed and forgotten. */
  lemma {:induction false} WithoutDispatch(buf: seq<Byte>, rc: Msg -> int)
    ensures OnData(buf, false, false, rc) == DataResult(Drain(buf, false).1, [], 0)
    decreases |buf|
  {
    PackModes(buf, false);
    if buf != [] && Pack(buf, false).0.Got? {
      WithoutDispatch(Pack(buf, false).1, rc);
    }
  }

  lemma OnDataSound(buf: seq<Byte>, rc: Msg -> int, x: seq<Byte>)
    ensures var d := OnData(buf, true, false, rc); Messages(buf + x) == d.dispatched + Messages(d.left + x)
  {
    PackSound(buf, false, x);
    PackModes(buf, false);
  }

  /** Bytes a pass consumed from the trace before it stopped. */
  function Consumed(buf: seq<Byte>, trace: seq<Event>, rc: Msg -> int): seq<Byte>
    decreases |trace|
  {
    var d := OnData(buf, true, false, rc);
    if d.rc < 0 || trace == [] || !trace[0].Data? then []
    else trace[0].bytes + Consumed(d.left + trace[0].bytes, trace[1..], rc)
  }

  /** A pass loses nothing: buffered and newly read bytes are accounted for by the
      messages dispatched and by what is left in the buffer, for every continuation. */
  lemma {:induction false} PassSound(buf: seq<Byte>, trace: seq<Event>, err: int, rc: Msg -> int, x: seq<Byte>)
    ensures var p := Pass(buf, trace, err, rc);
            Messages(buf + Consumed(buf, trace, rc) + x) == p.dispatched + Messages(p.left + x)
    decreases |trace|
  {
    var d := OnData(buf, true, false, rc);
    if d.rc < 0 || trace == [] || trace[0].Again? {
      assert buf + [] == buf;
      OnDataSound(buf, rc, x);
    } else if trace[0].Closed? {
      assert buf + [] == buf;
      OnDataSound(buf, rc, x);
      OnDataSound(d.left, rc, x);
      Assoc(d.dispatched, OnData(d.left, true, false, rc).dispatched, Messages(Pass(buf, trace, err, rc).left + x));
    } else {
      var more := Consumed(d.left + trace[0].bytes, trace[1..], rc);
      PassSound(d.left + trace[0].bytes, trace[1..], err, rc, x);
      OnDataSound(buf, rc, trace[0].bytes + more + x);
      Regroup(buf, trace[0].bytes, more, x);
      Regroup(d.left, trace[0].bytes, more, x);
      var rest := Pass(d.left + trace[0].bytes, trace[1..], err, rc);
      Assoc(d.dispatched, rest.dispatched, Messages(rest.left + x));
    }
  }

  lemma Regroup(a: seq<Byte>, b: seq<Byte>, c: seq<Byte>, x: seq<Byte>)
    ensures a + (b + c) + x == a + (b + c + x) == a + b + c + x
  {}

  // ---------- how a pass ends ----------

  /** The bytes of the first k replies, which are all reads that gave some. */
  ghost predicate GiveBytes(trace: seq<Event>, k: nat, n: nat)
    requires k <= |trace|
    decreases k
  {
    if k == 0 then n == 0
    else trace[0].Data? && n >= |trace[0].bytes| && GiveBytes(trace[1..], k - 1, n - |trace[0].bytes|)
  }

  /** The error a reply other than bytes leaves in rd->err. */
  ghost predicate EndsWith(trace: seq<Event>, k: nat, err0: int, err: int)
    requires k <= |trace|
  {
    if k == |trace| || trace[k].Again? then err == err0
    else trace[k].Closed? && err == if trace[k].err == 0 then EIO else trace[k].err
  }

  /** A pass in which no dispatch fails reads up to the first reply that gives no bytes:
      the byte count is that of the reads before it; "try later" leaves rd->err alone,
      and the end of file or an error is recorded, as EIO if errno is 0. */
  lemma {:induction false} PassEnds(buf: seq<Byte>, trace: seq<Event>, err: int, rc: Msg -> int)
    requires forall m :: rc(m) >= 0
    ensures var p := Pass(buf, trace, err, rc);
            exists k: nat :: EndsAt(trace, k, p.nread, err, p.err)
    decreases |trace|
  {
    var p := Pass(buf, trace, err, rc);
    OnDataAnswers(buf, true, false, rc);
    if trace == [] || !trace[0].Data? {
      EndsNow(buf, trace, err, rc);
    } else {
      var rest := Pass(OnData(buf, true, false, rc).left + trace[0].bytes, trace[1..], err, rc);
      PassAfter(buf, trace, err, rc);
      PassEnds(OnData(buf, true, false, rc).left + trace[0].bytes, trace[1..], err, rc);
      var k: nat :| EndsAt(trace[1..], k, rest.nread, err, rest.err);
      EndsLater(trace, k, rest.nread, err, rest.err, p.nread);
    }
  }

  /** k reads gave n bytes, and reply k left this error. */
  ghost predicate EndsAt(trace: seq<Event>, k: nat, n: nat, err0: int, err: int) {
    k <= |trace| && GiveBytes(trace, k, n) && EndsWith(trace, k, err0, err)
  }

  lemma EndsNow(buf: seq<Byte>, trace: seq<Event>, err: int, rc: Msg -> int)
    requires OnData(buf, true, false, rc).rc >= 0 && (trace == [] || !trace[0].Data?)
    ensures var p := Pass(buf, trace, err, rc); EndsAt(trace, 0, p.nread, err, p.err)
  {}

  lemma PassAfter(buf: seq<Byte>, trace: seq<Event>, err: int, rc: Msg -> int)
    requires OnData(buf, true, false, rc).rc >= 0 && trace != [] && trace[0].Data?
    ensures var p := Pass(buf, trace, err, rc);
            var rest := Pass(OnData(buf, true, false, rc).left + trace[0].bytes, trace[1..], err, rc);
            p.nread == |trace[0].bytes| + rest.nread && p.err == rest.err
  {}

  lemma EndsLater(trace: seq<Event>, k: nat, n: nat, err0: int, err: int, total: nat)
    requires trace != [] && trace[0].Data? && EndsAt(trace[1..], k, n, err0, err) && total == |trace[0].bytes| + n
    ensures EndsAt(trace, k + 1, total, err0, err)
  {}

  /** A dispatch that fails ends the pass with its result as the error. */
  lemma FailedDispatch(buf: seq<Byte>, trace: seq<Event>, err: int, rc: Msg -> int)
    requires var d := OnData(buf, true, false, rc); d.dispatched != [] && rc(d.dispatched[0]) < 0
    ensures var d := OnData(buf, true, false, rc);
            Pass(buf, trace, err, rc) == PassResult(d.left, d.dispatched, 0, rc(d.dispatched[0]))
  {}

  // ---------- how much a pass dispatches ----------

  function EncodeAll(ms: seq<Msg>): seq<Byte> {
    if ms == [] then [] else Encode(ms[0]) + EncodeAll(ms[1..])
  }

  ghost predicate AllSendable(ms: seq<Msg>) {
    forall i :: 0 <= i < |ms| ==> Sendable(ms[i])
  }

  /** At most one message per read, one before the first, and one more at the end. */
  lemma {:induction false} DispatchBound(buf: seq<Byte>, trace: seq<Event>, err: int, rc: Msg -> int)
    ensures |Pass(buf, trace, err, rc).dispatched| <= |trace| + 1
    decreases |trace|
  {
    var d := OnData(buf, true, false, rc);
    if d.rc >= 0 && trace != [] && trace[0].Data? {
      DispatchBound(d.left + trace[0].bytes, trace[1..], err, rc);
    }
  }

  lemma OnDataEncoded(ms: seq<Msg>, rc: Msg -> int)
    requires AllSendable(ms)
    ensures OnData(EncodeAll(ms), true, false, rc) ==
            if ms == [] then DataResult([], [], 0) else DataResult(EncodeAll(ms[1..]), [ms[0]], rc(ms[0]))
  {
    if ms != [] {
      EncodedFront(ms[0], EncodeAll(ms[1..]));
    }
  }

  lemma {:induction false} EncodeAllAppend(a: seq<Msg>, b: seq<Msg>)
    ensures EncodeAll(a + b) == EncodeAll(a) + EncodeAll(b)
  {
    if a == [] {
      assert a + b == b;
    } else {
      EncodeAllAppend(a[1..], b);
      assert (a + b)[1..] == a[1..] + b;
      Assoc(Encode(a[0]), EncodeAll(a[1..]), EncodeAll(b));
    }
  }

  // How many messages a pass gets through. The callback dispatches one message per call,
  // and is called before every read and, when the descriptor is closed, once more.

  /** Reads that bring these bytes, then the last reply of the kernel. */
  function Reads(cs: seq<seq<Byte>>, last: Event): seq<Event> {
    if cs == [] then [last] else [Data(cs[0])] + Reads(cs[1..], last)
  }

  /** How many bytes the first i reads bring. */
  function Received(cs: seq<seq<Byte>>, i: nat): nat
    requires i <= |cs|
  {
    if i == 0 then 0 else |cs[0]| + Received(cs[1..], i - 1)
  }

  /** How many messages are complete in the first n bytes. */
  function Whole(ms: seq<Msg>, n: int): nat {
    if ms == [] || n < |Encode(ms[0])| then 0 else 1 + Whole(ms[1..], n - |Encode(ms[0])|)
  }

  /** Messages that were complete before read i, and so at the call before it; none was
      before the first call, which finds `got` bytes. */
  function Before(ms: seq<Msg>, got: nat, cs: seq<seq<Byte>>, i: nat): nat
    requires i <= |cs|
  {
    if i == 0 then 0 else Whole(ms, got + Received(cs, i - 1))
  }

  /** Calls of the callback after the last read. */
  function LastCalls(last: Event): nat {
    if last.Closed? then 2 else 1
  }

  ghost predicate InTime(ms: seq<Msg>, got: nat, cs: seq<seq<Byte>>, calls: nat, i: nat)
    requires i <= |cs|
  {
    |ms| - Before(ms, got, cs, i) <= |cs| - i + calls
  }

  /** For whatever was not yet complete at any call there are enough calls behind it. */
  ghost predicate Enough(ms: seq<Msg>, got: nat, cs: seq<seq<Byte>>, calls: nat) {
    forall i :: 0 <= i <= |cs| ==> InTime(ms, got, cs, calls, i)
  }

  lemma PackClean(buf: seq<Byte>, x: seq<Byte>, ms: seq<Msg>)
    requires AllSendable(ms) && ms != [] && buf + x == EncodeAll(ms) && |buf| >= HEADER_LEN
    ensures var n := HEADER_LEN + |ms[0].body|;
            Pack(buf, false) == if n <= |buf| then (Got(ms[0]), buf[n..]) else (NeedMore, buf)
  {
    EncodedFront(ms[0], EncodeAll(ms[1..]));
    SameHeader(buf, x);
    var n := HEADER_LEN + |ms[0].body|;
    if n <= |buf| {
      assert (buf + x)[HEADER_LEN..n] == buf[HEADER_LEN..n];
    }
  }

  /** The callback takes the first of these messages if it is complete. */
  ghost predicate Takes(d: DataResult, buf: seq<Byte>, ms: seq<Msg>) {
    if Whole(ms, |buf|) == 0 then d.left == buf && d.dispatched == []
    else d.left == buf[|Encode(ms[0])|..] && d.dispatched == [ms[0]]
  }

  /** The callback on what has arrived of these messages. */
  lemma OnDataPart(buf: seq<Byte>, x: seq<Byte>, ms: seq<Msg>, rc: Msg -> int)
    requires AllSendable(ms) && buf + x == EncodeAll(ms) && forall m :: rc(m) >= 0
    ensures var d := OnData(buf, true, false, rc); d.rc >= 0 && Takes(d, buf, ms)
  {
    if ms != [] && |buf| >= HEADER_LEN {
      PackClean(buf, x, ms);
    }
  }

  /** What a call leaves of the messages and of the bytes it found. */
  ghost predicate CallLeaves(ms: seq<Msg>, got: nat, rest: seq<Msg>, left: nat) {
    if Whole(ms, got) == 0 then rest == ms && left == got
    else rest == ms[1..] && left == got - |Encode(ms[0])|
  }

  lemma InTimeLater(ms: seq<Msg>, rest: seq<Msg>, got: nat, left: nat, cs: seq<seq<Byte>>, calls: nat, i: nat)
    requires cs != [] && CallLeaves(ms, got, rest, left) && 1 <= i < |cs|
    ensures InTime(ms, got, cs, calls, i + 1) <==> InTime(rest, left + |cs[0]|, cs[1..], calls, i)
  {
    assert Received(cs, i) == |cs[0]| + Received(cs[1..], i - 1);
    WholeLater(ms, rest, got, left, |cs[0]| + Received(cs[1..], i - 1));
  }

  lemma WholeLater(ms: seq<Msg>, rest: seq<Msg>, got: nat, left: nat, more: nat)
    requires CallLeaves(ms, got, rest, left)
    ensures |ms| - Whole(ms, got + more) == |rest| - Whole(rest, left + more)
  {}

  lemma InTimeFirst(ms: seq<Msg>, rest: seq<Msg>, got: nat, left: nat, cs: seq<seq<Byte>>, calls: nat)
    requires cs != [] && CallLeaves(ms, got, rest, left)
    ensures InTime(rest, left + |cs[0]|, cs[1..], calls, 0)
       <==> InTime(ms, got, cs, calls, 0) && InTime(ms, got, cs, calls, 1)
  {
    assert Received(cs, 0) == 0;
  }

  lemma EnoughNext(ms: seq<Msg>, rest: seq<Msg>, got: nat, left: nat, cs: seq<seq<Byte>>, calls: nat)
    requires cs != [] && CallLeaves(ms, got, rest, left)
    ensures Enough(ms, got, cs, calls) <==> Enough(rest, left + |cs[0]|, cs[1..], calls)
  {
    var found := left + |cs[0]|;
    InTimeFirst(ms, rest, got, left, cs, calls);
    if Enough(ms, got, cs, calls) {
      forall i | 0 <= i <= |cs[1..]|
        ensures InTime(rest, found, cs[1..], calls, i)
      {
        if i > 0 {
          InTimeLater(ms, rest, got, left, cs, calls, i);
          assert InTime(ms, got, cs, calls, i + 1);
        }
      }
    }
    if Enough(rest, found, cs[1..], calls) {
      forall i | 0 <= i <= |cs|
        ensures InTime(ms, got, cs, calls, i)
      {
        assert InTime(rest, found, cs[1..], calls, 0);
        if i > 1 {
          InTimeLater(ms, rest, got, left, cs, calls, i - 1);
          assert InTime(rest, found, cs[1..], calls, i - 1);
        }
      }
    }
  }

  /** What a pass dispatches: an initial part of the messages, the rest staying in the
      buffer; and all of them if and only if there are enough calls. */
  ghost predicate ReadsGive(p: PassResult, ms: seq<Msg>, got: nat, cs: seq<seq<Byte>>, calls: nat) {
    && p.dispatched <= ms
    && p.left == EncodeAll(ms[|p.dispatched|..])
    && (p.dispatched == ms <==> Enough(ms, got, cs, calls))
  }

  /** For every buffer and all reads, however they split the messages. */
  lemma {:induction false} AnyReads(buf: seq<Byte>, cs: seq<seq<Byte>>, last: Event, ms: seq<Msg>, err: int,
                                    rc: Msg -> int)
    requires AllSendable(ms) && buf + Flatten(cs) == EncodeAll(ms)
    requires !last.Data? && forall m :: rc(m) >= 0
    ensures ReadsGive(Pass(buf, Reads(cs, last), err, rc), ms, |buf|, cs, LastCalls(last))
    decreases |cs|
  {
    if cs == [] {
      assert buf + [] == buf;
      LastRead(ms, last, err, rc);
    } else {
      var d := OnData(buf, true, false, rc);
      var rest := if |d.dispatched| <= |ms| then ms[|d.dispatched|..] else [];
      FirstCall(buf, cs, ms, rc, d, rest);
      AnyReads(d.left + cs[0], cs[1..], last, rest, err, rc);
      ReadsNext(buf, cs, last, ms, err, rc, d, Pass(d.left + cs[0], Reads(cs[1..], last), err, rc));
    }
  }

  lemma FirstCall(buf: seq<Byte>, cs: seq<seq<Byte>>, ms: seq<Msg>, rc: Msg -> int, d: DataResult, rest: seq<Msg>)
    requires AllSendable(ms) && cs != [] && buf + Flatten(cs) == EncodeAll(ms) && (forall m :: rc(m) >= 0)
    requires d == OnData(buf, true, false, rc) && (|d.dispatched| <= |ms| ==> rest == ms[|d.dispatched|..])
    ensures d.dispatched <= ms && AllSendable(rest) && d.rc >= 0
    ensures CallLeaves(ms, |buf|, rest, |d.left|)
    ensures (d.left + cs[0]) + Flatten(cs[1..]) == EncodeAll(rest)
  {
    OnDataPart(buf, Flatten(cs), ms, rc);
    OneCall(buf, cs, ms, d);
  }

  /** One call of the callback, and the read behind it. */
  lemma OneCall(buf: seq<Byte>, cs: seq<seq<Byte>>, ms: seq<Msg>, d: DataResult)
    requires AllSendable(ms) && cs != [] && buf + Flatten(cs) == EncodeAll(ms) && Takes(d, buf, ms)
    ensures d.dispatched <= ms && AllSendable(ms[|d.dispatched|..])
    ensures CallLeaves(ms, |buf|, ms[|d.dispatched|..], |d.left|)
    ensures (d.left + cs[0]) + Flatten(cs[1..]) == EncodeAll(ms[|d.dispatched|..])
  {
    NextRead(buf, cs, ms, d.left, ms[|d.dispatched|..]);
  }

  lemma ReadsNext(buf: seq<Byte>, cs: seq<seq<Byte>>, last: Event, ms: seq<Msg>, err: int, rc: Msg -> int,
                  d: DataResult, p: PassResult)
    requires cs != [] && d == OnData(buf, true, false, rc) && d.rc >= 0
    requires d.dispatched <= ms && CallLeaves(ms, |buf|, ms[|d.dispatched|..], |d.left|)
    requires p == Pass(d.left + cs[0], Reads(cs[1..], last), err, rc)
    requires ReadsGive(p, ms[|d.dispatched|..], |d.left| + |cs[0]|, cs[1..], LastCalls(last))
    ensures ReadsGive(Pass(buf, Reads(cs, last), err, rc), ms, |buf|, cs, LastCalls(last))
  {
    var all := Pass(buf, Reads(cs, last), err, rc);
    PassNext(buf, cs, last, err, rc);
    ReadsGiveNext(ms, d.dispatched, p, all, |buf|, |d.left|, cs, LastCalls(last));
  }

  /** Taking a message off the front leaves the others in transit. */
  lemma NextRead(buf: seq<Byte>, cs: seq<seq<Byte>>, ms: seq<Msg>, left: seq<Byte>, rest: seq<Msg>)
    requires cs != [] && buf + Flatten(cs) == EncodeAll(ms) && CallLeaves(ms, |buf|, rest, |left|)
    requires left == buf[|buf| - |left|..]
    ensures (left + cs[0]) + Flatten(cs[1..]) == EncodeAll(rest)
  {
    if Whole(ms, |buf|) != 0 {
      DropFirst(Encode(ms[0]), EncodeAll(ms[1..]), buf, Flatten(cs));
    }
    Assoc(left, cs[0], Flatten(cs[1..]));
  }

  lemma DropFirst(first: seq<Byte>, rest: seq<Byte>, buf: seq<Byte>, x: seq<Byte>)
    requires buf + x == first + rest && |first| <= |buf|
    ensures buf[|first|..] + x == rest
  {
    assert buf[|first|..] + x == (buf + x)[|first|..];
    assert (first + rest)[|first|..] == rest;
  }

  lemma PassNext(buf: seq<Byte>, cs: seq<seq<Byte>>, last: Event, err: int, rc: Msg -> int)
    requires cs != [] && OnData(buf, true, false, rc).rc >= 0
    ensures var d := OnData(buf, true, false, rc);
            var p := Pass(d.left + cs[0], Reads(cs[1..], last), err, rc);
            var all := Pass(buf, Reads(cs, last), err, rc);
            all.left == p.left && all.dispatched == d.dispatched + p.dispatched
  {
    assert Reads(cs, last)[1..] == Reads(cs[1..], last);
  }

  lemma ReadsGiveNext(ms: seq<Msg>, first: seq<Msg>, p: PassResult, all: PassResult, got: nat, left: nat,
                      cs: seq<seq<Byte>>, calls: nat)
    requires cs != [] && first <= ms && ReadsGive(p, ms[|first|..], left + |cs[0]|, cs[1..], calls)
    requires CallLeaves(ms, got, ms[|first|..], left)
    requires all.left == p.left && all.dispatched == first + p.dispatched
    ensures ReadsGive(all, ms, got, cs, calls)
  {
    EnoughNext(ms, ms[|first|..], got, left, cs, calls);
    DispatchNext(ms, first, p.dispatched);
  }

  lemma DispatchNext(ms: seq<Msg>, first: seq<Msg>, more: seq<Msg>)
    requires first <= ms && more <= ms[|first|..]
    ensures first + more <= ms && ms[|first + more|..] == ms[|first|..][|more|..]
    ensures first + more == ms <==> more == ms[|first|..]
  {
    PrefixThen(first, more, ms);
    DropTwice(ms, |first|, |more|);
    assert first + ms[|first|..] == ms;
    assert more == ms[|first|..][..|more|];
  }

  lemma LastRead(ms: seq<Msg>, last: Event, err: int, rc: Msg -> int)
    requires AllSendable(ms) && !last.Data? && forall m :: rc(m) >= 0
    ensures ReadsGive(Pass(EncodeAll(ms), [last], err, rc), ms, |EncodeAll(ms)|, [], LastCalls(last))
  {
    LastPass(ms, last, err, rc);
    assert InTime(ms, |EncodeAll(ms)|, [], LastCalls(last), 0) <==> |ms| <= LastCalls(last);
  }

  /** The backlog after one call. */
  function Rest(q: seq<Msg>): seq<Msg> {
    if q == [] then [] else q[1..]
  }

  lemma LastPass(q: seq<Msg>, last: Event, err: int, rc: Msg -> int)
    requires AllSendable(q) && !last.Data? && forall m :: rc(m) >= 0
    ensures var n := if |q| < LastCalls(last) then |q| else LastCalls(last);
            var p := Pass(EncodeAll(q), [last], err, rc);
            p.dispatched == q[..n] && p.left == EncodeAll(q[n..])
  {
    OnDataEncoded(q, rc);
    OnDataEncoded(Rest(q), rc);
  }

  // Reads that each bring whole messages.

  function Encoded(bs: seq<seq<Msg>>): (cs: seq<seq<Byte>>)
    ensures |cs| == |bs|
  {
    if bs == [] then [] else [EncodeAll(bs[0])] + Encoded(bs[1..])
  }

  lemma {:induction false} EncodedFlat(bs: seq<seq<Msg>>)
    ensures Flatten(Encoded(bs)) == EncodeAll(Flatten(bs))
  {
    if bs != [] {
      EncodedFlat(bs[1..]);
      EncodeAllAppend(bs[0], Flatten(bs[1..]));
      assert Encoded(bs)[1..] == Encoded(bs[1..]);
    }
  }

  lemma {:induction false} EncodedReceived(bs: seq<seq<Msg>>, i: nat)
    requires i <= |bs|
    ensures Received(Encoded(bs), i) == |EncodeAll(Flatten(bs[..i]))|
  {
    if i > 0 {
      EncodedReceived(bs[1..], i - 1);
      assert Encoded(bs)[1..] == Encoded(bs[1..]);
      assert bs[..i][1..] == bs[1..][..i - 1];
      EncodeAllAppend(bs[0], Flatten(bs[1..][..i - 1]));
    }
  }

  lemma {:induction false} WholeEncoded(a: seq<Msg>, b: seq<Msg>)
    ensures Whole(a + b, |EncodeAll(a)|) == |a|
  {
    if a == [] {
      assert a + b == b;
    } else {
      WholeEncoded(a[1..], b);
      assert (a + b)[1..] == a[1..] + b;
    }
  }

  /** The backlog in the buffer and everything read behind it. */
  function All(q: seq<Msg>, bs: seq<seq<Msg>>): seq<Msg> {
    q + Flatten(bs)
  }

  /** There are enough calls for everything, and for the messages of the reads from i on
      enough calls behind read i. */
  ghost predicate KeepsUp(q: seq<Msg>, bs: seq<seq<Msg>>, calls: nat) {
    |All(q, bs)| <= |bs| + calls
    && forall i :: 0 <= i < |bs| ==> |Flatten(bs[i..])| <= |bs| - i - 1 + calls
  }

  lemma BeforeWhole(q: seq<Msg>, bs: seq<seq<Msg>>, i: nat)
    requires i < |bs|
    ensures |All(q, bs)| - Before(All(q, bs), |EncodeAll(q)|, Encoded(bs), i + 1) == |Flatten(bs[i..])|
  {
    var front, back := Flatten(bs[..i]), Flatten(bs[i..]);
    EncodedReceived(bs, i);
    EncodeAllAppend(q, front);
    WholeEncoded(q + front, back);
    AllSplit(q, bs, i, front, back);
  }

  lemma AllSplit(q: seq<Msg>, bs: seq<seq<Msg>>, i: nat, front: seq<Msg>, back: seq<Msg>)
    requires i < |bs| && front == Flatten(bs[..i]) && back == Flatten(bs[i..])
    ensures All(q, bs) == q + front + back
  {
    FlattenAppend(bs[..i], bs[i..]);
    assert bs[..i] + bs[i..] == bs;
    Assoc(q, front, back);
  }

  lemma WholeKeepsUp(q: seq<Msg>, bs: seq<seq<Msg>>, calls: nat)
    ensures Enough(All(q, bs), |EncodeAll(q)|, Encoded(bs), calls) <==> KeepsUp(q, bs, calls)
  {
    var ms, got, cs := All(q, bs), |EncodeAll(q)|, Encoded(bs);
    if Enough(ms, got, cs, calls) {
      assert InTime(ms, got, cs, calls, 0);
      forall i | 0 <= i < |bs|
        ensures |Flatten(bs[i..])| <= |bs| - i - 1 + calls
      {
        assert InTime(ms, got, cs, calls, i + 1);
        BeforeWhole(q, bs, i);
      }
    }
    if KeepsUp(q, bs, calls) {
      forall i | 0 <= i <= |cs|
        ensures InTime(ms, got, cs, calls, i)
      {
        if i > 0 {
          assert |Flatten(bs[i - 1..])| <= |bs| - (i - 1) - 1 + calls;
          BeforeWhole(q, bs, i - 1);
        }
      }
    }
  }

  /** Of a backlog and any number of reads that bring whole messages, everything is
      dispatched if and only if the calls keep up with the messages. */
  lemma Bursts(q: seq<Msg>, bs: seq<seq<Msg>>, last: Event, err: int, rc: Msg -> int)
    requires AllSendable(All(q, bs)) && !last.Data? && forall m :: rc(m) >= 0
    ensures Pass(EncodeAll(q), Reads(Encoded(bs), last), err, rc).dispatched == All(q, bs)
       <==> KeepsUp(q, bs, LastCalls(last))
  {
    EncodedFlat(bs);
    EncodeAllAppend(q, Flatten(bs));
    AnyReads(EncodeAll(q), Encoded(bs), last, All(q, bs), err, rc);
    WholeKeepsUp(q, bs, LastCalls(last));
  }

  /** One read into an empty buffer: its messages are all dispatched if and only if there
      is at most one, or at most two if the descriptor is then closed. */
  lemma OneBurst(ms: seq<Msg>, last: Event, err: int, rc: Msg -> int)
    requires AllSendable(ms) && !last.Data? && forall m :: rc(m) >= 0
    ensures Pass([], [Data(EncodeAll(ms)), last], err, rc).dispatched == ms <==> |ms| <= LastCalls(last)
  {
    assert Flatten([ms]) == ms + Flatten([]) == ms;
    assert All([], [ms]) == ms;
    Bursts([], [ms], last, err, rc);
    assert [ms][1..] == [];
    assert Encoded([ms]) == [EncodeAll(ms)] + Encoded([]);
    assert [EncodeAll(ms)][1..] == [];
    assert Reads([EncodeAll(ms)], last) == [Data(EncodeAll(ms))] + Reads([], last);
    assert [ms][0..] == [ms];
  }

  /** Two reads of two messages each, then a close: the fourth is lost. */
  lemma TwoBursts(a: Msg, b: Msg, c: Msg, d: Msg, err0: int, err: int, rc: Msg -> int)
    requires Sendable(a) && Sendable(b) && Sendable(c) && Sendable(d) && forall m :: rc(m) >= 0
    ensures Pass([], Reads([EncodeAll([a, b]), EncodeAll([c, d])], Closed(err)), err0, rc).dispatched != [a, b, c, d]
  {
    var bs := [[a, b], [c, d]];
    FlattenTwo([a, b], [c, d]);
    EncodedTwo([a, b], [c, d]);
    assert All([], bs) == [a, b, c, d];
    Bursts([], bs, Closed(err), err0, rc);
    TooLate(bs, 2);
  }

  lemma TooLate(bs: seq<seq<Msg>>, calls: nat)
    requires bs != [] && |Flatten(bs)| >= |bs| + calls
    ensures !KeepsUp([], bs, calls)
  {
    assert bs[0..] == bs;
  }

  lemma EncodedTwo(x: seq<Msg>, y: seq<Msg>)
    ensures Encoded([x, y]) == [EncodeAll(x), EncodeAll(y)]
  {
    assert [x, y][1..] == [y] && [y][1..] == [];
    assert Encoded([y]) == [EncodeAll(y)] + Encoded([]);
  }

  lemma FlattenTwo(x: seq<Msg>, y: seq<Msg>)
    ensures Flatten([x, y]) == x + y
  {
    assert [x, y][1..] == [y] && [y][1..] == [];
    assert Flatten([y]) == y + [] == y;
  }

  // ---------- passes, one event at a time ----------

  /** Having started with `b0` and seen `trace`, the pass goes on from buffer `cur`
      with `done` dispatched and `taken` read, whatever comes next. */
  ghost predicate Follows(b0: seq<Byte>, trace: seq<Event>, err: int, rc: Msg -> int,
                          cur: seq<Byte>, done: seq<Msg>, taken: seq<Byte>) {
    forall t :: FollowsOn(b0, trace, err, rc, cur, done, taken, t)
  }

  ghost predicate FollowsOn(b0: seq<Byte>, trace: seq<Event>, err: int, rc: Msg -> int,
                            cur: seq<Byte>, done: seq<Msg>, taken: seq<Byte>, t: seq<Event>) {
    var rest := Pass(cur, t, err, rc);
    && Pass(b0, trace + t, err, rc) == PassResult(rest.left, done + rest.dispatched, |taken| + rest.nread, rest.err)
    && Consumed(b0, trace + t, rc) == taken + Consumed(cur, t, rc)
  }

  lemma FollowsStart(b0: seq<Byte>, err: int, rc: Msg -> int)
    ensures Follows(b0, [], err, rc, b0, [], [])
  {
    forall t
      ensures FollowsOn(b0, [], err, rc, b0, [], [], t)
    {
      assert [] + t == t;
    }
  }

  lemma FollowsData(b0: seq<Byte>, trace: seq<Event>, err: int, rc: Msg -> int,
                    cur: seq<Byte>, done: seq<Msg>, taken: seq<Byte>, bytes: seq<Byte>)
    requires Follows(b0, trace, err, rc, cur, done, taken) && OnData(cur, true, false, rc).rc >= 0
    ensures var d := OnData(cur, true, false, rc);
            Follows(b0, trace + [Data(bytes)], err, rc, d.left + bytes, done + d.dispatched, taken + bytes)
  {
    var d := OnData(cur, true, false, rc);
    forall t
      ensures FollowsOn(b0, trace + [Data(bytes)], err, rc, d.left + bytes, done + d.dispatched, taken + bytes, t)
    {
      var u := [Data(bytes)] + t;
      assert FollowsOn(b0, trace, err, rc, cur, done, taken, u);
      assert u[1..] == t;
      Assoc(trace, [Data(bytes)], t);
      Assoc(done, d.dispatched, Pass(d.left + bytes, t, err, rc).dispatched);
      Assoc(taken, bytes, Consumed(d.left + bytes, t, rc));
    }
  }

  /** A pass from `b0` over `trace` ends with buffer `left`, having dispatched `done`
      and taken the bytes `taken`. */
  ghost predicate Passed(b0: seq<Byte>, trace: seq<Event>, err0: int, rc: Msg -> int,
                         left: seq<Byte>, done: seq<Msg>, taken: seq<Byte>, err: int) {
    && Pass(b0, trace, err0, rc) == PassResult(left, done, |taken|, err)
    && Consumed(b0, trace, rc) == taken
  }

  lemma FollowsEnd(b0: seq<Byte>, trace: seq<Event>, err: int, rc: Msg -> int,
                   cur: seq<Byte>, done: seq<Msg>, taken: seq<Byte>, t: seq<Event>,
                   left: seq<Byte>, ms: seq<Msg>, err': int)
    requires Follows(b0, trace, err, rc, cur, done, taken)
    requires |t| <= 1 && (t != [] ==> !t[0].Data?)
    requires PassResult(left, ms, 0, err') == Pass(cur, t, err, rc)
    ensures Passed(b0, trace + t, err, rc, left, done + ms, taken, err')
  {
    assert FollowsOn(b0, trace, err, rc, cur, done, taken, t);
  }

  // ---------- the C structures ----------

  /** hp_io_t_on_data on the reader's buffer, in place. */
  method OnDataInPlace(buf: array<Byte>, len0: nat, hasDispatch: bool, noskip: bool, onDispatch: Msg -> int)
    returns (len: nat, dispatched: seq<Msg>, rc: int)
    requires len0 <= buf.Length
    modifies buf
    ensures len <= len0
    ensures DataResult(buf[..len], dispatched, rc) == OnData(old(buf[..len0]), hasDispatch, noskip, onDispatch)
  {
    len, dispatched := len0, [];
    while len > 0
      invariant len <= len0
      invariant OnData(old(buf[..len0]), hasDispatch, noskip, onDispatch) ==
                OnData(buf[..len], hasDispatch, noskip, onDispatch)
    {
      var o;
      len, o := PmPack(buf, len, noskip);
      match o {
        case Mismatch =>
          return 0, [], -1;
        case Got(m) =>
          if hasDispatch {
            return len, [m], onDispatch(m);
          }
        case _ =>
          return len, [], 0;
      }
    }
    assert buf[..len] == [];
    rc := 0;
  }

  // What the kernel has in store for the reads of a pass: bytes as they arrive, and what
  // stands between or behind them.

  /** read(2) with this much room: what it gives, and what is in store behind it. A piece
      that does not fit is left for the next read; nothing more means "try later". */
  function Drawn(plan: seq<Event>, room: nat): (r: (Event, seq<Event>))
    requires room > 0
    ensures r.0.Data? ==> 0 < |r.0.bytes| <= room
  {
    if plan == [] then (Again, [])
    else
      match plan[0]
      case Data(b) =>
        if b == [] then (Again, plan[1..])
        else if |b| <= room then (plan[0], plan[1..])
        else (Data(b[..room]), [Data(b[room..])] + plan[1..])
      case _ => (plan[0], plan[1..])
  }

  /** All bytes in store before anything else. */
  function Arrived(plan: seq<Event>): seq<Byte> {
    if plan == [] || !plan[0].Data? || plan[0].bytes == [] then [] else plan[0].bytes + Arrived(plan[1..])
  }

  /** What is in store behind them. */
  function Stop(plan: seq<Event>): (e: Event)
    ensures !e.Data?
  {
    if plan == [] then Again
    else if !plan[0].Data? then plan[0]
    else if plan[0].bytes == [] then Again
    else Stop(plan[1..])
  }

  lemma DrawnMeans(plan: seq<Event>, room: nat)
    requires room > 0
    ensures var (e, rest) := Drawn(plan, room);
            if e.Data? then Arrived(plan) == e.bytes + Arrived(rest) && Stop(rest) == Stop(plan)
            else Arrived(plan) == [] && e == Stop(plan)
  {
    var rest := Drawn(plan, room).1;
    if plan != [] && plan[0].Data? && |plan[0].bytes| > room {
      assert rest[1..] == plan[1..];
      assert plan[0].bytes == plan[0].bytes[..room] + plan[0].bytes[room..];
      Assoc(plan[0].bytes[..room], plan[0].bytes[room..], Arrived(plan[1..]));
    }
  }

  /** A pass is over: either all that had arrived was read, and "try later" left the error
      alone while an end was recorded; or the last dispatch failed, with that error. */
  ghost predicate Finished(plan: seq<Event>, nread: nat, dispatched: seq<Msg>, onDispatch: Msg -> int,
                           err0: int, err: int) {
    || (&& nread == |Arrived(plan)|
        && err == match Stop(plan) case Closed(e) => (if e == 0 then EIO else e) case _ => err0)
    || (dispatched != [] && onDispatch(dispatched[|dispatched| - 1]) == err < 0)
  }

  class Rd {
    var iBuf: array<Byte>
    var iLen: nat
    var iBytes: nat
    var err: int

    ghost predicate Valid()
      reads this
    {
      iLen <= iBuf.Length && iBuf.Length > 0
    }

    constructor (bufLen: int)
      ensures Valid() && fresh(iBuf) && iLen == 0 && iBytes == 0 && err == 0
      ensures iBuf.Length == if bufLen <= 0 then 8192 else bufLen
    {
      iBuf := new Byte[if bufLen <= 0 then 8192 else bufLen](_ => 0);
      iLen, iBytes, err := 0, 0, 0;
    }

    /** Doubling when there is no room left. */
    method MakeRoom()
      requires Valid()
      modifies this`iBuf
      ensures Valid() && iLen < iBuf.Length && (iBuf == old(iBuf) || fresh(iBuf))
      ensures iBuf[..iLen] == old(iBuf[..iLen])
      ensures iBuf.Length == if old(iLen < iBuf.Length) then old(iBuf.Length) else 2 * old(iBuf.Length)
    {
      if !(iLen < iBuf.Length) {
        var bigger := new Byte[2 * iBuf.Length](_ => 0);
        forall i | 0 <= i < iLen {
          bigger[i] := iBuf[i];
        }
        iBuf := bigger;
      }
    }

    /** hp_rd_read: one pass over the replies of the kernel, which gives what it has in
        store as far as there is room. It reads all that has arrived, unless a dispatch
        fails. */
    method Read(plan: seq<Event>, onDispatch: Msg -> int)
      returns (nread: nat, dispatched: seq<Msg>, ghost trace: seq<Event>)
      requires Valid()
      modifies this, iBuf
      ensures Valid() && (iBuf == old(iBuf) || fresh(iBuf))
      ensures nread <= |Arrived(plan)|
      ensures Passed(old(iBuf[..iLen]), trace, old(err), onDispatch, iBuf[..iLen], dispatched, Arrived(plan)[..nread],
                     err)
      ensures Finished(plan, nread, dispatched, onDispatch, old(err), err)
      ensures iBytes == old(iBytes) + nread
    {
      nread, dispatched, trace := 0, [], [];
      ghost var b0 := iBuf[..iLen];
      ghost var taken: seq<Byte> := [];
      FollowsStart(b0, err, onDispatch);
      var going, rest := true, plan;
      while going
        invariant Valid() && (iBuf == old(iBuf) || fresh(iBuf))
        invariant iBytes == old(iBytes) + nread && nread == |taken| && taken <= Arrived(plan)
        invariant going ==> taken + Arrived(rest) == Arrived(plan) && Stop(rest) == Stop(plan)
        invariant going ==> err == old(err) && Follows(b0, trace, err, onDispatch, iBuf[..iLen], dispatched, taken)
        invariant !going ==> Passed(b0, trace, old(err), onDispatch, iBuf[..iLen], dispatched, taken, err)
        invariant !going ==> Finished(plan, nread, dispatched, onDispatch, old(err), err)
        decreases |Arrived(plan)| - nread, going
      {
        ghost var b, e0, rest0 := iBuf[..iLen], err, rest;
        var e, ms;
        e, ms, rest := Turn(rest, onDispatch);
        ghost var d0, t0 := dispatched, taken;
        dispatched := dispatched + ms;
        if e.Some? && e.value.Data? {
          FollowsData(b0, trace, err, onDispatch, b, d0, t0, e.value.bytes);
          Assoc(taken, e.value.bytes, Arrived(rest));
          taken := taken + e.value.bytes;
          nread, iBytes := nread + |e.value.bytes|, iBytes + |e.value.bytes|;
          trace := trace + [e.value];
        } else {
          ghost var t := if e.Some? then [e.value] else [];
          FollowsEnd(b0, trace, e0, onDispatch, b, d0, t0, t, iBuf[..iLen], ms, err);
          trace, going := trace + t, false;
        }
      }
      assert Arrived(plan)[..nread] == taken;
    }

    /** One turn of the loop: the data callback, room, and a read (unless the callback
        failed); when the descriptor is closed, the callback once more. */
    method Turn(plan: seq<Event>, onDispatch: Msg -> int) returns (e: Option<Event>, ms: seq<Msg>, rest: seq<Event>)
      requires Valid()
      modifies this`iBuf, this`iLen, this`err, iBuf
      ensures Valid() && (iBuf == old(iBuf) || fresh(iBuf))
      ensures e.None? ==> ms != [] && onDispatch(ms[|ms| - 1]) == err < 0
      ensures e.Some? && e.value.Data? ==>
                && Arrived(plan) == e.value.bytes + Arrived(rest) && Stop(rest) == Stop(plan) && e.value.bytes != []
                && var d := OnData(old(iBuf[..iLen]), true, false, onDispatch);
                && d.rc >= 0 && ms == d.dispatched && err == old(err) && iBuf[..iLen] == d.left + e.value.bytes
      ensures e.Some? && !e.value.Data? ==> Arrived(plan) == [] && e.value == Stop(plan)
      ensures !(e.Some? && e.value.Data?) ==>
                PassResult(iBuf[..iLen], ms, 0, err)
                == Pass(old(iBuf[..iLen]), if e.Some? then [e.value] else [], old(err), onDispatch)
      ensures e.Some? && e.value.Again? ==> err == old(err)
      ensures e.Some? && e.value.Closed? ==> err == if e.value.err == 0 then EIO else e.value.err
    {
      var rc;
      OnDataAnswers(iBuf[..iLen], true, false, onDispatch);
      iLen, ms, rc := OnDataInPlace(iBuf, iLen, true, false, onDispatch);
      if rc < 0 {
        err := rc;
        return None, ms, plan;
      }
      var ev, last;
      ev, last, rest := TakeOne(plan, onDispatch);
      e, ms := Some(ev), ms + last;
    }

    /** The rest of a turn: room, the read, and the last callback. */
    method TakeOne(plan: seq<Event>, onDispatch: Msg -> int) returns (e: Event, last: seq<Msg>, rest: seq<Event>)
      requires Valid()
      modifies this`iBuf, this`iLen, this`err, iBuf
      ensures Valid() && (iBuf == old(iBuf) || fresh(iBuf))
      ensures if e.Data? then Arrived(plan) == e.bytes + Arrived(rest) && Stop(rest) == Stop(plan) && e.bytes != []
              else Arrived(plan) == [] && e == Stop(plan)
      ensures err == match e case Closed(c) => (if c == 0 then EIO else c) case _ => old(err)
      ensures match e
              case Data(b) => last == [] && iBuf[..iLen] == old(iBuf[..iLen]) + b
              case Again => last == [] && iBuf[..iLen] == old(iBuf[..iLen])
              case Closed(_) => var d := OnData(old(iBuf[..iLen]), true, false, onDispatch);
                                last == d.dispatched && iBuf[..iLen] == d.left
    {
      last := [];
      MakeRoom();
      DrawnMeans(plan, iBuf.Length - iLen);
      var drawn := Drawn(plan, iBuf.Length - iLen);
      e, rest := drawn.0, drawn.1;
      if e.Data? {
        ghost var left := iBuf[..iLen];
        PutBytes(iBuf, iLen, e.bytes);
        iLen := iLen + |e.bytes|;
        assert iBuf[..iLen] == left + e.bytes;
      } else if e.Closed? {
        err := CloseErr(e.err);
        var ignored;
        iLen, last, ignored := OnDataInPlace(iBuf, iLen, true, false, onDispatch);
      }
    }
  }
}
