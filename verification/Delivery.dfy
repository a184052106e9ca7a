/** End to end: a sender that queues a header and a body for each message, a write
    queue, a byte stream, a reader and its parser, in any interleaving. */
module Delivery {
  import opened Common
  import opened Framing
  import opened Reader
  import Q = WriteQueue
  import V = IoVectors

  /** - sent: messages handed to the sender
      - queue: its output queue
      - wire: bytes the kernel accepted and the receiver has not read
      - buf: the receiver's input buffer
      - dispatched: messages handed to the receiver's application
      - aborted: the sender's queue was cleared after an error; the connection is
        reset and nothing more is queued on it */
  datatype System = System(
    sent: seq<Msg>,
    queue: Q.State,
    wire: seq<Byte>,
    buf: seq<Byte>,
    dispatched: seq<Msg>,
    aborted: bool)

  function Start(n: int): System {
    System([], Q.Init(n), [], [], [], false)
  }

  function Entries(m: Msg, bodyFree: bool): (Q.Entry, Q.Entry) {
    (Q.Entry(Header(m.id, m.typ, m.sid, |m.body|), true), Q.Entry(m.body, bodyFree))
  }

  ghost predicate SendStep(s: System, t: System, m: Msg, bodyFree: bool) {
    var (h, b) := Entries(m, bodyFree);
    && !s.aborted && Sendable(m)
    && t == s.(sent := s.sent + [m], queue := Q.Add(Q.Add(s.queue, h), b))
  }

  /** A flush of hp_wr_write, however short. */
  ghost predicate FlushStep(s: System, t: System, k: nat, n: nat) {
    && Q.CanFlush(s.queue, k, n)
    && t == s.(queue := Q.Flush(s.queue, k, n), wire := s.wire + V.Flat(s.queue.vecs)[..k])
  }

  ghost predicate AbortStep(s: System, t: System) {
    && s.queue.done <= |s.queue.added|
    && t == s.(queue := Q.Clear(s.queue), aborted := true)
  }

  /** A pass of hp_rd_read over what the wire holds. */
  ghost predicate ReadStep(s: System, t: System, trace: seq<Event>, rc: Msg -> int) {
    var p := Pass(s.buf, trace, 0, rc);
    var taken := Consumed(s.buf, trace, rc);
    && taken <= s.wire
    && t == s.(wire := s.wire[|taken|..], buf := p.left, dispatched := s.dispatched + p.dispatched)
  }

  ghost predicate Step(s: System, t: System) {
    || (exists m, f :: SendStep(s, t, m, f))
    || (exists k, n :: FlushStep(s, t, k, n))
    || AbortStep(s, t)
    || (exists trace, rc :: ReadStep(s, t, trace, rc))
  }

  ghost predicate Run(states: seq<System>, n: int) {
    && states != [] && states[0] == Start(n)
    && forall i :: 0 <= i < |states| - 1 ==> Step(states[i], states[i + 1])
  }

  /** Everything between the two applications. */
  ghost function InFlight(s: System): seq<Byte> {
    s.buf + (s.wire + V.Flat(s.queue.vecs))
  }

  /** What is in flight is exactly the encoding of the messages not yet dispatched,
      cut short if the sender gave up. */
  ghost predicate Inv(s: System) {
    && s.dispatched <= s.sent
    && AllSendable(s.sent)
    && InFlight(s) <= EncodeAll(s.sent[|s.dispatched|..])
    && (!s.aborted ==> InFlight(s) == EncodeAll(s.sent[|s.dispatched|..]))
  }

  lemma SendKeepsInv(s: System, t: System, m: Msg, f: bool)
    requires Inv(s) && SendStep(s, t, m, f)
    ensures Inv(t)
  {
    var (h, b) := Entries(m, f);
    var v, w := V.IovRec(h.bytes, 0, |h.bytes|), V.IovRec(b.bytes, 0, |b.bytes|);
    V.FlatAppend(s.queue.vecs, [v]);
    V.FlatAppend(s.queue.vecs + [v], [w]);
    assert V.Flat([v]) == h.bytes && V.Flat([w]) == b.bytes;
    var d := |s.dispatched|;
    assert t.sent[d..] == s.sent[d..] + [m];
    EncodeAllAppend(s.sent[d..], [m]);
    assert EncodeAll([m]) == Encode(m);
    SendFlight(s.buf, s.wire, V.Flat(s.queue.vecs), h.bytes, b.bytes);
  }

  lemma SendFlight(buf: seq<Byte>, wire: seq<Byte>, q: seq<Byte>, h: seq<Byte>, b: seq<Byte>)
    ensures buf + (wire + (q + h + b)) == (buf + (wire + q)) + (h + b)
  {}

  lemma FlushKeepsInv(s: System, t: System, k: nat, n: nat)
    requires Inv(s) && FlushStep(s, t, k, n)
    ensures Inv(t)
  {
    V.CutBytes(s.queue.vecs, k, n, V.Cut(s.queue.vecs, k, n).value);
    var q := V.Flat(s.queue.vecs);
    assert s.wire + q[..k] + q[k..] == s.wire + q;
  }

  /** `x` is an initial part, and if `full` all, of the encoding of `ms`. */
  ghost predicate Clean(x: seq<Byte>, ms: seq<Msg>, full: bool) {
    x <= EncodeAll(ms) && (full ==> x == EncodeAll(ms))
  }

  /** The parser on a part of a clean stream: it takes the next message whole or
      leaves the buffer alone, so the stream stays clean. */
  lemma OnDataClean(buf: seq<Byte>, more: seq<Byte>, ms: seq<Msg>, full: bool, rc: Msg -> int)
    requires AllSendable(ms) && Clean(buf + more, ms, full)
    ensures var d := OnData(buf, true, false, rc);
            d.dispatched <= ms && Clean(d.left + more, ms[|d.dispatched|..], full)
  {
    assert ms[0..] == ms;
    if ms != [] && |buf| >= HEADER_LEN {
      var x := EncodeAll(ms)[|buf|..];
      CleanFront(buf, more, ms, full);
      PackClean(buf, x, ms);
      if Pack(buf, false).0.Got? {
        TookFirst(buf, more, ms, full, HEADER_LEN + |ms[0].body|);
      }
    }
  }

  lemma CleanFront(buf: seq<Byte>, more: seq<Byte>, ms: seq<Msg>, full: bool)
    requires Clean(buf + more, ms, full)
    ensures |buf| <= |EncodeAll(ms)| && buf + EncodeAll(ms)[|buf|..] == EncodeAll(ms)
  {
    PrefixSplit(buf, more, EncodeAll(ms));
  }

  lemma TookFirst(buf: seq<Byte>, more: seq<Byte>, ms: seq<Msg>, full: bool, n: nat)
    requires ms != [] && n == |Encode(ms[0])| <= |buf| && Clean(buf + more, ms, full)
    ensures Clean(buf[n..] + more, ms[1..], full)
  {
    DropFront(Encode(ms[0]), EncodeAll(ms[1..]), buf, more, n);
  }

  lemma DropFront(first: seq<Byte>, rest: seq<Byte>, buf: seq<Byte>, more: seq<Byte>, n: nat)
    requires n == |first| <= |buf| && buf + more <= first + rest
    ensures buf[n..] + more <= rest
    ensures buf + more == first + rest ==> buf[n..] + more == rest
  {
    assert buf[n..] + more == (buf + more)[n..];
    assert (first + rest)[n..] == rest;
  }

  ghost predicate CleanAfter(p: PassResult, more: seq<Byte>, ms: seq<Msg>, full: bool) {
    p.dispatched <= ms && Clean(p.left + more, ms[|p.dispatched|..], full)
  }

  lemma CleanTwice(d: DataResult, p: PassResult, more: seq<Byte>, ms: seq<Msg>, full: bool, q: PassResult)
    requires d.dispatched <= ms && CleanAfter(p, more, ms[|d.dispatched|..], full)
    requires q.left == p.left && q.dispatched == d.dispatched + p.dispatched
    ensures CleanAfter(q, more, ms, full)
  {
    PrefixThen(d.dispatched, p.dispatched, ms);
    DropTwice(ms, |d.dispatched|, |p.dispatched|);
  }

  lemma {:induction false} PassClean(buf: seq<Byte>, more: seq<Byte>, trace: seq<Event>, ms: seq<Msg>, full: bool,
                                     rc: Msg -> int, err: int)
    requires AllSendable(ms) && Clean(buf + more, ms, full) && Consumed(buf, trace, rc) <= more
    ensures CleanAfter(Pass(buf, trace, err, rc), more[|Consumed(buf, trace, rc)|..], ms, full)
    decreases |trace|, 0
  {
    OnDataClean(buf, more, ms, full, rc);
    var d := OnData(buf, true, false, rc);
    if d.rc < 0 || trace == [] || trace[0].Again? {
      assert more[0..] == more;
    } else if trace[0].Closed? {
      assert more[0..] == more;
      OnDataClean(d.left, more, ms[|d.dispatched|..], full, rc);
      var last := OnData(d.left, true, false, rc);
      CleanTwice(d, PassResult(last.left, last.dispatched, 0, 0), more, ms, full, Pass(buf, trace, err, rc));
    } else {
      var b := trace[0].bytes;
      var rest := Consumed(d.left + b, trace[1..], rc);
      PassCleanData(d, b, more, trace[1..], ms, full, rc, err, rest, |b| + |rest|);
    }
  }

  /** The case of PassClean in which `d` was dispatched and the bytes `b` were then read. */
  lemma {:induction false} PassCleanData(d: DataResult, b: seq<Byte>, more: seq<Byte>, t: seq<Event>,
                                         ms: seq<Msg>, full: bool, rc: Msg -> int, err: int, rest: seq<Byte>, n: nat)
    requires AllSendable(ms) && rest == Consumed(d.left + b, t, rc)
    requires d.dispatched <= ms && Clean(d.left + more, ms[|d.dispatched|..], full)
    requires b + rest <= more && n == |b| + |rest|
    ensures var q := Pass(d.left + b, t, err, rc);
            CleanAfter(PassResult(q.left, d.dispatched + q.dispatched, 0, 0), more[n..], ms, full)
    decreases |t|, 1
  {
    PrefixSplit(b, rest, more);
    Rejoin(d.left, b, more);
    PassClean(d.left + b, more[|b|..], t, ms[|d.dispatched|..], full, rc, err);
    var q := Pass(d.left + b, t, err, rc);
    DropTwice(more, |b|, |rest|);
    CleanTwice(d, q, more[n..], ms, full, PassResult(q.left, d.dispatched + q.dispatched, 0, 0));
  }

  lemma Rejoin(left: seq<Byte>, b: seq<Byte>, more: seq<Byte>)
    requires b <= more
    ensures (left + b) + more[|b|..] == left + more
  {}

  lemma ReadKeepsInv(s: System, t: System, trace: seq<Event>, rc: Msg -> int)
    requires Inv(s) && ReadStep(s, t, trace, rc)
    ensures Inv(t)
  {
    var more := s.wire + V.Flat(s.queue.vecs);
    var p, taken := Pass(s.buf, trace, 0, rc), Consumed(s.buf, trace, rc);
    PassClean(s.buf, more, trace, s.sent[|s.dispatched|..], !s.aborted, rc, 0);
    TakenOff(s.wire, V.Flat(s.queue.vecs), |taken|);
    DispatchedOn(s.sent, s.dispatched, p.dispatched, t.dispatched);
  }

  lemma TakenOff(wire: seq<Byte>, behind: seq<Byte>, n: nat)
    requires n <= |wire|
    ensures (wire + behind)[n..] == wire[n..] + behind
  {}

  lemma DispatchedOn(sent: seq<Msg>, before: seq<Msg>, now: seq<Msg>, after: seq<Msg>)
    requires before <= sent && now <= sent[|before|..] && after == before + now
    ensures after <= sent && sent[|after|..] == sent[|before|..][|now|..]
  {
    DropTwice(sent, |before|, |now|);
    PrefixThen(before, now, sent);
  }

  lemma StepKeepsInv(s: System, t: System)
    requires Inv(s) && Step(s, t)
    ensures Inv(t)
  {
    if m, f :| SendStep(s, t, m, f) {
      SendKeepsInv(s, t, m, f);
    } else if k, n :| FlushStep(s, t, k, n) {
      FlushKeepsInv(s, t, k, n);
    } else if AbortStep(s, t) {
      assert s.buf + s.wire <= InFlight(s);
      assert t.wire + [] == s.wire;
    } else {
      var trace, rc :| ReadStep(s, t, trace, rc);
      ReadKeepsInv(s, t, trace, rc);
    }
  }

  lemma {:induction false} RunInv(states: seq<System>, n: int, i: nat)
    requires Run(states, n) && i < |states|
    ensures Inv(states[i])
  {
    if i > 0 {
      RunInv(states, n, i - 1);
      StepKeepsInv(states[i - 1], states[i]);
    }
  }

  /** End-to-end delivery: in every run, with arbitrary short writes, refusals, short
      reads and aborts, the dispatched messages are at all times a prefix of the
      messages sent; and while the sender has not given up, the missing ones are all
      still in flight: once the queue and the wire are empty, they are what the
      parser can still read from the receiver's buffer. */
  lemma EndToEnd(states: seq<System>, n: int, i: nat)
    requires Run(states, n) && i < |states|
    ensures var s := states[i];
            && s.dispatched <= s.sent
            && (!s.aborted ==> s.dispatched + Messages(InFlight(s)) == s.sent)
            && (!s.aborted && s.wire == [] && V.Flat(s.queue.vecs) == [] ==>
                  s.dispatched + Drain(s.buf, false).0 == s.sent)
  {
    RunInv(states, n, i);
    var s := states[i];
    var rest := s.sent[|s.dispatched|..];
    if !s.aborted {
      MessagesOfEncoded(rest);
      assert s.dispatched + rest == s.sent;
      if s.wire == [] && V.Flat(s.queue.vecs) == [] {
        assert InFlight(s) == s.buf;
        DrainSound(s.buf, false, []);
        assert s.buf + [] == s.buf;
        assert Drain(s.buf, false).1 + [] == Drain(s.buf, false).1;
      }
    }
  }

  lemma {:induction false} MessagesOfEncoded(ms: seq<Msg>)
    requires AllSendable(ms)
    ensures Messages(EncodeAll(ms)) == ms
  {
    if ms != [] {
      var rest := EncodeAll(ms[1..]);
      EncodedFront(ms[0], rest);
      MessagesOfEncoded(ms[1..]);
      assert Messages(Encode(ms[0]) + rest) == [ms[0]] + ms[1..];
    }
  }
}
