/** A whole call of hp_wr_write (src/hp_io.c) as a function of the kernel's replies, in
    batches of at most IOV_MAX items, with writev and without. */
module WriteCalls {
  import opened Arithmetic
  import opened Common
  import opened IoVectors
  import opened KernelWrites

  function Min(a: nat, b: nat): nat {
    if a < b then a else b
  }

  datatype CallResult = CallResult(out: nat, left: seq<Iov>, status: int)

  /** hp_wr_write: batches of at most iovMax items until the queue is empty or one fails. */
  function WriteCall(writev: bool, vs: seq<Iov>, iovMax: nat, replies: seq<Reply>): CallResult
    requires iovMax > 0
    decreases |vs|
  {
    if vs == [] then CallResult(0, [], 0)
    else
      var r := WriteTurn(writev, vs[..Min(iovMax, |vs|)], replies);
      var left := Left(vs, r.n, r.partial);
      if r.err != 0 then CallResult(r.w, left, r.err)
      else
        var more := WriteCall(writev, left, iovMax, r.later);
        more.(out := r.w + more.out)
  }

  /** An error after the last block means that it is empty; one before means that bytes
      are left. */
  lemma {:induction false} BlocksReport(vs: seq<Iov>, err: int, replies: seq<Reply>)
    requires vs != []
    ensures var r := WriteBlocks(vs, err, replies);
            && (r.partial.None? && r.err != 0 ==> vs[|vs| - 1].len == 0)
            && (r.partial.Some? ==> r.w < |Flat(vs)|)
            && (r.partial.None? ==> r.w == |Flat(vs)|)
  {
    var b := WriteBlock(vs[0].len, replies);
    if b.w == vs[0].len {
      if |vs| == 1 {
        assert vs[1..] == [];
      } else {
        BlocksReport(vs[1..], b.err, b.later);
      }
    }
  }

  /** The last block holds bytes, or there is none. */
  predicate LastHolds(vs: seq<Iov>) {
    vs == [] || vs[|vs| - 1].len > 0
  }

  /** In front of a last block with bytes there are fewer bytes than in all. */
  lemma FewerInFront(vs: seq<Iov>, n: nat)
    requires n < |vs| && LastHolds(vs)
    ensures |Flat(vs[..n])| < |Flat(vs)|
  {
    var last := |vs| - 1;
    FlatSplit(vs[..last], n);
    assert vs[..last][..n] == vs[..n];
    FlatSnoc(vs, 0, last);
    assert vs[0..last + 1] == vs && vs[0..last] == vs[..last];
  }

  /** A batch that reports an error leaves bytes, with writev or if the last queued block
      holds any. */
  lemma TurnReports(writev: bool, vs: seq<Iov>, m: nat, replies: seq<Reply>)
    requires 0 < m <= |vs| && (writev || LastHolds(vs))
    ensures var r := WriteTurn(writev, vs[..m], replies);
            r.err != 0 ==> r.w < |Flat(vs)|
  {
    FlatSplit(vs, m);
    if !writev {
      var r := WriteBlocks(vs[..m], 0, replies);
      BlocksReport(vs[..m], 0, replies);
      if r.partial.None? && r.err != 0 {
        assert vs[..m][m - 1] == vs[m - 1];
        if m < |vs| {
          FewerInFront(vs, m);
        }
      }
    }
  }

  /** A call cuts the queue by the bytes it returns; status 0 means that nothing is left,
      and an error leaves bytes, with writev or if the last queued block holds any. */
  lemma {:induction false} CallReports(writev: bool, vs: seq<Iov>, iovMax: nat, replies: seq<Reply>)
    requires iovMax > 0
    ensures var c := WriteCall(writev, vs, iovMax, replies);
            && c.out + |Flat(c.left)| == |Flat(vs)|
            && (c.status == 0 ==> c.left == [])
            && (c.status != 0 && (writev || LastHolds(vs)) ==> c.out < |Flat(vs)|)
    decreases |vs|
  {
    if vs != [] {
      var m := Min(iovMax, |vs|);
      var r := WriteTurn(writev, vs[..m], replies);
      TurnCut(writev, vs, m, replies);
      CutBytes(vs, r.w, r.n, Left(vs, r.n, r.partial));
      if r.err == 0 {
        CallReports(writev, vs[m..], iovMax, r.later);
      } else if writev || LastHolds(vs) {
        TurnReports(writev, vs, m, replies);
      }
    }
  }

  /** A kernel that takes every block whole; a write of nothing succeeds, but after the
      last block it leaves an errno from before. */
  function TakesAll(vs: seq<Iov>): seq<Reply> {
    if vs == [] then [] else [Reply(vs[0].len, Stale(vs[0], vs[1..]))] + TakesAll(vs[1..])
  }

  function Stale(v: Iov, behind: seq<Iov>): int {
    if v.len == 0 && behind == [] then EIO else 0
  }

  lemma TakesNext(v: Iov, behind: seq<Iov>)
    ensures TakesAll([v] + behind) == [Reply(v.len, Stale(v, behind))] + TakesAll(behind)
  {
    assert ([v] + behind)[1..] == behind;
  }

  lemma BlockTaken(v: Iov, errno: int, later: seq<Reply>)
    requires v.len == 0 ==> errno !in {EINTR, EAGAIN}
    ensures WriteBlock(v.len, [Reply(v.len, errno)] + later)
         == BlockResult(v.len, if v.len > 0 then 0 else errno, later)
  {
    assert ([Reply(v.len, errno)] + later)[1..] == later;
  }

  lemma {:induction false} TakenWhole(front: seq<Iov>, back: seq<Iov>, err: int)
    requires front != []
    ensures WriteBlocks(front, err, TakesAll(front + back))
         == TurnResult(|Flat(front)|, |front|, None, if back == [] && !LastHolds(front) then EIO else 0, TakesAll(back))
    decreases |front|
  {
    var v, tail := front[0], front[1..];
    TakesNext(v, tail + back);
    assert front + back == [v] + (tail + back) && front == [v] + tail;
    BlocksNext(v, tail, err, Stale(v, tail + back), TakesAll(tail + back));
    FlatCons(v, tail);
    if tail == [] {
      assert tail + back == back;
    } else {
      TakenWhole(tail, back, 0);
    }
  }

  /** A block taken whole is followed by the others. */
  lemma BlocksNext(v: Iov, tail: seq<Iov>, err: int, errno: int, later: seq<Reply>)
    requires v.len == 0 ==> errno !in {EINTR, EAGAIN}
    ensures WriteBlocks([v] + tail, err, [Reply(v.len, errno)] + later)
         == Behind(v.len, 1, WriteBlocks(tail, if v.len > 0 then 0 else errno, later))
  {
    BlockTaken(v, errno, later);
    assert ([v] + tail)[1..] == tail;
  }

  lemma {:induction false} StaleErrno(vs: seq<Iov>, iovMax: nat)
    requires iovMax > 0 && !LastHolds(vs)
    ensures WriteCall(false, vs, iovMax, TakesAll(vs)) == CallResult(|Flat(vs)|, [], EIO)
    decreases |vs|
  {
    var m := Min(iovMax, |vs|);
    assert vs == vs[..m] + vs[m..];
    TakenWhole(vs[..m], vs[m..], 0);
    FlatAppend(vs[..m], vs[m..]);
    if m < |vs| {
      StaleErrno(vs[m..], iovMax);
    } else {
      assert vs[..m] == vs;
    }
  }

  /** The call reports an error although nothing is left to send. */
  ghost predicate FalseAlarm(vs: seq<Iov>, iovMax: nat, replies: seq<Reply>)
    requires iovMax > 0
  {
    var c := WriteCall(false, vs, iovMax, replies);
    c.status != 0 && Flat(c.left) == []
  }

  /** Exactly the queues whose last block is empty can end in a false alarm. */
  lemma FalseAlarmIff(vs: seq<Iov>, iovMax: nat)
    requires iovMax > 0
    ensures (exists replies :: FalseAlarm(vs, iovMax, replies)) <==> !LastHolds(vs)
  {
    if !LastHolds(vs) {
      StaleErrno(vs, iovMax);
      assert FalseAlarm(vs, iovMax, TakesAll(vs));
    } else if replies :| FalseAlarm(vs, iovMax, replies) {
      CallReports(false, vs, iovMax, replies);
    }
  }

  /** The call stops at a block with bytes that the kernel does not take whole. */
  predicate Refused(vs: seq<Iov>, iovMax: nat, replies: seq<Reply>)
    requires iovMax > 0
    decreases |vs|
  {
    vs != []
    && var r := WriteBlocks(vs[..Min(iovMax, |vs|)], 0, replies);
    r.partial.Some? || (r.err == 0 && Refused(Left(vs, r.n, r.partial), iovMax, r.later))
  }

  /** The call reports an error although every block it tried was taken whole. */
  predicate BlamesNobody(vs: seq<Iov>, iovMax: nat, replies: seq<Reply>)
    requires iovMax > 0
  {
    WriteCall(false, vs, iovMax, replies).status != 0 && !Refused(vs, iovMax, replies)
  }

  /** Block i is empty and the last of a batch: of the queue, or of IOV_MAX blocks. */
  predicate EmptyEnd(vs: seq<Iov>, iovMax: nat, i: nat)
    requires iovMax > 0 && i < |vs|
  {
    vs[i].len == 0 && (i + 1 == |vs| || (i + 1) % iovMax == 0)
  }

  lemma EmptyEndLater(vs: seq<Iov>, iovMax: nat, i: nat)
    requires 0 < iovMax && iovMax + i < |vs|
    ensures EmptyEnd(vs, iovMax, iovMax + i) <==> EmptyEnd(vs[iovMax..], iovMax, i)
  {
    OneTurnOn(i + 1, iovMax);
    assert iovMax + i + 1 == (i + 1) + iovMax;
  }

  lemma {:induction false} BlamedIsEmpty(vs: seq<Iov>, iovMax: nat, replies: seq<Reply>)
    requires iovMax > 0 && BlamesNobody(vs, iovMax, replies)
    ensures exists i :: 0 <= i < |vs| && EmptyEnd(vs, iovMax, i)
    decreases |vs|
  {
    var m := Min(iovMax, |vs|);
    var r := WriteBlocks(vs[..m], 0, replies);
    if r.err != 0 {
      BlocksReport(vs[..m], 0, replies);
      assert EmptyEnd(vs, iovMax, m - 1);
    } else {
      BlamedIsEmpty(vs[m..], iovMax, r.later);
      var i :| 0 <= i < |vs[m..]| && EmptyEnd(vs[m..], iovMax, i);
      EmptyEndLater(vs, iovMax, i);
      assert EmptyEnd(vs, iovMax, iovMax + i);
    }
  }

  lemma {:induction false} EmptyIsBlamed(vs: seq<Iov>, iovMax: nat, i: nat, upTo: seq<Iov>)
    requires iovMax > 0 && i < |vs| && EmptyEnd(vs, iovMax, i) && upTo == vs[..i + 1]
    ensures BlamesNobody(vs, iovMax, TakesAll(upTo))
    decreases |vs|
  {
    if i < Min(iovMax, |vs|) {
      FirstEnd(vs, iovMax, i);
      BlamedNow(vs, iovMax, i + 1, upTo);
    } else {
      var rest, j, back := vs[iovMax..], i - iovMax, upTo[iovMax..];
      EmptyEndLater(vs, iovMax, j);
      EmptyIsBlamed(rest, iovMax, j, back);
      BlamedLater(vs, iovMax, back, upTo);
    }
  }

  lemma FirstEnd(vs: seq<Iov>, iovMax: nat, i: nat)
    requires iovMax > 0 && i < Min(iovMax, |vs|) && EmptyEnd(vs, iovMax, i)
    ensures i + 1 == Min(iovMax, |vs|) && vs[i].len == 0
  {
    LastMultiple(i + 1, iovMax);
  }

  /** The first batch ends in the empty block. */
  lemma BlamedNow(vs: seq<Iov>, iovMax: nat, m: nat, upTo: seq<Iov>)
    requires 0 < m == Min(iovMax, |vs|) && vs[m - 1].len == 0 && upTo == vs[..m]
    ensures BlamesNobody(vs, iovMax, TakesAll(upTo))
  {
    assert upTo + [] == upTo;
    TakenWhole(upTo, [], 0);
  }

  /** The first batch is taken whole, and the blame comes behind it. */
  lemma BlamedLater(vs: seq<Iov>, iovMax: nat, back: seq<Iov>, upTo: seq<Iov>)
    requires 0 < iovMax < |vs| && back != [] && BlamesNobody(vs[iovMax..], iovMax, TakesAll(back))
    requires upTo <= vs && iovMax <= |upTo| && back == upTo[iovMax..]
    ensures BlamesNobody(vs, iovMax, TakesAll(upTo))
  {
    assert upTo == vs[..iovMax] + back;
    TakenWhole(vs[..iovMax], back, 0);
  }

  /** Exactly the queues with an empty block at the end of a batch can end in an error
      although nothing was refused. */
  lemma BlamesNobodyIff(vs: seq<Iov>, iovMax: nat)
    requires iovMax > 0
    ensures (exists replies :: BlamesNobody(vs, iovMax, replies))
       <==> (exists i :: 0 <= i < |vs| && EmptyEnd(vs, iovMax, i))
  {
    if i :| 0 <= i < |vs| && EmptyEnd(vs, iovMax, i) {
      EmptyIsBlamed(vs, iovMax, i, vs[..i + 1]);
    }
    if replies :| BlamesNobody(vs, iovMax, replies) {
      BlamedIsEmpty(vs, iovMax, replies);
    }
  }

  /** Five bytes, then an empty block: replies 5, then 0 with an errno from before. */
  lemma FalseAlarmExample(bytes: seq<Byte>, errno: int)
    requires |bytes| == 5 && errno !in {0, EINTR, EAGAIN}
    ensures WriteCall(false, [IovRec(bytes, 0, 5), IovRec([], 0, 0)], 8, [Reply(5, 0), Reply(0, errno)])
         == CallResult(5, [], errno)
  {
    var v, e := IovRec(bytes, 0, 5), IovRec([], 0, 0);
    var vs: seq<Iov> := [v, e];
    var replies := [Reply(5, 0), Reply(0, errno)];
    assert vs[..2] == vs && vs[1..] == [e] && vs[1..][1..] == [] && vs[2..] == [];
    assert replies[1..] == [Reply(0, errno)] && replies[1..][1..] == [];
    assert WriteBlocks([e], 0, replies[1..]) == TurnResult(0, 1, None, errno, []);
    assert WriteBlocks(vs, 0, replies) == TurnResult(5, 2, None, errno, []);
  }

  // ---------- a willing kernel ----------

  /** Every reply takes whatever it is offered, and a write of nothing succeeds. */
  ghost predicate Willing(vs: seq<Iov>, replies: seq<Reply>) {
    |replies| >= |vs| && forall i :: 0 <= i < |replies| ==> replies[i].w >= |Flat(vs)| && replies[i].errno == 0
  }

  lemma {:induction false} BlocksWilling(vs: seq<Iov>, replies: seq<Reply>)
    requires Willing(vs, replies)
    ensures var r := WriteBlocks(vs, 0, replies);
            r.w == |Flat(vs)| && r.n == |vs| && r.err == 0 && r.later == replies[|vs|..]
  {
    if vs != [] {
      assert WriteBlock(vs[0].len, replies) == BlockResult(vs[0].len, 0, replies[1..]);
      BlocksWilling(vs[1..], replies[1..]);
      DropTwice(replies, 1, |vs| - 1);
    }
  }

  lemma TurnWilling(writev: bool, vs: seq<Iov>, m: nat, replies: seq<Reply>)
    requires m <= |vs| && Willing(vs, replies)
    ensures var r := WriteTurn(writev, vs[..m], replies);
            r.w == |Flat(vs[..m])| && r.n == m && r.err == 0 && Willing(vs[m..], r.later)
  {
    FlatSplit(vs, m);
    if !writev {
      BlocksWilling(vs[..m], replies);
    }
  }

  /** A kernel that takes whatever it is offered is sent everything: status 0 and an empty
      queue, in both builds. */
  lemma {:induction false} WillingTakesAll(writev: bool, vs: seq<Iov>, iovMax: nat, replies: seq<Reply>)
    requires iovMax > 0 && Willing(vs, replies)
    ensures WriteCall(writev, vs, iovMax, replies) == CallResult(|Flat(vs)|, [], 0)
    decreases |vs|
  {
    if vs != [] {
      var m := Min(iovMax, |vs|);
      TurnWilling(writev, vs, m, replies);
      FlatSplit(vs, m);
      WillingTakesAll(writev, vs[m..], iovMax, WriteTurn(writev, vs[..m], replies).later);
    }
  }

  lemma {:induction false} NothingUnasked(vs: seq<Iov>, iovMax: nat)
    requires iovMax > 0
    ensures WriteCall(true, vs, iovMax, []).out == 0
    decreases |vs|
  {
    if vs != [] && Flat(vs[..Min(iovMax, |vs|)]) == [] {
      NothingUnasked(vs[Min(iovMax, |vs|)..], iovMax);
    }
  }

  lemma OneAnswer(bytes: nat, reply: Reply)
    requires bytes > 0
    ensures var r := WriteBlock(bytes, [reply]);
            r.w == (if reply.w <= 0 then 0 else Min(reply.w, bytes)) && r.later == []
  {
    assert [reply][1..] == [];
  }

  /** With writev, one reply is about the first IOV_MAX items only: so much goes out. */
  lemma OneBatch(vs: seq<Iov>, iovMax: nat, reply: Reply)
    requires 0 < iovMax && Flat(vs[..Min(iovMax, |vs|)]) != []
    ensures WriteCall(true, vs, iovMax, [reply]).out ==
            if reply.w <= 0 then 0 else Min(reply.w, |Flat(vs[..Min(iovMax, |vs|)])|)
  {
    var m := Min(iovMax, |vs|);
    OneAnswer(|Flat(vs[..m])|, reply);
    var r := WritevBlocks(vs[..m], [reply]);
    if r.err == 0 {
      NothingUnasked(Left(vs, r.n, r.partial), iovMax);
    }
  }
}
