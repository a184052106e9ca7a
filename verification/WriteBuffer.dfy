/** hp_wr of src/hp_io.c: the array of items updated in place. Its methods are proved to
    take exactly the steps of WriteQueue. */
module WriteBuffer {
  import opened Common
  import opened IoVectors
  import opened KernelWrites
  import opened WriteCalls
  import opened WriteQueue

  /** An element of o_items; `hasFree` says whether releasing it calls a callback. */
  datatype Item = Item(vec: Iov, hasFree: bool)

  class Wr {
    var items: array<Item>
    var initLen: nat
    var count: nat
    var oBytes: nat
    var err: int
    /** The abstract queue this structure represents, and the free callbacks made. */
    ghost var log: State
    ghost var frees: seq<nat>

    ghost predicate Valid()
      reads this, items
    {
      Inv(log) && Represents()
    }

    /** The fields hold exactly what the log says. */
    ghost predicate Represents()
      reads this, items
    {
      && items.Length == log.cap && initLen == log.initCap && oBytes == log.oBytes
      && log.done <= |log.added|
      && Mirrors(log.vecs, log.added[log.done..])
      && frees == log.freed
    }

    /** The first `count` slots hold the vectors `vecs` of the entries `es`. */
    ghost predicate Mirrors(vecs: seq<Iov>, es: seq<Entry>)
      reads this`count, this`items, items
    {
      && count == |vecs| == |es| <= items.Length
      && forall i :: 0 <= i < count ==> items[i].vec == vecs[i] && items[i].hasFree == es[i].hasFree
    }

    constructor (n: int)
      ensures Valid() && fresh(items)
      ensures log == Init(n) && err == 0
    {
      var c := if n <= 0 then 8 else n;
      initLen, count, oBytes, err := c, 0, 0, 0;
      items := new Item[c](_ => Item(IovRec([], 0, 0), false));
      log, frees := Init(n), [];
      new;
      InitInv(n);
    }

    /** hp_eto_reserve: realloc. */
    method Reserve(n: nat)
      requires count <= items.Length && count <= n
      modifies this`items
      ensures fresh(items) && items.Length == n
      ensures forall i :: 0 <= i < count ==> items[i] == old(items[i])
    {
      var fresher := new Item[n](_ => Item(IovRec([], 0, 0), false));
      forall i | 0 <= i < count {
        fresher[i] := items[i];
      }
      items := fresher;
    }

    /** hp_wr_add; `bytes` is None for a null buffer. */
    method Append(bytes: Option<seq<Byte>>, hasFree: bool) returns (rc: int)
      requires Valid()
      modifies this, items
      ensures Valid() && (items == old(items) || fresh(items)) && err == old(err)
      ensures rc == if bytes.Some? then 0 else -1
      ensures log == if bytes.Some? then Add(old(log), Entry(bytes.value, hasFree)) else old(log)
      ensures bytes.Some? ==> log.added == old(log.added) + [Entry(bytes.value, hasFree)]
                              && Flat(log.vecs) == Flat(old(log.vecs)) + bytes.value && count == old(count) + 1
    {
      if bytes.None? {
        return -1;
      }
      var e := Entry(bytes.value, hasFree);
      InvNextCapacity(log);
      AddKeepsInv(log, e);
      AddMeans(log, e);
      Push(e);
      return 0;
    }

    method Push(e: Entry)
      requires Represents() && count < Resized(items.Length, count, initLen)
      modifies this, items
      ensures Represents() && (items == old(items) || fresh(items)) && err == old(err)
      ensures log == Add(old(log), e)
    {
      assert (log.added + [e])[log.done..] == log.added[log.done..] + [e];
      MakeRoom();
      Store(e, log.vecs, log.added[log.done..]);
      log := Add(log, e);
    }

    method Store(e: Entry, ghost vecs: seq<Iov>, ghost es: seq<Entry>)
      requires Mirrors(vecs, es) && count < items.Length
      modifies this`count, items
      ensures Mirrors(vecs + [IovRec(e.bytes, 0, |e.bytes|)], es + [e])
    {
      items[count] := Item(IovRec(e.bytes, 0, |e.bytes|), e.hasFree);
      count := count + 1;
    }

    /** The resizing at the head of hp_wr_add. */
    method MakeRoom()
      requires count <= items.Length && count < Resized(items.Length, count, initLen)
      modifies this`items
      ensures items == old(items) || fresh(items)
      ensures items.Length == Resized(old(items.Length), count, initLen)
      ensures forall i :: 0 <= i < count ==> items[i] == old(items[i])
    {
      if items.Length - count <= 3 {
        Reserve(items.Length * 2);
      } else if items.Length > initLen && count + 2 < items.Length / 2 {
        Reserve(items.Length / 2);
      }
    }

    /** hp_etio_del_n: calls the free callbacks of the first n items and shifts the rest down. */
    method DeleteFirst(n: nat, ghost vecs: seq<Iov>, ghost lo: nat)
      requires n <= count && lo <= |log.added| && Mirrors(vecs, log.added[lo..])
      modifies this`count, this`frees, items
      ensures lo + n <= |log.added| && Mirrors(vecs[n..], log.added[lo + n..])
      ensures frees == old(frees) + Owned(log.added, lo, lo + n)
    {
      for i := 0 to n
        invariant count == old(count) && items[..] == old(items[..])
        invariant frees == old(frees) + Owned(log.added, lo, lo + i)
      {
        if items[i].hasFree {
          frees := frees + [lo + i];
        }
      }
      ShiftDown(n, vecs, log.added[lo..]);
      assert log.added[lo..][n..] == log.added[lo + n..];
    }

    /** The memmove of hp_etio_del_n. */
    method ShiftDown(n: nat, ghost vecs: seq<Iov>, ghost es: seq<Entry>)
      requires n <= count && Mirrors(vecs, es)
      modifies this`count, items
      ensures Mirrors(vecs[n..], es[n..])
    {
      forall i | 0 <= i < count - n {
        items[i] := items[i + n];
      }
      count := count - n;
    }

    /** hp_wr_clear. */
    method Discard()
      requires Valid()
      modifies this, items
      ensures Valid() && items == old(items) && err == old(err)
      ensures log == Clear(old(log))
    {
      ClearKeepsInv(log);
      ReleaseAll();
    }

    method ReleaseAll()
      requires Represents()
      modifies this, items
      ensures Represents() && items == old(items) && err == old(err)
      ensures log == Clear(old(log))
    {
      DeleteFirst(count, log.vecs, log.done);
      log := Clear(log);
    }

    /** hp_wr_bytes: the bytes still to be sent. */
    method Bytes() returns (n: nat)
      requires Valid()
      ensures n == |Flat(log.vecs)|
      ensures oBytes + n == |log.base| + |Stream(log.added[log.floor..])|
    {
      n := 0;
      for i := 0 to count
        invariant n == |Flat(log.vecs[..i])|
      {
        FlatSnoc(log.vecs, 0, i);
        n := n + items[i].vec.len;
      }
      assert log.vecs[..count] == log.vecs;
      assert |log.accepted + Flat(log.vecs)| == |log.base + Stream(log.added[log.floor..])|;
    }

    /** The vectors of the first m items, as handed to writev, and their total length. */
    method Gather(m: nat, ghost vecs: seq<Iov>, ghost es: seq<Entry>) returns (vec: array<Iov>, total: nat)
      requires Mirrors(vecs, es) && m <= count
      ensures fresh(vec) && vec[..] == vecs[..m] && total == |Flat(vecs[..m])|
    {
      vec := new Iov[m](_ => IovRec([], 0, 0));
      total := 0;
      for i := 0 to m
        invariant forall j :: 0 <= j < i ==> vec[j] == vecs[j]
        invariant total == |Flat(vecs[..i])|
      {
        FlatSnoc(vecs, 0, i);
        vec[i] := items[i].vec;
        total := total + vec[i].len;
      }
    }

    /** item->vec = vec, for the item the next byte is in. */
    method SetVec(n: nat, v: Iov, ghost vecs: seq<Iov>, ghost es: seq<Entry>)
      requires Mirrors(vecs, es) && n < count
      modifies items
      ensures Mirrors(vecs[n := v], es)
    {
      items[n] := items[n].(vec := v);
    }

    /** Items [0, n) are out and the others hold `rest`, what a flush of k bytes leaves:
        free and shift. */
    method Settle(n: nat, k: nat, ghost vecs: seq<Iov>, ghost rest: seq<Iov>)
      requires CanFlush(log, k, n) && CutTo(log.vecs, k, n, rest) && frees == log.freed
      requires items.Length == log.cap && initLen == log.initCap && oBytes == log.oBytes
      requires n <= |vecs| && Mirrors(vecs, log.added[log.done..]) && vecs[n..] == rest
      modifies this, items
      ensures Represents() && items == old(items) && err == old(err)
      ensures Flushed(old(log), k, n, log)
    {
      ghost var s, t := log, Flush(log, k, n);
      FlushLeaves(s, k, n, rest, t);
      oBytes := oBytes + k;
      DeleteFirst(n, vecs, s.done);
      assert Mirrors(t.vecs, t.added[t.done..]);
      log := t;
    }

    /** One turn of the loop in hp_wr_write, where writev exists: gather, write, and
        say what is left of the item the next byte is in. */
    method WritevSome(m: nat, replies: seq<Reply>, ghost vecs: seq<Iov>, ghost es: seq<Entry>)
      returns (w: nat, n: nat, partial: Option<Iov>, status: int, later: seq<Reply>)
      requires Mirrors(vecs, es) && 0 < m <= count
      ensures WritevBlocks(vecs[..m], replies) == TurnResult(w, n, partial, status, later)
    {
      partial := None;
      var vec, total := Gather(m, vecs, es);
      if total == 0 {
        return 0, m, None, 0, replies;
      }
      w, n, status, later := UioWrite(vec, total, replies);
      WritevIs(vecs[..m], replies, w, n, status, later, vec[n..]);
      if n < m {
        partial := Some(vec[n]);
      }
    }

    /** The same turn on builds without writev: item by item, stopping at the first
        one the kernel does not take whole. */
    method WriteEach(m: nat, replies: seq<Reply>, ghost vecs: seq<Iov>, ghost es: seq<Entry>)
      returns (w: nat, n: nat, partial: Option<Iov>, status: int, later: seq<Reply>)
      requires Mirrors(vecs, es) && 0 < m <= count
      ensures WriteBlocks(vecs[..m], 0, replies) == TurnResult(w, n, partial, status, later)
    {
      w, n, partial, status, later := 0, 0, None, 0, replies;
      assert vecs[0..m] == vecs[..m];
      while n < m && partial.None?
        invariant TurnStands(vecs, m, replies, w, n, partial, status, later)
        decreases m - n, partial.None?
      {
        ghost var w0, status0, later0 := w, status, later;
        var k, rest;
        k, rest, status, later := WriteOne(items[n].vec, later);
        w := w + k;
        TurnGoesOn(vecs, m, replies, w0, n, status0, later0, BlockResult(k, status, later), w);
        if k < items[n].vec.len {
          partial := Some(rest);
        } else {
          n := n + 1;
        }
      }
    }

    method WriteSome(writev: bool, m: nat, replies: seq<Reply>, ghost vecs: seq<Iov>, ghost es: seq<Entry>)
      returns (w: nat, n: nat, partial: Option<Iov>, status: int, later: seq<Reply>)
      requires Mirrors(vecs, es) && 0 < m <= count
      ensures WriteTurn(writev, vecs[..m], replies) == TurnResult(w, n, partial, status, later)
    {
      if writev {
        w, n, partial, status, later := WritevSome(m, replies, vecs, es);
      } else {
        w, n, partial, status, later := WriteEach(m, replies, vecs, es);
      }
    }

    /** One turn of the loop in hp_wr_write. */
    method Batch(writev: bool, iovMax: nat, replies: seq<Reply>)
      returns (w: nat, n: nat, status: int, later: seq<Reply>)
      requires Represents() && count > 0 && iovMax > 0
      modifies this, items
      ensures Represents() && items == old(items) && err == old(err)
      ensures Flushed(old(log), w, n, log)
      ensures TurnIs(writev, old(log).vecs, iovMax, replies, w, log.vecs, status, later)
    {
      ghost var vecs, es := log.vecs, log.added[log.done..];
      var m := if iovMax < count then iovMax else count;
      var partial;
      w, n, partial, status, later := WriteSome(writev, m, replies, vecs, es);
      TurnCut(writev, vecs, m, replies);
      if partial.Some? {
        SetVec(n, partial.value, vecs, es);
        vecs := vecs[n := partial.value];
        assert vecs[n..] == [partial.value] + log.vecs[n + 1..];
      }
      CutBytes(log.vecs, w, n, vecs[n..]);
      Settle(n, w, vecs, vecs[n..]);
    }

    /** hp_wr_write: batches of at most IOV_MAX items until the queue is empty or the
        kernel refuses; `writev` is the build option. In both builds it is the call the
        kernel's replies determine, and one flush of `out` bytes and `n` items; status 0
        means an empty queue, and any other that bytes are left, except that without
        writev an empty last item can make an error of nothing. */
    method Write(writev: bool, iovMaxConf: int, replies: seq<Reply>) returns (out: nat, ghost n: nat, status: int)
      requires Valid()
      modifies this, items
      ensures Valid() && items == old(items)
      ensures WriteCall(writev, old(log).vecs, IovMax(iovMaxConf), replies) == CallResult(out, log.vecs, status)
      ensures Flushed(old(log), out, n, log)
      ensures status == 0 ==> count == 0
      ensures status != 0 && (writev || LastHolds(old(log).vecs)) ==> out < |Flat(old(log).vecs)|
      ensures err == if status == 0 || status == EAGAIN then old(err) else status
    {
      ghost var s := log;
      out, n, status := WriteLoop(writev, IovMax(iovMaxConf), replies);
      CallEnds(writev, s, IovMax(iovMaxConf), replies, out, n, log, status);
      NoteError(status);
    }

    /** Only a real error is recorded. */
    method NoteError(status: int)
      requires Represents()
      modifies this`err
      ensures Represents()
      ensures err == if status == 0 || status == EAGAIN then old(err) else status
    {
      if status != 0 && status != EAGAIN {
        err := status;
      }
    }

    method WriteLoop(writev: bool, iovMax: nat, replies: seq<Reply>) returns (out: nat, ghost n: nat, status: int)
      requires Represents() && iovMax > 0
      modifies this, items
      ensures Represents() && items == old(items) && err == old(err)
      ensures Flushed(old(log), out, n, log)
      ensures WriteCall(writev, old(log).vecs, iovMax, replies) == CallResult(out, log.vecs, status)
    {
      ghost var s := log;
      out, n, status := 0, 0, 0;
      var later := replies;
      FlushNothing(s);
      while count > 0 && status == 0
        invariant Represents() && items == old(items) && err == old(err)
        invariant Progress(s, writev, iovMax, replies, out, n, log, status, later)
        decreases count, status == 0
      {
        ghost var before, later0 := log, later;
        var w, k;
        w, k, status, later := Batch(writev, iovMax, later);
        TurnEnds(writev, before.vecs, iovMax, later0, w, log.vecs, status, later);
        ghost var out0, n0 := out, n;
        out, n := out + w, n + k;
        ProgressOn(s, writev, iovMax, replies, out0, n0, before, later0, w, k, log, status, later, out, n);
      }
    }
  }

  /** A call under way: so far one flush, and what is to come is a call of its own. */
  ghost predicate Progress(s: State, writev: bool, iovMax: nat, replies: seq<Reply>,
                           out: nat, n: nat, t: State, status: int, later: seq<Reply>)
    requires iovMax > 0
  {
    && Flushed(s, out, n, t)
    && CallStands(writev, s.vecs, iovMax, replies, out, t.vecs, status, later)
  }

  lemma ProgressOn(s: State, writev: bool, iovMax: nat, replies: seq<Reply>,
                   out: nat, n: nat, t: State, later: seq<Reply>,
                   w: nat, k: nat, u: State, status: int, rest: seq<Reply>, out2: nat, n2: nat)
    requires iovMax > 0 && t.vecs != [] && Progress(s, writev, iovMax, replies, out, n, t, 0, later)
    requires Flushed(t, w, k, u) && TurnIs(writev, t.vecs, iovMax, later, w, u.vecs, status, rest)
    requires out2 == out + w && n2 == n + k
    ensures Progress(s, writev, iovMax, replies, out2, n2, u, status, rest)
  {
    FlushCompose(s, out, n, t, w, k, u, out2, n2);
    CallGoesOn(writev, s.vecs, iovMax, replies, out, t.vecs, later, w, u.vecs, status, rest, out2);
  }

  lemma CallEnds(writev: bool, s: State, iovMax: nat, replies: seq<Reply>, out: nat, n: nat, t: State, status: int)
    requires Inv(s) && Flushed(s, out, n, t) && iovMax > 0
    requires WriteCall(writev, s.vecs, iovMax, replies) == CallResult(out, t.vecs, status)
    ensures Inv(t)
    ensures status == 0 ==> t.vecs == []
    ensures status != 0 && (writev || LastHolds(s.vecs)) ==> out < |Flat(s.vecs)|
  {
    FlushKeepsInv(s, out, n);
    CallReports(writev, s.vecs, iovMax, replies);
  }

  /** A turn without an error takes its blocks off the queue. */
  lemma TurnEnds(writev: bool, vs: seq<Iov>, iovMax: nat, replies: seq<Reply>,
                 w: nat, left: seq<Iov>, status: int, later: seq<Reply>)
    requires iovMax > 0 && vs != [] && TurnIs(writev, vs, iovMax, replies, w, left, status, later)
    ensures status == 0 ==> |left| < |vs|
  {}

  /** sysconf's limit, or the built-in one. */
  function IovMax(conf: int): (m: nat)
    ensures m > 0 && (conf > 0 ==> m == conf) && (conf <= 0 ==> m == 1024)
  {
    if conf <= 0 then 1024 else conf
  }

  /** One batch of a call. */
  ghost predicate TurnIs(writev: bool, vs: seq<Iov>, iovMax: nat, replies: seq<Reply>,
                         w: nat, left: seq<Iov>, status: int, later: seq<Reply>) {
    var r := WriteTurn(writev, vs[..Min(iovMax, |vs|)], replies);
    w == r.w && left == Left(vs, r.n, r.partial) && status == r.err && later == r.later
  }

  /** A call that has written `out` bytes and has `left` in the queue. */
  ghost predicate CallStands(writev: bool, vs: seq<Iov>, iovMax: nat, replies: seq<Reply>,
                             out: nat, left: seq<Iov>, status: int, later: seq<Reply>)
    requires iovMax > 0
  {
    var c := WriteCall(writev, vs, iovMax, replies);
    if status != 0 then c == CallResult(out, left, status)
    else
      var more := WriteCall(writev, left, iovMax, later);
      c == more.(out := out + more.out)
  }

  lemma CallGoesOn(writev: bool, vs: seq<Iov>, iovMax: nat, replies: seq<Reply>,
                   out: nat, left: seq<Iov>, later: seq<Reply>,
                   w: nat, left2: seq<Iov>, status: int, later2: seq<Reply>, out2: nat)
    requires out2 == out + w && iovMax > 0 && left != [] && CallStands(writev, vs, iovMax, replies, out, left, 0, later)
    requires TurnIs(writev, left, iovMax, later, w, left2, status, later2)
    ensures CallStands(writev, vs, iovMax, replies, out2, left2, status, later2)
  {}

  lemma FlushNothing(s: State)
    requires s.done + |s.vecs| == |s.added|
    ensures Flushed(s, 0, 0, s)
  {
    CutNothing(s.vecs);
    assert Flat(s.vecs)[..0] == [];
    assert Flush(s, 0, 0) == s;
  }
}
