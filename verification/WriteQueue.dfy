/** The output queue of src/hp_io.c as a value: items are appended, flushed to a descriptor
    by writes that may stop at any byte, released when sent, or cleared; and what holds
    over every run of these steps. */
module WriteQueue {
  import opened Common
  import opened IoVectors

  /** What a caller hands to hp_wr_add: the bytes, and whether a free callback comes with them. */
  datatype Entry = Entry(bytes: seq<Byte>, hasFree: bool)

  /** Everything the entries carry, in order. */
  function Stream(es: seq<Entry>): seq<Byte> {
    if es == [] then [] else es[0].bytes + Stream(es[1..])
  }

  lemma {:induction false} StreamAppend(a: seq<Entry>, b: seq<Entry>)
    ensures Stream(a + b) == Stream(a) + Stream(b)
  {
    if a == [] {
      assert a + b == b;
    } else {
      StreamAppend(a[1..], b);
      assert (a + b)[1..] == a[1..] + b;
      Assoc(a[0].bytes, Stream(a[1..]), Stream(b));
    }
  }

  /** The tickets in [lo, hi) whose entry came with a free callback, ascending. */
  function Owned(es: seq<Entry>, lo: nat, hi: nat): (r: seq<nat>)
    requires lo <= hi <= |es|
    ensures forall t :: t in r ==> lo <= t < hi
    decreases hi
  {
    if lo == hi then []
    else Owned(es, lo, hi - 1) + (if es[hi - 1].hasFree then [hi - 1] else [])
  }

  lemma {:induction false} OwnedSplit(es: seq<Entry>, lo: nat, mid: nat, hi: nat)
    requires lo <= mid <= hi <= |es|
    ensures Owned(es, lo, hi) == Owned(es, lo, mid) + Owned(es, mid, hi)
  {
    if mid < hi {
      OwnedSplit(es, lo, mid, hi - 1);
      Assoc(Owned(es, lo, mid), Owned(es, mid, hi - 1), if es[hi - 1].hasFree then [hi - 1] else []);
    }
  }

  lemma {:induction false} OwnedPrefix(es: seq<Entry>, more: seq<Entry>, lo: nat, hi: nat)
    requires lo <= hi <= |es|
    ensures Owned(es + more, lo, hi) == Owned(es, lo, hi)
  {
    if lo < hi {
      OwnedPrefix(es, more, lo, hi - 1);
    }
  }

  /** How often t occurs. */
  function Times(s: seq<nat>, t: nat): nat {
    if s == [] then 0 else Times(s[..|s| - 1], t) + if s[|s| - 1] == t then 1 else 0
  }

  lemma {:induction false} TimesIsCount(s: seq<nat>, t: nat)
    ensures Times(s, t) == multiset(s)[t]
  {
    if s != [] {
      var front := s[..|s| - 1];
      TimesIsCount(front, t);
      assert s == front + [s[|s| - 1]];
    }
  }

  lemma TimesSnoc(s: seq<nat>, x: nat, t: nat)
    ensures Times(s + [x], t) == Times(s, t) + if x == t then 1 else 0
  {
    assert (s + [x])[..|s|] == s;
  }

  /** Each owned ticket occurs exactly once. */
  lemma {:induction false} OwnedOnce(es: seq<Entry>, lo: nat, hi: nat, t: nat)
    requires lo <= hi <= |es|
    ensures Times(Owned(es, lo, hi), t) == if lo <= t < hi && es[t].hasFree then 1 else 0
    decreases hi
  {
    if lo < hi {
      var front := Owned(es, lo, hi - 1);
      OwnedOnce(es, lo, hi - 1, t);
      TimesSnoc(front, hi - 1, t);
      assert front + [] == front;
    }
  }

  /** The queue together with its history. `vecs[i]` is what is left of the entry
      with ticket `done + i`:
      - added: every entry ever added, ticket by ticket
      - done: how many items have been released
      - accepted: every byte the descriptor took
      - freed: the tickets whose free callback ran, in call order
      - floor, base: number of entries, and bytes accepted, at the last clear */
  datatype State = State(
    added: seq<Entry>,
    done: nat,
    vecs: seq<Iov>,
    accepted: seq<Byte>,
    freed: seq<nat>,
    oBytes: nat,
    cap: nat,
    initCap: nat,
    floor: nat,
    base: seq<Byte>)

  function Init(n: int): State {
    var c := if n <= 0 then 8 else n;
    State([], 0, [], [], [], 0, c, c, 0, [])
  }

  /** hp_wr_add: doubling when nearly full, halving when nearly empty. */
  function Resized(cap: nat, count: nat, initCap: nat): nat {
    if cap - count <= 3 then cap * 2
    else if cap > initCap && count + 2 < cap / 2 then cap / 2
    else cap
  }

  function Add(s: State, e: Entry): State {
    s.(added := s.added + [e],
    vecs := s.vecs + [IovRec(e.bytes, 0, |e.bytes|)],
    cap := Resized(s.cap, |s.vecs|, s.initCap))
  }

  ghost predicate CanFlush(s: State, k: nat, n: nat) {
    s.done + |s.vecs| == |s.added| && n <= |s.vecs| && k <= |Flat(s.vecs)| && Cut(s.vecs, k, n).Some?
  }

  /** The descriptor takes `k` bytes and the first `n` items, all sent, are released. */
  ghost function Flush(s: State, k: nat, n: nat): State
    requires CanFlush(s, k, n)
  {
    s.(done := s.done + n,
    vecs := Cut(s.vecs, k, n).value,
    accepted := s.accepted + Flat(s.vecs)[..k],
    freed := s.freed + Owned(s.added, s.done, s.done + n),
    oBytes := s.oBytes + k)
  }

  function Clear(s: State): State
    requires s.done <= |s.added|
  {
    s.(done := |s.added|, vecs := [],
    freed := s.freed + Owned(s.added, s.done, |s.added|),
    floor := |s.added|, base := s.accepted)
  }

  ghost function TryFlush(s: State, k: nat, n: nat): Option<State> {
    if CanFlush(s, k, n) then Some(Flush(s, k, n)) else None
  }

  ghost predicate Flushed(s: State, k: nat, n: nat, t: State) {
    TryFlush(s, k, n) == Some(t)
  }

  /** The same field by field. */
  ghost predicate FlushedFields(s: State, k: nat, n: nat, t: State) {
    && s.done + |s.vecs| == |s.added| && CutTo(s.vecs, k, n, t.vecs) && n <= |s.vecs| && k <= |Flat(s.vecs)|
    && t.done == s.done + n && t.oBytes == s.oBytes + k
    && t.accepted == s.accepted + Flat(s.vecs)[..k]
    && t.freed == s.freed + Owned(s.added, s.done, s.done + n)
    && t.added == s.added && t.cap == s.cap && t.initCap == s.initCap && t.floor == s.floor && t.base == s.base
  }

  lemma FlushedByField(s: State, k: nat, n: nat, t: State)
    ensures Flushed(s, k, n, t) <==> FlushedFields(s, k, n, t)
  {}

  /** The fields after a flush. */
  lemma FlushLeaves(s: State, k: nat, n: nat, rest: seq<Iov>, t: State)
    requires CanFlush(s, k, n) && CutTo(s.vecs, k, n, rest) && t == Flush(s, k, n)
    ensures Flushed(s, k, n, t) && t.vecs == rest && t.done == s.done + n && t.added == s.added
    ensures t.freed == s.freed + Owned(s.added, s.done, s.done + n) && t.oBytes == s.oBytes + k
    ensures t.cap == s.cap && t.initCap == s.initCap
  {}

  /** A flush interrupted and resumed is one flush. */
  lemma FlushCompose(s: State, k1: nat, n1: nat, t: State, k2: nat, n2: nat, u: State, k: nat, n: nat)
    requires Flushed(s, k1, n1, t) && Flushed(t, k2, n2, u)
    requires k == k1 + k2 && n == n1 + n2
    ensures Flushed(s, k, n, u)
  {
    FlushedByField(s, k1, n1, t);
    FlushedByField(t, k2, n2, u);
    ComposeFields(s, k1, n1, t, k2, n2, u, k, n);
    FlushedByField(s, k, n, u);
  }

  lemma ComposeFields(s: State, k1: nat, n1: nat, t: State, k2: nat, n2: nat, u: State, k: nat, n: nat)
    requires FlushedFields(s, k1, n1, t) && FlushedFields(t, k2, n2, u)
    requires k == k1 + k2 && n == n1 + n2
    ensures FlushedFields(s, k, n, u)
  {
    CutCompose(s.vecs, k1, n1, t.vecs, k2, n2, u.vecs, k, n);
    CutShape(s.vecs, k, n, u.vecs);
    CutBytes(s.vecs, k1, n1, t.vecs);
    CutBytes(s.vecs, k, n, u.vecs);
    TakeTwice(s.accepted, Flat(s.vecs), k1, k2, k);
    FreedTwice(s.freed, s.added, s.done, n1, n2, n);
  }

  lemma FreedTwice(freed: seq<nat>, es: seq<Entry>, lo: nat, n1: nat, n2: nat, n: nat)
    requires n == n1 + n2 && lo + n <= |es|
    ensures (freed + Owned(es, lo, lo + n1)) + Owned(es, lo + n1, lo + n1 + n2) == freed + Owned(es, lo, lo + n)
  {
    OwnedSplit(es, lo, lo + n1, lo + n);
    Assoc(freed, Owned(es, lo, lo + n1), Owned(es, lo + n1, lo + n));
  }

  lemma TakeTwice(a: seq<Byte>, b: seq<Byte>, k1: nat, k2: nat, k: nat)
    requires k == k1 + k2 <= |b|
    ensures (a + b[..k1]) + b[k1..][..k2] == a + b[..k]
  {}

  // ---------- runs ----------

  ghost predicate Step(s: State, t: State) {
    || (exists e :: t == Add(s, e))
    || (exists k, n :: Flushed(s, k, n, t))
    || (s.done <= |s.added| && t == Clear(s))
  }

  ghost predicate Run(states: seq<State>, n: int) {
    && states != [] && states[0] == Init(n)
    && forall i :: 0 <= i < |states| - 1 ==> Step(states[i], states[i + 1])
  }

  /** Queued items are the newest entries, and only the first may be part-sent. */
  ghost predicate ShapeOk(s: State) {
    && s.floor <= s.done
    && s.done + |s.vecs| == |s.added|
    && (forall i :: 0 <= i < |s.vecs| ==> s.vecs[i].block == s.added[s.done + i].bytes)
    && (forall i :: 0 < i < |s.vecs| ==> s.vecs[i].base == 0)
  }

  /** Nothing is lost, duplicated or reordered, and the byte counter is exact. */
  ghost predicate FlowOk(s: State) {
    && s.floor <= |s.added|
    && s.accepted + Flat(s.vecs) == s.base + Stream(s.added[s.floor..])
    && s.base <= s.accepted
    && s.oBytes == |s.accepted|
  }

  ghost predicate OwnershipOk(s: State) {
    s.done <= |s.added| && s.freed == Owned(s.added, 0, s.done)
  }

  ghost predicate CapacityOk(s: State) {
    && |s.vecs| <= s.cap && s.initCap >= 1
    && exists j: nat :: s.cap == s.initCap * Pow2(j)
  }

  ghost predicate Inv(s: State) {
    ShapeOk(s) && FlowOk(s) && OwnershipOk(s) && CapacityOk(s)
  }

  // Conservation, ownership and capacity survive every step.

  lemma ResizeCapacity(cap: nat, count: nat, initCap: nat, j: nat)
    requires count <= cap == initCap * Pow2(j) && initCap >= 1
    ensures count < Resized(cap, count, initCap)
    ensures Resized(cap, count, initCap) >= initCap
    ensures exists i: nat :: Resized(cap, count, initCap) == initCap * Pow2(i)
    ensures Resized(cap, count, initCap) in {cap, 2 * cap} || 2 * Resized(cap, count, initCap) == cap
  {
    if cap - count <= 3 {
      assert initCap * Pow2(j + 1) == 2 * cap;
    } else if cap > initCap && count + 2 < cap / 2 {
      HalfIsPower(cap, initCap, j);
    }
  }

  lemma HalfIsPower(cap: nat, initCap: nat, j: nat)
    requires cap == initCap * Pow2(j) && cap > initCap >= 1
    ensures j > 0 && cap / 2 == initCap * Pow2(j - 1) && 2 * (cap / 2) == cap && cap / 2 >= initCap
  {
    assert Pow2(0) == 1 && j > 0;
    var p := Pow2(j - 1);
    assert cap == 2 * (initCap * p) && initCap * p >= initCap;
  }

  /** An add puts the whole entry, callback and all, behind what is queued; nothing is
      sent or released. */
  lemma AddMeans(s: State, e: Entry)
    ensures var t := Add(s, e);
            && t.added == s.added + [e] && Flat(t.vecs) == Flat(s.vecs) + e.bytes && |t.vecs| == |s.vecs| + 1
            && t.done == s.done && t.freed == s.freed && t.accepted == s.accepted && t.oBytes == s.oBytes
            && t.floor == s.floor && t.base == s.base && t.initCap == s.initCap
  {
    var v := IovRec(e.bytes, 0, |e.bytes|);
    FlatAppend(s.vecs, [v]);
    assert Flat([v]) == e.bytes;
  }

  /** The allocation is doubled exactly with three slots left or fewer, and halved exactly
      if it is above the initial size, less than half of it would be used by two items
      more, and it is not doubled. */
  lemma ResizedExactly(cap: nat, count: nat, initCap: nat)
    requires cap > 0
    ensures Resized(cap, count, initCap) == 2 * cap <==> cap <= count + 3
    ensures Resized(cap, count, initCap) < cap <==> cap > count + 3 && cap > initCap && count + 2 < cap / 2
    ensures Resized(cap, count, initCap) < cap ==> Resized(cap, count, initCap) == cap / 2
    ensures Resized(cap, count, initCap) in {2 * cap, cap, cap / 2}
  {}

  lemma AddFlow(s: State, e: Entry)
    requires FlowOk(s)
    ensures FlowOk(Add(s, e))
  {
    var v := IovRec(e.bytes, 0, |e.bytes|);
    FlatAppend(s.vecs, [v]);
    assert Flat([v]) == e.bytes;
    assert (s.added + [e])[s.floor..] == s.added[s.floor..] + [e];
    StreamAppend(s.added[s.floor..], [e]);
    assert Stream([e]) == e.bytes;
    BothGrow(s.accepted, Flat(s.vecs), s.base, Stream(s.added[s.floor..]), e.bytes);
  }

  lemma BothGrow(a: seq<Byte>, f: seq<Byte>, b: seq<Byte>, x: seq<Byte>, e: seq<Byte>)
    requires a + f == b + x
    ensures a + (f + e) == b + (x + e)
  {
    Assoc(a, f, e);
    Assoc(b, x, e);
  }

  lemma AddKeepsInv(s: State, e: Entry)
    requires Inv(s)
    ensures Inv(Add(s, e))
  {
    assert FlowOk(Add(s, e)) by { AddFlow(s, e); }
    assert OwnershipOk(Add(s, e)) by { OwnedPrefix(s.added, [e], 0, s.done); }
    var j: nat :| s.cap == s.initCap * Pow2(j);
    ResizeCapacity(s.cap, |s.vecs|, s.initCap, j);
  }

  lemma FlushFlow(s: State, k: nat, n: nat)
    requires FlowOk(s) && CanFlush(s, k, n)
    ensures FlowOk(Flush(s, k, n))
  {
    CutBytes(s.vecs, k, n, Cut(s.vecs, k, n).value);
    var f := Flat(s.vecs);
    assert s.accepted + f[..k] + f[k..] == s.accepted + f;
  }

  lemma FlushKeepsInv(s: State, k: nat, n: nat)
    requires Inv(s) && CanFlush(s, k, n)
    ensures Inv(Flush(s, k, n))
  {
    var t := Flush(s, k, n);
    assert FlowOk(t) by { FlushFlow(s, k, n); }
    assert OwnershipOk(t) by { OwnedSplit(s.added, 0, s.done, s.done + n); }
    assert ShapeOk(t) by { FlushShape(s, k, n); }
  }

  lemma FlushShape(s: State, k: nat, n: nat)
    requires ShapeOk(s) && CanFlush(s, k, n)
    ensures ShapeOk(Flush(s, k, n)) && |Flush(s, k, n).vecs| <= |s.vecs|
  {
    CutShape(s.vecs, k, n, Flush(s, k, n).vecs);
  }

  lemma ClearKeepsInv(s: State)
    requires Inv(s)
    ensures Inv(Clear(s))
  {
    OwnedSplit(s.added, 0, s.done, |s.added|);
    assert s.added[|s.added|..] == [];
  }

  lemma StepKeepsInv(s: State, t: State)
    requires Inv(s) && Step(s, t)
    ensures Inv(t)
  {
    if e :| t == Add(s, e) {
      AddKeepsInv(s, e);
    } else if k, n :| Flushed(s, k, n, t) {
      FlushKeepsInv(s, k, n);
    } else {
      ClearKeepsInv(s);
    }
  }

  lemma InitInv(n: int)
    ensures Inv(Init(n))
  {
    var s := Init(n);
    assert s.cap == s.initCap * Pow2(0);
  }

  lemma {:induction false} RunInv(states: seq<State>, n: int, i: nat)
    requires Run(states, n) && i < |states|
    ensures Inv(states[i])
  {
    if i == 0 {
      InitInv(n);
    } else {
      RunInv(states, n, i - 1);
      StepKeepsInv(states[i - 1], states[i]);
    }
  }

  // ---------- what a run promises ----------

  /** Stream conservation, for every run: since the last clear, the accepted bytes
      followed by the unsent ones are everything added, and the two byte counts
      add up to the total. */
  lemma Conservation(states: seq<State>, n: int, i: nat)
    requires Run(states, n) && i < |states|
    ensures var s := states[i];
            && s.floor <= |s.added| && s.base <= s.accepted
            && s.accepted[|s.base|..] + Flat(s.vecs) == Stream(s.added[s.floor..])
            && s.oBytes + |Flat(s.vecs)| == |s.base| + |Stream(s.added[s.floor..])|
  {
    RunInv(states, n, i);
    var s := states[i];
    assert (s.accepted + Flat(s.vecs))[|s.base|..] == s.accepted[|s.base|..] + Flat(s.vecs);
    assert (s.base + Stream(s.added[s.floor..]))[|s.base|..] == Stream(s.added[s.floor..]);
  }

  lemma {:induction false} FlatBound(vecs: seq<Iov>, es: seq<Entry>)
    requires |vecs| == |es|
    requires forall i :: 0 <= i < |vecs| ==> vecs[i].block == es[i].bytes
    ensures |Flat(vecs)| <= |Stream(es)|
  {
    if vecs != [] {
      FlatBound(vecs[1..], es[1..]);
    }
  }

  lemma StreamSplit(es: seq<Entry>, lo: nat, mid: nat)
    requires lo <= mid <= |es|
    ensures Stream(es[lo..]) == Stream(es[lo..mid]) + Stream(es[mid..])
  {
    assert es[lo..] == es[lo..mid] + es[mid..];
    StreamAppend(es[lo..mid], es[mid..]);
  }

  /** Ownership, for every run: a free callback has run for ticket t exactly once
      if t has been released and came with one, and never otherwise; and unless t
      was already added when the queue was last cleared, every byte up to the end
      of t had by then been accepted. */
  lemma FreedOnceAndOnlyWhenSent(states: seq<State>, n: int, i: nat, t: nat)
    requires Run(states, n) && i < |states| && t < |states[i].added|
    ensures FreedOnce(states[i], t) && SentBeforeRelease(states[i], t)
  {
    RunInv(states, n, i);
    InvFreedOnce(states[i], t);
    InvSentBeforeRelease(states[i], t);
  }

  ghost predicate FreedOnce(s: State, t: nat)
    requires t < |s.added|
  {
    multiset(s.freed)[t] == if t < s.done && s.added[t].hasFree then 1 else 0
  }

  ghost predicate SentBeforeRelease(s: State, t: nat)
    requires t < |s.added|
  {
    s.floor <= t < s.done ==> |s.base| + |Stream(s.added[s.floor..t + 1])| <= |s.accepted|
  }

  lemma InvFreedOnce(s: State, t: nat)
    requires OwnershipOk(s) && t < |s.added|
    ensures FreedOnce(s, t)
  {
    OwnedOnce(s.added, 0, s.done, t);
    TimesIsCount(s.freed, t);
  }

  lemma InvSentBeforeRelease(s: State, t: nat)
    requires ShapeOk(s) && FlowOk(s) && t < |s.added|
    ensures SentBeforeRelease(s, t)
  {
    if s.floor <= t < s.done {
      assert |s.accepted + Flat(s.vecs)| == |s.base + Stream(s.added[s.floor..])|;
      UnsentBound(s, t);
      StreamSplit(s.added, s.floor, t + 1);
    }
  }

  lemma UnsentBound(s: State, t: nat)
    requires ShapeOk(s) && t < s.done
    ensures |Flat(s.vecs)| <= |Stream(s.added[t + 1..])|
  {
    FlatBound(s.vecs, s.added[s.done..]);
    StreamSplit(s.added, t + 1, s.done);
  }

  /** After a clear, every entry ever added that came with a free callback has been
      freed exactly once, and nothing is queued. */
  lemma ClearReleasesAll(states: seq<State>, n: int, i: nat, t: nat)
    requires Run(states, n) && i < |states| && t < |states[i].added|
    ensures var s := states[i];
            && s.done <= |s.added| && Clear(s).vecs == []
            && multiset(Clear(s).freed)[t] == if s.added[t].hasFree then 1 else 0
  {
    RunInv(states, n, i);
    ClearKeepsInv(states[i]);
    InvFreedOnce(Clear(states[i]), t);
  }

  /** The slot hp_wr_add writes is inside the allocation it has just chosen, the
      allocation is the initial size times a power of two, never below the initial
      size, and a halving is undone by the next doubling. */
  ghost predicate NextCapacityOk(s: State, c: nat) {
    && |s.vecs| <= s.cap
    && |s.vecs| < c && c >= s.initCap
    && (exists j: nat :: c == s.initCap * Pow2(j))
    && (c == s.cap || c == 2 * s.cap || 2 * c == s.cap)
  }

  lemma InvNextCapacity(s: State)
    requires CapacityOk(s)
    ensures NextCapacityOk(s, Resized(s.cap, |s.vecs|, s.initCap))
  {
    var j: nat :| s.cap == s.initCap * Pow2(j);
    ResizeCapacity(s.cap, |s.vecs|, s.initCap, j);
  }

  /** Capacity, for every run and every next add. */
  lemma CapacitySafe(states: seq<State>, n: int, i: nat, e: Entry)
    requires Run(states, n) && i < |states|
    ensures NextCapacityOk(states[i], Add(states[i], e).cap)
  {
    RunInv(states, n, i);
    InvNextCapacity(states[i]);
  }
}
