/** Writing a vector to a descriptor: the retry loops of src/hp_io.c, with writev and
    without, for every series of replies the kernel may give. */
module KernelWrites {
  import opened Common
  import opened IoVectors

  const EINTR := 4
  const EIO := 5
  const EAGAIN := 11

  /** What the kernel has in store for the writes of a call, one reply each. */
  datatype Reply = Reply(w: int, errno: int)

  /** The reply to a write of `offered` bytes: any part of them was taken, or the write
      was refused with an errno. Only a write of nothing may leave a stale errno of 0. */
  function Answer(offered: nat, replies: seq<Reply>): (r: Reply)
    ensures r.w <= offered
    ensures r.w <= 0 < offered ==> r.errno != 0
  {
    var r := if replies == [] then Reply(-1, EAGAIN) else replies[0];
    if r.w > offered then r.(w := offered)
    else if r.w <= 0 < offered && r.errno == 0 then r.(errno := EIO)
    else r
  }

  function Later(replies: seq<Reply>): seq<Reply> {
    if replies == [] then [] else replies[1..]
  }

  /** How a write that took nothing is reported. */
  function Classify(w: int, errno: int): (err: int)
    requires w <= 0
    ensures err == 0 <==> errno == 0
    ensures err == EAGAIN <==> w < 0 && errno in {EINTR, EAGAIN}
    ensures errno !in {EINTR, EAGAIN} ==> err == errno
  {
    if w < 0 && (errno == EINTR || errno == EAGAIN) then EAGAIN
    else if errno != EINTR && errno != EAGAIN then errno
    else EIO
  }

  // ---------- the loop of both builds, over byte counts ----------

  datatype BlockResult = BlockResult(w: nat, err: int, later: seq<Reply>)

  /** hp_uio_write and hp_wr_do_write: bytes written until they are out or the kernel
      refuses; what is out, the error, and the replies not used. */
  function WriteBlock(bytes: nat, replies: seq<Reply>): (r: BlockResult)
    ensures r.w <= bytes
    ensures r.w < bytes ==> r.err != 0
    ensures r.w == bytes > 0 ==> r.err == 0
    decreases bytes
  {
    var a := Answer(bytes, replies);
    if a.w <= 0 then BlockResult(0, Classify(a.w, a.errno), Later(replies))
    else if a.w == bytes then BlockResult(bytes, 0, Later(replies))
    else
      var r := WriteBlock(bytes - a.w, Later(replies));
      r.(w := a.w + r.w)
  }

  function Sum(replies: seq<Reply>): int {
    if replies == [] then 0 else replies[0].w + Sum(replies[1..])
  }

  /** The first j replies all take something. */
  ghost predicate Take(replies: seq<Reply>, j: nat) {
    j <= |replies| && forall i :: 0 <= i < j ==> replies[i].w > 0
  }

  /** The error for the reply that takes nothing; having no reply is EAGAIN. */
  ghost predicate ErrorOf(replies: seq<Reply>, j: nat, err: int)
    requires j <= |replies|
  {
    if j == |replies| then err == EAGAIN
    else if replies[j].errno in {EINTR, EAGAIN} then err == if replies[j].w < 0 then EAGAIN else EIO
    else err == if replies[j].errno == 0 then EIO else replies[j].errno
  }

  /** The first j replies take something, but less than all, and then reply j takes the
      rest, or nothing. */
  ghost predicate Decides(bytes: nat, replies: seq<Reply>, j: nat, r: BlockResult) {
    && Take(replies, j) && Sum(replies[..j]) < bytes
    && if Take(replies, j + 1) then Sum(replies[..j + 1]) >= bytes && r == BlockResult(bytes, 0, replies[j + 1..])
       else r.w == Sum(replies[..j]) && ErrorOf(replies, j, r.err) && r.later == Unused(replies, j)
  }

  function Unused(replies: seq<Reply>, j: nat): seq<Reply>
    requires j <= |replies|
  {
    if j == |replies| then [] else replies[j + 1..]
  }

  /** For all replies: what is out is the sum of what the replies take up to the first
      that takes nothing, or everything; the error is that reply's, or 0; and the replies
      behind the one that decides are left. */
  lemma {:induction false} WriteMeans(bytes: nat, replies: seq<Reply>)
    requires bytes > 0
    ensures exists j: nat :: Decides(bytes, replies, j, WriteBlock(bytes, replies))
    decreases bytes
  {
    var a := Answer(bytes, replies);
    if 0 < a.w < bytes {
      var r := WriteBlock(bytes - a.w, replies[1..]);
      WriteMeans(bytes - a.w, replies[1..]);
      var j: nat :| Decides(bytes - a.w, replies[1..], j, r);
      DecidesLater(bytes, replies, j, r);
      assert Decides(bytes, replies, j + 1, WriteBlock(bytes, replies));
    } else {
      DecidesNow(bytes, replies, WriteBlock(bytes, replies));
    }
  }

  lemma DecidesNow(bytes: nat, replies: seq<Reply>, r: BlockResult)
    requires bytes > 0 && (replies == [] || !(0 < replies[0].w < bytes))
    requires var a := Answer(bytes, replies);
             r == if a.w <= 0 then BlockResult(0, Classify(a.w, a.errno), Later(replies))
             else BlockResult(bytes, 0, Later(replies))
    ensures Decides(bytes, replies, 0, r)
  {
    assert replies[..0] == [];
    if replies != [] {
      SumOne(replies);
    }
  }

  lemma SumOne(replies: seq<Reply>)
    requires replies != []
    ensures Sum(replies[..1]) == replies[0].w
  {
    assert replies[..1][1..] == [];
  }

  lemma DecidesLater(bytes: nat, replies: seq<Reply>, j: nat, r: BlockResult)
    requires replies != [] && 0 < replies[0].w < bytes && Decides(bytes - replies[0].w, replies[1..], j, r)
    ensures Decides(bytes, replies, j + 1, r.(w := replies[0].w + r.w))
  {
    SumCons(replies, j);
    TakeCons(replies, j);
    TakeCons(replies, j + 1);
    if Take(replies[1..], j + 1) {
      SumCons(replies, j + 1);
    }
  }

  lemma SumCons(replies: seq<Reply>, j: nat)
    requires j < |replies|
    ensures Sum(replies[..j + 1]) == replies[0].w + Sum(replies[1..][..j])
  {
    assert replies[..j + 1][1..] == replies[1..][..j];
  }

  lemma TakeCons(replies: seq<Reply>, j: nat)
    requires replies != [] && replies[0].w > 0
    ensures Take(replies, j + 1) <==> Take(replies[1..], j)
  {
    if Take(replies[1..], j) {
      forall i | 0 <= i < j + 1
        ensures replies[i].w > 0
      {
        assert i > 0 ==> replies[i] == replies[1..][i - 1];
      }
    }
    if Take(replies, j + 1) {
      forall i | 0 <= i < j
        ensures replies[1..][i].w > 0
      {
        assert replies[1..][i] == replies[i + 1];
      }
    }
  }

  // ---------- with writev, on the vector ----------

  /** before_writev: after `w` bytes left the vector from `start` on, find the block
      the next byte is in and move its base. */
  method BeforeWritev(vec: array<Iov>, w: nat, start: nat) returns (n: nat)
    requires start <= vec.Length && w < |Flat(vec[start..])|
    modifies vec
    ensures start <= n < vec.Length && vec[n].len > 0
    ensures CutTo(old(vec[start..]), w, n - start, vec[n..])
  {
    ghost var vs := vec[start..];
    var r;
    n, r := FindBlock(vec, w, start, vs);
    var left := r - w;
    CutHere(vs, w, n - start, r, left);
    assert vec[n + 1..] == vs[n - start + 1..];
    MoveBase(vec, n, left);
  }

  method MoveBase(vec: array<Iov>, n: nat, left: nat)
    requires n < vec.Length && left <= vec[n].len
    modifies vec
    ensures vec[n].len == left
    ensures vec[n..] == old([IovRec(vec[n].block, vec[n].base + vec[n].len - left, left)] + vec[n + 1..])
  {
    vec[n] := IovRec(vec[n].block, vec[n].base + vec[n].len - left, left);
  }

  /** The loop: block n is the one in which the sum of lengths passes w, and r the sum. */
  method FindBlock(vec: array<Iov>, w: nat, start: nat, ghost vs: seq<Iov>) returns (n: nat, r: nat)
    requires start <= vec.Length && vs == vec[start..] && w < |Flat(vs)|
    ensures start <= n < vec.Length && vs[n - start] == vec[n]
    ensures |Flat(vs[..n - start])| <= w < |Flat(vs[..n + 1 - start])| == r
  {
    r, n := 0, start;
    assert vs[..0] == [] && vs[..|vs|] == vs;
    while r <= w
      invariant start <= n <= vec.Length
      invariant r == |Flat(vs[..n - start])|
      invariant r > w ==> n > start && |Flat(vs[..n - 1 - start])| <= w
      decreases vec.Length - n
    {
      FlatSnoc(vs, 0, n - start);
      r := r + vec[n].len;
      n := n + 1;
    }
    n := n - 1;
  }

  lemma CutHere(vs: seq<Iov>, w: nat, n: nat, r: nat, left: nat)
    requires n < |vs| && |Flat(vs[..n])| <= w < |Flat(vs[..n + 1])| == r && left == r - w
    ensures left <= vs[n].len
    ensures CutTo(vs, w, n, [IovRec(vs[n].block, vs[n].base + vs[n].len - left, left)] + vs[n + 1..])
  {
    FlatSnoc(vs, 0, n);
    CutAt(vs, n, w - |Flat(vs[..n])|);
  }

  /** hp_uio_write: writes until everything is out or the kernel refuses. The cut is at
      the block the next byte is in, or where it was if nothing went out. */
  method UioWrite(vec: array<Iov>, bytes: nat, replies: seq<Reply>)
    returns (nwrite: nat, n: nat, err: int, later: seq<Reply>)
    requires bytes == |Flat(vec[..])| > 0
    modifies vec
    ensures BlockResult(nwrite, err, later) == WriteBlock(bytes, replies)
    ensures n <= vec.Length && CutTo(old(vec[..]), nwrite, n, vec[n..])
    ensures err == 0 ==> n == vec.Length
    ensures err != 0 ==> if nwrite == 0 then n == 0 else n < vec.Length && vec[n].len > 0
  {
    ghost var vs := vec[..];
    nwrite, n, later := 0, 0, replies;
    CutNothing(vs);
    assert vec[0..] == vs;
    while true
      invariant n <= vec.Length && nwrite < bytes && CutTo(vs, nwrite, n, vec[n..])
      invariant if nwrite == 0 then n == 0 else n < vec.Length && vec[n].len > 0
      invariant GoesOn(bytes, replies, nwrite, later)
      decreases bytes - nwrite
    {
      CutBytes(vs, nwrite, n, vec[n..]);
      ghost var before := later;
      var a := Answer(bytes - nwrite, later);
      var w := a.w;
      later := Later(later);
      if w <= 0 {
        err := Classify(w, a.errno);
        return;
      }
      GoesOnNext(bytes, replies, nwrite, before, w, nwrite + w);
      if nwrite + w == bytes {
        CutWhole(vs, bytes);
        nwrite, n, err := bytes, vec.Length, 0;
        assert vec[n..] == [];
        return;
      }
      var next := Resume(vec, w, n, vs, nwrite, nwrite + w);
      nwrite, n := nwrite + w, next;
    }
  }

  /** With `out` of the bytes out, the loop goes on with the replies that are left. */
  ghost predicate GoesOn(bytes: nat, replies: seq<Reply>, out: nat, later: seq<Reply>) {
    && out <= bytes
    && var r := WriteBlock(bytes - out, later);
    WriteBlock(bytes, replies) == r.(w := out + r.w)
  }

  lemma GoesOnNext(bytes: nat, replies: seq<Reply>, out: nat, later: seq<Reply>, w: nat, out2: nat)
    requires GoesOn(bytes, replies, out, later) && out < bytes
    requires w == Answer(bytes - out, later).w > 0 && out2 == out + w
    ensures if out2 == bytes then WriteBlock(bytes, replies) == BlockResult(bytes, 0, Later(later))
            else GoesOn(bytes, replies, out2, Later(later))
  {}

  /** before_writev between two writes: the cuts add up. */
  method Resume(vec: array<Iov>, w: nat, n: nat, ghost vs: seq<Iov>, ghost k: nat, ghost total: nat) returns (next: nat)
    requires n <= vec.Length && CutTo(vs, k, n, vec[n..]) && w < |Flat(vec[n..])| && total == k + w
    modifies vec
    ensures n <= next < vec.Length && vec[next].len > 0 && CutTo(vs, total, next, vec[next..])
  {
    ghost var rest := vec[n..];
    next := BeforeWritev(vec, w, n);
    CutCompose(vs, k, n, rest, w, next - n, vec[next..], total, next);
  }

  // ---------- a batch, as a function of the kernel's replies ----------

  /** Where a batch of blocks stops: after w bytes and n whole blocks, with what is left
      of the next one if it was begun. */
  datatype TurnResult = TurnResult(w: nat, n: nat, partial: Option<Iov>, err: int, later: seq<Reply>)

  /** Having written w bytes in n blocks before. */
  function Behind(w: nat, n: nat, r: TurnResult): TurnResult {
    r.(w := w + r.w, n := n + r.n)
  }

  /** Without writev: block by block, up to the first the kernel does not take whole; err is
      that of the last block tried. */
  function WriteBlocks(vs: seq<Iov>, err: int, replies: seq<Reply>): (r: TurnResult)
    ensures r.partial.Some? ==> r.n < |vs| && r.err != 0
    ensures r.partial.None? ==> r.n == |vs|
  {
    if vs == [] then TurnResult(0, 0, None, err, replies)
    else
      var b := WriteBlock(vs[0].len, replies);
      if b.w < vs[0].len then TurnResult(b.w, 0, Some(Advance(vs[0], b.w)), b.err, b.later)
      else Behind(b.w, 1, WriteBlocks(vs[1..], b.err, b.later))
  }

  /** A batch of m blocks under way: w bytes and n whole blocks are out. */
  ghost predicate TurnStands(vs: seq<Iov>, m: nat, replies: seq<Reply>,
                             w: nat, n: nat, partial: Option<Iov>, err: int, later: seq<Reply>) {
    && n <= m <= |vs|
    && var r := WriteBlocks(vs[..m], 0, replies);
    if partial.Some? then r == TurnResult(w, n, partial, err, later)
    else r == Behind(w, n, WriteBlocks(vs[n..m], err, later))
  }

  lemma TurnGoesOn(vs: seq<Iov>, m: nat, replies: seq<Reply>, w: nat, n: nat, err: int, later: seq<Reply>,
                   b: BlockResult, w2: nat)
    requires n < m && TurnStands(vs, m, replies, w, n, None, err, later)
    requires b == WriteBlock(vs[n].len, later) && w2 == w + b.w
    ensures b.w < vs[n].len ==> TurnStands(vs, m, replies, w2, n, Some(Advance(vs[n], b.w)), b.err, b.later)
    ensures b.w == vs[n].len ==> TurnStands(vs, m, replies, w2, n + 1, None, b.err, b.later)
  {
    assert vs[n..m][1..] == vs[n + 1..m];
  }

  /** What a batch leaves of the queue. */
  function Left(vs: seq<Iov>, n: nat, partial: Option<Iov>): seq<Iov>
    requires n <= |vs| && (partial.Some? ==> n < |vs|)
  {
    if partial.Some? then [partial.value] + vs[n + 1..] else vs[n..]
  }

  /** The block the byte behind the first k is in. */
  function NextBlock(vs: seq<Iov>, k: nat): (n: nat)
    requires k < |Flat(vs)|
    ensures n < |vs| && Cut(vs, k, n).Some?
    ensures Cut(vs, k, n).value != [] && Cut(vs, k, n).value[0].len > 0
  {
    if k < vs[0].len then 0 else 1 + NextBlock(vs[1..], k - vs[0].len)
  }

  /** With writev: all blocks at once, unless they are all empty. */
  function WritevBlocks(vs: seq<Iov>, replies: seq<Reply>): (r: TurnResult)
    ensures r.partial.Some? ==> r.n < |vs| && r.err != 0
    ensures r.partial.None? ==> r.n == |vs| && r.err == 0
  {
    var total := |Flat(vs)|;
    if total == 0 then TurnResult(0, |vs|, None, 0, replies)
    else
      var b := WriteBlock(total, replies);
      if b.err == 0 then TurnResult(total, |vs|, None, 0, b.later)
      else if b.w == 0 then TurnResult(0, 0, Some(vs[0]), b.err, b.later)
      else
        var n := NextBlock(vs, b.w);
        TurnResult(b.w, n, Some(Cut(vs, b.w, n).value[0]), b.err, b.later)
  }

  lemma {:induction false} NextUnique(vs: seq<Iov>, k: nat, n: nat, rest: seq<Iov>)
    requires CutTo(vs, k, n, rest) && rest != [] && rest[0].len > 0
    ensures k < |Flat(vs)| && n == NextBlock(vs, k)
    decreases n
  {
    if n > 0 {
      NextUnique(vs[1..], k - vs[0].len, n - 1, rest);
    }
  }

  /** What hp_uio_write leaves is what the function says. */
  lemma WritevIs(vs: seq<Iov>, replies: seq<Reply>, w: nat, n: nat, err: int, later: seq<Reply>, rest: seq<Iov>)
    requires |Flat(vs)| > 0 && BlockResult(w, err, later) == WriteBlock(|Flat(vs)|, replies)
    requires CutTo(vs, w, n, rest) && (err == 0 ==> n == |vs|)
    requires err != 0 ==> if w == 0 then n == 0 else rest != [] && rest[0].len > 0
    ensures WritevBlocks(vs, replies)
         == TurnResult(w, n, if n < |vs| && rest != [] then Some(rest[0]) else None, err, later)
    ensures n < |vs| ==> rest != []
  {
    CutShape(vs, w, n, rest);
    if err != 0 {
      if w == 0 {
        CutNothing(vs);
      } else {
        NextUnique(vs, w, n, rest);
      }
    }
  }

  /** A batch in either build. */
  function WriteTurn(writev: bool, vs: seq<Iov>, replies: seq<Reply>): (r: TurnResult)
    ensures r.partial.Some? ==> r.n < |vs| && r.err != 0
    ensures r.partial.None? ==> r.n == |vs|
  {
    if writev then WritevBlocks(vs, replies) else WriteBlocks(vs, 0, replies)
  }

  /** Without writev a batch is a cut of its blocks. */
  lemma {:induction false} BlocksCut(vs: seq<Iov>, err: int, replies: seq<Reply>)
    ensures var r := WriteBlocks(vs, err, replies);
            CutTo(vs, r.w, r.n, Left(vs, r.n, r.partial))
  {
    if vs != [] {
      var b := WriteBlock(vs[0].len, replies);
      if b.w == vs[0].len {
        BlocksCut(vs[1..], b.err, b.later);
        var r := WriteBlocks(vs[1..], b.err, b.later);
        assert Left(vs, r.n + 1, r.partial) == Left(vs[1..], r.n, r.partial);
      }
    }
  }

  lemma WritevCut(vs: seq<Iov>, replies: seq<Reply>)
    ensures var r := WritevBlocks(vs, replies);
            CutTo(vs, r.w, r.n, Left(vs, r.n, r.partial))
  {
    var r := WritevBlocks(vs, replies);
    if r.partial.None? {
      CutWhole(vs, |Flat(vs)|);
      assert Left(vs, r.n, r.partial) == [];
    } else if r.w == 0 {
      CutNothing(vs);
      assert Left(vs, r.n, r.partial) == vs;
    } else {
      var rest := Cut(vs, r.w, r.n).value;
      CutShape(vs, r.w, r.n, rest);
      assert Left(vs, r.n, r.partial) == rest;
    }
  }

  /** A batch of the first m blocks is a cut of the whole queue. */
  lemma TurnCut(writev: bool, vs: seq<Iov>, m: nat, replies: seq<Reply>)
    requires m <= |vs|
    ensures var r := WriteTurn(writev, vs[..m], replies);
            CutTo(vs, r.w, r.n, Left(vs, r.n, r.partial))
  {
    var r := WriteTurn(writev, vs[..m], replies);
    var rest := Left(vs[..m], r.n, r.partial);
    if writev {
      WritevCut(vs[..m], replies);
    } else {
      BlocksCut(vs[..m], 0, replies);
    }
    CutOfPrefix(vs, m, r.w, r.n, rest);
    LeftOfPrefix(vs, m, r.n, r.partial);
  }

  lemma LeftOfPrefix(vs: seq<Iov>, m: nat, n: nat, partial: Option<Iov>)
    requires n <= m <= |vs| && (partial.Some? ==> n < m)
    ensures Left(vs[..m], n, partial) + vs[m..] == Left(vs, n, partial)
  {}

  /** hp_wr_do_write on the block itself; the kernel's replies are the function's. */
  method WriteOne(vec: Iov, replies: seq<Reply>) returns (w: nat, rest: Iov, err: int, later: seq<Reply>)
    ensures WriteBlock(vec.len, replies) == BlockResult(w, err, later)
    ensures w < vec.len ==> rest == Advance(vec, w)
  {
    w, rest, later := 0, vec, replies;
    while true
      invariant w <= vec.len && rest == Advance(vec, w) && (w == vec.len ==> w == 0)
      invariant WriteBlock(vec.len, replies) == (var r := WriteBlock(rest.len, later); r.(w := w + r.w))
      decreases rest.len
    {
      var a := Answer(rest.len, later);
      var k := a.w;
      later := Later(later);
      if k <= 0 {
        err := Classify(k, a.errno);
        return;
      }
      w := w + k;
      if k == rest.len {
        err := 0;
        return;
      }
      rest := IovRec(rest.block, rest.base + k, rest.len - k);
    }
  }
}
