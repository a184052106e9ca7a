/** Scatter-gather vectors, and what is left of one after a number of bytes has gone. */
module IoVectors {
  import opened Common

  /** A pointer and a length into an immutable block; a write moves `base` forward. */
  datatype IovRec = IovRec(block: seq<Byte>, base: nat, len: nat)
  type Iov = v: IovRec | v.base + v.len == |v.block| witness IovRec([], 0, 0)

  function Advance(v: Iov, h: nat): Iov
    requires h <= v.len
  {
    IovRec(v.block, v.base + h, v.len - h)
  }

  /** The bytes still to be sent from a vector of blocks. */
  function Flat(vs: seq<Iov>): seq<Byte> {
    if vs == [] then [] else vs[0].block[vs[0].base..] + Flat(vs[1..])
  }

  lemma {:induction false} FlatAppend(a: seq<Iov>, b: seq<Iov>)
    ensures Flat(a + b) == Flat(a) + Flat(b)
  {
    if a == [] {
      assert a + b == b;
    } else {
      var tail := a[1..];
      FlatAppend(tail, b);
      assert (a + b)[1..] == tail + b;
      Assoc(a[0].block[a[0].base..], Flat(tail), Flat(b));
    }
  }

  lemma FlatSnoc(vs: seq<Iov>, lo: nat, i: nat)
    requires lo <= i < |vs|
    ensures Flat(vs[lo..i + 1]) == Flat(vs[lo..i]) + vs[i].block[vs[i].base..]
  {
    assert vs[lo..i + 1] == vs[lo..i] + [vs[i]];
    FlatAppend(vs[lo..i], [vs[i]]);
    assert Flat([vs[i]]) == vs[i].block[vs[i].base..] + Flat([]);
  }

  lemma FlatSplit(vs: seq<Iov>, i: nat)
    requires i <= |vs|
    ensures Flat(vs) == Flat(vs[..i]) + Flat(vs[i..])
  {
    assert vs == vs[..i] + vs[i..];
    FlatAppend(vs[..i], vs[i..]);
  }

  /** What is left of `vs` when `k` bytes have gone: `n` whole blocks and a part of the
      next; nothing if `k` is not in that block. */
  function Cut(vs: seq<Iov>, k: nat, n: nat): Option<seq<Iov>>
    decreases n
  {
    if vs == [] then (if k == 0 && n == 0 then Some([]) else None)
    else if n == 0 then (if k <= vs[0].len then Some([Advance(vs[0], k)] + vs[1..]) else None)
    else if k < vs[0].len then None
    else Cut(vs[1..], k - vs[0].len, n - 1)
  }

  predicate CutTo(vs: seq<Iov>, k: nat, n: nat, rest: seq<Iov>) {
    Cut(vs, k, n) == Some(rest)
  }

  lemma FlatCons(v: Iov, vs: seq<Iov>)
    ensures Flat([v] + vs) == v.block[v.base..] + Flat(vs)
  {
    assert ([v] + vs)[1..] == vs;
  }

  /** Cutting removes exactly the first `k` bytes. */
  lemma {:induction false} CutBytes(vs: seq<Iov>, k: nat, n: nat, rest: seq<Iov>)
    requires CutTo(vs, k, n, rest)
    ensures k <= |Flat(vs)| && Flat(rest) == Flat(vs)[k..]
    decreases n
  {
    if vs != [] {
      if n == 0 {
        FlatAdvance(vs[0], vs[1..], k);
      } else {
        CutBytes(vs[1..], k - vs[0].len, n - 1, rest);
        DropMore(vs[0].block[vs[0].base..], Flat(vs[1..]), k, k - vs[0].len);
      }
    }
  }

  lemma FlatAdvance(v: Iov, vs: seq<Iov>, k: nat)
    requires k <= v.len
    ensures Flat([Advance(v, k)] + vs) == (v.block[v.base..] + Flat(vs))[k..]
  {
    FlatCons(Advance(v, k), vs);
    DropTwice(v.block, v.base, k);
    DropInto(v.block[v.base..], Flat(vs), k);
  }

  lemma DropInto(b: seq<Byte>, c: seq<Byte>, k: nat)
    requires k <= |b|
    ensures (b + c)[k..] == b[k..] + c
  {}

  lemma DropMore(b: seq<Byte>, c: seq<Byte>, k: nat, j: nat)
    requires k == |b| + j && j <= |c|
    ensures (b + c)[k..] == c[j..]
  {}

  /** Cutting drops the first `n` blocks and changes only the next. */
  lemma {:induction false} CutShape(vs: seq<Iov>, k: nat, n: nat, rest: seq<Iov>)
    requires CutTo(vs, k, n, rest)
    ensures n <= |vs| && |rest| == |vs| - n
    ensures forall i :: 0 <= i < |rest| ==> rest[i].block == vs[n + i].block && (i > 0 ==> rest[i] == vs[n + i])
    decreases n
  {
    if vs != [] && n > 0 {
      CutShape(vs[1..], k - vs[0].len, n - 1, rest);
    }
  }

  /** A part of block `n`. */
  lemma {:induction false} CutAt(vs: seq<Iov>, n: nat, h: nat)
    requires n < |vs| && h <= vs[n].len
    ensures CutTo(vs, |Flat(vs[..n])| + h, n, [Advance(vs[n], h)] + vs[n + 1..])
    decreases n
  {
    if n > 0 {
      CutAt(vs[1..], n - 1, h);
      assert vs[1..][..n - 1] == vs[..n][1..] && vs[1..][n..] == vs[n + 1..];
    }
  }

  /** Whole blocks. */
  lemma CutBetween(vs: seq<Iov>, n: nat)
    requires n <= |vs|
    ensures CutTo(vs, |Flat(vs[..n])|, n, vs[n..])
  {
    if n < |vs| {
      CutAt(vs, n, 0);
      assert vs[n..] == [vs[n]] + vs[n + 1..];
    } else {
      CutWhole(vs, |Flat(vs)|);
      assert vs[..n] == vs && vs[n..] == [];
    }
  }

  lemma CutNothing(vs: seq<Iov>)
    ensures CutTo(vs, 0, 0, vs)
  {
    assert vs[..0] == [];
    CutBetween(vs, 0);
  }

  lemma {:induction false} CutWhole(vs: seq<Iov>, k: nat)
    requires k == |Flat(vs)|
    ensures CutTo(vs, k, |vs|, [])
    decreases |vs|
  {
    if vs != [] {
      CutWhole(vs[1..], k - vs[0].len);
    }
  }

  /** Two cuts in a row are one cut. */
  lemma {:induction false} CutCompose(vs: seq<Iov>, k1: nat, n1: nat, mid: seq<Iov>, k2: nat, n2: nat, rest: seq<Iov>,
                                      k: nat, n: nat)
    requires CutTo(vs, k1, n1, mid) && CutTo(mid, k2, n2, rest)
    requires k == k1 + k2 && n == n1 + n2
    ensures CutTo(vs, k, n, rest)
    decreases n1
  {
    if vs != [] {
      if n1 > 0 {
        CutCompose(vs[1..], k1 - vs[0].len, n1 - 1, mid, k2, n2, rest, k - vs[0].len, n - 1);
      } else {
        assert mid[0] == Advance(vs[0], k1) && mid[1..] == vs[1..];
      }
    }
  }

  /** A cut inside the first `m` blocks is a cut of all of them. */
  lemma {:induction false} CutOfPrefix(vs: seq<Iov>, m: nat, k: nat, n: nat, rest: seq<Iov>)
    requires m <= |vs| && CutTo(vs[..m], k, n, rest)
    ensures CutTo(vs, k, n, rest + vs[m..])
    decreases n
  {
    if m == 0 {
      assert rest + vs == vs;
      CutNothing(vs);
    } else if n == 0 {
      assert vs[..m][1..] + vs[m..] == vs[1..];
      Assoc([Advance(vs[0], k)], vs[..m][1..], vs[m..]);
    } else {
      assert vs[..m][1..] == vs[1..][..m - 1] && vs[1..][m - 1..] == vs[m..];
      CutOfPrefix(vs[1..], m - 1, k - vs[0].len, n - 1, rest);
    }
  }
}
