/** The framing of Framing seen from outside: which bytes lie where, said by weights and
    offsets alone, and exactly which messages the parser returns. */
module WireFormat {
  import opened Arithmetic
  import opened Common
  import opened Framing

  /** Four bytes as a number, the lowest address weighing most: network byte order. */
  function FromNet(b: seq<Byte>): (u: nat)
    requires |b| == 4
  {
    b[0] as int * 0x100_0000 + b[1] as int * 0x1_0000 + b[2] as int * 0x100 + b[3] as int
  }

  /** The same with the lowest address weighing least: memory of a little-endian host. */
  function FromHost(b: seq<Byte>): (u: nat)
    requires |b| == 4
  {
    b[0] as int + b[1] as int * 0x100 + b[2] as int * 0x1_0000 + b[3] as int * 0x100_0000
  }

  /** The word 0x32603723 lies at p. */
  predicate WordAt(b: seq<Byte>, p: nat) {
    p + 4 <= |b| && FromHost(b[p..p + 4]) == 0x3260_3723
  }

  lemma MagicWord(b: seq<Byte>)
    requires |b| == 4
    ensures FromHost(b) == 0x3260_3723 <==> b == MAGIC
  {}

  lemma MagicIsWord(b: seq<Byte>, p: nat)
    ensures MagicAt(b, p) <==> WordAt(b, p)
  {
    if p + 4 <= |b| {
      MagicWord(b[p..p + 4]);
    }
  }

  /** A field is written as its value modulo 2^32 in network byte order. */
  lemma PutIntWire(n: int)
    ensures FromNet(PutInt(n)) == n % 0x1_0000_0000
  {
    var u := n % TWO32;
    Bytewise(u);
    Bytewise(u / 0x100);
    Bytewise(u / 0x100 / 0x100);
  }

  /** And read as the int32 with that value. */
  lemma GetIntWire(b: seq<Byte>, n: int)
    requires |b| == 4
    ensures GetInt(b) == n <==> -0x8000_0000 <= n < 0x8000_0000 && FromNet(b) == n % 0x1_0000_0000
  {}

  /** What hp_msg_header writes: the word, and at offsets 4, 8, 12 and 16 the id, the
      type, the session and the body's length. */
  lemma HeaderLayout(id: int, typ: int, sid: int, len: int)
    ensures var h := Header(id, typ, sid, len);
            && |h| == 20 && FromHost(h[0..4]) == 0x3260_3723
            && FromNet(h[4..8]) == id % 0x1_0000_0000 && FromNet(h[8..12]) == typ % 0x1_0000_0000
            && FromNet(h[12..16]) == sid % 0x1_0000_0000 && FromNet(h[16..20]) == len % 0x1_0000_0000
  {
    var h := Header(id, typ, sid, len);
    assert h[0..4] == MAGIC && h[4..8] == PutInt(id) && h[8..12] == PutInt(typ);
    assert h[12..16] == PutInt(sid) && h[16..20] == PutInt(len);
    PutIntWire(id);
    PutIntWire(typ);
    PutIntWire(sid);
    PutIntWire(len);
  }

  /** An int32 whose value lies in network byte order at p. */
  predicate FieldIs(b: seq<Byte>, p: nat, n: int) {
    && p + 4 <= |b| && -0x8000_0000 <= n < 0x8000_0000
    && FromNet(b[p..p + 4]) == n % 0x1_0000_0000
  }

  /** At p lie a header and a whole body, which are message m, and `left` is behind them. */
  predicate LiesAt(b: seq<Byte>, p: nat, m: Msg, left: seq<Byte>) {
    && WordAt(b, p) && FieldIs(b, p + 4, m.id) && FieldIs(b, p + 8, m.typ) && FieldIs(b, p + 12, m.sid)
    && FieldIs(b, p + 16, |m.body|) && 20 + |m.body| <= INT_MAX
    && b[p + 20..] == m.body + left
  }

  /** The same, and no word lies before p. */
  predicate LiesFirst(b: seq<Byte>, p: nat, m: Msg, left: seq<Byte>) {
    LiesAt(b, p, m, left) && forall q: nat :: q < p ==> !WordAt(b, q)
  }

  lemma FieldMeans(b: seq<Byte>, k: nat, n: int)
    requires 4 * k + 8 <= |b|
    ensures FieldIs(b, 4 * k + 4, n) <==> Field(b, k) == n
  {
    GetIntWire(b[4 * k + 4..4 * k + 8], n);
  }

  /** A message at the front is taken, and nothing else is. */
  lemma FrontTaken(b: seq<Byte>, noskip: bool, m: Msg, left: seq<Byte>)
    requires MagicAt(b, 0)
    ensures Pack(b, noskip) == (Got(m), left) <==> LiesAt(b, 0, m, left)
  {
    if |b| >= HEADER_LEN {
      MagicIsWord(b, 0);
      FieldMeans(b, 0, m.id);
      FieldMeans(b, 1, m.typ);
      FieldMeans(b, 2, m.sid);
      FieldMeans(b, 3, |m.body|);
      BodyMeans(b, m.body, left);
    }
  }

  lemma BodyMeans(b: seq<Byte>, body: seq<Byte>, left: seq<Byte>)
    requires |b| >= HEADER_LEN
    ensures b[20..] == body + left <==>
            |body| <= |b| - 20 && body == b[20..20 + |body|] && left == b[20 + |body|..]
  {
    SameSplit(b[20..], body, left);
    if 20 + |body| <= |b| {
      assert b[20..][..|body|] == b[20..20 + |body|];
      DropTwice(b, 20, |body|);
    }
  }

  lemma SameSplit(x: seq<Byte>, front: seq<Byte>, back: seq<Byte>)
    ensures x == front + back <==> |front| <= |x| && x[..|front|] == front && x[|front|..] == back
  {
    assert (front + back)[..|front|] == front && (front + back)[|front|..] == back;
    if |front| <= |x| {
      assert x == x[..|front|] + x[|front|..];
    }
  }

  /** With PMRW_NOSKIP, exactly a message at the front is returned. */
  lemma NoskipFinds(b: seq<Byte>, m: Msg, left: seq<Byte>)
    ensures Pack(b, true) == (Got(m), left) <==> LiesAt(b, 0, m, left)
    ensures Pack(b, true) == (Mismatch, left) <==> |b| >= 20 && !WordAt(b, 0) && left == b[1..]
  {
    MagicIsWord(b, 0);
    if MagicAt(b, 0) {
      FrontTaken(b, true, m, left);
    }
  }

  lemma LiesLater(b: seq<Byte>, n: nat, p: nat, m: Msg, left: seq<Byte>)
    requires n <= p && n <= |b|
    ensures LiesAt(b, p, m, left) <==> LiesAt(b[n..], p - n, m, left)
  {
    var c := b[n..];
    if p + 20 <= |b| {
      assert c[p - n..p - n + 4] == b[p..p + 4] && c[p - n + 4..p - n + 8] == b[p + 4..p + 8];
      assert c[p - n + 8..p - n + 12] == b[p + 8..p + 12] && c[p - n + 12..p - n + 16] == b[p + 12..p + 16];
      assert c[p - n + 16..p - n + 20] == b[p + 16..p + 20] && c[p - n + 20..] == b[p + 20..];
    }
  }

  lemma FirstLater(b: seq<Byte>, n: nat, p: nat, m: Msg, left: seq<Byte>)
    requires n <= p && n <= |b| && forall q: nat :: q < n ==> !WordAt(b, q)
    ensures LiesFirst(b, p, m, left) <==> LiesFirst(b[n..], p - n, m, left)
  {
    LiesLater(b, n, p, m, left);
    forall q: nat
      ensures WordAt(b[n..], q) <==> WordAt(b, n + q)
    {
      MagicIsWord(b[n..], q);
      MagicIsWord(b, n + q);
      MagicDrop(b, n, q);
    }
    if LiesFirst(b, p, m, left) {
      forall q: nat | q < p - n ensures !WordAt(b[n..], q) {
        assert !WordAt(b, n + q);
      }
    }
    if LiesFirst(b[n..], p - n, m, left) {
      forall q: nat | q < p ensures !WordAt(b, q) {
        if q >= n {
          assert !WordAt(b[n..], q - n);
        }
      }
    }
  }

  /** Otherwise, exactly the message at the first word is returned, wherever that lies. */
  lemma {:induction false} PackFinds(b: seq<Byte>, m: Msg, left: seq<Byte>)
    ensures Pack(b, false) == (Got(m), left) <==> exists p: nat :: LiesFirst(b, p, m, left)
    decreases |b|
  {
    MagicIsWord(b, 0);
    if MagicAt(b, 0) {
      FrontTaken(b, false, m, left);
      assert LiesFirst(b, 0, m, left) <==> LiesAt(b, 0, m, left);
    } else if |b| >= HEADER_LEN {
      var n := SkipFrom(b, 1);
      NoWordBefore(b, n);
      PackFinds(b[n..], m, left);
      if p: nat :| LiesFirst(b, p, m, left) {
        FirstLater(b, n, p, m, left);
      }
      if p: nat :| LiesFirst(b[n..], p, m, left) {
        FirstLater(b, n, n + p, m, left);
      }
    }
  }

  lemma NoWordBefore(b: seq<Byte>, n: nat)
    requires |b| >= HEADER_LEN && !MagicAt(b, 0) && n == SkipFrom(b, 1)
    ensures forall q: nat :: q < n ==> !WordAt(b, q)
  {
    forall q: nat | q < n
      ensures !WordAt(b, q)
    {
      MagicIsWord(b, q);
    }
  }
}
