/** PMMSG framing (src/hp_msg.c, built without zlib): the header printer, the
    parser hp_pm_pack that resynchronises on the magic word, and what any way of
    driving the parser yields. */
module Framing {
  import opened Common

  const HEADER_LEN := 20
  const TWO32 := 0x1_0000_0000

  /** PM_MAGIC 0x32603723 as it lies in little-endian memory; copied in host order. */
  const MAGIC: seq<Byte> := [0x23, 0x37, 0x60, 0x32]

  datatype Msg = Msg(id: int, typ: int, sid: int, body: seq<Byte>)

  predicate IsInt32(n: int) { -0x8000_0000 <= n < 0x8000_0000 }

  // ---------- header fields ----------

  /** htonl of a value cast to uint32_t, as bytes. */
  function PutInt(n: int): (r: seq<Byte>)
    ensures |r| == 4
  {
    var u := n % TWO32;
    var u1 := u / 0x100;
    var u2 := u1 / 0x100;
    [u2 / 0x100, u2 % 0x100, u1 % 0x100, u % 0x100]
  }

  /** ntohl of four bytes, cast back to int. */
  function GetInt(b: seq<Byte>): (r: int)
    requires |b| == 4
    ensures IsInt32(r)
  {
    var u: int := b[0] as int * 0x100_0000 + b[1] as int * 0x1_0000 + b[2] as int * 0x100 + b[3] as int;
    if u < 0x8000_0000 then u else u - TWO32
  }

  lemma FieldRoundTrip(n: int)
    requires IsInt32(n)
    ensures GetInt(PutInt(n)) == n
  {
    var u := n % TWO32;
    assert u == if n >= 0 then n else n + TWO32;
  }

  function Header(id: int, typ: int, sid: int, len: int): (h: seq<Byte>)
    ensures |h| == HEADER_LEN
  {
    MAGIC + PutInt(id) + PutInt(typ) + PutInt(sid) + PutInt(len)
  }

  /** hp_msg_header followed by the body, as a sender queues them. */
  function Encode(m: Msg): seq<Byte> {
    Header(m.id, m.typ, m.sid, |m.body|) + m.body
  }

  function Field(b: seq<Byte>, k: nat): int
    requires 4 * k + 8 <= |b|
  {
    GetInt(b[4 * k + 4..4 * k + 8])
  }

  function IdOf(b: seq<Byte>): int requires HEADER_LEN <= |b| { Field(b, 0) }
  function TypeOf(b: seq<Byte>): int requires HEADER_LEN <= |b| { Field(b, 1) }
  function SidOf(b: seq<Byte>): int requires HEADER_LEN <= |b| { Field(b, 2) }
  function LenOf(b: seq<Byte>): int requires HEADER_LEN <= |b| { Field(b, 3) }

  predicate MagicAt(b: seq<Byte>, p: nat) {
    p + 4 <= |b| && b[p..p + 4] == MAGIC
  }

  lemma HeaderFields(id: int, typ: int, sid: int, len: int, y: seq<Byte>)
    requires IsInt32(id) && IsInt32(typ) && IsInt32(sid) && IsInt32(len)
    ensures var b := Header(id, typ, sid, len) + y;
            MagicAt(b, 0) && IdOf(b) == id && TypeOf(b) == typ && SidOf(b) == sid && LenOf(b) == len
  {
    var b := Header(id, typ, sid, len) + y;
    assert b[0..4] == MAGIC;
    assert b[4..8] == PutInt(id);
    assert b[8..12] == PutInt(typ);
    assert b[12..16] == PutInt(sid);
    assert b[16..20] == PutInt(len);
    FieldRoundTrip(id);
    FieldRoundTrip(typ);
    FieldRoundTrip(sid);
    FieldRoundTrip(len);
  }

  // ---------- one call of the parser ----------

  /** What a call of hp_pm_pack returns. `Wrapped` is the point where the C code
      converts 20 + length to an int that turns negative; what it does from there
      is undefined, and the model stops. */
  datatype Outcome = NeedMore | Got(msg: Msg) | Mismatch | Wrapped

  /** The body length a header announces can be received: 20 + len must fit an int. */
  predicate LenOk(len: int) { 0 <= len <= INT_MAX - HEADER_LEN }

  predicate Complete(b: seq<Byte>)
    requires HEADER_LEN <= |b|
  {
    0 <= LenOf(b) <= |b| - HEADER_LEN
  }

  function MsgAt(b: seq<Byte>): Msg
    requires HEADER_LEN <= |b| && Complete(b)
  {
    Msg(IdOf(b), TypeOf(b), SidOf(b), b[HEADER_LEN..HEADER_LEN + LenOf(b)])
  }

  /** Where the scan for the next magic stops: at the first match strictly inside
      the buffer, or with the last four bytes kept. */
  function SkipFrom(b: seq<Byte>, n: nat): (r: nat)
    requires 1 <= n <= |b| - 4
    ensures n <= r <= |b| - 4
    ensures forall p :: n <= p < r ==> !MagicAt(b, p)
    ensures r < |b| - 4 ==> MagicAt(b, r)
    decreases |b| - n
  {
    if n == |b| - 4 || MagicAt(b, n) then n else SkipFrom(b, n + 1)
  }

  /** hp_pm_pack on the bytes in the buffer; second component: the bytes left in it. */
  function Pack(b: seq<Byte>, noskip: bool): (r: (Outcome, seq<Byte>))
    ensures |r.1| <= |b|
    ensures r.0.Got? || r.0.Mismatch? ==> |r.1| < |b|
    decreases |b|
  {
    if |b| < HEADER_LEN then (NeedMore, b)
    else if !MagicAt(b, 0) then
      if noskip then (Mismatch, b[1..]) else Pack(b[SkipFrom(b, 1)..], noskip)
    else if !Complete(b) then (NeedMore, b)
    else if !LenOk(LenOf(b)) then (Wrapped, b)
    else (Got(MsgAt(b)), b[HEADER_LEN + LenOf(b)..])
  }

  // ---------- the messages in a byte stream ----------

  /** The reference reading of a stream: drop bytes one at a time until the magic
      word, then take the message it announces; stop where something is missing. */
  function Messages(s: seq<Byte>): seq<Msg>
    decreases |s|
  {
    if |s| < HEADER_LEN then []
    else if !MagicAt(s, 0) then Messages(s[1..])
    else if !Complete(s) || !LenOk(LenOf(s)) then []
    else [MsgAt(s)] + Messages(s[HEADER_LEN + LenOf(s)..])
  }

  lemma MagicDrop(s: seq<Byte>, k: nat, p: nat)
    requires k <= |s|
    ensures MagicAt(s[k..], p) == MagicAt(s, k + p)
  {
    if k + p + 4 <= |s| {
      assert s[k..][p..p + 4] == s[k + p..k + p + 4];
    }
  }

  lemma MagicExtend(b: seq<Byte>, x: seq<Byte>, p: nat)
    requires p + 4 <= |b|
    ensures MagicAt(b + x, p) == MagicAt(b, p)
  {
    assert (b + x)[p..p + 4] == b[p..p + 4];
  }

  lemma DropOneNoMagic(s: seq<Byte>, k: nat)
    requires 0 < k <= |s| && forall p :: 0 <= p < k ==> !MagicAt(s, p)
    ensures forall p :: 0 <= p < k - 1 ==> !MagicAt(s[1..], p)
  {
    forall p | 0 <= p < k - 1
      ensures !MagicAt(s[1..], p)
    {
      MagicDrop(s, 1, p);
      assert !MagicAt(s, 1 + p);
    }
  }

  /** Bytes at which no magic word starts, and which are followed by enough bytes to
      know it, do not matter. */
  lemma {:induction false} SkipJunk(s: seq<Byte>, k: nat)
    requires k == 0 || k + 3 <= |s|
    requires forall p :: 0 <= p < k ==> !MagicAt(s, p)
    ensures Messages(s) == Messages(s[k..])
  {
    if k == 0 {
      assert s[0..] == s;
    } else if |s| < HEADER_LEN {
      assert Messages(s[k..]) == [];
    } else {
      DropOneNoMagic(s, k);
      SkipJunk(s[1..], k - 1);
      assert s[1..][k - 1..] == s[k..];
    }
  }

  /** A complete message at the front is read first, whatever follows. */
  lemma TakeFront(b: seq<Byte>, x: seq<Byte>)
    requires HEADER_LEN <= |b| && MagicAt(b, 0) && Complete(b) && LenOk(LenOf(b))
    ensures Messages(b + x) == [MsgAt(b)] + Messages(b[HEADER_LEN + LenOf(b)..] + x)
  {
    var s := b + x;
    SameHeader(b, x);
    var n := HEADER_LEN + LenOf(b);
    assert s[HEADER_LEN..n] == b[HEADER_LEN..n];
    assert s[n..] == b[n..] + x;
  }

  lemma SameHeader(b: seq<Byte>, x: seq<Byte>)
    requires HEADER_LEN <= |b|
    ensures MagicAt(b + x, 0) == MagicAt(b, 0)
    ensures IdOf(b + x) == IdOf(b) && TypeOf(b + x) == TypeOf(b)
    ensures SidOf(b + x) == SidOf(b) && LenOf(b + x) == LenOf(b)
  {
    var s := b + x;
    assert s[0..4] == b[0..4] && s[4..8] == b[4..8] && s[8..12] == b[8..12];
    assert s[12..16] == b[12..16] && s[16..20] == b[16..20];
  }

  // ---------- driving the parser ----------

  /** Calling hp_pm_pack until it asks for more, past any mismatch it reports. */
  function Drain(b: seq<Byte>, noskip: bool): (seq<Msg>, seq<Byte>)
    decreases |b|
  {
    var (o, rest) := Pack(b, noskip);
    match o
    case Got(m) => var (ms, left) := Drain(rest, noskip); ([m] + ms, left)
    case Mismatch => Drain(rest, noskip)
    case _ => ([], rest)
  }

  /** One call of the parser, in either mode, loses nothing: what it reports and
      what it leaves account for the whole stream, whatever arrives later. */
  lemma {:induction false} PackSound(b: seq<Byte>, noskip: bool, x: seq<Byte>)
    ensures var (o, rest) := Pack(b, noskip);
            Messages(b + x) == (if o.Got? then [o.msg] else []) + Messages(rest + x)
    decreases |b|
  {
    if |b| >= HEADER_LEN {
      if !MagicAt(b, 0) {
        var n := if noskip then 1 else SkipFrom(b, 1);
        SkipSound(b, x, n);
        if !noskip {
          PackSound(b[n..], noskip, x);
        }
      } else if Complete(b) && LenOk(LenOf(b)) {
        TakeFront(b, x);
      }
    }
  }

  /** Bytes skipped because no magic word stands there change no message. */
  lemma SkipSound(b: seq<Byte>, x: seq<Byte>, n: nat)
    requires |b| >= HEADER_LEN && !MagicAt(b, 0) && (n == 1 || n == SkipFrom(b, 1))
    ensures n <= |b| && Messages(b + x) == Messages(b[n..] + x)
  {
    forall p | 0 <= p < n
      ensures !MagicAt(b + x, p)
    {
      MagicExtend(b, x, p);
    }
    SkipJunk(b + x, n);
    assert (b + x)[n..] == b[n..] + x;
  }

  /** A drained buffer holds no further message. */
  lemma {:induction false} PackStops(b: seq<Byte>, noskip: bool)
    ensures Pack(b, noskip).0 in {NeedMore, Wrapped} ==> Messages(Pack(b, noskip).1) == []
    decreases |b|
  {
    if |b| >= HEADER_LEN && !MagicAt(b, 0) && !noskip {
      PackStops(b[SkipFrom(b, 1)..], noskip);
    }
  }

  lemma {:induction false} DrainSound(b: seq<Byte>, noskip: bool, x: seq<Byte>)
    ensures var (ms, left) := Drain(b, noskip);
            Messages(b + x) == ms + Messages(left + x) && Messages(left) == []
    decreases |b|
  {
    var (o, rest) := Pack(b, noskip);
    PackSound(b, noskip, x);
    PackStops(b, noskip);
    if o.Got? || o.Mismatch? {
      DrainSound(rest, noskip, x);
      if o.Got? {
        Assoc([o.msg], Drain(rest, noskip).0, Messages(Drain(b, noskip).1 + x));
      }
    }
  }

  /** Feeding a stream chunk by chunk, draining after each chunk. */
  function Feed(buf: seq<Byte>, chunks: seq<seq<Byte>>, noskip: bool): seq<Msg>
    decreases |chunks|
  {
    if chunks == [] then []
    else
      var (ms, left) := Drain(buf + chunks[0], noskip);
      ms + Feed(left, chunks[1..], noskip)
  }

  lemma {:induction false} FeedSound(buf: seq<Byte>, chunks: seq<seq<Byte>>, noskip: bool)
    requires Messages(buf) == []
    ensures Feed(buf, chunks, noskip) == Messages(buf + Flatten(chunks))
    decreases |chunks|
  {
    if chunks == [] {
      assert buf + Flatten(chunks) == buf;
    } else {
      var (ms, left) := Drain(buf + chunks[0], noskip);
      DrainSound(buf + chunks[0], noskip, Flatten(chunks[1..]));
      FeedSound(left, chunks[1..], noskip);
      Assoc(buf, chunks[0], Flatten(chunks[1..]));
    }
  }

  /** Chunk independence: however a stream is cut, and whether the parser skips by
      itself or is driven past its mismatch errors, the messages are those of the
      whole stream, although the bytes left in the buffer may differ. */
  lemma ChunkIndependence(chunks1: seq<seq<Byte>>, noskip1: bool, chunks2: seq<seq<Byte>>, noskip2: bool)
    requires Flatten(chunks1) == Flatten(chunks2)
    ensures Feed([], chunks1, noskip1) == Feed([], chunks2, noskip2) == Messages(Flatten(chunks1))
  {
    FeedSound([], chunks1, noskip1);
    FeedSound([], chunks2, noskip2);
    assert [] + Flatten(chunks1) == Flatten(chunks1);
  }

  // ---------- resynchronisation ----------

  ghost predicate NoMagic(junk: seq<Byte>) {
    forall p :: 0 <= p < |junk| ==> !MagicAt(junk, p)
  }

  /** The magic word cannot begin inside junk and end inside a following header,
      because its four bytes are distinct. */
  lemma NoOverlap(junk: seq<Byte>, y: seq<Byte>)
    requires NoMagic(junk) && MagicAt(y, 0)
    ensures forall p :: 0 <= p < |junk| ==> !MagicAt(junk + y, p)
  {
    forall p | 0 <= p < |junk|
      ensures !MagicAt(junk + y, p)
    {
      var s := junk + y;
      if p + 4 <= |junk| {
        MagicExtend(junk, y, p);
      } else if p + 4 <= |s| {
        var k := |junk| - p;
        assert s[p..p + 4][k] == y[0..4][0];
        assert MAGIC[k] != MAGIC[0];
      }
    }
  }

  ghost predicate Sendable(m: Msg) {
    IsInt32(m.id) && IsInt32(m.typ) && IsInt32(m.sid) && LenOk(|m.body|)
  }

  lemma EncodedFront(m: Msg, y: seq<Byte>)
    requires Sendable(m)
    ensures var b := Encode(m) + y;
            && MagicAt(b, 0) && Complete(b) && LenOf(b) == |m.body| && MsgAt(b) == m
            && b[HEADER_LEN + LenOf(b)..] == y
            && |Encode(m)| == HEADER_LEN + |m.body|
            && Messages(b) == [m] + Messages(y)
            && Pack(b, false) == (Got(m), y)
  {
    var h := Header(m.id, m.typ, m.sid, |m.body|);
    var b := Encode(m) + y;
    HeaderFields(m.id, m.typ, m.sid, |m.body|, m.body + y);
    Assoc(h, m.body, y);
    assert b[HEADER_LEN..HEADER_LEN + |m.body|] == m.body;
    assert b[HEADER_LEN + |m.body|..] == y;
  }

  /** Messages, each preceded by junk, and junk at the end. */
  function Render(junks: seq<seq<Byte>>, ms: seq<Msg>, tail: seq<Byte>): seq<Byte>
    requires |junks| == |ms|
  {
    if ms == [] then tail
    else junks[0] + (Encode(ms[0]) + Render(junks[1..], ms[1..], tail))
  }

  lemma {:induction false} JunkOnly(s: seq<Byte>)
    requires NoMagic(s)
    ensures Messages(s) == []
  {
    if |s| >= HEADER_LEN {
      SkipJunk(s, |s| - 4);
    }
  }

  /** Resynchronisation round trip: a stream of messages with arbitrary bytes free of
      the magic word before each of them reads back as exactly those messages. */
  lemma {:induction false} Resync(junks: seq<seq<Byte>>, ms: seq<Msg>, tail: seq<Byte>)
    requires |junks| == |ms| && NoMagic(tail)
    requires forall i :: 0 <= i < |ms| ==> NoMagic(junks[i]) && Sendable(ms[i])
    ensures Messages(Render(junks, ms, tail)) == ms
  {
    if ms == [] {
      JunkOnly(tail);
    } else {
      var y := Encode(ms[0]) + Render(junks[1..], ms[1..], tail);
      EncodedFront(ms[0], Render(junks[1..], ms[1..], tail));
      NoOverlap(junks[0], y);
      SkipJunk(junks[0] + y, |junks[0]|);
      assert (junks[0] + y)[|junks[0]|..] == y;
      Resync(junks[1..], ms[1..], tail);
    }
  }

  /** The same, through the parser itself: any chunks, either mode. */
  lemma ParserResync(junks: seq<seq<Byte>>, ms: seq<Msg>, tail: seq<Byte>, chunks: seq<seq<Byte>>, noskip: bool)
    requires |junks| == |ms| && NoMagic(tail)
    requires forall i :: 0 <= i < |ms| ==> NoMagic(junks[i]) && Sendable(ms[i])
    requires Flatten(chunks) == Render(junks, ms, tail)
    ensures Feed([], chunks, noskip) == ms
  {
    Resync(junks, ms, tail);
    FeedSound([], chunks, noskip);
    assert [] + Flatten(chunks) == Flatten(chunks);
  }

  /** Exactly which announced lengths get through: a header followed by enough bytes
      yields a message if and only if its length is non-negative and 20 + len fits an
      int. Any other header stalls the stream for good. */
  lemma LengthDecides(id: int, typ: int, sid: int, len: int, y: seq<Byte>)
    requires IsInt32(id) && IsInt32(typ) && IsInt32(sid) && IsInt32(len)
    requires len <= |y|
    ensures Messages(Header(id, typ, sid, len) + y) != [] <==> LenOk(len)
    ensures !LenOk(len) ==> forall z :: Messages(Header(id, typ, sid, len) + y + z) == []
  {
    HeaderFields(id, typ, sid, len, y);
    if !LenOk(len) {
      forall z
        ensures Messages(Header(id, typ, sid, len) + y + z) == []
      {
        HeaderFields(id, typ, sid, len, y + z);
        Assoc(Header(id, typ, sid, len), y, z);
      }
    }
  }

  // ---------- the C functions on byte buffers ----------

  method PutBytes(buf: array<Byte>, off: nat, b: seq<Byte>)
    requires off + |b| <= buf.Length
    modifies buf
    ensures buf[..] == old(buf[..off]) + b + old(buf[off + |b|..])
  {
    forall i | 0 <= i < |b| {
      buf[off + i] := b[i];
    }
  }

  /** hp_msg_header. */
  method MsgHeader(id: int, typ: int, sid: int, len: int) returns (hdr: array<Byte>)
    ensures fresh(hdr) && hdr[..] == Header(id, typ, sid, len)
  {
    hdr := new Byte[HEADER_LEN](_ => 0);
    PutBytes(hdr, 0, MAGIC);
    PutBytes(hdr, 4, PutInt(id));
    PutBytes(hdr, 8, PutInt(typ));
    PutBytes(hdr, 12, PutInt(sid));
    PutBytes(hdr, 16, PutInt(len));
  }

  /** The memmove that drops the first n of `len` bytes. */
  method DropFront(buf: array<Byte>, len: nat, n: nat)
    requires n <= len <= buf.Length
    modifies buf
    ensures buf[..len - n] == old(buf[n..len])
    ensures buf[len..] == old(buf[len..])
  {
    forall i | 0 <= i < len - n {
      buf[i] := buf[i + n];
    }
  }

  /** The scan for the next magic word. */
  method ScanMagic(buf: array<Byte>, len: nat) returns (n: nat)
    requires 5 <= len <= buf.Length
    ensures n == SkipFrom(buf[..len], 1)
  {
    n := 1;
    ghost var b := buf[..len];
    while n < len - 4 && buf[n..n + 4] != MAGIC
      invariant 1 <= n <= len - 4
      invariant SkipFrom(b, 1) == SkipFrom(b, n)
    {
      assert b[n..n + 4] == buf[n..n + 4];
      n := n + 1;
    }
    assert b[n..n + 4] == buf[n..n + 4];
  }

  /** The message whose header lies at the front of the buffer. */
  method TakeMessage(buf: array<Byte>, len0: nat) returns (len: nat, o: Outcome)
    requires HEADER_LEN <= len0 <= buf.Length && MagicAt(buf[..len0], 0)
    modifies buf
    ensures len <= len0
    ensures (o, buf[..len]) == Pack(old(buf[..len0]), false)
    ensures buf[len0..] == old(buf[len0..])
  {
    ghost var b := buf[..len0];
    len := len0;
    assert b[4..8] == buf[4..8] && b[8..12] == buf[8..12] && b[12..16] == buf[12..16] && b[16..20] == buf[16..20];
    var bodylen := GetInt(buf[16..20]);
    if bodylen < 0 || len - HEADER_LEN < bodylen {
      return len, NeedMore;
    }
    if HEADER_LEN + bodylen > INT_MAX {
      return len, Wrapped;
    }
    var body := buf[HEADER_LEN..HEADER_LEN + bodylen];
    assert body == b[HEADER_LEN..HEADER_LEN + bodylen];
    o := Got(Msg(GetInt(buf[4..8]), GetInt(buf[8..12]), GetInt(buf[12..16]), body));
    DropFront(buf, len, HEADER_LEN + bodylen);
    len := len - HEADER_LEN - bodylen;
  }

  /** hp_pm_pack, scanning and shifting the caller's buffer in place. */
  method PmPack(buf: array<Byte>, len0: nat, noskip: bool) returns (len: nat, o: Outcome)
    requires len0 <= buf.Length
    modifies buf
    ensures len <= len0
    ensures (o, buf[..len]) == Pack(old(buf[..len0]), noskip)
    ensures buf[len0..] == old(buf[len0..])
  {
    len := len0;
    ghost var b0 := buf[..len0];
    while true
      invariant len <= len0 && buf[len0..] == old(buf[len0..])
      invariant Pack(buf[..len], noskip) == Pack(b0, noskip)
      decreases len
    {
      ghost var b := buf[..len];
      if len < HEADER_LEN {
        return len, NeedMore;
      }
      assert b[0..4] == buf[..4];
      if buf[..4] == MAGIC {
        ghost var tail := buf[len..];
        len, o := TakeMessage(buf, len);
        assert buf[len0..] == tail[len0 - |b|..];
        return;
      }
      if noskip {
        DropFront(buf, len, 1);
        return len - 1, Mismatch;
      }
      var n := ScanMagic(buf, len);
      DropFront(buf, len, n);
      len := len - n;
      assert buf[..len] == b[n..];
    }
  }
}
