/** In-place rewriting of a header value: hp_http_modify_header of src/hp_str.c. */
module HeaderEdit {
  import opened Common

  predicate Separator(c: char) {
    c == ':' || c == ' ' || c == '\t'
  }

  /** The header stands at i, in any case, with something behind it. */
  predicate MatchesAt(s: string, hdr: string, i: nat) {
    i + |hdr| < |s| && forall k :: 0 <= k < |hdr| ==> Lower(s[i + k]) == Lower(hdr[k])
  }

  predicate NoFeed(s: string, lo: nat, hi: nat)
    requires hi <= |s|
  {
    forall k :: lo <= k < hi ==> s[k] != '\n'
  }

  predicate OnlySeparators(s: string, lo: nat, hi: nat)
    requires hi <= |s|
  {
    forall k :: lo <= k < hi ==> Separator(s[k])
  }

  /** The first place at or behind i where the header stands, in any case. */
  function MatchFrom(s: string, hdr: string, i: nat): (r: Option<nat>)
    ensures r.Some? ==> i <= r.value && MatchesAt(s, hdr, r.value)
    ensures r.Some? ==> forall k: nat :: i <= k < r.value ==> !MatchesAt(s, hdr, k)
    ensures r.None? ==> forall k: nat :: i <= k ==> !MatchesAt(s, hdr, k)
    decreases |s| - i
  {
    if i + |hdr| >= |s| then None
    else if MatchesAt(s, hdr, i) then Some(i)
    else MatchFrom(s, hdr, i + 1)
  }

  /** The first line feed at or behind i, or the end. */
  function LineFeed(s: string, i: nat): (r: nat)
    requires i <= |s|
    ensures i <= r <= |s| && NoFeed(s, i, r) && (r < |s| ==> s[r] == '\n')
    decreases |s| - i
  {
    if i == |s| || s[i] == '\n' then i else LineFeed(s, i + 1)
  }

  /** The first character at or behind i that is no separator, or the end. */
  function SkipSeparators(s: string, i: nat): (r: nat)
    requires i <= |s|
    ensures i <= r <= |s| && (r < |s| ==> !Separator(s[r]))
    ensures OnlySeparators(s, i, r)
    decreases |s| - i
  {
    if i == |s| || !Separator(s[i]) then i else SkipSeparators(s, i + 1)
  }

  /** No such header, a header line that does not end in CR LF, or where its value is. */
  datatype Place = NoHeader | BadLine | Value(v: nat, end: nat)

  function Locate(s: string, hdr: string): (r: Place)
    ensures r.Value? ==> r.v <= r.end && r.end + 2 <= |s| && s[r.end..r.end + 2] == "\r\n"
  {
    match MatchFrom(s, hdr, 0)
    case None => NoHeader
    case Some(i) => LocateValue(s, i + |hdr|)
  }

  function LocateValue(s: string, start: nat): (r: Place)
    requires start <= |s|
    ensures r.Value? ==> start <= r.v <= r.end && r.end + 2 <= |s| && s[r.end..r.end + 2] == "\r\n"
    ensures !r.NoHeader?
  {
    var q := LineFeed(s, start);
    if q < |s| && q > start && s[q - 1] == '\r' then
      SkipStops(s, start, q - 1);
      Value(SkipSeparators(s, start), q - 1)
    else BadLine
  }

  lemma SkipStops(s: string, i: nat, k: nat)
    requires i <= k < |s| && !Separator(s[k])
    ensures SkipSeparators(s, i) <= k
  {
    assert OnlySeparators(s, i, SkipSeparators(s, i));
  }

  /** The value of a header. */
  function Get(s: string, hdr: string): Option<string> {
    match Locate(s, hdr) case Value(v, end) => Some(s[v..end]) case _ => None
  }

  // ---------- the edit ----------

  /** The value is the one expected, if one is expected at all. */
  predicate Accepts(value: string, ovalue: Option<string>) {
    ovalue.None? || SameText(value, ovalue.value)
  }

  /** 0 if the value is rewritten, 1 without the header, -1 for a bad line or an old value
      that is not the one expected. */
  function Code(s: string, hdr: string, ovalue: Option<string>): int {
    match Locate(s, hdr)
    case NoHeader => 1
    case BadLine => -1
    case Value(v, end) => if Accepts(s[v..end], ovalue) then 0 else -1
  }

  /** The text with the value replaced, if there is one and it is the one expected. */
  function Edited(s: string, hdr: string, nvalue: string, ovalue: Option<string>): string {
    if Code(s, hdr, ovalue) != 0 then s
    else
      var place := Locate(s, hdr);
      s[..place.v] + nvalue + s[place.end..]
  }

  // ---------- laws ----------

  ghost predicate Agree(s: string, t: string, p: nat) {
    p < |s| && p < |t| && forall k :: 0 <= k < p ==> s[k] == t[k]
  }

  lemma MatchAgrees(s: string, t: string, hdr: string, p: nat, k: nat)
    requires Agree(s, t, p) && k + |hdr| <= p
    ensures MatchesAt(s, hdr, k) <==> MatchesAt(t, hdr, k)
  {}

  /** Characters in front of p decide what stands in front of p. */
  lemma MatchKept(s: string, t: string, hdr: string, p: nat)
    requires Agree(s, t, p) && MatchFrom(s, hdr, 0).Some? && MatchFrom(s, hdr, 0).value + |hdr| <= p
    ensures MatchFrom(t, hdr, 0) == MatchFrom(s, hdr, 0)
  {
    var i := MatchFrom(s, hdr, 0).value;
    MatchAgrees(s, t, hdr, p, i);
    var r := MatchFrom(t, hdr, 0);
    if r.Some? && r.value < i {
      MatchAgrees(s, t, hdr, p, r.value);
    }
  }

  /** A line with its value between v and end. */
  lemma ValueIs(s: string, start: nat, v: nat, end: nat)
    requires start <= v <= end && end + 1 < |s| && OnlySeparators(s, start, v) && !Separator(s[v])
    requires NoFeed(s, start, end + 1) && s[end] == '\r' && s[end + 1] == '\n'
    ensures LocateValue(s, start) == Value(v, end)
  {
    LineFeedIs(s, start, end + 1);
    SkipIs(s, start, v);
  }

  lemma LineFeedIs(s: string, i: nat, q: nat)
    requires i <= q < |s| && s[q] == '\n' && NoFeed(s, i, q)
    ensures LineFeed(s, i) == q
  {
    assert NoFeed(s, i, LineFeed(s, i));
  }

  lemma SkipIs(s: string, i: nat, k: nat)
    requires i <= k < |s| && !Separator(s[k]) && OnlySeparators(s, i, k)
    ensures SkipSeparators(s, i) == k
  {
    assert OnlySeparators(s, i, SkipSeparators(s, i));
  }

  /** What makes a value readable behind a header. */
  predicate Readable(w: string) {
    '\n' !in w && (w == "" || !Separator(w[0]))
  }

  /** t holds w at v, with CR LF behind it. */
  ghost predicate Holds(t: string, v: nat, w: string) {
    && v + |w| + 1 < |t| && t[v + |w|] == '\r' && t[v + |w| + 1] == '\n'
    && forall k :: v <= k < v + |w| ==> t[k] == w[k - v]
  }

  lemma ReadableFound(t: string, start: nat, v: nat, w: string)
    requires start <= v && Holds(t, v, w) && OnlySeparators(t, start, v) && Readable(w)
    ensures LocateValue(t, start) == Value(v, v + |w|)
  {
    assert !Separator(t[v]);
    assert NoFeed(t, start, v + |w| + 1);
    ValueIs(t, start, v, v + |w|);
  }

  lemma OthersNotFound(t: string, start: nat, v: nat, w: string)
    requires start <= v && Holds(t, v, w) && !Readable(w)
    ensures LocateValue(t, start) != Value(v, v + |w|)
  {
    if '\n' in w {
      var k :| 0 <= k < |w| && w[k] == '\n';
      assert t[v + k] == '\n';
      assert NoFeed(t, start, LineFeed(t, start));
    } else {
      assert Separator(t[v]);
    }
  }

  /** The written value is found again, at the same place, exactly if it is readable. */
  lemma PutGet(s: string, hdr: string, w: string)
    requires Locate(s, hdr).Value?
    ensures var place := Locate(s, hdr);
            Locate(Edited(s, hdr, w, None), hdr) == Value(place.v, place.v + |w|) <==> Readable(w)
  {
    var v, end := Locate(s, hdr).v, Locate(s, hdr).end;
    var start := MatchFrom(s, hdr, 0).value + |hdr|;
    var t := s[..v] + w + s[end..];
    PutValue(s, t, start, v, end, w);
    MatchKept(s, t, hdr, v);
  }

  lemma PutValue(s: string, t: string, start: nat, v: nat, end: nat, w: string)
    requires start <= |s| && LocateValue(s, start) == Value(v, end)
    requires t == s[..v] + w + s[end..]
    ensures Agree(s, t, v) && start <= v
    ensures LocateValue(t, start) == Value(v, v + |w|) <==> Readable(w)
  {
    PutHolds(s, t, start, v, end, w);
    if Readable(w) {
      ReadableFound(t, start, v, w);
    } else {
      OthersNotFound(t, start, v, w);
    }
  }

  lemma PutHolds(s: string, t: string, start: nat, v: nat, end: nat, w: string)
    requires start <= |s| && LocateValue(s, start) == Value(v, end)
    requires t == s[..v] + w + s[end..]
    ensures Agree(s, t, v) && Holds(t, v, w) && OnlySeparators(t, start, v)
  {
    var tail := s[end..];
    assert s[end..end + 2][0] == '\r' && s[end..end + 2][1] == '\n';
    assert tail[0] == '\r' && tail[1] == '\n';
  }

  /** The written value is then accepted as the expected old one, and a second rewrite
      overrides the first. */
  lemma PutPut(s: string, hdr: string, w: string, x: string, ovalue: Option<string>)
    requires Code(s, hdr, ovalue) == 0 && Readable(w)
    ensures var t := Edited(s, hdr, w, ovalue);
            Code(t, hdr, Some(w)) == 0 && Edited(t, hdr, x, Some(w)) == Edited(s, hdr, x, ovalue)
  {
    PutGet(s, hdr, w);
    var t := Edited(s, hdr, w, ovalue);
    var v, end := Locate(s, hdr).v, Locate(s, hdr).end;
    assert t == s[..v] + w + s[end..];
    assert t[v..v + |w|] == w && t[..v] == s[..v] && t[v + |w|..] == s[end..];
  }

  /** Writing the value that is there changes nothing. */
  lemma GetPut(s: string, hdr: string, ovalue: Option<string>)
    requires Code(s, hdr, ovalue) == 0
    ensures Edited(s, hdr, Get(s, hdr).value, ovalue) == s
  {}

  /** An expected value that differs in more than case stops the edit. */
  lemma WrongOldValue(s: string, hdr: string, w: string, x: string, other: string)
    requires Locate(s, hdr).Value? && Readable(w) && !SameText(w, other)
    ensures var t := Edited(s, hdr, w, None); Edited(t, hdr, x, Some(other)) == t
  {
    PutGet(s, hdr, w);
    var v := Locate(s, hdr).v;
    assert Edited(s, hdr, w, None)[v..v + |w|] == w;
  }

  // ---------- exactly what is edited ----------

  /** The first place where the header stands, in any case. */
  ghost predicate FirstAt(s: string, hdr: string, i: nat) {
    MatchesAt(s, hdr, i) && forall k: nat :: k < i ==> !MatchesAt(s, hdr, k)
  }

  /** From start on come separators, and then, before any line feed, a value with CR LF
      behind it. */
  ghost predicate ValueAt(s: string, start: nat, v: nat, end: nat) {
    && start <= v <= end && end + 1 < |s| && s[end] == '\r' && s[end + 1] == '\n'
    && (forall k :: start <= k < v ==> s[k] in ": \t") && s[v] !in ": \t"
    && (forall k :: start <= k <= end ==> s[k] != '\n')
  }

  lemma LocateMeans(s: string, start: nat, v: nat, end: nat)
    requires start <= |s|
    ensures LocateValue(s, start) == Value(v, end) <==> ValueAt(s, start, v, end)
  {
    if ValueAt(s, start, v, end) {
      ValueIs(s, start, v, end);
    }
    if LocateValue(s, start) == Value(v, end) {
      assert s[end..end + 2][0] == '\r' && s[end..end + 2][1] == '\n';
    }
  }

  /** The header stands first at i, with this value, which is the one expected if one is. */
  ghost predicate Editable(s: string, hdr: string, ovalue: Option<string>, i: nat, v: nat, end: nat) {
    && FirstAt(s, hdr, i) && ValueAt(s, i + |hdr|, v, end)
    && (ovalue.Some? ==> SameText(s[v..end], ovalue.value))
  }

  /** 1 exactly if the header stands nowhere; 0 exactly if there is something to edit, and
      then just that value is replaced; -1 otherwise; and only 0 changes the text. */
  lemma EditMeans(s: string, hdr: string, w: string, ovalue: Option<string>)
    ensures Code(s, hdr, ovalue) in {0, 1, -1}
    ensures Code(s, hdr, ovalue) == 1 <==> forall i: nat :: !MatchesAt(s, hdr, i)
    ensures Code(s, hdr, ovalue) == 0 <==> exists i: nat, v: nat, end: nat :: Editable(s, hdr, ovalue, i, v, end)
    ensures Code(s, hdr, ovalue) != 0 ==> Edited(s, hdr, w, ovalue) == s
    ensures forall i: nat, v: nat, end: nat :: Editable(s, hdr, ovalue, i, v, end) ==>
                                                 Edited(s, hdr, w, ovalue) == s[..v] + w + s[end..]
  {
    if Code(s, hdr, ovalue) == 0 {
      var i, place := MatchFrom(s, hdr, 0).value, Locate(s, hdr);
      FoundEditable(s, hdr, ovalue, i, place.v, place.end);
    }
    forall i: nat, v: nat, end: nat | Editable(s, hdr, ovalue, i, v, end)
      ensures Code(s, hdr, ovalue) == 0 && Edited(s, hdr, w, ovalue) == s[..v] + w + s[end..]
    {
      EditableFound(s, hdr, w, ovalue, i, v, end);
    }
  }

  lemma FoundEditable(s: string, hdr: string, ovalue: Option<string>, i: nat, v: nat, end: nat)
    requires MatchFrom(s, hdr, 0) == Some(i) && Locate(s, hdr) == Value(v, end) && Code(s, hdr, ovalue) == 0
    ensures Editable(s, hdr, ovalue, i, v, end)
  {
    LocateMeans(s, i + |hdr|, v, end);
  }

  lemma EditableFound(s: string, hdr: string, w: string, ovalue: Option<string>, i: nat, v: nat, end: nat)
    requires Editable(s, hdr, ovalue, i, v, end)
    ensures Code(s, hdr, ovalue) == 0 && Edited(s, hdr, w, ovalue) == s[..v] + w + s[end..]
  {
    OnlyFirst(s, hdr, i);
    LocateMeans(s, i + |hdr|, v, end);
  }

  lemma OnlyFirst(s: string, hdr: string, i: nat)
    requires FirstAt(s, hdr, i)
    ensures MatchFrom(s, hdr, 0) == Some(i)
  {}

  /** Case, colons, blanks and tabs: an example. */
  lemma EditExample(s: string, w: string)
    requires s == "\nhOST:\t ab\r\n"
    ensures Edited(s, "Host", w, Some("aB")) == "\nhOST:\t " + w + "\r\n"
    ensures Code(s, "Host", Some("aB")) == 0
  {
    LettersAt(s);
    ExampleValue(s);
    EditableFound(s, "Host", w, Some("aB"), 1, 8, 10);
    assert s[..8] == "\nhOST:\t " && s[10..] == "\r\n";
  }

  lemma LettersAt(s: string)
    requires s == "\nhOST:\t ab\r\n"
    ensures FirstAt(s, "Host", 1)
  {
    assert Lower(s[0]) != Lower("Host"[0]);
    assert Lower('O') == 'o' && Lower('S') == 's' && Lower('T') == 't' && Lower('H') == 'h';
  }

  lemma ExampleValue(s: string)
    requires s == "\nhOST:\t ab\r\n"
    ensures ValueAt(s, 5, 8, 10) && SameText(s[8..10], "aB")
  {
    assert s[8..10] == "ab";
  }

  // ---------- in place ----------

  /** memmove inside one buffer. */
  method MemMove(buf: array<char>, to: nat, from: nat, n: nat)
    requires to + n <= buf.Length && from + n <= buf.Length
    modifies buf
    ensures forall k :: to <= k < to + n ==> buf[k] == old(buf[k - to + from])
    ensures forall k :: 0 <= k < buf.Length && !(to <= k < to + n) ==> buf[k] == old(buf[k])
  {
    forall k | to <= k < to + n {
      buf[k] := buf[k - to + from];
    }
  }

  /** memcpy from a string. */
  method MemCpy(buf: array<char>, to: nat, src: string)
    requires to + |src| <= buf.Length
    modifies buf
    ensures forall k :: to <= k < to + |src| ==> buf[k] == src[k - to]
    ensures forall k :: 0 <= k < buf.Length && !(to <= k < to + |src|) ==> buf[k] == old(buf[k])
  {
    forall k | to <= k < to + |src| {
      buf[k] := src[k - to];
    }
  }

  /** The value between v and vend becomes nvalue. */
  method Replace(buf: array<char>, len: nat, v: nat, vend: nat, nvalue: string) returns (newLen: nat)
    requires v <= vend <= len <= buf.Length && len - (vend - v) + |nvalue| <= buf.Length
    modifies buf
    ensures newLen == len - (vend - v) + |nvalue|
    ensures buf[..newLen] == old(buf[..v]) + nvalue + old(buf[vend..len])
    ensures buf[newLen..] == old(buf[newLen..])
  {
    var nc := |nvalue| - (vend - v);
    newLen := len + nc;
    ghost var was := buf[..];
    if nc != 0 {
      MemMove(buf, vend + nc, vend, len - vend);
    }
    MemCpy(buf, v, nvalue);
    Replaced(was, buf[..], len, newLen, v, vend, nvalue);
  }

  lemma Replaced(s: string, t: string, len: nat, newLen: nat, v: nat, vend: nat, nvalue: string)
    requires v <= vend <= len <= |s| == |t| && newLen == len - (vend - v) + |nvalue| <= |s|
    requires forall k :: 0 <= k < v || newLen <= k < |s| ==> t[k] == s[k]
    requires forall k :: v <= k < v + |nvalue| ==> t[k] == nvalue[k - v]
    requires forall k :: v + |nvalue| <= k < newLen ==> t[k] == s[k - newLen + len]
    ensures t[..newLen] == s[..v] + nvalue + s[vend..len] && t[newLen..] == s[newLen..]
  {}

  /** The scan of a header line, up to its value and its end or to the line feed. */
  method ScanLine(buf: array<char>, len: nat, start: nat) returns (place: Place)
    requires start <= len <= buf.Length && !NoFeed(buf[..len], start, len)
    ensures place == LocateValue(buf[..len], start)
  {
    ghost var s := buf[..len];
    var p := start;
    var v, vend: Option<nat> := None, None;
    while buf[p] != '\n'
      invariant start <= p < len && NoFeed(s, start, p) && !NoFeed(s, p, len)
      invariant vend.None? && (p > start && s[p - 1] == '\r' ==> s[p] != '\n')
      invariant v.None? ==> OnlySeparators(s, start, p)
      invariant v.Some? ==> start <= v.value < p && OnlySeparators(s, start, v.value) && !Separator(s[v.value])
      decreases len - p
    {
      if v.None? && !Separator(buf[p]) {
        v := Some(p);
      }
      if vend.None? && buf[p] == '\r' && buf[p + 1] == '\n' {
        vend := Some(p);
      }
      if v.Some? && vend.Some? {
        ValueIs(s, start, v.value, p);
        break;
      }
      p := p + 1;
    }
    if v.Some? && vend.Some? {
      place := Value(v.value, vend.value);
    } else {
      LineFeedIs(s, start, p);
      place := BadLine;
    }
  }

  /** What a call demands: the header fits the text, its line ends, and the new value fits
      the buffer. */
  ghost predicate Callable(s: string, capacity: nat, hdr: string, nvalue: string, ovalue: Option<string>) {
    && |hdr| <= |s| <= capacity
    && (MatchFrom(s, hdr, 0).Some? ==> !NoFeed(s, MatchFrom(s, hdr, 0).value + |hdr|, |s|))
    && (Code(s, hdr, ovalue) == 0 ==> |s| - (Locate(s, hdr).end - Locate(s, hdr).v) + |nvalue| <= capacity)
  }

  function Given(o: Option<string>): string {
    if o.Some? then o.value else ""
  }

  /** The line found: its value is checked and replaced. */
  method EditLine(buf: array<char>, len: nat, start: nat, nvalue: string, ovalue: Option<string>, ghost place: Place)
    returns (rc: int, newLen: nat)
    requires start <= len <= buf.Length && !NoFeed(buf[..len], start, len) && place == LocateValue(buf[..len], start)
    requires place.Value? && Accepts(buf[..len][place.v..place.end], ovalue) ==>
               len - (place.end - place.v) + |nvalue| <= buf.Length
    modifies buf
    ensures rc == if place.Value? && Accepts(old(buf[..len][place.v..place.end]), ovalue) then 0 else -1
    ensures newLen <= buf.Length && buf[newLen..] == old(buf[newLen..])
    ensures rc == -1 ==> buf[..newLen] == old(buf[..len])
    ensures rc == 0 ==> buf[..newLen] == old(buf[..len][..place.v]) + nvalue + old(buf[..len][place.end..])
  {
    ghost var s := buf[..len];
    var at := ScanLine(buf, len, start);
    if !at.Value? {
      return -1, len;
    }
    assert s[at.v..at.end] == buf[at.v..at.end];
    if ovalue.Some? && !SameText(buf[at.v..at.end], ovalue.value) {
      return -1, len;
    }
    assert s[at.end..] == buf[at.end..len] && s[..at.v] == buf[..at.v];
    newLen := Replace(buf, len, at.v, at.end, nvalue);
    rc := 0;
  }

  /** hp_http_modify_header: the text becomes the edited one, and nothing else changes. */
  method ModifyHeader(buf: array<char>, len: nat, hdr: string, nvalue: Option<string>, ovalue: Option<string>)
    returns (rc: int, newLen: nat)
    requires len <= buf.Length && Callable(buf[..len], buf.Length, hdr, Given(nvalue), ovalue)
    modifies buf
    ensures rc == old(Code(buf[..len], hdr, ovalue))
    ensures newLen <= buf.Length && buf[..newLen] == old(Edited(buf[..len], hdr, Given(nvalue), ovalue))
    ensures buf[newLen..] == old(buf[newLen..])
  {
    ghost var s := buf[..len];
    var i := 0;
    while i < len - |hdr|
      invariant i <= len - |hdr| && MatchFrom(s, hdr, 0) == MatchFrom(s, hdr, i)
    {
      if MatchesAt(buf[..len], hdr, i) {
        rc, newLen := EditLine(buf, len, i + |hdr|, Given(nvalue), ovalue, Locate(s, hdr));
        return;
      }
      i := i + 1;
    }
    return 1, len;
  }
}
