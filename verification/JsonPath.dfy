/** The JSON path language of src/hp_cjson.c: cjson_, cjson_exists and cjson_col. */
module JsonPath {
  import opened Common
  import opened Decimal

  datatype Value = Scalar(text: string) | Array | Object

  /** A cJSON node: its name inside an object, its own value and its children in order. */
  datatype Json = Json(name: Option<string>, value: Value, items: seq<Json>)

  // ---------- the cJSON calls used ----------

  predicate Named(j: Json, name: string) {
    j.name.Some? && SameText(name, j.name.value)
  }

  function FirstNamed(items: seq<Json>, name: string): (r: Option<Json>)
    ensures r.Some? ==> Named(r.value, name)
    ensures r.None? <==> forall i :: 0 <= i < |items| ==> !Named(items[i], name)
    ensures r.Some? ==> exists i :: 0 <= i < |items| && r.value == items[i]
                                    && forall k :: 0 <= k < i ==> !Named(items[k], name)
  {
    if items == [] then None
    else if Named(items[0], name) then Some(items[0])
    else
      assert forall k :: 0 < k < |items| ==> items[k] == items[1..][k - 1];
      FirstNamed(items[1..], name)
  }

  /** cJSON_GetObjectItem: the first child of that name, nothing from nothing. */
  function GetItem(j: Option<Json>, name: string): Option<Json> {
    if j.None? then None else FirstNamed(j.value.items, name)
  }

  /** cJSON_GetArraySize. */
  function Size(j: Option<Json>): nat {
    if j.None? then 0 else |j.value.items|
  }

  /** cJSON_GetArrayItem. */
  function ItemAt(j: Option<Json>, i: int): Option<Json> {
    if j.None? || i < 0 || i >= |j.value.items| then None else Some(j.value.items[i])
  }

  /** cJSON_Duplicate without recursion. */
  function Shallow(j: Json): Json {
    j.(items := [])
  }

  // ---------- splitting ----------

  /** The pieces between separators; there is always at least one. */
  function Tokens(s: string, sep: char): (ts: seq<string>)
    ensures |ts| >= 1
  {
    if s == "" then [""]
    else if s[0] == sep then [""] + Tokens(s[1..], sep)
    else
      var ts := Tokens(s[1..], sep);
      [[s[0]] + ts[0]] + ts[1..]
  }

  /** sdssplitlen: no pieces at all from an empty text. */
  function Split(s: string, sep: char): seq<string> {
    if s == "" then [] else Tokens(s, sep)
  }

  lemma {:induction false} TokensConcat(a: string, b: string, sep: char)
    ensures Tokens(a + [sep] + b, sep) == Tokens(a, sep) + Tokens(b, sep)
  {
    if a == "" {
      assert a + [sep] + b == [sep] + b;
    } else {
      TokensConcat(a[1..], b, sep);
      assert (a + [sep] + b)[1..] == a[1..] + [sep] + b;
      if a[0] != sep {
        LongerFirst(a[0], Tokens(a[1..], sep), Tokens(b, sep));
      } else {
        Assoc([""], Tokens(a[1..], sep), Tokens(b, sep));
      }
    }
  }

  lemma LongerFirst(c: char, a: seq<string>, b: seq<string>)
    requires |a| >= 1
    ensures [[c] + (a + b)[0]] + (a + b)[1..] == [[c] + a[0]] + a[1..] + b
  {}

  lemma {:induction false} OneToken(s: string, sep: char)
    requires sep !in s
    ensures Tokens(s, sep) == [s]
  {
    if s != "" {
      OneToken(s[1..], sep);
      assert [s[0]] + s[1..] == s;
    }
  }

  // ---------- an index at the end of an alternative ----------

  /** The text between the brackets: an optional sign and digits. */
  predicate IsIndexText(t: string) {
    Unsigned(t) != "" && AllDigits(Unsigned(t))
  }

  predicate IndexedAt(s: string, p: nat) {
    p + 1 < |s| && s[p] == '[' && s[|s| - 1] == ']' && IsIndexText(s[p + 1..|s| - 1])
  }

  /** The leftmost match of the index pattern at or behind p. */
  function MatchFrom(s: string, p: nat): (r: Option<nat>)
    requires p <= |s|
    ensures r.Some? ==> p <= r.value && IndexedAt(s, r.value)
    ensures r.None? ==> forall q: nat :: p <= q ==> !IndexedAt(s, q)
    decreases |s| - p
  {
    if p == |s| then None else if IndexedAt(s, p) then Some(p) else MatchFrom(s, p + 1)
  }

  /** Where the bracket of a trailing index opens. */
  function IndexOf(s: string): (r: Option<nat>)
    ensures r.Some? ==> IndexedAt(s, r.value)
    ensures r.None? ==> forall q: nat :: !IndexedAt(s, q)
  {
    MatchFrom(s, 0)
  }

  /** There is only one place it can open. */
  lemma IndexUnique(s: string, p: nat)
    requires IndexedAt(s, p)
    ensures IndexOf(s) == Some(p)
  {
    var q := IndexOf(s).value;
    if q < p {
      NoBracketInside(s, q, p);
    } else if p < q {
      NoBracketInside(s, p, q);
    }
  }

  lemma SignOrDigit(t: string, i: nat)
    requires IsIndexText(t) && i < |t|
    ensures IsDigit(t[i]) || t[i] == '+' || t[i] == '-'
  {
    var u := Unsigned(t);
    if u == t {
      assert IsDigit(u[i]);
    } else if i > 0 {
      assert IsDigit(u[i - 1]);
    }
  }

  lemma NoBracketInside(s: string, p: nat, i: nat)
    requires IndexedAt(s, p) && p < i < |s| - 1
    ensures s[i] != '['
  {
    SignOrDigit(s[p + 1..|s| - 1], i - p - 1);
  }

  function IndexText(s: string, p: nat): string
    requires IndexedAt(s, p)
  {
    s[p + 1..|s| - 1]
  }

  /** An index below the first child means the first, one behind the last the last. */
  function Clamp(b: int, n: nat): int {
    var low := if b < 0 then 0 else b;
    if low > n - 1 then n - 1 else low
  }

  // ---------- what a path means ----------

  /** One alternative: a node, no node, or given up because the indexed key is missing. */
  datatype Outcome = Found(node: Json) | Failed | Skipped

  function OutcomeOf(r: Option<Json>): Outcome {
    match r case Some(j) => Found(j) case None => Failed
  }

  ghost function Try(cur: Option<Json>, alt: string): Outcome {
    match IndexOf(alt)
    case None => OutcomeOf(GetItem(cur, alt))
    case Some(p) =>
      var base := if p > 0 then GetItem(cur, alt[..p]) else cur;
      if p > 0 && base.None? then Skipped
      else OutcomeOf(ItemAt(base, Clamp(Atoi(IndexText(alt, p)), Size(base))))
  }

  /** The alternatives of one segment, as the loop goes through them. */
  ghost function Alternatives(cur: Option<Json>, from: Json, alts: seq<string>): Option<Json>
    decreases |alts|
  {
    if alts == [] then cur
    else if alts[0] == "" then Alternatives(cur, from, alts[1..])
    else match Try(cur, alts[0])
         case Found(j) => Some(j)
         case Failed => if |alts| > 1 then Alternatives(Some(from), from, alts[1..]) else None
         case Skipped => Alternatives(None, from, alts[1..])
  }

  ghost function Segment(j: Json, seg: string): Option<Json> {
    Alternatives(Some(j), j, Split(seg, '|'))
  }

  ghost function Walk(cur: Option<Json>, segs: seq<string>): Option<Json>
    decreases |segs|
  {
    if cur.None? || segs == [] then cur
    else if segs[0] == "" then Walk(cur, segs[1..])
    else Walk(Segment(cur.value, segs[0]), segs[1..])
  }

  /** The node a path leads to. */
  ghost function Lookup(j: Option<Json>, path: string): Option<Json> {
    Walk(j, Split(path, '/'))
  }

  // ---------- composition ----------

  lemma {:induction false} WalkConcat(cur: Option<Json>, a: seq<string>, b: seq<string>)
    ensures Walk(cur, a + b) == Walk(Walk(cur, a), b)
    decreases |a|
  {
    if cur.None? {
    } else if a == [] {
      assert a + b == b;
    } else {
      assert (a + b)[1..] == a[1..] + b;
      WalkConcat(if a[0] == "" then cur else Segment(cur.value, a[0]), a[1..], b);
    }
  }

  lemma WalkTokens(cur: Option<Json>, path: string)
    ensures Walk(cur, Tokens(path, '/')) == Lookup(cur, path)
  {}

  /** Looking up p/q is looking up q in what p leads to, for all paths. */
  lemma Composition(j: Option<Json>, p: string, q: string)
    ensures Lookup(j, p + "/" + q) == Lookup(Lookup(j, p), q)
  {
    TokensConcat(p, q, '/');
    WalkConcat(j, Tokens(p, '/'), Tokens(q, '/'));
    WalkTokens(j, p);
    WalkTokens(Lookup(j, p), q);
  }

  /** Slashes at either end do not matter. */
  lemma EmptySegments(j: Option<Json>, p: string)
    ensures Lookup(j, "/" + p) == Lookup(j, p) && Lookup(j, p + "/") == Lookup(j, p)
  {
    assert "" + "/" + p == "/" + p && p + "/" + "" == p + "/";
    Composition(j, "", p);
    Composition(j, p, "");
  }

  // ---------- alternatives ----------

  /** What an alternative is, tried from a node: empty, leading somewhere, leading nowhere,
      or an index whose key is missing. Keyed: an index behind a key. */
  datatype Kind = Blank | Resolves(node: Json, keyed: bool) | Fails(keyed: bool) | Lost {
    predicate Keyed() {
      Lost? || (Resolves? && keyed) || (Fails? && keyed)
    }
  }

  predicate HasKey(alt: string) {
    IndexOf(alt).Some? && IndexOf(alt).value > 0
  }

  ghost function KindOf(j: Json, alt: string): Kind {
    if alt == "" then Blank
    else match Try(Some(j), alt)
         case Found(node) => Resolves(node, HasKey(alt))
         case Failed => Fails(HasKey(alt))
         case Skipped => Lost
  }

  ghost function Kinds(j: Json, alts: seq<string>): (ks: seq<Kind>)
    ensures |ks| == |alts| && forall i :: 0 <= i < |alts| ==> ks[i] == KindOf(j, alts[i])
  {
    if alts == [] then [] else [KindOf(j, alts[0])] + Kinds(j, alts[1..])
  }

  /** From nothing, every alternative fails; those with a key are given up. */
  lemma TryNothing(alt: string)
    ensures Try(None, alt) == if HasKey(alt) then Skipped else Failed
  {}

  /** Only an index with a key is given up. */
  lemma LostHasKey(j: Json, alt: string)
    requires Try(Some(j), alt).Skipped?
    ensures HasKey(alt)
  {}

  /** The loop in terms of kinds; live while the current node is not lost. */
  function Loop(live: bool, j: Json, ks: seq<Kind>): Option<Json>
    decreases |ks|
  {
    if ks == [] then (if live then Some(j) else None)
    else if ks[0].Blank? then Loop(live, j, ks[1..])
    else if live && ks[0].Resolves? then Some(ks[0].node)
    else if (live && ks[0].Lost?) || (!live && ks[0].Keyed()) then Loop(false, j, ks[1..])
    else if |ks| == 1 then None
    else Loop(true, j, ks[1..])
  }

  lemma {:induction false} AlternativesLoop(live: bool, j: Json, alts: seq<string>)
    ensures Alternatives(if live then Some(j) else None, j, alts) == Loop(live, j, Kinds(j, alts))
    decreases |alts|
  {
    if alts != [] {
      assert Kinds(j, alts)[1..] == Kinds(j, alts[1..]);
      AlternativesLoop(true, j, alts[1..]);
      AlternativesLoop(false, j, alts[1..]);
      TryNothing(alts[0]);
      if Try(Some(j), alts[0]).Skipped? {
        LostHasKey(j, alts[0]);
      }
    }
  }

  /** Alternative k is not looked at properly: one before it lost its key, and in between
      are only empty and keyed ones. */
  ghost predicate Spoiled(ks: seq<Kind>, k: nat)
    requires k <= |ks|
  {
    exists m :: 0 <= m < k && ks[m].Lost? && OnlyKeyed(ks, m + 1, k)
  }

  ghost predicate OnlyKeyed(ks: seq<Kind>, lo: nat, hi: nat)
    requires hi <= |ks|
  {
    forall i :: lo <= i < hi ==> ks[i].Blank? || ks[i].Keyed()
  }

  /** Alternative k leads somewhere and is looked at. */
  ghost predicate Eligible(ks: seq<Kind>, k: nat)
    requires k < |ks|
  {
    ks[k].Resolves? && !Spoiled(ks, k)
  }

  ghost predicate NoneBefore(ks: seq<Kind>, k: nat)
    requires k <= |ks|
  {
    forall i :: 0 <= i < k ==> !Eligible(ks, i)
  }

  ghost predicate EndsOpen(ks: seq<Kind>) {
    ks == [] || (ks[|ks| - 1].Blank? && !Spoiled(ks, |ks|))
  }

  /** r is the node of the first eligible alternative; without one it is the node itself
      if the alternatives end in an unspoiled empty one, and nothing otherwise. */
  ghost predicate ChoiceIs(j: Json, ks: seq<Kind>, r: Option<Json>) {
    && (forall k :: 0 <= k < |ks| && Eligible(ks, k) && NoneBefore(ks, k) ==> r == Some(ks[k].node))
    && (NoneBefore(ks, |ks|) ==> r == if EndsOpen(ks) then Some(j) else None)
  }

  lemma SpoiledNext(ks: seq<Kind>, k: nat)
    requires k < |ks|
    ensures Spoiled(ks, k + 1) <==> ks[k].Lost? || (Spoiled(ks, k) && (ks[k].Blank? || ks[k].Keyed()))
  {
    if ks[k].Lost? {
      assert OnlyKeyed(ks, k + 1, k + 1);
    }
    if m :| 0 <= m < k && ks[m].Lost? && OnlyKeyed(ks, m + 1, k) {
      if ks[k].Blank? || ks[k].Keyed() {
        assert OnlyKeyed(ks, m + 1, k + 1);
      }
    }
    if m :| 0 <= m < k + 1 && ks[m].Lost? && OnlyKeyed(ks, m + 1, k + 1) {
      if m < k {
        assert OnlyKeyed(ks, m + 1, k);
      }
    }
  }

  lemma LoopNext(live: bool, j: Json, ks: seq<Kind>, i: nat)
    requires i < |ks|
    ensures Loop(live, j, ks[i..]) ==
            if ks[i].Blank? then Loop(live, j, ks[i + 1..])
            else if live && ks[i].Resolves? then Some(ks[i].node)
            else if (live && ks[i].Lost?) || (!live && ks[i].Keyed()) then Loop(false, j, ks[i + 1..])
            else if i + 1 == |ks| then None
            else Loop(true, j, ks[i + 1..])
  {
    assert ks[i..][1..] == ks[i + 1..];
  }

  lemma {:induction false} LoopChooses(j: Json, ks: seq<Kind>, i: nat)
    requires i <= |ks| && NoneBefore(ks, i)
    requires i == |ks| ==> ks == [] || ks[|ks| - 1].Blank? || Spoiled(ks, i)
    ensures ChoiceIs(j, ks, Loop(!Spoiled(ks, i), j, ks[i..]))
    decreases |ks| - i
  {
    if i < |ks| {
      SpoiledNext(ks, i);
      LoopNext(!Spoiled(ks, i), j, ks, i);
      if !Eligible(ks, i) && (i + 1 < |ks| || ks[i].Blank? || Spoiled(ks, i + 1)) {
        LoopChooses(j, ks, i + 1);
      }
    }
  }

  /** The alternatives of a segment, as a choice instead of a loop. */
  lemma AlternativesChoose(j: Json, seg: string)
    requires seg != ""
    ensures ChoiceIs(j, Kinds(j, Tokens(seg, '|')), Segment(j, seg))
  {
    var ks := Kinds(j, Tokens(seg, '|'));
    AlternativesLoop(true, j, Tokens(seg, '|'));
    assert ks[0..] == ks && !Spoiled(ks, 0);
    LoopChooses(j, ks, 0);
  }

  /** The first alternative that leads somewhere is the one taken unless it is spoiled;
      and if it is the only one, and all behind it are keys, exactly then. */
  lemma FirstThatResolves(j: Json, seg: string, ks: seq<Kind>, k: nat)
    requires seg != "" && ks == Kinds(j, Tokens(seg, '|')) && k < |ks|
    requires ks[k].Resolves? && forall i :: 0 <= i < k ==> !ks[i].Resolves?
    ensures !Spoiled(ks, k) ==> Segment(j, seg) == Some(ks[k].node)
    ensures OnlyKeysFrom(ks, k + 1) ==> (Segment(j, seg) == Some(ks[k].node) <==> !Spoiled(ks, k))
  {
    AlternativesChoose(j, seg);
    ChoiceOfFirst(j, ks, k, Segment(j, seg));
  }

  ghost predicate OnlyKeysFrom(ks: seq<Kind>, lo: nat) {
    forall i :: lo <= i < |ks| ==> ks[i].Fails? || ks[i].Lost?
  }

  lemma ChoiceOfFirst(j: Json, ks: seq<Kind>, k: nat, r: Option<Json>)
    requires k < |ks| && ks[k].Resolves? && ChoiceIs(j, ks, r)
    requires forall i :: 0 <= i < k ==> !ks[i].Resolves?
    ensures !Spoiled(ks, k) ==> r == Some(ks[k].node)
    ensures Spoiled(ks, k) && OnlyKeysFrom(ks, k + 1) ==> r == None
  {
    if Spoiled(ks, k) && OnlyKeysFrom(ks, k + 1) {
      assert NoneBefore(ks, |ks|);
      assert !EndsOpen(ks);
    } else if !Spoiled(ks, k) {
      assert NoneBefore(ks, k);
    }
  }

  /** It can be spoiled: b is there, but a[0]|b does not find it. */
  lemma SpoiledExample()
    ensures var j := Json(None, Object, [Json(Some("b"), Scalar("1"), [])]);
            Segment(j, "b") == Some(j.items[0]) && Segment(j, "a[0]|b") == None
  {
    var j := Json(None, Object, [Json(Some("b"), Scalar("1"), [])]);
    TokensConcat("a[0]", "b", '|');
    OneToken("a[0]", '|');
    OneAlternative(j, "b");
    assert "a[0]" + ['|'] + "b" == "a[0]|b";
    assert "a[0]"[2..3] == "0" && IsIndexText("0");
    IndexUnique("a[0]", 1);
    assert !Named(j.items[0], "a[0]"[..1]);
    assert Alternatives(None, j, ["b"]) == None;
    assert ["a[0]"] + ["b"] == ["a[0]", "b"];
    assert ["a[0]", "b"][1..] == ["b"];
  }

  /** A segment without alternatives. */
  lemma OneAlternative(j: Json, seg: string)
    requires seg != "" && '|' !in seg
    ensures Tokens(seg, '|') == [seg]
    ensures Segment(j, seg) == (match Try(Some(j), seg) case Found(r) => Some(r) case _ => None)
  {
    OneToken(seg, '|');
    assert [seg][1..] == [];
    assert Alternatives(None, j, []) == None;
  }

  // ---------- an index behind its key, or as a segment of its own ----------

  lemma IndexSegment(j: Json, key: string, t: string)
    requires IsIndexText(t) && '|' !in key
    ensures Segment(j, key + "[" + t + "]")
         == (var base := if key == "" then Some(j) else GetItem(Some(j), key);
             ItemAt(base, Clamp(Atoi(t), Size(base))))
    ensures '/' !in t && '|' !in t
  {
    var seg := key + "[" + t + "]";
    OnlySignAndDigits(t);
    OneAlternative(j, seg);
    assert seg[|key| + 1..|seg| - 1] == t && seg[..|key|] == key;
    IndexUnique(seg, |key|);
  }

  /** Child number k, where a number below 0 stands for the first and one past the end for
      the last; none if there are none. */
  ghost predicate ChildIs(j: Json, k: int, r: Option<Json>) {
    if j.items == [] then r == None
    else if k < 0 then r == Some(j.items[0])
    else if k >= |j.items| then r == Some(j.items[|j.items| - 1])
    else r == Some(j.items[k])
  }

  /** What an index leads to, for all index texts: behind a key, a child of the first child
      of that name, and nothing if there is no such child; alone, a child of the node. */
  lemma IndexMeans(j: Json, key: string, t: string)
    requires IsIndexText(t) && '|' !in key
    ensures key == "" ==> ChildIs(j, Atoi(t), Segment(j, "[" + t + "]"))
    ensures key != "" ==> var base, r := GetItem(Some(j), key), Segment(j, key + "[" + t + "]");
                          if base.Some? then ChildIs(base.value, Atoi(t), r) else r == None
  {
    IndexSegment(j, key, t);
    assert "" + "[" + t + "]" == "[" + t + "]";
    var base := if key == "" then Some(j) else GetItem(Some(j), key);
    if base.Some? {
      ChildAt(base.value, Atoi(t));
    }
  }

  lemma ChildAt(j: Json, k: int)
    ensures ChildIs(j, k, ItemAt(Some(j), Clamp(k, Size(Some(j)))))
  {}

  lemma OnlySignAndDigits(t: string)
    requires IsIndexText(t)
    ensures '/' !in t && '|' !in t
  {
    forall i | 0 <= i < |t|
      ensures t[i] != '/' && t[i] != '|'
    {
      SignOrDigit(t, i);
    }
  }

  lemma OneSegment(j: Option<Json>, seg: string)
    requires seg != "" && '/' !in seg
    ensures Lookup(j, seg) == if j.None? then None else Segment(j.value, seg)
  {
    OneToken(seg, '/');
    if j.Some? {
      assert Walk(Segment(j.value, seg), []) == Segment(j.value, seg);
    }
  }

  /** key[i] and key/[i] are the same path. */
  lemma IndexSplits(j: Option<Json>, key: string, t: string)
    requires key != "" && '/' !in key && '|' !in key && IndexOf(key).None? && IsIndexText(t)
    ensures Lookup(j, key + "[" + t + "]") == Lookup(j, key + "/" + ("[" + t + "]"))
  {
    OnlySignAndDigits(t);
    Composition(j, key, "[" + t + "]");
    OneSegment(j, key);
    OneSegment(j, key + "[" + t + "]");
    if j.Some? {
      OneAlternative(j.value, key);
      IndexSegment(j.value, key, t);
      IndexAlone(GetItem(j, key), t);
    }
  }

  lemma IndexAlone(base: Option<Json>, t: string)
    requires IsIndexText(t)
    ensures Lookup(base, "[" + t + "]") == ItemAt(base, Clamp(Atoi(t), Size(base)))
  {
    OnlySignAndDigits(t);
    OneSegment(base, "[" + t + "]");
    if base.Some? {
      IndexSegment(base.value, "", t);
      assert "" + "[" + t + "]" == "[" + t + "]";
    }
  }

  // ---------- cjson_exists ----------

  /** Every segment taken as a name. */
  function WalkNames(cur: Option<Json>, segs: seq<string>): Option<Json>
    decreases |segs|
  {
    if cur.None? || segs == [] then cur
    else if segs[0] == "" then WalkNames(cur, segs[1..])
    else WalkNames(GetItem(cur, segs[0]), segs[1..])
  }

  /** No segment has alternatives or an index. */
  ghost predicate Plain(segs: seq<string>) {
    forall i :: 0 <= i < |segs| ==> '|' !in segs[i] && IndexOf(segs[i]).None?
  }

  lemma {:induction false} NamesSuffice(cur: Option<Json>, segs: seq<string>)
    requires Plain(segs)
    ensures WalkNames(cur, segs) == Walk(cur, segs)
    decreases |segs|
  {
    if cur.Some? && segs != [] {
      assert Plain(segs[1..]);
      if segs[0] == "" {
        NamesSuffice(cur, segs[1..]);
      } else {
        OneAlternative(cur.value, segs[0]);
        NamesSuffice(GetItem(cur, segs[0]), segs[1..]);
      }
    }
  }

  lemma {:induction false} NamesConcat(cur: Option<Json>, a: seq<string>, b: seq<string>)
    ensures WalkNames(cur, a + b) == WalkNames(WalkNames(cur, a), b)
    decreases |a|
  {
    if cur.None? {
    } else if a == [] {
      assert a + b == b;
    } else {
      assert (a + b)[1..] == a[1..] + b;
      NamesConcat(if a[0] == "" then cur else GetItem(cur, a[0]), a[1..], b);
    }
  }

  /** What a path of names leads to, for all paths: the empty path to the node itself; one
      name alone, whatever characters it has, to the first child of that name; and p/q to
      where q leads from there. */
  lemma NamesMean(j: Option<Json>, name: string, p: string, q: string)
    ensures WalkNames(j, Split("", '/')) == j
    ensures name != "" && '/' !in name ==> WalkNames(j, Split(name, '/')) == GetItem(j, name)
    ensures WalkNames(j, Split(p + "/" + q, '/')) == WalkNames(WalkNames(j, Split(p, '/')), Split(q, '/'))
  {
    TokensConcat(p, q, '/');
    NamesConcat(j, Tokens(p, '/'), Tokens(q, '/'));
    if '/' !in name {
      OneToken(name, '/');
      assert WalkNames(GetItem(j, name), []) == GetItem(j, name);
    }
  }

  lemma {:induction false} TokensOf(s: string, sep: char, c: char, i: nat)
    requires c !in s && i < |Tokens(s, sep)|
    ensures c !in Tokens(s, sep)[i]
  {
    if s == "" {
    } else if s[0] == sep {
      if i > 0 {
        TokensOf(s[1..], sep, c, i - 1);
      }
    } else {
      TokensOf(s[1..], sep, c, i);
    }
  }

  /** cjson_exists agrees with cjson_ on paths without | and ]. */
  lemma ExistsAgrees(j: Option<Json>, path: string)
    requires '|' !in path && ']' !in path
    ensures WalkNames(j, Split(path, '/')) == Lookup(j, path)
  {
    forall i | 0 <= i < |Split(path, '/')|
      ensures '|' !in Split(path, '/')[i] && IndexOf(Split(path, '/')[i]).None?
    {
      TokensOf(path, '/', '|', i);
      TokensOf(path, '/', ']', i);
    }
    NamesSuffice(j, Split(path, '/'));
  }

  /** cjson_exists: every key leads somewhere. */
  method Exists(cjson: Option<Json>, keys: seq<string>) returns (rc: bool)
    ensures rc <==> cjson.Some? && forall k :: 0 <= k < |keys| ==> WalkNames(cjson, Split(keys[k], '/')).Some?
  {
    if cjson.None? {
      return false;
    }
    rc := true;
    var k := 0;
    while k < |keys|
      invariant k <= |keys|
      invariant rc <==> forall m :: 0 <= m < k ==> WalkNames(cjson, Split(keys[m], '/')).Some?
    {
      var s := Split(keys[k], '/');
      var subjson, i := cjson, 0;
      while i < |s| && subjson.Some?
        invariant i <= |s| && WalkNames(cjson, s) == WalkNames(subjson, s[i..])
        invariant subjson.None? ==> !rc
        invariant rc ==> forall m :: 0 <= m < k ==> WalkNames(cjson, Split(keys[m], '/')).Some?
        invariant !rc ==> subjson.None? || exists m :: 0 <= m < k && WalkNames(cjson, Split(keys[m], '/')).None?
      {
        if s[i] != "" {
          subjson := GetItem(subjson, s[i]);
          if subjson.None? {
            rc := false;
          }
        }
        i := i + 1;
      }
      k := k + 1;
    }
  }

  // ---------- cjson_ ----------

  /** What myatoi demands of every index in a path. */
  ghost predicate AltFits(alt: string) {
    IndexOf(alt).Some? ==> Fits(IndexText(alt, IndexOf(alt).value))
  }

  ghost predicate SegFits(seg: string) {
    forall i :: 0 <= i < |Tokens(seg, '|')| ==> AltFits(Tokens(seg, '|')[i])
  }

  ghost predicate PathFits(path: string) {
    forall i :: 0 <= i < |Tokens(path, '/')| ==> SegFits(Tokens(path, '/')[i])
  }

  method Attempt(cur: Option<Json>, alt: string) returns (o: Outcome)
    requires AltFits(alt)
    ensures o == Try(cur, alt)
  {
    if ']' in alt {
      var m := IndexOf(alt);
      if m.Some? {
        var base := cur;
        if m.value > 0 {
          base := GetItem(cur, alt[..m.value]);
          if base.None? {
            return Skipped;
          }
        }
        var n: int := Size(base);
        var b: int := ReadIndex(alt, m.value);
        if b < 0 {
          b := 0;
        }
        if b > n - 1 {
          b := n - 1;
        }
        return OutcomeOf(ItemAt(base, b));
      }
    }
    o := OutcomeOf(GetItem(cur, alt));
  }

  method ReadIndex(alt: string, p: nat) returns (b: int)
    requires IndexedAt(alt, p) && Fits(IndexText(alt, p))
    ensures b == Atoi(IndexText(alt, p))
  {
    var len := |alt| - p - 2;
    var text := new char[|alt| - p - 1](i requires 0 <= i < |alt| - p - 1 => alt[p + 1 + i]);
    assert Window(text[..], len) == IndexText(alt, p);
    b := Myatoi(text, len);
  }

  /** The loop over the alternatives of one segment. */
  method OneOf(from: Json, ss: seq<string>) returns (subjson: Option<Json>)
    requires forall i :: 0 <= i < |ss| ==> AltFits(ss[i])
    ensures subjson == Alternatives(Some(from), from, ss)
  {
    subjson := Some(from);
    var j := 0;
    while j < |ss|
      invariant j <= |ss| && Alternatives(Some(from), from, ss) == Alternatives(subjson, from, ss[j..])
    {
      if ss[j] != "" {
        var o := Attempt(subjson, ss[j]);
        match o {
          case Found(node) =>
            return Some(node);
          case Failed =>
            subjson := None;
            if j + 1 < |ss| {
              subjson := Some(from);
            }
          case Skipped =>
            subjson := None;
        }
      }
      j := j + 1;
    }
  }

  /** cjson_: the node a path leads to. */
  method Cjson(cjson: Option<Json>, key: Option<string>) returns (r: Option<Json>)
    requires key.Some? ==> PathFits(key.value)
    ensures r == if key.None? then None else Lookup(cjson, key.value)
  {
    if cjson.None? || key.None? {
      return None;
    }
    var s := Split(key.value, '/');
    r := cjson;
    var i := 0;
    while i < |s|
      invariant i <= |s| && r.Some? && Walk(cjson, s) == Walk(r, s[i..])
    {
      if s[i] != "" {
        r := OneOf(r.value, Split(s[i], '|'));
        if r.None? {
          break;
        }
      }
      i := i + 1;
    }
  }

  // ---------- cjson_col ----------

  /** strrchr. */
  function LastSlash(s: string): (r: Option<nat>)
    ensures r.Some? ==> r.value < |s| && s[r.value] == '/' && '/' !in s[r.value + 1..]
    ensures r.None? ==> '/' !in s
  {
    if s == "" then None
    else if s[|s| - 1] == '/' then Some(|s| - 1)
    else LastSlash(s[..|s| - 1])
  }

  /** The path to one column of row i. */
  function CellPath(i: nat, col: string): string {
    "[" + Text(i) + "]" + "/" + col
  }

  lemma TextIsIndex(i: nat)
    ensures IsIndexText(Text(i)) && Atoi(Text(i)) == i && (i <= INT_MAX ==> Fits(Text(i)))
  {
    DigitsMean(i);
    RoundTrip(i, "");
    assert Text(i) + "" == Text(i);
  }

  /** Going through the printed index is going to the row. */
  lemma CellIsColumnOfRow(arr: Json, i: nat, col: string)
    requires i < |arr.items|
    ensures Lookup(Some(arr), CellPath(i, col)) == Lookup(Some(arr.items[i]), col)
  {
    var index := "[" + Text(i) + "]";
    TextIsIndex(i);
    Composition(Some(arr), index, col);
    IndexAlone(Some(arr), Text(i));
  }

  lemma CellPathFits(i: nat, col: string)
    requires i <= INT_MAX && PathFits(col)
    ensures PathFits(CellPath(i, col))
  {
    var index := "[" + Text(i) + "]";
    TextIsIndex(i);
    OnlySignAndDigits(Text(i));
    TokensConcat(index, col, '/');
    OneToken(index, '/');
    OneToken(index, '|');
    assert index[1..|index| - 1] == Text(i);
    IndexUnique(index, 0);
    assert SegFits(index);
  }

  lemma PartsFit(key: string, p: nat)
    requires p < |key| && key[p] == '/' && PathFits(key)
    ensures PathFits(key[..p]) && PathFits(key[p + 1..])
  {
    assert key == key[..p] + ['/'] + key[p + 1..];
    TokensConcat(key[..p], key[p + 1..], '/');
    var a, b := Tokens(key[..p], '/'), Tokens(key[p + 1..], '/');
    forall i | 0 <= i < |a| ensures SegFits(a[i]) { assert (a + b)[i] == a[i]; }
    forall i | 0 <= i < |b| ensures SegFits(b[i]) { assert (a + b)[|a| + i] == b[i]; }
  }

  /** The rows of a column key and the column. */
  ghost function RowsOf(cjson: Option<Json>, key: string): Option<Json> {
    match LastSlash(key) case Some(p) => Lookup(cjson, key[..p]) case None => cjson
  }

  function ColumnOf(key: string): string {
    match LastSlash(key) case Some(p) => key[p + 1..] case None => key
  }

  /** The key is cut at its last slash, if it has one. */
  lemma KeySplits(cjson: Option<Json>, key: string)
    ensures '/' !in ColumnOf(key)
    ensures '/' !in key ==> ColumnOf(key) == key && RowsOf(cjson, key) == cjson
    ensures '/' in key ==>
              exists rows :: key == rows + "/" + ColumnOf(key) && RowsOf(cjson, key) == Lookup(cjson, rows)
  {
    if LastSlash(key).Some? {
      var p := LastSlash(key).value;
      assert key == key[..p] + "/" + key[p + 1..];
    }
  }

  /** Some row lacks the column. */
  ghost predicate Gap(arr: Json, col: string) {
    exists i :: 0 <= i < |arr.items| && Lookup(Some(arr.items[i]), col).None?
  }

  predicate IsCell(found: Option<Json>, cell: Json) {
    found.Some? && cell == Json(found.value.name, found.value.value, [])
  }

  ghost predicate IsColumn(arr: Json, col: string, cells: seq<Json>, n: nat)
    requires n <= |arr.items|
  {
    |cells| == n && forall i :: 0 <= i < n ==> IsCell(Lookup(Some(arr.items[i]), col), cells[i])
  }

  /** cjson_col: an array with the column of every row in order, or nothing if the rows or
      any of the cells are missing. */
  method Col(cjson: Option<Json>, key: string) returns (json: Option<Json>)
    requires PathFits(key) && Size(RowsOf(cjson, key)) <= INT_MAX
    ensures json.None? <==> cjson.None? || RowsOf(cjson, key).None? || Gap(RowsOf(cjson, key).value, ColumnOf(key))
    ensures json.Some? ==> IsColumn(RowsOf(cjson, key).value, ColumnOf(key), json.value.items, Size(RowsOf(cjson, key)))
    ensures json.Some? ==> json.value == Json(None, Array, json.value.items)
  {
    if cjson.None? {
      return None;
    }
    var slash := LastSlash(key);
    var arr, p := cjson, key;
    if slash.Some? {
      PartsFit(key, slash.value);
      arr := Cjson(cjson, Some(key[..slash.value]));
      p := key[slash.value + 1..];
    }
    if arr.None? {
      return None;
    }
    var cells := Cells(arr.value, p);
    json := if cells.None? then None else Some(Json(None, Array, cells.value));
  }

  /** One column of row i, looked up through the printed index. */
  method Cell(arr: Json, i: nat, p: string) returns (col: Option<Json>)
    requires PathFits(p) && i < |arr.items| <= INT_MAX
    ensures col == Lookup(Some(arr.items[i]), p)
  {
    var index := "[" + Text(i) + "]" + "/" + p;
    CellPathFits(i, p);
    CellIsColumnOfRow(arr, i, p);
    col := Cjson(Some(arr), Some(index));
  }

  /** The loop over the rows. */
  method Cells(arr: Json, p: string) returns (r: Option<seq<Json>>)
    requires PathFits(p) && |arr.items| <= INT_MAX
    ensures r.None? <==> Gap(arr, p)
    ensures r.Some? ==> IsColumn(arr, p, r.value, |arr.items|)
  {
    var cells: seq<Json> := [];
    var i := 0;
    while i < |arr.items|
      invariant i <= |arr.items| && IsColumn(arr, p, cells, i)
    {
      var col := Cell(arr, i, p);
      if col.None? {
        return None;
      }
      cells := cells + [Shallow(col.value)];
      i := i + 1;
    }
    r := Some(cells);
  }
}
