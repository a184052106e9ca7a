/** The two Lua scripts as Redis runs them, loop by loop over a session hash that they
    update in place, and the loop of hp_sub_all_cb over a query's reply. */
module PubSubScripts {
  import opened Arithmetic
  import opened Common
  import opened PubSub
  import Decimal

  /** hgetall returns a flat list: name, value, name, value, ... */
  datatype Field = Name(name: Topic) | Value(value: nat)

  /** `flat` lists `hash` in the order `names`, each name once. */
  ghost predicate Lists(flat: seq<Field>, names: seq<Topic>, hash: Session) {
    && |flat| == 2 * |names| && Distinct(names)
    && (forall t :: t in names <==> t in hash)
    && forall j :: 0 <= j < |names| ==> PairAt(flat, names, hash, j)
  }

  ghost predicate PairAt(flat: seq<Field>, names: seq<Topic>, hash: Session, j: nat)
    requires j < |names| && |flat| == 2 * |names|
  {
    && names[j] in hash
    && flat[2 * j] == Name(names[j]) && flat[2 * j + 1] == Value(hash[names[j]])
  }

  lemma ListsMore(flat: seq<Field>, names: seq<Topic>, hash: Session, t: Topic, v: nat)
    requires Lists(flat, names, hash) && t !in hash
    ensures Lists(flat + [Name(t), Value(v)], names + [t], hash[t := v])
  {
    var flat', names', hash' := flat + [Name(t), Value(v)], names + [t], hash[t := v];
    forall j | 0 <= j < |names'|
      ensures PairAt(flat', names', hash', j)
    {
      if j < |names| {
        assert PairAt(flat, names, hash, j);
        assert names'[j] == names[j];
      }
    }
  }

  lemma ListsNames(flat: seq<Field>, names: seq<Topic>, hash: Session)
    requires Lists(flat, names, hash)
    ensures forall t :: t in hash <==> Name(t) in flat
  {
    forall t
      ensures t in hash <==> Name(t) in flat
    {
      if t in hash {
        var j :| 0 <= j < |names| && names[j] == t;
        assert PairAt(flat, names, hash, j) && flat[2 * j] == Name(t);
      }
      if i :| 0 <= i < |flat| && flat[i] == Name(t) {
        assert PairAt(flat, names, hash, i / 2);
      }
    }
  }

  class Hash {
    var fields: Session

    constructor (fields: Session)
      ensures this.fields == fields
    {
      this.fields := fields;
    }

    /** HGETALL. */
    method GetAll() returns (flat: seq<Field>, ghost names: seq<Topic>)
      ensures Lists(flat, names, fields)
      ensures forall t :: t in fields <==> Name(t) in flat
    {
      flat, names := [], [];
      var rest := fields;
      ghost var listed: Session := map[];
      while rest != map[]
        invariant Lists(flat, names, listed)
        invariant rest.Keys !! listed.Keys && listed + rest == fields
        decreases rest.Keys
      {
        var t :| t in rest;
        ListsMore(flat, names, listed, t, rest[t]);
        flat := flat + [Name(t), Value(rest[t])];
        names := names + [t];
        listed := listed[t := rest[t]];
        rest := rest - {t};
      }
      assert listed == fields;
      ListsNames(flat, names, fields);
    }

    /** HSETNX. */
    method SetIfAbsent(t: Topic, score: nat)
      modifies this
      ensures fields == if t in old(fields) then old(fields) else old(fields)[t := score]
    {
      if t !in fields {
        fields := fields[t := score];
      }
    }

    /** HDEL. */
    method Delete(t: Topic)
      modifies this
      ensures fields == old(fields) - {t}
    {
      fields := fields - {t};
    }

    /** sup.lua: known topics keep their cursor, new ones start at their latest score,
        the others are dropped. */
    method Sup(store: Store, topics: seq<Topic>)
      modifies this
      ensures fields == SupSession(old(fields), store, topics)
    {
      ghost var before := fields;
      var s;
      ghost var names;
      s, names := GetAll();
      var keys := TakeOn(store, topics);
      var k: Topic := "";
      for i := 0 to |s|
        invariant i % 2 == 1 ==> k == names[i / 2]
        invariant Merged(fields, before, store)
        invariant forall t :: t in keys ==> t in fields
        invariant forall t :: t in fields ==> t in keys || t in before
        invariant forall j :: 0 <= j < i / 2 && names[j] !in keys ==> names[j] !in fields
      {
        assert PairAt(s, names, before, i / 2);
        if i % 2 == 1 {
          assert s[i].Value?;
          if k !in keys {
            Delete(k);
          }
        } else {
          assert i == 2 * (i / 2);
          k := s[i].name;
        }
      }
      forall t | t in fields
        ensures t in topics
      {
        if t in before {
          var j :| 0 <= j < |names| && names[j] == t;
        }
      }
    }

    /** Cursors are the old ones, or the latest score for topics that had none. */
    ghost predicate Merged(fields: Session, before: Session, store: Store) {
      forall t :: t in fields ==> fields[t] == if t in before then before[t] else Latest(Zset(store, t))
    }

    /** The first loop of sup.lua. */
    method TakeOn(store: Store, topics: seq<Topic>) returns (keys: set<Topic>)
      modifies this
      ensures keys == set x | x in topics
      ensures fields.Keys == old(fields).Keys + keys && Merged(fields, old(fields), store)
    {
      keys := {};
      for i := 0 to |topics|
        invariant keys == set x | x in topics[..i]
        invariant fields.Keys == old(fields).Keys + keys && Merged(fields, old(fields), store)
      {
        var v := topics[i];
        keys := keys + {v};
        var score := Latest(Zset(store, v));
        SetIfAbsent(v, score);
      }
      assert topics[..|topics|] == topics;
    }

    /** One topic's part of the reply. */
    method SubOne(rst: seq<(Topic, seq<Item>)>, k: Topic, cursor: nat, store: Store, bad: set<Topic>,
                  ghost names: seq<Topic>, ghost m: nat)
      returns (more: seq<(Topic, seq<Item>)>)
      requires m < |names| && names[m] == k && k in fields && fields[k] == cursor
      requires RepliesFor(rst, Kept(names[..m], bad), fields, store)
      ensures RepliesFor(more, Kept(names[..m + 1], bad), fields, store)
    {
      RepliesNext(rst, names, m, bad, fields, store);
      more := if k in bad then rst else rst + [(k, Above(Zset(store, k), cursor))];
      assert rst + [] == rst;
    }

    /** sub.lua: for every topic of the session, the messages above its cursor; topics
        whose ZRANGEBYSCORE fails (`bad`: the key is no sorted set) are passed over. */
    method Sub(store: Store, bad: set<Topic>) returns (rst: seq<(Topic, seq<Item>)>)
      ensures forall t :: t in fields && t !in bad <==> exists j :: 0 <= j < |rst| && rst[j].0 == t
      ensures forall j :: 0 <= j < |rst| ==> rst[j].0 in fields && rst[j].1 == Fresh(fields, store, rst[j].0)
      ensures forall i, j :: 0 <= i < j < |rst| ==> rst[i].0 != rst[j].0
    {
      rst := [];
      var k: Topic := "";
      var s;
      ghost var names;
      s, names := GetAll();
      for i := 0 to |s|
        invariant i % 2 == 1 ==> k == names[i / 2]
        invariant RepliesFor(rst, Kept(names[..i / 2], bad), fields, store)
      {
        assert PairAt(s, names, fields, i / 2);
        if i % 2 == 1 {
          assert i == 2 * (i / 2) + 1;
          rst := SubOne(rst, k, s[i].value, store, bad, names, i / 2);
        } else {
          assert i == 2 * (i / 2);
          k := s[i].name;
        }
      }
      assert names[..|s| / 2] == names;
      RepliesMean(rst, names, bad, fields, store);
    }
  }

  function Kept(names: seq<Topic>, bad: set<Topic>): seq<Topic> {
    if names == [] then []
    else
      var last := names[|names| - 1];
      Kept(names[..|names| - 1], bad) + if last in bad then [] else [last]
  }

  lemma {:induction false} KeptMeans(names: seq<Topic>, bad: set<Topic>)
    requires Distinct(names)
    ensures Distinct(Kept(names, bad)) && forall t :: t in Kept(names, bad) <==> t in names && t !in bad
  {
    if names != [] {
      var front := names[..|names| - 1];
      KeptMeans(front, bad);
      assert names == front + [names[|names| - 1]];
    }
  }

  /** One part for each of `names`, with the messages above its cursor. */
  ghost predicate RepliesFor(rst: seq<(Topic, seq<Item>)>, names: seq<Topic>, fields: Session, store: Store) {
    && |rst| == |names|
    && (forall j :: 0 <= j < |rst| ==> rst[j].0 == names[j] && names[j] in fields)
    && (forall j :: 0 <= j < |rst| ==> rst[j].1 == Fresh(fields, store, names[j]))
  }

  lemma RepliesNext(rst: seq<(Topic, seq<Item>)>, names: seq<Topic>, m: nat, bad: set<Topic>, fields: Session,
                    store: Store)
    requires m < |names| && names[m] in fields && RepliesFor(rst, Kept(names[..m], bad), fields, store)
    ensures var more := if names[m] in bad then [] else [(names[m], Fresh(fields, store, names[m]))];
            RepliesFor(rst + more, Kept(names[..m + 1], bad), fields, store)
  {
    assert names[..m + 1][..m] == names[..m];
  }

  lemma RepliesMean(rst: seq<(Topic, seq<Item>)>, names: seq<Topic>, bad: set<Topic>, fields: Session, store: Store)
    requires Distinct(names) && (forall t :: t in names <==> t in fields)
    requires RepliesFor(rst, Kept(names, bad), fields, store)
    ensures forall t :: t in fields && t !in bad <==> exists j :: 0 <= j < |rst| && rst[j].0 == t
    ensures forall i, j :: 0 <= i < j < |rst| ==> rst[i].0 != rst[j].0
  {
    KeptMeans(names, bad);
    var kept := Kept(names, bad);
    forall t | t in fields && t !in bad
      ensures exists j :: 0 <= j < |rst| && rst[j].0 == t
    {
      var j :| 0 <= j < |kept| && kept[j] == t;
      assert rst[j].0 == t;
    }
    forall j | 0 <= j < |rst|
      ensures rst[j].0 in fields && rst[j].0 !in bad
    {
      assert rst[j].0 in kept;
    }
  }

  /** The loops of hp_sub_all_cb: everything in the reply goes into the vector, once per
      occurrence and nothing else. */
  method Collect(reply: seq<(Topic, seq<Item>)>) returns (vec: seq<Post>)
    ensures forall p :: p in vec <==>
                        exists j :: 0 <= j < |reply| && reply[j].0 == p.topic && p.item in reply[j].1
    ensures |vec| == TotalItems(reply)
  {
    vec := [];
    for j := 0 to |reply|
      invariant forall p :: p in vec <==>
                            exists m :: 0 <= m < j && reply[m].0 == p.topic && p.item in reply[m].1
      invariant |vec| == TotalItems(reply[..j])
    {
      var (t, d) := reply[j];
      ghost var before := vec;
      for i := 0 to |d|
        invariant |vec| == |before| + i
        invariant forall p :: p in vec <==> p in before || (p.topic == t && p.item in d[..i])
      {
        vec := vec + [Post(t, d[i])];
      }
      assert d[..|d|] == d;
      assert reply[..j + 1][..j] == reply[..j];
    }
    assert reply[..|reply|] == reply;
  }

  function TotalItems(reply: seq<(Topic, seq<Item>)>): nat {
    if reply == [] then 0 else TotalItems(reply[..|reply| - 1]) + |reply[|reply| - 1].1|
  }

  // ---------- the order of the callbacks ----------

  /** sdscmp: a is before b, or they are equal. */
  predicate Before(a: string, b: string)
    decreases |a|
  {
    if a == "" then true
    else if b == "" then false
    else if a[0] != b[0] then a[0] < b[0]
    else Before(a[1..], b[1..])
  }

  lemma {:induction false} BeforeTotal(a: string, b: string)
    ensures Before(a, b) || Before(b, a)
    decreases |a|
  {
    if a != "" && b != "" && a[0] == b[0] {
      BeforeTotal(a[1..], b[1..]);
    }
  }

  lemma {:induction false} BeforeTransitive(a: string, b: string, c: string)
    requires Before(a, b) && Before(b, c)
    ensures Before(a, c)
    decreases |a|
  {
    if a != "" && a[0] == b[0] == c[0] {
      BeforeTransitive(a[1..], b[1..], c[1..]);
    }
  }

  lemma {:induction false} BeforeSnoc(a: string, b: string, x: char, y: char)
    requires |a| == |b|
    ensures Before(a + [x], b + [y]) <==> if a == b then x <= y else Before(a, b)
    decreases |a|
  {
    if a != "" {
      assert (a + [x])[1..] == a[1..] + [x] && (b + [y])[1..] == b[1..] + [y];
      if a[0] == b[0] {
        BeforeSnoc(a[1..], b[1..], x, y);
        assert a == [a[0]] + a[1..] && b == [b[0]] + b[1..];
      }
    } else {
      assert [x][1..] == "" && [y][1..] == "";
    }
  }

  lemma {:induction false} BeforeReflexive(a: string)
    ensures Before(a, a)
    decreases |a|
  {
    if a != "" {
      BeforeReflexive(a[1..]);
    }
  }

  /** Between ids of the same number of digits, the order of texts is that of numbers. */
  lemma {:induction false} SameDigitsSameOrder(m: nat, n: nat)
    requires Decimal.Digits10(m) == Decimal.Digits10(n)
    ensures Before(Decimal.Text(m), Decimal.Text(n)) <==> m <= n
  {
    Decimal.LengthIsDigits10(m);
    Decimal.LengthIsDigits10(n);
    DigitsOrder(m, n);
  }

  lemma {:induction false} DigitsOrder(m: nat, n: nat)
    requires |Decimal.Digits(m)| == |Decimal.Digits(n)|
    ensures Before(Decimal.Digits(m), Decimal.Digits(n)) <==> m <= n
  {
    if m < 10 {
      BeforeSnoc("", "", Decimal.DigitChar(m), Decimal.DigitChar(n));
    } else {
      var a, b := Decimal.Digits(m / 10), Decimal.Digits(n / 10);
      DigitsOrder(m / 10, n / 10);
      Decimal.DigitsMean(m / 10);
      Decimal.DigitsMean(n / 10);
      BeforeSnoc(a, b, Decimal.DigitChar(m % 10), Decimal.DigitChar(n % 10));
    }
  }

  /** Text b ending in one more character is after a exactly if b is, if a is no longer. */
  lemma {:induction false} BeforeLonger(a: string, b: string, y: char)
    requires |a| <= |b|
    ensures Before(a, b + [y]) <==> Before(a, b)
    decreases |a|
  {
    if a != "" && a[0] == b[0] {
      assert (b + [y])[1..] == b[1..] + [y];
      BeforeLonger(a[1..], b[1..], y);
    }
  }

  lemma {:induction false} BeforeBoth(a: string, b: string)
    requires Before(a, b) && Before(b, a)
    ensures a == b
    decreases |a|
  {
    if a != "" {
      BeforeBoth(a[1..], b[1..]);
      assert a == [a[0]] + a[1..] && b == [b[0]] + b[1..];
    }
  }

  /** n without its last k digits. */
  function Leading(n: nat, k: nat): nat {
    if k == 0 then n else Leading(n / 10, k - 1)
  }

  lemma {:induction false} LeadingIs(n: nat, k: nat)
    ensures Leading(n, k) == n / Decimal.Pow10(k)
  {
    if k > 0 {
      LeadingIs(n / 10, k - 1);
      DivideTwice(n, Decimal.Pow10(k - 1));
    }
  }

  lemma {:induction false} LeadingOrder(m: nat, n: nat, k: nat)
    requires |Decimal.Digits(n)| == |Decimal.Digits(m)| + k
    ensures Before(Decimal.Digits(m), Decimal.Digits(n)) <==> m <= Leading(n, k)
  {
    if k == 0 {
      DigitsOrder(m, n);
    } else {
      LeadingOrder(m, n / 10, k - 1);
      BeforeLonger(Decimal.Digits(m), Decimal.Digits(n / 10), Decimal.DigitChar(n % 10));
    }
  }

  /** m has no more digits than n, and is not above the digits of n as far as they go. */
  predicate Leads(m: nat, n: nat) {
    var k := Decimal.Digits10(n) - Decimal.Digits10(m);
    k >= 0 && m <= n / Decimal.Pow10(k)
  }

  /** The order of texts, for all ids: one with no more digits is before another exactly
      if it is not above the leading digits of that. */
  lemma TextOrder(m: nat, n: nat)
    requires Decimal.Digits10(m) <= Decimal.Digits10(n)
    ensures Before(Decimal.Text(m), Decimal.Text(n)) <==> Leads(m, n)
  {
    Decimal.LengthIsDigits10(m);
    Decimal.LengthIsDigits10(n);
    var k := Decimal.Digits10(n) - Decimal.Digits10(m);
    LeadingOrder(m, n, k);
    LeadingIs(n, k);
  }

  lemma FewerDigits(m: nat, n: nat)
    requires m <= n
    ensures Decimal.Digits10(m) <= Decimal.Digits10(n)
  {
    var d, e := Decimal.Digits10(m), Decimal.Digits10(n);
    if d > e {
      Decimal.Pow10Grows(e, d - 1);
    }
  }

  /** Of two ids, the smaller is certain to be delivered first exactly if it leads. */
  lemma OlderLeads(m: nat, n: nat)
    requires m < n
    ensures Leads(m, n) <==> !Before(Decimal.Text(n), Decimal.Text(m))
  {
    FewerDigits(m, n);
    TextOrder(m, n);
    BeforeTotal(Decimal.Text(m), Decimal.Text(n));
    if Before(Decimal.Text(m), Decimal.Text(n)) && Before(Decimal.Text(n), Decimal.Text(m)) {
      BeforeBoth(Decimal.Text(m), Decimal.Text(n));
      Decimal.DigitsMean(m);
      Decimal.DigitsMean(n);
    }
  }

  ghost predicate InOrder<T>(s: seq<T>, le: (T, T) -> bool) {
    forall i, j :: 0 <= i < j < |s| ==> le(s[i], s[j])
  }

  ghost predicate ById(vec: seq<Post>) { InOrder(vec, IdsInOrder) }

  /** comp: the ids are compared as texts. */
  predicate IdsInOrder(p: Post, q: Post) {
    Before(Decimal.Text(p.item.score), Decimal.Text(q.item.score))
  }

  /** cvector_qsort with comp; the order of equal ids is any. */
  method SortById(vec: seq<Post>) returns (r: seq<Post>)
    ensures multiset(r) == multiset(vec) && ById(r)
  {
    r := [];
    for i := 0 to |vec|
      invariant multiset(r) == multiset(vec[..i]) && ById(r)
    {
      r := Insert(r, vec[i]);
      assert vec[..i + 1] == vec[..i] + [vec[i]];
    }
    assert vec[..|vec|] == vec;
  }

  method Insert(r: seq<Post>, p: Post) returns (t: seq<Post>)
    requires ById(r)
    ensures multiset(t) == multiset(r) + multiset{p} && ById(t)
  {
    var k := PlaceFor(r, p);
    t := r[..k] + [p] + r[k..];
    OneMore(r, p, k, t);
    InsertedById(r, p, k, t);
  }

  lemma OneMore(r: seq<Post>, p: Post, k: nat, t: seq<Post>)
    requires k <= |r| && t == r[..k] + [p] + r[k..]
    ensures multiset(t) == multiset(r) + multiset{p}
  {
    assert r == r[..k] + r[k..];
  }

  method PlaceFor(r: seq<Post>, p: Post) returns (k: nat)
    ensures k <= |r| && (k > 0 ==> IdsInOrder(r[k - 1], p))
    ensures forall i :: k <= i < |r| ==> IdsInOrder(p, r[i])
  {
    k := |r|;
    while k > 0 && !IdsInOrder(r[k - 1], p)
      invariant k <= |r| && forall i :: k <= i < |r| ==> IdsInOrder(p, r[i])
    {
      k := k - 1;
      BeforeTotal(Decimal.Text(p.item.score), Decimal.Text(r[k].item.score));
    }
  }

  lemma InsertedById(r: seq<Post>, p: Post, k: nat, t: seq<Post>)
    requires ById(r) && k <= |r| && t == r[..k] + [p] + r[k..]
    requires k > 0 ==> IdsInOrder(r[k - 1], p)
    requires forall i :: k <= i < |r| ==> IdsInOrder(p, r[i])
    ensures ById(t)
  {
    forall i | 0 <= i < k
      ensures IdsInOrder(r[i], p)
    {
      AllBelow(r, p, k, i);
    }
    Inserted(r, p, k, t, IdsInOrder);
  }

  lemma AllBelow(r: seq<Post>, p: Post, k: nat, i: nat)
    requires ById(r) && i < k <= |r| && IdsInOrder(r[k - 1], p)
    ensures IdsInOrder(r[i], p)
  {
    if i < k - 1 {
      var last := r[k - 1];
      assert IdsInOrder(r[i], last);
      BeforeTransitive(Decimal.Text(r[i].item.score), Decimal.Text(last.item.score), Decimal.Text(p.item.score));
    }
  }

  lemma Inserted<T>(r: seq<T>, p: T, k: nat, t: seq<T>, le: (T, T) -> bool)
    requires InOrder(r, le) && k <= |r| && t == r[..k] + [p] + r[k..]
    requires forall i :: 0 <= i < k ==> le(r[i], p)
    requires forall i :: k <= i < |r| ==> le(p, r[i])
    ensures InOrder(t, le)
  {
    forall i, j | 0 <= i < j < |t|
      ensures le(t[i], t[j])
    {
      var x, y := if i < k then i else i - 1, if j < k then j else j - 1;
      assert i != k ==> t[i] == r[x];
      assert j != k ==> t[j] == r[y];
    }
  }

  ghost predicate OldestFirst(vec: seq<Post>) {
    forall i, j :: 0 <= i < j < |vec| ==> vec[i].item.score <= vec[j].item.score
  }

  ghost predicate AllLead(vec: seq<Post>) {
    forall p, q :: p in vec && q in vec && p.item.score < q.item.score ==> Leads(p.item.score, q.item.score)
  }

  /** What is delivered comes oldest first if and only if each older id among it leads
      each younger one. */
  lemma OldestFirstIff(vec: seq<Post>)
    requires ById(vec)
    ensures OldestFirst(vec) <==> AllLead(vec)
  {
    if OldestFirst(vec) {
      forall p, q | p in vec && q in vec && p.item.score < q.item.score
        ensures Leads(p.item.score, q.item.score)
      {
        var i :| 0 <= i < |vec| && vec[i] == p;
        var j :| 0 <= j < |vec| && vec[j] == q;
        assert i < j && IdsInOrder(p, q);
        FewerDigits(p.item.score, q.item.score);
        TextOrder(p.item.score, q.item.score);
      }
    }
    if AllLead(vec) {
      forall i, j | 0 <= i < j < |vec|
        ensures vec[i].item.score <= vec[j].item.score
      {
        assert IdsInOrder(vec[i], vec[j]);
        if vec[j].item.score < vec[i].item.score {
          OlderLeads(vec[j].item.score, vec[i].item.score);
        }
      }
    }
  }

  /** So it does if all ids have the same number of digits. */
  lemma SameDigitsOldestFirst(vec: seq<Post>, d: nat)
    requires ById(vec) && forall p :: p in vec ==> Decimal.Digits10(p.item.score) == d
    ensures OldestFirst(vec)
  {
    OldestFirstIff(vec);
    assert Decimal.Pow10(0) == 1;
  }

  /** Two messages are delivered the younger first, whatever the sorting does with equal
      ids, if the older id does not lead the younger one. */
  lemma YoungerFirst(p: Post, q: Post)
    requires p.item.score < q.item.score && !Leads(p.item.score, q.item.score)
    ensures ById([q, p]) && !ById([p, q])
  {
    OlderLeads(p.item.score, q.item.score);
    FewerDigits(p.item.score, q.item.score);
    TextOrder(p.item.score, q.item.score);
    assert !IdsInOrder([p, q][0], [p, q][1]);
  }

  /** The first millisecond with an id of fourteen digits comes before the last with
      thirteen. */
  lemma ShorterLater(t: Topic, a: string, b: string)
    ensures var older, younger := Post(t, Item(9999999999999, a)), Post(t, Item(10000000000000, b));
            ById([younger, older]) && !ById([older, younger])
  {
    FourteenDigits();
    YoungerFirst(Post(t, Item(9999999999999, a)), Post(t, Item(10000000000000, b)));
  }

  lemma FourteenDigits()
    ensures !Leads(9999999999999, 10000000000000)
  {
    assert Decimal.Digits10(9999999999999) == 13 && Decimal.Digits10(10000000000000) == 14;
    assert Decimal.Pow10(1) == 10;
  }

  /** One query end to end, if no topic's key is bad: the callback is given exactly what
      the protocol calls visible, in the order of the ids. */
  method RunQueryScript(hash: Hash, s: State) returns (posts: seq<Post>)
    requires hash.fields == s.session
    ensures forall p :: p in posts <==> Visible(s, p)
    ensures ById(posts)
  {
    var reply := hash.Sub(s.store, {});
    var vec := Collect(reply);
    posts := SortById(vec);
    forall p
      ensures p in posts <==> Visible(s, p)
    {
      assert p in posts <==> p in multiset(posts);
      assert p in vec <==> p in multiset(vec);
      if Visible(s, p) {
        var j :| 0 <= j < |reply| && reply[j].0 == p.topic;
        assert p.item in reply[j].1;
      }
    }
  }
}
