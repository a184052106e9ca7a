/** Durable publish/subscribe over Redis (src/hp_pub.c with scripts/sup.lua and
    scripts/sub.lua). Redis executes one command at a time; the commands of one
    connection are executed in the order they were sent.

    One subscriber session is followed, with any number of publisher connections. */
module PubSub {
  import opened Common

  type Topic = string

  /** A member of a topic's sorted set; the score is the publication time in ms. */
  datatype Item = Item(score: nat, payload: string)
  datatype Post = Post(topic: Topic, item: Item)

  type Store = map<Topic, seq<Item>>
  type Session = map<Topic, nat>

  // ---------- the Redis side ----------

  function Zset(store: Store, t: Topic): seq<Item> {
    if t in store then store[t] else []
  }

  function Latest(z: seq<Item>): nat {
    if z == [] then 0 else z[|z| - 1].score
  }

  /** ZRANGEBYSCORE z c+1 +inf */
  function Above(z: seq<Item>, c: nat): (r: seq<Item>)
    ensures forall x :: x in r <==> x in z && x.score > c
  {
    if z == [] then []
    else
      var rest := Above(z[1..], c);
      assert z == [z[0]] + z[1..];
      if z[0].score >= c + 1 then [z[0]] + rest else rest
  }

  /** The session after sup.lua: exactly the given topics, known ones at their old
      cursor and new ones at their latest score. */
  function SupSession(session: Session, store: Store, topics: seq<Topic>): Session {
    map t | t in topics :: if t in session then session[t] else Latest(Zset(store, t))
  }

  /** What sub.lua replies for topic t. */
  function Fresh(session: Session, store: Store, t: Topic): seq<Item>
    requires t in session
  {
    Above(Zset(store, t), session[t])
  }

  // ---------- the system ----------

  /** hp_pub sends ZADD, then PUBLISH. */
  datatype PubCmd = Zadd(post: Post) | Publish(post: Post)

  /** On the subscriber's command connection. A query remembers the notification that caused it. */
  datatype SubCmd = Sup(topics: seq<Topic>) | Hkeys | Query(cause: Option<Post>) | Ack(topic: Topic, id: nat)

  /** What arrives on the subscriber's other connection. A confirmation says whether the
      connection now has one channel; there is one for each topic of a SUBSCRIBE. */
  datatype Note = Message(post: Post) | Subscribed(only: bool)

  function Confirmations(channels: set<Topic>, topics: seq<Topic>): (r: seq<Note>)
    ensures |r| == |topics| && forall n :: n in r ==> n.Subscribed?
    decreases |topics|
  {
    if topics == [] then []
    else [Subscribed(channels <= {topics[0]})] + Confirmations(channels + {topics[0]}, topics[1..])
  }

  /** - store, session: the topics' sorted sets and the session's hash
      - pubs: commands under way on each publisher connection
      - conn: commands under way on the subscriber's command connection
      - subs, channels, notes: its other connection: SUBSCRIBE commands under way,
        channels subscribed, notifications not yet handled
      - floor: for each topic of the session, the score at which it was taken on
      - seen: what replies have contained since their topic was taken on */
  datatype State = State(
    store: Store,
    session: Session,
    pubs: seq<seq<PubCmd>>,
    conn: seq<SubCmd>,
    subs: seq<seq<Topic>>,
    channels: set<Topic>,
    notes: seq<Note>,
    floor: Session,
    seen: set<Post>)

  ghost predicate Stored(s: State, p: Post) {
    p.item in Zset(s.store, p.topic)
  }

  /** Post p is in the reply of a query executed now. */
  ghost predicate Visible(s: State, p: Post) {
    p.topic in s.session && p.item in Fresh(s.session, s.store, p.topic)
  }

  function Start(n: nat): State {
    State(map[], map[], seq(n, _ => []), [], [], {}, [], map[], {})
  }

  // ---------- steps ----------

  /** hp_pub on connection i. */
  ghost predicate PubCall(s: State, t: State, i: nat, p: Post) {
    i < |s.pubs| && t == s.(pubs := s.pubs[i := s.pubs[i] + [Zadd(p), Publish(p)]])
  }

  /** Redis executes a ZADD: payloads are fresh, and scores increase on a topic. */
  ghost predicate RunZadd(s: State, t: State, i: nat, p: Post) {
    && i < |s.pubs| && s.pubs[i] != [] && s.pubs[i][0] == Zadd(p)
    && p.item.score > Latest(Zset(s.store, p.topic))
    && t == s.(pubs := s.pubs[i := s.pubs[i][1..]],
            store := s.store[p.topic := Zset(s.store, p.topic) + [p.item]])
  }

  ghost predicate RunPublish(s: State, t: State, i: nat, p: Post) {
    && i < |s.pubs| && s.pubs[i] != [] && s.pubs[i][0] == Publish(p)
    && t == s.(pubs := s.pubs[i := s.pubs[i][1..]],
            notes := s.notes + if p.topic in s.channels then [Message(p)] else [])
  }

  /** hp_sub with topics: update the session on one connection, subscribe on the other. */
  ghost predicate SubCall(s: State, t: State, topics: seq<Topic>) {
    topics != [] && t == s.(conn := s.conn + [Sup(topics)], subs := s.subs + [topics])
  }

  /** hp_sub without topics asks for the session's own. */
  ghost predicate ResubCall(s: State, t: State) {
    t == s.(conn := s.conn + [Hkeys])
  }

  ghost predicate AckCall(s: State, t: State, topic: Topic, id: nat) {
    t == s.(conn := s.conn + [Ack(topic, id)])
  }

  ghost predicate RunSup(s: State, t: State) {
    && s.conn != [] && s.conn[0].Sup?
    && var session := SupSession(s.session, s.store, s.conn[0].topics);
    t == s.(conn := s.conn[1..], session := session,
    floor := (map x | x in session :: if x in s.session && x in s.floor then s.floor[x] else session[x]),
    seen := (set p | p in s.seen && p.topic in session))
  }

  ghost predicate RunHkeys(s: State, t: State, keys: seq<Topic>) {
    && s.conn != [] && s.conn[0].Hkeys? && (forall x :: x in keys <==> x in s.session)
    && t == s.(conn := s.conn[1..], subs := if keys == [] then s.subs else s.subs + [keys])
  }

  ghost predicate RunQuery(s: State, t: State) {
    && s.conn != [] && s.conn[0].Query?
    && t == s.(conn := s.conn[1..], seen := t.seen)
    && (forall p :: p in t.seen <==> p in s.seen || Visible(s, p))
  }

  /** An acknowledgement is an HSET: of any topic, and with any id. */
  ghost predicate RunAck(s: State, t: State, topic: Topic, id: nat) {
    && s.conn != [] && s.conn[0] == Ack(topic, id)
    && t == s.(conn := s.conn[1..], session := s.session[topic := id],
            floor := if topic in s.session then s.floor else s.floor[topic := id])
  }

  ghost predicate RunSubscribe(s: State, t: State) {
    && s.subs != []
    && t == s.(subs := s.subs[1..], channels := s.channels + (set x | x in s.subs[0]),
            notes := s.notes + Confirmations(s.channels, s.subs[0]))
  }

  ghost predicate RunUnsubscribe(s: State, t: State) {
    t == s.(channels := {})
  }

  /** msg_cb: a message, or a confirmation with one channel, makes hp_sub_all send a query. */
  ghost predicate Handle(s: State, t: State) {
    && s.notes != []
    && t == s.(notes := s.notes[1..], conn := s.conn + Wakes(s.notes[0]))
  }

  function Wakes(n: Note): seq<SubCmd> {
    match n
    case Message(p) => [Query(Some(p))]
    case Subscribed(only) => if only then [Query(None)] else []
  }

  ghost predicate ClientStep(s: State, t: State) {
    || (exists i, p :: PubCall(s, t, i, p))
    || (exists topics :: SubCall(s, t, topics))
    || ResubCall(s, t)
    || (exists topic, id :: AckCall(s, t, topic, id))
    || Handle(s, t)
  }

  ghost predicate PubStep(s: State, t: State) {
    || (exists i, p :: RunZadd(s, t, i, p))
    || (exists i, p :: RunPublish(s, t, i, p))
  }

  ghost predicate ConnStep(s: State, t: State) {
    || RunSup(s, t)
    || (exists keys :: RunHkeys(s, t, keys))
    || RunQuery(s, t)
    || (exists topic, id :: RunAck(s, t, topic, id))
  }

  ghost predicate ChannelStep(s: State, t: State) {
    RunSubscribe(s, t) || RunUnsubscribe(s, t)
  }

  ghost predicate Step(s: State, t: State) {
    ClientStep(s, t) || PubStep(s, t) || ConnStep(s, t) || ChannelStep(s, t)
  }

  ghost predicate Run(states: seq<State>, n: nat) {
    && states != [] && states[0] == Start(n)
    && forall i :: StepAt(states, i)
  }

  ghost predicate StepAt(states: seq<State>, i: int) {
    0 <= i < |states| - 1 ==> Step(states[i], states[i + 1])
  }

  // ---------- the invariant ----------

  ghost predicate Increasing(z: seq<Item>) {
    && (forall i :: 0 <= i < |z| ==> z[i].score > 0)
    && (forall i, j :: 0 <= i < j < |z| ==> z[i].score < z[j].score)
  }

  ghost predicate StoreOk(s: State) {
    forall t :: t in s.store ==> Increasing(s.store[t])
  }

  /** A PUBLISH under way is behind its ZADD or the message is stored. */
  ghost predicate PubsOk(s: State) {
    forall i, k :: 0 <= i < |s.pubs| && 0 <= k < |s.pubs[i]| && s.pubs[i][k].Publish? ==>
                     Stored(s, s.pubs[i][k].post) || exists j :: 0 <= j < k && s.pubs[i][j] == Zadd(s.pubs[i][k].post)
  }

  ghost predicate NotesOk(s: State) {
    forall k :: 0 <= k < |s.notes| && s.notes[k].Message? ==> Stored(s, s.notes[k].post)
  }

  ghost predicate QueriesOk(s: State) {
    forall k :: 0 <= k < |s.conn| && s.conn[k].Query? && s.conn[k].cause.Some? ==> Stored(s, s.conn[k].cause.value)
  }

  ghost predicate Inv(s: State) {
    StoreOk(s) && PubsOk(s) && NotesOk(s) && QueriesOk(s)
  }

  // ---------- facts about sorted sets ----------

  lemma LatestIsMax(z: seq<Item>, x: Item)
    requires Increasing(z) && x in z
    ensures 0 < x.score <= Latest(z)
  {}

  lemma StoredScore(s: State, p: Post)
    requires StoreOk(s) && Stored(s, p)
    ensures 0 < p.item.score <= Latest(Zset(s.store, p.topic))
  {
    LatestIsMax(Zset(s.store, p.topic), p.item);
  }

  ghost predicate AllAbove(z: seq<Item>, c: nat) {
    forall i :: 0 <= i < |z| ==> z[i].score > c
  }

  ghost predicate NoneAbove(z: seq<Item>, c: nat) {
    forall i :: 0 <= i < |z| ==> z[i].score <= c
  }

  lemma {:induction false} AboveAll(z: seq<Item>, c: nat)
    requires AllAbove(z, c)
    ensures Above(z, c) == z
  {
    if z != [] {
      AboveAll(z[1..], c);
      assert [z[0]] + z[1..] == z;
    }
  }

  lemma {:induction false} AboveSplits(z: seq<Item>, low: seq<Item>, high: seq<Item>, c: nat)
    requires z == low + high && NoneAbove(low, c) && AllAbove(high, c)
    ensures Above(z, c) == high
  {
    if low == [] {
      assert z == high;
      AboveAll(high, c);
    } else {
      assert z[0] == low[0] && z[1..] == low[1..] + high;
      AboveSplits(z[1..], low[1..], high, c);
    }
  }

  lemma BothSides(z: seq<Item>, c: nat, k: nat, low: seq<Item>, high: seq<Item>)
    requires Increasing(z) && k <= |z| && low == z[..k] && high == z[k..]
    requires (k > 0 ==> z[k - 1].score <= c) && (k < |z| ==> z[k].score > c)
    ensures NoneAbove(low, c) && AllAbove(high, c)
  {
    forall i | 0 <= i < |low|
      ensures low[i].score <= c
    {
      assert i < k - 1 ==> z[i].score < z[k - 1].score;
    }
    forall i | 0 <= i < |high|
      ensures high[i].score > c
    {
      assert i > 0 ==> z[k].score < z[k + i].score;
    }
  }

  /** Of a sorted set the reply is the end that lies above the cursor, in order of score. */
  lemma AboveIsTail(z: seq<Item>, c: nat, k: nat)
    requires Increasing(z) && k <= |z|
    requires (k > 0 ==> z[k - 1].score <= c) && (k < |z| ==> z[k].score > c)
    ensures Above(z, c) == z[k..]
  {
    assert z[..k] + z[k..] == z;
    BothSides(z, c, k, z[..k], z[k..]);
    AboveSplits(z, z[..k], z[k..], c);
  }

  /** One step never removes or rescores a message. */
  lemma StoredStays(s: State, t: State, p: Post)
    requires Step(s, t) && Stored(s, p)
    ensures Stored(t, p)
  {}

  // ---------- what each part keeps ----------

  lemma ZaddStore(s: State, t: State, i: nat, p: Post, q: Post)
    requires RunZadd(s, t, i, p)
    ensures Stored(t, q) <==> Stored(s, q) || q == p
  {}

  lemma ZaddIncreases(s: State, t: State, i: nat, p: Post)
    requires StoreOk(s) && RunZadd(s, t, i, p)
    ensures StoreOk(t)
  {
    assert Increasing(Zset(s.store, p.topic) + [p.item]);
  }

  lemma StoreKept(s: State, t: State)
    requires StoreOk(s) && Step(s, t)
    ensures StoreOk(t)
  {
    CoreSteps(s, t);
    if i: nat, p :| RunZadd(s, t, i, p) {
      ZaddIncreases(s, t, i, p);
    }
  }

  lemma PubsKept(s: State, t: State)
    requires PubsOk(s) && Step(s, t)
    ensures PubsOk(t)
  {
    PubsChange(s, t);
    if t.pubs == s.pubs {
      PubsSame(s, t);
    } else if i, p :| PubCall(s, t, i, p) {
      PubCallPubs(s, t, i, p);
    } else if i, p :| RunZadd(s, t, i, p) {
      PopPubs(s, t, i, p);
    } else if i, p :| RunPublish(s, t, i, p) {
      PopPubs(s, t, i, p);
    }
  }

  lemma PubsSame(s: State, t: State)
    requires PubsOk(s) && Step(s, t) && t.pubs == s.pubs
    ensures PubsOk(t)
  {
    forall i, k | 0 <= i < |t.pubs| && 0 <= k < |t.pubs[i]| && t.pubs[i][k].Publish?
      ensures Stored(t, t.pubs[i][k].post) || exists j :: 0 <= j < k && t.pubs[i][j] == Zadd(t.pubs[i][k].post)
    {
      if Stored(s, s.pubs[i][k].post) {
        StoredStays(s, t, s.pubs[i][k].post);
      }
    }
  }

  lemma PubCallPubs(s: State, t: State, i: nat, p: Post)
    requires PubsOk(s) && PubCall(s, t, i, p)
    ensures PubsOk(t)
  {
    var n := |s.pubs[i]|;
    assert t.pubs[i][n] == Zadd(p) && t.pubs[i][n + 1] == Publish(p);
    forall j, k | 0 <= j < |t.pubs| && 0 <= k < |t.pubs[j]| && t.pubs[j][k].Publish?
      ensures Stored(t, t.pubs[j][k].post) || exists m :: 0 <= m < k && t.pubs[j][m] == Zadd(t.pubs[j][k].post)
    {
      if j != i || k < n {
        assert t.pubs[j][k] == s.pubs[j][k];
        if !Stored(s, s.pubs[j][k].post) {
          var m :| 0 <= m < k && s.pubs[j][m] == Zadd(s.pubs[j][k].post);
          assert t.pubs[j][m] == s.pubs[j][m];
        }
      }
    }
  }

  lemma PopPubs(s: State, t: State, i: nat, p: Post)
    requires PubsOk(s) && (RunZadd(s, t, i, p) || RunPublish(s, t, i, p))
    ensures PubsOk(t)
  {
    forall j, k | 0 <= j < |t.pubs| && 0 <= k < |t.pubs[j]| && t.pubs[j][k].Publish?
      ensures Stored(t, t.pubs[j][k].post) || exists m :: 0 <= m < k && t.pubs[j][m] == Zadd(t.pubs[j][k].post)
    {
      var d := if j == i then 1 else 0;
      var q := t.pubs[j][k].post;
      assert s.pubs[j][k + d] == t.pubs[j][k];
      if !Stored(s, q) {
        var m :| 0 <= m < k + d && s.pubs[j][m] == Zadd(q);
        if m >= d {
          assert t.pubs[j][m - d] == s.pubs[j][m];
        } else {
          assert q == p && RunZadd(s, t, i, p);
          ZaddStore(s, t, i, p, p);
        }
      }
    }
  }

  // How one step changes each queue.

  ghost predicate Handled(s: State, t: State) {
    s.notes != [] && t.notes == s.notes[1..] && t.conn == s.conn + Wakes(s.notes[0])
  }

  ghost predicate Noted(s: State, t: State, more: seq<Note>) {
    && t.notes == s.notes + more && t.conn == s.conn
    && forall k :: 0 <= k < |more| && more[k].Message? ==> exists i :: PublishAt(s, i, 0, more[k].post)
  }

  lemma NotesChange(s: State, t: State)
    requires Step(s, t)
    ensures t.notes == s.notes || Handled(s, t) || exists more :: Noted(s, t, more)
  {
    if i: nat, p :| RunPublish(s, t, i, p) {
      PublishNotes(s, t, i, p);
    } else if RunSubscribe(s, t) {
      var more := Confirmations(s.channels, s.subs[0]);
      assert forall k :: 0 <= k < |more| ==> more[k] in more;
      assert Noted(s, t, more);
    }
  }

  lemma PublishNotes(s: State, t: State, i: nat, p: Post)
    requires RunPublish(s, t, i, p)
    ensures Noted(s, t, if p.topic in s.channels then [Message(p)] else [])
  {
    assert PublishAt(s, i, 0, p);
  }

  ghost predicate ConnPops(s: State, t: State) {
    s.conn != [] && t.conn == s.conn[1..] && t.notes == s.notes && (s.conn[0].Query? ==> RunQuery(s, t))
  }

  ghost predicate ConnAsks(s: State, t: State, c: SubCmd) {
    t.conn == s.conn + [c] && !c.Query? && t.notes == s.notes
  }

  lemma ConnChange(s: State, t: State)
    requires Step(s, t)
    ensures t.conn == s.conn || ConnPops(s, t) || Handled(s, t) || exists c :: ConnAsks(s, t, c)
  {
    if topics :| SubCall(s, t, topics) {
      assert ConnAsks(s, t, Sup(topics));
    } else if ResubCall(s, t) {
      assert ConnAsks(s, t, Hkeys);
    } else if topic, id: nat :| AckCall(s, t, topic, id) {
      assert ConnAsks(s, t, Ack(topic, id));
    }
  }

  lemma NotesKept(s: State, t: State)
    requires NotesOk(s) && PubsOk(s) && Step(s, t)
    ensures NotesOk(t)
  {
    NotesChange(s, t);
    forall k | 0 <= k < |t.notes| && t.notes[k].Message?
      ensures Stored(t, t.notes[k].post)
    {
      var p := t.notes[k].post;
      NotedIsStored(s, t, k);
      StoredStays(s, t, p);
    }
  }

  lemma NotedIsStored(s: State, t: State, k: nat)
    requires NotesOk(s) && PubsOk(s) && k < |t.notes| && t.notes[k].Message?
    requires t.notes == s.notes || Handled(s, t) || exists more :: Noted(s, t, more)
    ensures Stored(s, t.notes[k].post)
  {
    if t.notes == s.notes {
    } else if Handled(s, t) {
      assert s.notes[k + 1] == t.notes[k];
    } else if k < |s.notes| {
      assert s.notes[k] == t.notes[k];
    } else {
      var more :| Noted(s, t, more);
      assert more[k - |s.notes|] == t.notes[k];
      var i :| PublishAt(s, i, 0, t.notes[k].post);
      assert s.pubs[i][0].Publish?;
    }
  }

  lemma QueriesKept(s: State, t: State)
    requires QueriesOk(s) && NotesOk(s) && Step(s, t)
    ensures QueriesOk(t)
  {
    ConnChange(s, t);
    forall k | 0 <= k < |t.conn| && t.conn[k].Query? && t.conn[k].cause.Some?
      ensures Stored(t, t.conn[k].cause.value)
    {
      CauseIsStored(s, t, k);
      StoredStays(s, t, t.conn[k].cause.value);
    }
  }

  lemma CauseIsStored(s: State, t: State, k: nat)
    requires QueriesOk(s) && NotesOk(s) && k < |t.conn| && t.conn[k].Query? && t.conn[k].cause.Some?
    requires t.conn == s.conn || ConnPops(s, t) || Handled(s, t) || exists c :: ConnAsks(s, t, c)
    ensures Stored(s, t.conn[k].cause.value)
  {
    if t.conn == s.conn {
    } else if ConnPops(s, t) {
      assert s.conn[k + 1] == t.conn[k];
    } else if k < |s.conn| {
      assert s.conn[k] == t.conn[k];
    }
  }

  /** Steps that leave store, session and reply history alone. */
  ghost predicate SameCore(s: State, t: State) {
    t.store == s.store && t.session == s.session && t.floor == s.floor && t.seen == s.seen
  }

  lemma ClientStepsSame(s: State, t: State)
    requires ClientStep(s, t) || ChannelStep(s, t)
    ensures SameCore(s, t)
  {}

  lemma CoreSteps(s: State, t: State)
    requires Step(s, t)
    ensures SameCore(s, t) || (exists i, p :: RunZadd(s, t, i, p)) || RunSup(s, t) || RunQuery(s, t)
            || (exists topic, id :: RunAck(s, t, topic, id))
  {
    if ClientStep(s, t) || ChannelStep(s, t) {
      ClientStepsSame(s, t);
    } else if PubStep(s, t) {
    } else {
      assert ConnStep(s, t);
    }
  }

  lemma VisibleMeans(s: State, p: Post)
    ensures Visible(s, p) <==> p.topic in s.session && Stored(s, p) && p.item.score > s.session[p.topic]
  {}

  lemma StepKeepsInv(s: State, t: State)
    requires Inv(s) && Step(s, t)
    ensures Inv(t)
  {
    StoreKept(s, t);
    PubsKept(s, t);
    NotesKept(s, t);
    QueriesKept(s, t);
  }

  lemma {:induction false} RunInv(states: seq<State>, n: nat, i: nat)
    requires Run(states, n) && i < |states|
    ensures Inv(states[i])
  {
    if i > 0 {
      RunInv(states, n, i - 1);
      assert StepAt(states, i - 1);
      StepKeepsInv(states[i - 1], states[i]);
    }
  }

  // ---------- what a run promises ----------

  /** While its topic stays in the session, a cursor moves only when an ack is executed. */
  lemma CursorMoves(s: State, t: State, topic: Topic)
    requires Inv(s) && Step(s, t) && topic in s.session && topic in t.session
    ensures t.session[topic] == s.session[topic] || RunAck(s, t, topic, t.session[topic])
  {
    CoreSteps(s, t);
  }

  /** Step k of the run executes an ack of this id. */
  ghost predicate AckAt(states: seq<State>, k: int, topic: Topic, id: nat) {
    0 <= k < |states| - 1 && RunAck(states[k], states[k + 1], topic, id)
  }

  lemma VisibleStays(s: State, t: State, p: Post)
    requires Inv(s) && Step(s, t) && Visible(s, p) && p.topic in t.session
    requires RunAck(s, t, p.topic, t.session[p.topic]) ==> t.session[p.topic] < p.item.score
    ensures Visible(t, p)
  {
    VisibleMeans(s, p);
    VisibleMeans(t, p);
    StoredStays(s, t, p);
    CursorMoves(s, t, p.topic);
  }

  /** A message is visible when it is stored if and only if the cursor is below it. */
  lemma VisibleWhenStored(s: State, t: State, c: nat, p: Post)
    requires RunZadd(s, t, c, p) && p.topic in s.session
    ensures Visible(t, p) <==> s.session[p.topic] < p.item.score
  {
    ZaddStore(s, t, c, p, p);
    VisibleMeans(t, p);
  }

  /** No loss until acknowledged: in every run, a message whose ZADD is executed at step
      i while its topic is in the session with a cursor below it is in the reply of every
      later query, as long as the topic stays and no ack at or past its score is
      executed. */
  lemma {:induction false} NoLossUntilAcked(states: seq<State>, n: nat, i: nat, c: nat, p: Post, q: nat)
    requires Run(states, n) && i < q < |states| && RunZadd(states[i], states[i + 1], c, p)
    requires forall k :: i <= k <= q ==> p.topic in states[k].session
    requires states[i].session[p.topic] < p.item.score
    requires forall k, id: nat :: i < k < q && AckAt(states, k, p.topic, id) ==> id < p.item.score
    ensures Visible(states[q], p)
  {
    if q == i + 1 {
      VisibleWhenStored(states[i], states[q], c, p);
    } else {
      NoLossUntilAcked(states, n, i, c, p, q - 1);
      VisibleNext(states, n, q - 1, p);
    }
  }

  lemma VisibleNext(states: seq<State>, n: nat, j: nat, p: Post)
    requires Run(states, n) && j + 1 < |states| && Visible(states[j], p) && p.topic in states[j + 1].session
    requires forall id: nat :: AckAt(states, j, p.topic, id) ==> id < p.item.score
    ensures Visible(states[j + 1], p)
  {
    var s, t := states[j], states[j + 1];
    if RunAck(s, t, p.topic, t.session[p.topic]) {
      assert AckAt(states, j, p.topic, t.session[p.topic]);
    }
    RunInv(states, n, j);
    assert StepAt(states, j);
    VisibleStays(s, t, p);
  }

  /** Cursors are not past what is stored. */
  ghost predicate CursorsOk(s: State) {
    forall t :: t in s.session ==> s.session[t] <= Latest(Zset(s.store, t))
  }

  /** That holds as long as the acks are for ids that are stored; and then every message
      is above its topic's cursor when it is stored. */
  lemma CursorsKept(s: State, t: State)
    requires StoreOk(s) && CursorsOk(s) && Step(s, t)
    requires forall topic, id: nat :: RunAck(s, t, topic, id) ==> id <= Latest(Zset(s.store, topic))
    ensures CursorsOk(t)
    ensures forall i: nat, p :: RunZadd(s, t, i, p) && p.topic in s.session ==> s.session[p.topic] < p.item.score
  {
    CoreSteps(s, t);
    if i: nat, p :| RunZadd(s, t, i, p) {
      ZaddKeepsCursors(s, t, i, p);
    } else if RunSup(s, t) {
      SupKeepsCursors(s, t);
    } else if topic, id: nat :| RunAck(s, t, topic, id) {
      AckKeepsCursors(s, t, topic, id);
    }
  }

  lemma ZaddKeepsCursors(s: State, t: State, i: nat, p: Post)
    requires CursorsOk(s) && RunZadd(s, t, i, p)
    ensures CursorsOk(t)
  {}

  lemma SupKeepsCursors(s: State, t: State)
    requires CursorsOk(s) && RunSup(s, t)
    ensures CursorsOk(t)
  {}

  lemma AckKeepsCursors(s: State, t: State, topic: Topic, id: nat)
    requires CursorsOk(s) && RunAck(s, t, topic, id) && id <= Latest(Zset(s.store, topic))
    ensures CursorsOk(t)
  {}

  /** The cursor is at or past p, so no reply contains it. */
  ghost predicate Hidden(s: State, p: Post) {
    p.topic in s.session && p.item.score <= s.session[p.topic] && !Visible(s, p)
  }

  lemma HiddenStays(s: State, t: State, p: Post)
    requires Inv(s) && Step(s, t) && Hidden(s, p) && p.topic in t.session
    requires RunAck(s, t, p.topic, t.session[p.topic]) ==> p.item.score <= t.session[p.topic]
    ensures Hidden(t, p)
  {
    CursorMoves(s, t, p.topic);
    VisibleMeans(t, p);
  }

  lemma HiddenNext(states: seq<State>, n: nat, j: nat, p: Post)
    requires Run(states, n) && j + 1 < |states| && Hidden(states[j], p) && p.topic in states[j + 1].session
    requires forall id: nat :: AckAt(states, j, p.topic, id) ==> p.item.score <= id
    ensures Hidden(states[j + 1], p)
  {
    var s, t := states[j], states[j + 1];
    if RunAck(s, t, p.topic, t.session[p.topic]) {
      assert AckAt(states, j, p.topic, t.session[p.topic]);
    }
    RunInv(states, n, j);
    assert StepAt(states, j);
    HiddenStays(s, t, p);
  }

  lemma TakenOnHides(states: seq<State>, n: nat, j: nat, p: Post)
    requires Run(states, n) && j + 1 < |states| && Stored(states[j], p)
    requires p.topic !in states[j].session && p.topic in states[j + 1].session
    requires forall id: nat :: AckAt(states, j, p.topic, id) ==> p.item.score <= id
    ensures Hidden(states[j + 1], p)
  {
    var s, t := states[j], states[j + 1];
    RunInv(states, n, j);
    assert StepAt(states, j);
    CoreSteps(s, t);
    StoredScore(s, p);
    VisibleMeans(t, p);
    if RunAck(s, t, p.topic, t.session[p.topic]) {
      assert AckAt(states, j, p.topic, t.session[p.topic]);
    }
  }

  /** Nothing from before: a message already stored when its topic is taken on is in no
      reply for as long as the topic stays and no ack below its score is executed. */
  lemma {:induction false} EarlierNeverReplied(states: seq<State>, n: nat, j: nat, p: Post, q: nat)
    requires Run(states, n) && j < q < |states| && Stored(states[j], p) && p.topic !in states[j].session
    requires forall k :: j < k <= q ==> p.topic in states[k].session
    requires forall k, id: nat :: j <= k < q && AckAt(states, k, p.topic, id) ==> p.item.score <= id
    ensures Hidden(states[q], p)
  {
    if q == j + 1 {
      TakenOnHides(states, n, j, p);
    } else {
      EarlierNeverReplied(states, n, j, p, q - 1);
      HiddenNext(states, n, q - 1, p);
    }
  }

  /** hp_sub without topics subscribes to every topic of the session: one SUBSCRIBE is sent
      when HKEYS has answered, and once it is executed they are all channels. */
  lemma ResubscribeCovers(s: State, t: State, keys: seq<Topic>, u: State, v: State)
    requires RunHkeys(s, t, keys) && s.session != map[]
    requires u.subs != [] && t.subs != [] && u.subs[0] == t.subs[|t.subs| - 1] && RunSubscribe(u, v)
    ensures |t.subs| == |s.subs| + 1 && s.session.Keys <= v.channels
  {
    var x :| x in s.session;
    assert x in keys;
  }

  /** Subscribing again to the same topics, whatever has been published meanwhile,
      changes no cursor; the session's topics are exactly those last subscribed to. */
  lemma ResubscribeKeepsCursors(session: Session, store: Store, later: Store, topics: seq<Topic>)
    ensures var once := SupSession(session, store, topics);
            && SupSession(once, later, topics) == once
            && (forall t :: t in once <==> t in topics)
            && (forall t :: t in once && t in session ==> once[t] == session[t])
            && (forall t :: t in once && t !in session ==> once[t] == Latest(Zset(store, t)))
  {
    var once := SupSession(session, store, topics);
    assert SupSession(once, later, topics).Keys == once.Keys;
  }

  /** The last ack decides: right after an ack with this id, exactly the stored messages
      of the topic with a greater score are replied. */
  lemma AckDecides(s: State, t: State, topic: Topic, id: nat, p: Post)
    requires RunAck(s, t, topic, id) && p.topic == topic
    ensures Visible(t, p) <==> Stored(s, p) && p.item.score > id
  {
    VisibleMeans(t, p);
  }

  /** Acknowledged for good: from an ack at or past its score on, a message is in no
      reply for as long as the topic stays and no ack below its score is executed. */
  lemma {:induction false} AcknowledgedNeverReplied(states: seq<State>, n: nat, a: nat, id: nat, p: Post, q: nat)
    requires Run(states, n) && a < q < |states|
    requires AckAt(states, a, p.topic, id) && p.item.score <= id
    requires forall k :: a < k <= q ==> p.topic in states[k].session
    requires forall k, d: nat :: a < k < q && AckAt(states, k, p.topic, d) ==> p.item.score <= d
    ensures Hidden(states[q], p)
  {
    if q == a + 1 {
      VisibleMeans(states[q], p);
    } else {
      AcknowledgedNeverReplied(states, n, a, id, p, q - 1);
      HiddenNext(states, n, q - 1, p);
    }
  }

  /** Acks are stored as they come, so one that arrives late can reopen what a later one
      had closed: after acks `hi` and then `lo`, the message with score `hi` is replied
      again if and only if lo < hi. */
  lemma LateAckReopens(s: State, t: State, u: State, topic: Topic, hi: nat, lo: nat, p: Post)
    requires RunAck(s, t, topic, hi) && RunAck(t, u, topic, lo)
    requires Stored(s, p) && p.topic == topic && p.item.score == hi
    ensures !Visible(t, p) && (Visible(u, p) <==> lo < hi)
  {
    AckDecides(s, t, topic, hi, p);
    AckDecides(t, u, topic, lo, p);
  }

  /** A query caused by a notification always finds the message stored, because on the
      publisher's connection the ZADD comes first; so it replies the message unless a
      cursor at or past its score is stored or the topic has been dropped. */
  lemma NotifiedQuerySees(states: seq<State>, n: nat, i: nat, k: nat)
    requires Run(states, n) && i < |states| && k < |states[i].conn|
    requires states[i].conn[k].Query? && states[i].conn[k].cause.Some?
    ensures var s := states[i];
            var p := s.conn[k].cause.value;
            Stored(s, p) && (Visible(s, p) <==> p.topic in s.session && s.session[p.topic] < p.item.score)
  {
    RunInv(states, n, i);
    VisibleMeans(states[i], states[i].conn[k].cause.value);
  }

  // ---------- what has been seen ----------

  /** From the floor of t on, the score is not past what has been seen of t. */
  ghost predicate SeenUpTo(s: State, t: Topic, score: nat) {
    && t in s.floor && s.floor[t] <= score
    && (score == s.floor[t] || exists p :: p in s.seen && p.topic == t && score <= p.item.score)
  }

  /** Cursors are not below the score their topic was taken on at, and not past that and
      what has been seen since. */
  ghost predicate FloorsOk(s: State) {
    s.floor.Keys == s.session.Keys && forall t :: t in s.session ==> SeenUpTo(s, t, s.session[t])
  }

  /** Of each topic, what has been seen is everything from its floor up to some score. */
  ghost predicate SeenOk(s: State) {
    && (forall p :: p in s.seen ==> Stored(s, p) && p.topic in s.floor && p.item.score > s.floor[p.topic])
    && (forall p, q :: p in s.seen && Below(s, q, p) ==> q in s.seen)
  }

  /** q is a stored message of p's topic, above the floor and not above p. */
  ghost predicate Below(s: State, q: Post, p: Post) {
    Stored(s, q) && q.topic == p.topic && BetweenFloorAnd(s, q, p.item.score)
  }

  ghost predicate BetweenFloorAnd(s: State, q: Post, score: nat) {
    q.topic in s.floor && s.floor[q.topic] < q.item.score <= score
  }

  ghost predicate HistoryOk(s: State) { FloorsOk(s) && SeenOk(s) }

  /** An ack that is executed is for a topic of the session, with an id from its floor up
      to the score of something seen since it was taken on. */
  ghost predicate Heard(s: State, t: State) {
    forall topic, id: nat :: RunAck(s, t, topic, id) ==> topic in s.session && SeenUpTo(s, topic, id)
  }

  /** What has been seen up to a score stays so while the topic keeps its floor. */
  lemma SeenUpToKept(s: State, t: State, x: Topic, score: nat)
    requires SeenUpTo(s, x, score) && x in t.floor && t.floor[x] == s.floor[x]
    requires forall p :: p in s.seen && p.topic == x ==> p in t.seen
    ensures SeenUpTo(t, x, score)
  {}

  lemma ZaddKeepsHistory(s: State, t: State, i: nat, p: Post)
    requires StoreOk(s) && HistoryOk(s) && RunZadd(s, t, i, p)
    ensures HistoryOk(t)
  {
    forall x | x in t.session
      ensures SeenUpTo(t, x, t.session[x])
    {
      SeenUpToKept(s, t, x, s.session[x]);
    }
    forall a, b | a in t.seen && Below(t, b, a)
      ensures b in t.seen
    {
      ZaddStore(s, t, i, p, b);
      StoredScore(s, a);
      assert b != p;
      assert Below(s, b, a);
    }
    forall a | a in t.seen ensures Stored(t, a) && a.topic in t.floor && a.item.score > t.floor[a.topic] {
      ZaddStore(s, t, i, p, a);
    }
  }

  lemma SupKeepsHistory(s: State, t: State)
    requires StoreOk(s) && HistoryOk(s) && RunSup(s, t)
    ensures HistoryOk(t)
  {
    forall x | x in t.session
      ensures SeenUpTo(t, x, t.session[x])
    {
      if x in s.session {
        SeenUpToKept(s, t, x, s.session[x]);
      }
    }
    forall a, b | a in t.seen && Below(t, b, a)
      ensures b in t.seen
    {
      assert a in s.seen && Below(s, b, a);
    }
  }

  lemma QueryKeepsHistory(s: State, t: State)
    requires StoreOk(s) && HistoryOk(s) && RunQuery(s, t)
    ensures HistoryOk(t)
  {
    forall x | x in t.session
      ensures SeenUpTo(t, x, t.session[x])
    {
      SeenUpToKept(s, t, x, s.session[x]);
    }
    forall a | a in t.seen ensures Stored(t, a) && a.topic in t.floor && a.item.score > t.floor[a.topic] {
      VisibleMeans(s, a);
      assert a in s.seen || Visible(s, a);
    }
    forall a, b | a in t.seen && Below(t, b, a)
      ensures b in t.seen
    {
      SeenBelow(s, a, b);
    }
  }

  /** Whatever a reply contains, everything below it is in it or was seen before. */
  lemma SeenBelow(s: State, a: Post, b: Post)
    requires HistoryOk(s) && (a in s.seen || Visible(s, a))
    requires Below(s, b, a)
    ensures b in s.seen || Visible(s, b)
  {
    VisibleMeans(s, a);
    VisibleMeans(s, b);
    if a !in s.seen && b.item.score <= s.session[b.topic] {
      CursorCovers(s, b);
    }
  }

  /** What is above the floor and not above the cursor has been seen. */
  lemma CursorCovers(s: State, p: Post)
    requires HistoryOk(s) && Stored(s, p) && p.topic in s.session
    requires s.floor[p.topic] < p.item.score <= s.session[p.topic]
    ensures p in s.seen
  {
    assert SeenUpTo(s, p.topic, s.session[p.topic]);
    var r :| r in s.seen && r.topic == p.topic && s.session[p.topic] <= r.item.score;
    assert Below(s, p, r);
  }

  lemma AckKeepsHistory(s: State, t: State, topic: Topic, id: nat)
    requires HistoryOk(s) && RunAck(s, t, topic, id) && topic in s.session && SeenUpTo(s, topic, id)
    ensures HistoryOk(t)
  {
    forall x | x in t.session
      ensures SeenUpTo(t, x, t.session[x])
    {
      SeenUpToKept(s, t, x, t.session[x]);
    }
    forall a, b | a in t.seen && Below(t, b, a)
      ensures b in t.seen
    {
      assert a in s.seen && Below(s, b, a);
    }
  }

  lemma SameKeepsHistory(s: State, t: State)
    requires HistoryOk(s) && SameCore(s, t)
    ensures HistoryOk(t)
  {
    forall x | x in t.session
      ensures SeenUpTo(t, x, t.session[x])
    {
      SeenUpToKept(s, t, x, s.session[x]);
    }
    forall a, b | a in t.seen && Below(t, b, a)
      ensures b in t.seen
    {
      assert a in s.seen && Below(s, b, a);
    }
  }

  lemma HistoryKept(s: State, t: State)
    requires StoreOk(s) && HistoryOk(s) && Step(s, t) && Heard(s, t)
    ensures HistoryOk(t)
  {
    CoreSteps(s, t);
    if SameCore(s, t) {
      SameKeepsHistory(s, t);
    } else if i: nat, p :| RunZadd(s, t, i, p) {
      ZaddKeepsHistory(s, t, i, p);
    } else if RunSup(s, t) {
      SupKeepsHistory(s, t);
    } else if RunQuery(s, t) {
      QueryKeepsHistory(s, t);
    } else {
      var topic, id: nat :| RunAck(s, t, topic, id);
      AckKeepsHistory(s, t, topic, id);
    }
  }

  // ---------- no lost wake-up ----------

  /** Due: a reply would contain p now, none has, and the subscriber listens to its topic. */
  ghost predicate Due(s: State, p: Post) {
    Visible(s, p) && p !in s.seen && p.topic in s.channels
  }

  ghost predicate NoteWakes(s: State, k: int) {
    0 <= k < |s.notes| && Wakes(s.notes[k]) != []
  }

  ghost predicate QueryAt(s: State, k: int) {
    0 <= k < |s.conn| && s.conn[k].Query?
  }

  ghost predicate PublishAt(s: State, i: int, k: int, p: Post) {
    0 <= i < |s.pubs| && 0 <= k < |s.pubs[i]| && s.pubs[i][k] == Publish(p)
  }

  /** Something under way will make the subscriber look: the PUBLISH of p, a
      notification, or a query. */
  ghost predicate Waking(s: State, p: Post) {
    || (exists i, k :: PublishAt(s, i, k, p))
    || (exists k :: NoteWakes(s, k))
    || (exists k :: QueryAt(s, k))
  }

  ghost predicate Paired(s: State) {
    forall i, k :: 0 <= i < |s.pubs| && 0 <= k < |s.pubs[i]| && s.pubs[i][k].Zadd? ==>
                     PublishAt(s, i, k + 1, s.pubs[i][k].post)
  }

  ghost predicate CoverOk(s: State) {
    Paired(s) && forall p :: Due(s, p) ==> Waking(s, p)
  }

  /** A SUBSCRIBE of these topics on a connection with these channels makes nothing due, or
      is confirmed with one channel, so that hp_sub_all is called: it names only channels
      there already are, or the connection has no channel but the first one it names. */
  ghost predicate SubscribeWakes(channels: set<Topic>, topics: seq<Topic>) {
    topics == [] || channels <= {topics[0]} || forall x :: x in topics ==> x in channels
  }

  ghost predicate Careful(s: State, t: State) {
    (RunSubscribe(s, t) ==> SubscribeWakes(s.channels, s.subs[0])) && Heard(s, t)
  }

  ghost predicate AtFloor(s: State, topic: Topic, id: nat) {
    topic in s.session && topic in s.floor && s.floor[topic] <= id
  }

  /** What keeps a step from losing a wake-up; of acks it asks less than Careful. */
  ghost predicate Cautious(s: State, t: State) {
    && (RunSubscribe(s, t) ==> SubscribeWakes(s.channels, s.subs[0]))
    && forall topic, id: nat :: RunAck(s, t, topic, id) ==> AtFloor(s, topic, id)
  }

  lemma PairedKept(s: State, t: State)
    requires Paired(s) && Step(s, t)
    ensures Paired(t)
  {
    PubsChange(s, t);
    if t.pubs == s.pubs {
      PairedSame(s, t);
    } else if i: nat, p :| PubCall(s, t, i, p) {
      PairedCall(s, t, i, p);
    } else if i: nat, p :| RunZadd(s, t, i, p) || RunPublish(s, t, i, p) {
      PairedPop(s, t, i, p);
    }
  }

  lemma PairedSame(s: State, t: State)
    requires Paired(s) && t.pubs == s.pubs
    ensures Paired(t)
  {
    forall i, k | 0 <= i < |t.pubs| && 0 <= k < |t.pubs[i]| && t.pubs[i][k].Zadd?
      ensures PublishAt(t, i, k + 1, t.pubs[i][k].post)
    {
      assert PublishAt(s, i, k + 1, s.pubs[i][k].post);
    }
  }

  lemma PairedCall(s: State, t: State, j: nat, p: Post)
    requires Paired(s) && PubCall(s, t, j, p)
    ensures Paired(t)
  {
    forall i, k | 0 <= i < |t.pubs| && 0 <= k < |t.pubs[i]| && t.pubs[i][k].Zadd?
      ensures PublishAt(t, i, k + 1, t.pubs[i][k].post)
    {
      if k < |s.pubs[i]| {
        assert s.pubs[i][k] == t.pubs[i][k] && PublishAt(s, i, k + 1, s.pubs[i][k].post);
      }
    }
  }

  lemma PairedPop(s: State, t: State, j: nat, p: Post)
    requires Paired(s) && (RunZadd(s, t, j, p) || RunPublish(s, t, j, p))
    ensures Paired(t)
  {
    forall i, k | 0 <= i < |t.pubs| && 0 <= k < |t.pubs[i]| && t.pubs[i][k].Zadd?
      ensures PublishAt(t, i, k + 1, t.pubs[i][k].post)
    {
      var d := if i == j then 1 else 0;
      assert s.pubs[i][k + d] == t.pubs[i][k] && PublishAt(s, i, k + d + 1, t.pubs[i][k].post);
    }
  }

  /** A wake-up survives every step but the query that answers it, and a PUBLISH nobody
      listens to. */
  lemma WakingStays(s: State, t: State, p: Post)
    requires Step(s, t) && Waking(s, p) && !RunQuery(s, t) && p.topic in s.channels
    ensures Waking(t, p)
  {
    if k :| QueryAt(s, k) {
      ConnChange(s, t);
      QueryStays(s, t, k);
    } else if k :| NoteWakes(s, k) {
      NotesChange(s, t);
      NoteStays(s, t, k, p);
    } else {
      var i, k :| PublishAt(s, i, k, p);
      PublishStays(s, t, i, k, p);
    }
  }

  lemma QueryStays(s: State, t: State, k: int)
    requires QueryAt(s, k) && !RunQuery(s, t)
    requires t.conn == s.conn || ConnPops(s, t) || Handled(s, t) || exists c :: ConnAsks(s, t, c)
    ensures exists k :: QueryAt(t, k)
  {
    if ConnPops(s, t) {
      assert QueryAt(t, k - 1);
    } else {
      assert QueryAt(t, k);
    }
  }

  lemma NoteStays(s: State, t: State, k: int, p: Post)
    requires NoteWakes(s, k)
    requires t.notes == s.notes || Handled(s, t) || exists more :: Noted(s, t, more)
    ensures Waking(t, p)
  {
    if t.notes == s.notes {
      assert NoteWakes(t, k);
    } else if Handled(s, t) {
      if k == 0 {
        assert QueryAt(t, |s.conn|);
      } else {
        assert NoteWakes(t, k - 1);
      }
    } else {
      assert NoteWakes(t, k);
    }
  }

  lemma PublishStays(s: State, t: State, i: int, k: int, p: Post)
    requires Step(s, t) && PublishAt(s, i, k, p) && p.topic in s.channels
    ensures Waking(t, p)
  {
    PubsChange(s, t);
    if j: nat, q :| RunZadd(s, t, j, q) {
      assert PublishAt(t, i, if j == i then k - 1 else k, p);
    } else if j: nat, q :| RunPublish(s, t, j, q) {
      if j == i && k == 0 {
        PublishNotes(s, t, j, q);
        assert p == q && NoteWakes(t, |s.notes|);
      } else {
        assert PublishAt(t, i, if j == i then k - 1 else k, p);
      }
    } else {
      assert PublishAt(t, i, k, p);
    }
  }

  lemma PubsChange(s: State, t: State)
    requires Step(s, t)
    ensures t.pubs == s.pubs || PubStep(s, t) || exists i, p :: PubCall(s, t, i, p)
  {}

  lemma CoverKept(s: State, t: State)
    requires Inv(s) && HistoryOk(s) && CoverOk(s) && Step(s, t) && Cautious(s, t)
    ensures CoverOk(t)
  {
    PairedKept(s, t);
    forall p | Due(t, p)
      ensures Waking(t, p)
    {
      CoverOne(s, t, p);
    }
  }

  lemma CoverOne(s: State, t: State, p: Post)
    requires Inv(s) && HistoryOk(s) && CoverOk(s) && Step(s, t) && Cautious(s, t) && Due(t, p)
    ensures Waking(t, p)
  {
    if RunSubscribe(s, t) && s.subs[0] != [] && s.channels <= {s.subs[0][0]} {
      SubscribeNotes(s, t);
    } else {
      ChannelsKept(s, t);
      if !Due(s, p) {
        NewlyDue(s, t, p);
      } else if RunQuery(s, t) {
        QueryReveals(s, t, p);
      } else {
        WakingStays(s, t, p);
      }
    }
  }

  lemma ChannelsKept(s: State, t: State)
    requires Step(s, t) && (RunSubscribe(s, t) ==> forall x :: x in s.subs[0] ==> x in s.channels)
    ensures t.channels <= s.channels
  {}

  lemma SubscribeNotes(s: State, t: State)
    requires RunSubscribe(s, t) && s.subs[0] != [] && s.channels <= {s.subs[0][0]}
    ensures NoteWakes(t, |s.notes|)
  {
    var more := Confirmations(s.channels, s.subs[0]);
    assert more[0] == Subscribed(true);
    assert t.notes[|s.notes|] == more[0];
  }

  lemma ZaddWakes(s: State, t: State, i: nat, q: Post, p: Post)
    requires Inv(s) && Paired(s) && RunZadd(s, t, i, q) && Due(t, p) && !Due(s, p)
    ensures Waking(t, p)
  {
    VisibleMeans(s, p);
    VisibleMeans(t, p);
    assert PublishAt(s, i, 1, q);
    assert PublishAt(t, i, 0, q);
    ZaddStore(s, t, i, q, p);
  }

  /** Only a ZADD makes a message due; its PUBLISH is right behind it. */
  lemma NewlyDue(s: State, t: State, p: Post)
    requires Inv(s) && HistoryOk(s) && Cautious(s, t) && Paired(s) && Step(s, t) && t.channels <= s.channels
    requires Due(t, p) && !Due(s, p)
    ensures Waking(t, p)
  {
    CoreSteps(s, t);
    if i: nat, q :| RunZadd(s, t, i, q) {
      ZaddWakes(s, t, i, q, p);
    } else if RunSup(s, t) {
      SupReveals(s, t, p);
    } else if RunQuery(s, t) {
      QueryReveals(s, t, p);
    } else if topic, id: nat :| RunAck(s, t, topic, id) {
      AckReveals(s, t, topic, id, p);
    } else {
      SameReveals(s, t, p);
    }
  }

  lemma SupReveals(s: State, t: State, p: Post)
    requires Inv(s) && RunSup(s, t) && Due(t, p)
    ensures Due(s, p)
  {
    VisibleMeans(s, p);
    VisibleMeans(t, p);
    if p.topic !in s.session {
      StoredScore(s, p);
    }
  }

  lemma QueryReveals(s: State, t: State, p: Post)
    requires RunQuery(s, t)
    ensures !Due(t, p)
  {
    VisibleMeans(s, p);
    VisibleMeans(t, p);
  }

  lemma SameReveals(s: State, t: State, p: Post)
    requires SameCore(s, t) && t.channels <= s.channels && Due(t, p)
    ensures Due(s, p)
  {
    VisibleMeans(s, p);
    VisibleMeans(t, p);
  }

  /** What a late ack brings back has been seen. */
  lemma AckReveals(s: State, t: State, topic: Topic, id: nat, p: Post)
    requires HistoryOk(s) && RunAck(s, t, topic, id) && AtFloor(s, topic, id) && Visible(t, p)
    ensures Visible(s, p) || p in s.seen
  {
    VisibleMeans(s, p);
    VisibleMeans(t, p);
    if p.topic == topic && p.item.score <= s.session[topic] {
      CursorCovers(s, p);
    }
  }

  /** Runs whose SUBSCRIBEs wake the subscriber or bring nothing new, and whose acks are
      for what was delivered since their topic was taken on. */
  ghost predicate CarefulRun(states: seq<State>, n: nat) {
    Run(states, n) && forall i :: 0 <= i < |states| - 1 ==> Careful(states[i], states[i + 1])
  }

  /** No lost wake-up, for every such run: a message a query would now deliver for the
      first time, on a channel listened to, has a PUBLISH, a notification or a query under
      way that leads to such a query. */
  lemma {:induction false} NoLostWakeup(states: seq<State>, n: nat, i: nat)
    requires CarefulRun(states, n) && i < |states|
    ensures CoverOk(states[i]) && HistoryOk(states[i])
  {
    if i > 0 {
      NoLostWakeup(states, n, i - 1);
      CoverNext(states, n, i - 1);
    }
  }

  lemma CoverNext(states: seq<State>, n: nat, i: nat)
    requires CarefulRun(states, n) && i + 1 < |states| && CoverOk(states[i]) && HistoryOk(states[i])
    ensures CoverOk(states[i + 1]) && HistoryOk(states[i + 1])
  {
    RunInv(states, n, i);
    assert StepAt(states, i);
    assert Careful(states[i], states[i + 1]);
    CoverKept(states[i], states[i + 1]);
    HistoryKept(states[i], states[i + 1]);
  }
}
