/** The conditions under which PubSub proves that no wake-up is lost, shown to be exact:
    runs that meet them up to their last step, and lose a wake-up there. */
module PubSubLimits {
  import opened Common
  import opened PubSub

  /** Some such run ends in s. */
  ghost predicate Reached(s: State) {
    exists states, n :: CarefulRun(states, n) && states[|states| - 1] == s
  }

  lemma ReachedOk(s: State)
    requires Reached(s)
    ensures Inv(s) && HistoryOk(s) && CoverOk(s)
  {
    var states, n :| CarefulRun(states, n) && states[|states| - 1] == s;
    RunInv(states, n, |states| - 1);
    NoLostWakeup(states, n, |states| - 1);
  }

  /** A step that executes no ack, and a SUBSCRIBE only on a connection without channels. */
  lemma ReachNext(s: State, t: State)
    requires Reached(s) && Step(s, t) && (s.conn == [] || !s.conn[0].Ack? || |t.conn| >= |s.conn|)
    requires s.channels == {} || |t.subs| >= |s.subs|
    ensures Reached(t)
  {
    var states, n :| CarefulRun(states, n) && states[|states| - 1] == s;
    var more := states + [t];
    forall i
      ensures StepAt(more, i)
    {
      assert StepAt(states, i);
    }
    assert Careful(s, t);
    forall i | 0 <= i < |more| - 1
      ensures Careful(more[i], more[i + 1])
    {
      assert i < |states| - 1 ==> Careful(states[i], states[i + 1]);
    }
    assert CarefulRun(more, n);
  }

  /** Nothing but a store, and one publisher connection. */
  function Quiet(store: Store): State {
    State(store, map[], [[]], [], [], {}, [], map[], {})
  }

  lemma QuietReached()
    ensures Reached(Quiet(map[]))
  {
    assert Start(1) == Quiet(map[]);
    assert CarefulRun([Start(1)], 1);
  }

  /** The subscriber has taken these topics on, listens to them and has queried. */
  function Listening(store: Store, topics: seq<Topic>): State {
    var c := SupSession(map[], store, topics);
    State(store, c, [[]], [], [], set x | x in topics, [], c, {})
  }

  lemma ListeningReached(store: Store, topics: seq<Topic>)
    requires Reached(Quiet(store)) && topics != []
    ensures Reached(Listening(store, topics))
  {
    ReachedOk(Quiet(store));
    var end := Listening(store, topics);
    var s0 := Quiet(store);
    var s1 := s0.(conn := [Sup(topics)], subs := [topics]);
    assert SubCall(s0, s1, topics);
    ReachNext(s0, s1);
    var s2 := s1.(conn := [], session := end.session, floor := end.session);
    SupStep(s1, s2, topics);
    var s3 := s2.(subs := [], channels := end.channels, notes := Confirmations({}, topics));
    assert RunSubscribe(s2, s3);
    ReachNext(s2, s3);
    NothingVisible(s3, topics);
    Drain(s3);
  }

  lemma SupStep(s: State, t: State, topics: seq<Topic>)
    requires Reached(s) && s.conn == [Sup(topics)] && s.seen == {} && s.floor == s.session
    requires t == s.(conn := [], session := t.session, floor := t.session)
    requires t.session == SupSession(s.session, s.store, topics)
    ensures Reached(t)
  {
    assert RunSup(s, t);
    ReachNext(s, t);
  }

  lemma NothingVisible(s: State, topics: seq<Topic>)
    requires StoreOk(s) && s.session == SupSession(map[], s.store, topics)
    ensures forall p :: !Visible(s, p)
  {
    forall p
      ensures !Visible(s, p)
    {
      VisibleMeans(s, p);
      if Stored(s, p) {
        StoredScore(s, p);
      }
    }
  }

  /** With nothing to deliver, the confirmations are handled and the queries answered. */
  lemma {:induction false} Drain(s: State)
    requires Reached(s) && s.conn == [] && s.seen == {}
    requires (forall n :: n in s.notes ==> n.Subscribed?) && forall p :: !Visible(s, p)
    ensures Reached(s.(notes := []))
    decreases |s.notes|
  {
    if s.notes == [] {
      assert s == s.(notes := []);
    } else {
      var wakes := Wakes(s.notes[0]);
      var t := s.(notes := s.notes[1..], conn := wakes);
      assert Handle(s, t);
      ReachNext(s, t);
      var u := t.(conn := []);
      if wakes != [] {
        SameReplies(s, t);
        assert RunQuery(t, u);
        ReachNext(t, u);
      }
      SameReplies(s, u);
      Drain(u);
    }
  }

  lemma SameReplies(s: State, t: State)
    requires t.store == s.store && t.session == s.session
    ensures forall p :: Visible(t, p) <==> Visible(s, p)
  {}

  /** A first message, on a topic nobody listens to. */
  lemma PublishUnheard(s: State, p: Post)
    requires Reached(s) && s.pubs == [[]] && s.store == map[] && p.item.score > 0 && p.topic !in s.channels
    requires s.conn == []
    ensures Reached(s.(store := map[p.topic := [p.item]]))
  {
    var cmds := [Zadd(p), Publish(p)];
    var none: seq<PubCmd> := [];
    assert none + cmds == cmds;
    assert [none][0 := cmds] == [cmds];
    var s1 := s.(pubs := [cmds]);
    assert PubCall(s, s1, 0, p);
    ReachNext(s, s1);
    assert cmds[1..] == [Publish(p)] && [] + [p.item] == [p.item];
    assert [cmds][0 := [Publish(p)]] == [[Publish(p)]];
    var s2 := s.(pubs := [[Publish(p)]], store := map[p.topic := [p.item]]);
    assert RunZadd(s1, s2, 0, p);
    ReachNext(s1, s2);
    assert [Publish(p)][1..] == none;
    assert [[Publish(p)]][0 := none] == [none];
    var s3 := s.(store := map[p.topic := [p.item]]);
    assert RunPublish(s2, s3, 0, p);
    ReachNext(s2, s3);
  }

  lemma {:induction false} ListOf(topics: set<Topic>) returns (list: seq<Topic>)
    ensures forall x :: x in list <==> x in topics
    decreases |topics|
  {
    list := [];
    if topics != {} {
      var x :| x in topics;
      var rest := ListOf(topics - {x});
      list := [x] + rest;
    }
  }

  /** The subscriber listens to some channels and has put other topics into its session;
      a message of one of these is stored, and its PUBLISH found nobody listening, since
      the SUBSCRIBE is still under way. */
  function Unheard(channels: set<Topic>, topics: seq<Topic>, p: Post): State {
    var c := map x | x in topics :: 0;
    State(map[p.topic := [p.item]], c, [[]], [], [topics], channels, [], c, {})
  }

  lemma UnheardReached(channels: set<Topic>, topics: seq<Topic>, p: Post)
    requires channels != {} && topics != [] && p.topic !in channels && p.item.score > 0
    ensures Reached(Unheard(channels, topics, p))
  {
    QuietReached();
    var list := ListOf(channels);
    assert (set x | x in list) == channels;
    ListeningReached(map[], list);
    var s0 := Listening(map[], list);
    var s1 := s0.(conn := [Sup(topics)], subs := [topics]);
    assert SubCall(s0, s1, topics);
    ReachNext(s0, s1);
    var c: Session := map x | x in topics :: 0;
    assert SupSession(s0.session, map[], topics) == c;
    var s2 := s1.(conn := [], session := c, floor := c);
    SupStep(s1, s2, topics);
    PublishUnheard(s2, p);
  }

  lemma {:induction false} NoneWakes(channels: set<Topic>, topics: seq<Topic>)
    requires forall k :: 0 <= k < |topics| ==> !(channels <= {topics[k]})
    ensures forall n :: n in Confirmations(channels, topics) ==> Wakes(n) == []
    decreases |topics|
  {
    if topics != [] {
      NoneWakes(channels + {topics[0]}, topics[1..]);
    }
  }

  lemma NoConfirmationWakes(channels: set<Topic>, topics: seq<Topic>)
    requires topics != [] && !(channels <= {topics[0]})
    ensures forall n :: n in Confirmations(channels, topics) ==> Wakes(n) == []
  {
    var now := channels + {topics[0]};
    forall k | 0 <= k < |topics[1..]|
      ensures !(now <= {topics[1..][k]})
    {
      assert topics[0] in now;
    }
    NoneWakes(now, topics[1..]);
    assert Confirmations(channels, topics) == [Subscribed(false)] + Confirmations(now, topics[1..]);
  }

  /** The lost wake-up: a SUBSCRIBE that names a topic p.topic not listened to yet, on a
      connection with a channel other than the first it names. No confirmation says one
      channel; p is due, and nothing under way will fetch it. */
  lemma LostWakeup(channels: set<Topic>, topics: seq<Topic>, p: Post)
    requires topics != [] && !(channels <= {topics[0]}) && p.topic in topics && p.topic !in channels
    requires p.item.score > 0
    ensures exists s, t :: Subscribing(s, t, channels, topics) && Due(t, p) && !Waking(t, p)
  {
    var s := Unheard(channels, topics, p);
    UnheardReached(channels, topics, p);
    NoConfirmationWakes(channels, topics);
    var t := s.(subs := [], channels := channels + (set x | x in topics), notes := Confirmations(channels, topics));
    assert RunSubscribe(s, t);
    VisibleMeans(t, p);
    assert forall k :: 0 <= k < |t.notes| ==> t.notes[k] in t.notes;
    assert Subscribing(s, t, channels, topics) && Due(t, p) && !Waking(t, p);
  }

  /** In a state reached, a SUBSCRIBE of these topics is executed on a connection with
      these channels. */
  ghost predicate Subscribing(s: State, t: State, channels: set<Topic>, topics: seq<Topic>) {
    Reached(s) && RunSubscribe(s, t) && s.channels == channels && s.subs[0] == topics
  }

  /** The condition on SUBSCRIBEs is exact: it holds of these channels and topics if and
      only if in no state reached such a SUBSCRIBE loses a wake-up. */
  lemma SubscribeIsSafeIff(channels: set<Topic>, topics: seq<Topic>)
    ensures SubscribeWakes(channels, topics)
       <==> (forall s, t :: Subscribing(s, t, channels, topics) ==> CoverOk(t))
  {
    if SubscribeWakes(channels, topics) {
      forall s, t | Subscribing(s, t, channels, topics)
        ensures CoverOk(t)
      {
        ReachedOk(s);
        CoverKept(s, t);
      }
    } else {
      var x :| x in topics && x !in channels;
      var p := Post(x, Item(1, ""));
      LostWakeup(channels, topics, p);
      var s, t :| Subscribing(s, t, channels, topics) && Due(t, p) && !Waking(t, p);
      assert !CoverOk(t);
    }
  }

  /** In a state reached, an ack with this id is executed, for a topic of the session that
      was taken on at this score. */
  ghost predicate Acking(s: State, t: State, topic: Topic, floor: nat, id: nat) {
    Reached(s) && RunAck(s, t, topic, id) && topic in s.session && topic in s.floor && s.floor[topic] == floor
  }

  /** An ack below the floor: a message published before its topic was taken on is due
      again, and no wake-up is under way. */
  lemma UnheardAck(p: Post, id: nat)
    requires id < p.item.score
    ensures exists s, t :: Acking(s, t, p.topic, p.item.score, id) && Due(t, p) && !Waking(t, p)
  {
    QuietReached();
    PublishUnheard(Quiet(map[]), p);
    var store := map[p.topic := [p.item]];
    ListeningReached(store, [p.topic]);
    var s := Listening(store, [p.topic]);
    var asked := s.(conn := [Ack(p.topic, id)]);
    assert AckCall(s, asked, p.topic, id);
    ReachNext(s, asked);
    var t := asked.(conn := [], session := asked.session[p.topic := id]);
    assert RunAck(asked, t, p.topic, id);
    VisibleMeans(t, p);
    assert Acking(asked, t, p.topic, p.item.score, id) && Due(t, p) && !Waking(t, p);
  }

  /** An id loses no wake-up, in any state reached, if and only if it is not below the
      score its topic was taken on at. */
  lemma AckIsSafeIff(topic: Topic, floor: nat, id: nat)
    ensures floor <= id <==> (forall s, t :: Acking(s, t, topic, floor, id) ==> CoverOk(t))
  {
    if floor <= id {
      forall s, t | Acking(s, t, topic, floor, id)
        ensures CoverOk(t)
      {
        ReachedOk(s);
        CoverKept(s, t);
      }
    } else {
      var p := Post(topic, Item(floor, ""));
      UnheardAck(p, id);
      var s, t :| Acking(s, t, topic, floor, id) && Due(t, p) && !Waking(t, p);
      assert !CoverOk(t);
    }
  }

  /** A message published on the one topic listened to has been notified. */
  function Notified(p: Post): State {
    Listening(map[], [p.topic]).(store := map[p.topic := [p.item]], notes := [Message(p)])
  }

  lemma NotifiedReached(p: Post)
    requires p.item.score > 0
    ensures Reached(Notified(p))
  {
    QuietReached();
    ListeningReached(map[], [p.topic]);
    var s0 := Listening(map[], [p.topic]);
    var none: seq<PubCmd> := [];
    var cmds := [Zadd(p), Publish(p)];
    assert none + cmds == cmds && [none][0 := cmds] == [cmds];
    var s1 := s0.(pubs := [cmds]);
    assert PubCall(s0, s1, 0, p);
    ReachNext(s0, s1);
    assert cmds[1..] == [Publish(p)] && [] + [p.item] == [p.item] && [cmds][0 := [Publish(p)]] == [[Publish(p)]];
    var s2 := s1.(pubs := [[Publish(p)]], store := map[p.topic := [p.item]]);
    assert RunZadd(s1, s2, 0, p);
    ReachNext(s1, s2);
    assert [Publish(p)][1..] == none && [[Publish(p)]][0 := none] == [none];
    assert RunPublish(s2, Notified(p), 0, p);
    ReachNext(s2, Notified(p));
  }

  /** Over several steps acks must not run ahead of what was delivered either: one that
      does hides the message from the query it was notified for, and the next one, back
      at the floor, makes it due with nothing under way, although neither is below it. */
  lemma AckAhead(p: Post)
    requires p.item.score > 0
    ensures exists s, t, u, v :: Ahead(s, t, u, v, p) && Due(v, p) && !Waking(v, p)
  {
    NotifiedReached(p);
    var ahead, back := Ack(p.topic, p.item.score), Ack(p.topic, 0);
    var s0 := Notified(p);
    var s1 := s0.(conn := [ahead]);
    assert AckCall(s0, s1, p.topic, p.item.score);
    ReachNext(s0, s1);
    var s2 := s1.(notes := [], conn := [ahead, Query(Some(p))]);
    assert Handle(s1, s2);
    ReachNext(s1, s2);
    var s := s2.(conn := [ahead, Query(Some(p)), back]);
    assert AckCall(s2, s, p.topic, 0);
    ReachNext(s2, s);
    AheadAndBack(s, p);
  }

  ghost predicate Ahead(s: State, t: State, u: State, v: State, p: Post) {
    && Reached(s) && RunAck(s, t, p.topic, p.item.score) && RunQuery(t, u) && RunAck(u, v, p.topic, 0)
    && AtFloor(s, p.topic, p.item.score) && AtFloor(u, p.topic, 0)
  }

  lemma AheadAndBack(s: State, p: Post)
    requires Reached(s) && p.item.score > 0
    requires s == Notified(p).(notes := [],
                  conn := [Ack(p.topic, p.item.score), Query(Some(p)), Ack(p.topic, 0)])
    ensures exists t, u, v :: Ahead(s, t, u, v, p) && Due(v, p) && !Waking(v, p)
  {
    var t := s.(conn := s.conn[1..], session := s.session[p.topic := p.item.score]);
    forall q
      ensures !Visible(t, q)
    {
      VisibleMeans(t, q);
    }
    var u := t.(conn := s.conn[2..]);
    assert s.conn[1..][1..] == s.conn[2..] && s.conn[2..][1..] == [];
    var v := u.(conn := [], session := t.session[p.topic := 0]);
    VisibleMeans(v, p);
    assert RunAck(s, t, p.topic, p.item.score) && RunQuery(t, u) && RunAck(u, v, p.topic, 0);
    assert Ahead(s, t, u, v, p) && Due(v, p) && !Waking(v, p);
  }
}
