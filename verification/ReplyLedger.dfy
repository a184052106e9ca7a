/** The pending replies of src/hp_pub.c as a ledger: which records exist, which session
    each belongs to, which are in flight and which are freed, over every run. */
module ReplyLedger {
  import opened Common
  import opened IntrusiveList
  import opened PendingLists

  /** - links: records allocated and not freed, with the session each points to
      - sessions: sessions alive
      - inFlight: records whose command was accepted and whose callback has not run
      - freed: records freed so far */
  datatype Book = Book(links: seq<Link>, sessions: set<Session>, inFlight: set<Pending>, freed: seq<Pending>)

  ghost predicate BookOk(b: Book) { Separate(b.links, b.sessions, b.inFlight, b.freed) }

  /** A session's query: if the command is refused the record stays, with no callback to come. */
  function Sent(b: Book, p: Pending, z: Session, accepted: bool): Book {
    b.(links := b.links + [Link(p, Some(z))], inFlight := if accepted then b.inFlight + {p} else b.inFlight)
  }

  /** The reply callback of record k. */
  ghost function Replied(b: Book, k: nat): Book
    requires k < |b.links|
  {
    b.(links := Without(b.links, k), inFlight := b.inFlight - {b.links[k].rec}, freed := b.freed + [b.links[k].rec])
  }

  ghost function OrphanLinks(links: seq<Link>, z: Session): (r: seq<Link>)
    ensures |r| == |links|
    ensures forall k :: 0 <= k < |r| ==>
                          r[k] == Link(links[k].rec, if links[k].session == Some(z) then None else links[k].session)
  {
    seq(|links|, k requires 0 <= k < |links| =>
      Link(links[k].rec, if links[k].session == Some(z) then None else links[k].session))
  }

  /** hp_subc_free. */
  ghost function Orphaned(b: Book, z: Session): Book {
    b.(links := OrphanLinks(b.links, z), sessions := b.sessions - {z})
  }

  /** hp_subc_arg for a context that has no session yet. */
  function Started(b: Book, z: Session): Book { b.(sessions := b.sessions + {z}) }

  lemma StartedOk(b: Book, z: Session)
    requires BookOk(b) && z.asyncList !in Nodes(b.links) && z.asyncList !in Heads(b.sessions)
    ensures BookOk(Started(b, z))
  {}

  /** A new session has no records. */
  lemma {:induction false} NoneYet(links: seq<Link>, z: Session)
    requires forall k :: 0 <= k < |links| ==> links[k].session != Some(z)
    ensures Mine(links, z) == []
  {
    if links != [] {
      NoneYet(links[..|links| - 1], z);
    }
  }

  lemma WithoutFacts(links: seq<Link>, k: nat)
    requires k < |links|
    ensures var w := Without(links, k);
            && |w| == |links| - 1
            && (forall j :: 0 <= j < |w| ==> w[j] == links[if j < k then j else j + 1])
            && (forall q :: Alive(links, q) && q != links[k].rec ==> Alive(w, q))
            && Nodes(w) <= Nodes(links)
  {
    var w := Without(links, k);
    forall q | Alive(links, q) && q != links[k].rec
      ensures Alive(w, q)
    {
      var j :| 0 <= j < |links| && links[j].rec == q;
      assert w[if j < k then j else j - 1].rec == q;
    }
  }

  lemma RepliedOk(b: Book, k: nat)
    requires BookOk(b) && k < |b.links|
    ensures BookOk(Replied(b, k))
  {
    WithoutFacts(b.links, k);
  }

  lemma OrphanedLinksOk(b: Book, links: seq<Link>)
    requires BookOk(b) && |links| == |b.links|
    requires forall k :: 0 <= k < |links| ==>
                           links[k].rec == b.links[k].rec && links[k].session in {None, b.links[k].session}
    ensures BookOk(b.(links := links)) && Nodes(links) == Nodes(b.links)
  {
    forall q | q in b.inFlight ensures Alive(links, q) {
      var j :| 0 <= j < |b.links| && b.links[j].rec == q;
      assert links[j].rec == q;
    }
    forall x
      ensures x in Nodes(links) <==> x in Nodes(b.links)
    {
      if x in Nodes(b.links) {
        var j :| 0 <= j < |b.links| && b.links[j].rec.node == x;
        assert links[j].rec.node == x;
      }
      if x in Nodes(links) {
        var j :| 0 <= j < |links| && links[j].rec.node == x;
        assert b.links[j].rec.node == x;
      }
    }
  }

  // ---------- runs of the ledger ----------

  datatype Action =
    | StartSession(session: Session)
    | SendQuery(rec: Pending, session: Session, accepted: bool)
    | ReplyTo(k: nat)
    | EndSession(session: Session)

  ghost predicate Enabled(b: Book, a: Action) {
    match a
    case StartSession(z) =>
      z !in b.sessions && z.asyncList !in Nodes(b.links) && z.asyncList !in Heads(b.sessions)
    case SendQuery(p, z, _) =>
      && z in b.sessions && !Alive(b.links, p) && p !in b.freed
      && p.node !in Nodes(b.links) && p.node !in Heads(b.sessions)
    case ReplyTo(k) => k < |b.links| && b.links[k].rec in b.inFlight
    case EndSession(z) => z in b.sessions
  }

  ghost function After(b: Book, a: Action): Book
    requires Enabled(b, a)
  {
    match a
    case StartSession(z) => Started(b, z)
    case SendQuery(p, z, accepted) => Sent(b, p, z, accepted)
    case ReplyTo(k) => Replied(b, k)
    case EndSession(z) => Orphaned(b, z)
  }

  lemma AfterOk(b: Book, a: Action)
    requires BookOk(b) && Enabled(b, a)
    ensures BookOk(After(b, a))
  {
    match a
    case StartSession(z) => StartedOk(b, z);
    case SendQuery(p, z, _) => SeparateMore(b.links, b.sessions, b.inFlight, b.freed, p, z);
    case ReplyTo(k) => RepliedOk(b, k);
    case EndSession(z) => OrphanedLinksOk(b, OrphanLinks(b.links, z));
  }

  /** The actions can happen one after the other, starting from `b`. */
  ghost predicate Runs(b: Book, acts: seq<Action>)
    decreases |acts|
  {
    acts == [] || (Enabled(b, acts[0]) && Runs(After(b, acts[0]), acts[1..]))
  }

  ghost function Final(b: Book, acts: seq<Action>): Book
    requires Runs(b, acts)
    decreases |acts|
  {
    if acts == [] then b else Final(After(b, acts[0]), acts[1..])
  }

  /** Each record is freed once, by its own reply: over every run, a record not in flight
      at the start is never freed by it (one whose command was refused stays allocated for
      good), and one in flight is freed at most once, exactly when it leaves the flight. */
  lemma {:induction false} FreedByItsReply(b: Book, acts: seq<Action>, p: Pending)
    requires BookOk(b) && Runs(b, acts) && Alive(b.links, p)
    ensures var c := Final(b, acts);
            && BookOk(c)
            && (p in c.freed <==> p in b.inFlight && p !in c.inFlight)
            && (p in c.freed <==> !Alive(c.links, p))
    decreases |acts|
  {
    if acts == [] {
      var k :| 0 <= k < |b.links| && b.links[k].rec == p;
      assert b.links[k].rec !in b.freed;
    } else {
      var c := After(b, acts[0]);
      AfterOk(b, acts[0]);
      StepOfRecord(b, acts[0], p);
      if Alive(c.links, p) {
        FreedByItsReply(c, acts[1..], p);
      } else {
        FreedStays(c, acts[1..], p);
      }
    }
  }

  /** A query hangs its record last in its session's list and changes no other list; the
      record is in flight exactly if the command was accepted. */
  lemma SendMeans(b: Book, p: Pending, z: Session, accepted: bool)
    requires BookOk(b) && Enabled(b, SendQuery(p, z, accepted))
    ensures var c := After(b, SendQuery(p, z, accepted));
            && Alive(c.links, p) && Mine(c.links, z) == Mine(b.links, z) + [p.node]
            && (forall y :: y in b.sessions && y != z ==> Mine(c.links, y) == Mine(b.links, y))
            && (forall q :: q in c.inFlight <==> q in b.inFlight || (q == p && accepted))
            && c.freed == b.freed && c.sessions == b.sessions && p !in b.inFlight
  {
    var c := After(b, SendQuery(p, z, accepted));
    assert c.links[|b.links|].rec == p;
    forall y | y in b.sessions
      ensures Mine(c.links, y) == if y == z then Mine(b.links, y) + [p.node] else Mine(b.links, y)
    {
      MineMore(b.links, Link(p, Some(z)), y);
    }
  }

  /** A reply frees its record, and only that, and takes its node out of its list. */
  lemma ReplyMeans(b: Book, k: nat)
    requires BookOk(b) && Enabled(b, ReplyTo(k))
    ensures var c, p := After(b, ReplyTo(k)), b.links[k].rec;
            && c.freed == b.freed + [p] && !Alive(c.links, p) && p !in c.inFlight
            && c.inFlight == b.inFlight - {p} && c.sessions == b.sessions
            && (forall y :: p.node !in Mine(c.links, y))
            && (forall q :: Alive(b.links, q) && q != p ==> Alive(c.links, q))
  {
    var c, p := After(b, ReplyTo(k)), b.links[k].rec;
    WithoutFacts(b.links, k);
    forall y, x | x in Mine(c.links, y)
      ensures x != p.node
    {
      MineOwns(c.links, y, x);
    }
  }

  /** The end of a session leaves every record, and none that points to it. */
  lemma EndMeans(b: Book, z: Session)
    requires BookOk(b) && Enabled(b, EndSession(z))
    ensures var c := After(b, EndSession(z));
            && c.sessions == b.sessions - {z} && Mine(c.links, z) == []
            && c.inFlight == b.inFlight && c.freed == b.freed && |c.links| == |b.links|
            && (forall k :: 0 <= k < |c.links| ==> c.links[k].rec == b.links[k].rec && c.links[k].session != Some(z))
            && (forall k :: 0 <= k < |c.links| && b.links[k].session != Some(z) ==> c.links[k] == b.links[k])
  {
    NoneYet(After(b, EndSession(z)).links, z);
  }

  /** A new session has an empty list, and nothing else changes. */
  lemma StartMeans(b: Book, z: Session)
    requires BookOk(b) && Enabled(b, StartSession(z))
    ensures var c := After(b, StartSession(z));
            && (forall y :: y in c.sessions <==> y in b.sessions || y == z) && Mine(c.links, z) == []
            && c.links == b.links && c.inFlight == b.inFlight && c.freed == b.freed
  {
    NoneYet(b.links, z);
  }

  /** The ledger before action k of a run. */
  ghost function At(b: Book, acts: seq<Action>, k: nat): Book
    requires Runs(b, acts) && k <= |acts|
    decreases |acts|
  {
    if k == 0 then b else At(After(b, acts[0]), acts[1..], k - 1)
  }

  /** Action k of the run is the reply for p. */
  ghost predicate AnswersAt(b: Book, acts: seq<Action>, k: nat, p: Pending)
    requires Runs(b, acts)
  {
    && k < |acts| && acts[k].ReplyTo? && acts[k].k < |At(b, acts, k).links|
    && At(b, acts, k).links[acts[k].k].rec == p
  }

  lemma AnswersNext(b: Book, acts: seq<Action>, k: nat, p: Pending)
    requires Runs(b, acts) && acts != []
    ensures AnswersAt(b, acts, k + 1, p) <==> AnswersAt(After(b, acts[0]), acts[1..], k, p)
  {}

  /** A record alive at the start is freed in a run exactly if its reply runs, and only
      one in flight can be. */
  lemma {:induction false} FreedIffAnswered(b: Book, acts: seq<Action>, p: Pending)
    requires BookOk(b) && Runs(b, acts) && Alive(b.links, p)
    ensures p in Final(b, acts).freed <==> exists k: nat :: AnswersAt(b, acts, k, p)
    ensures p in Final(b, acts).freed ==> p in b.inFlight
    decreases |acts|
  {
    FreedByItsReply(b, acts, p);
    if acts != [] {
      var c := After(b, acts[0]);
      AfterOk(b, acts[0]);
      if AnswersAt(b, acts, 0, p) {
        ReplyMeans(b, acts[0].k);
        FreedStays(c, acts[1..], p);
      } else {
        StillAlive(b, acts, p);
        FreedIffAnswered(c, acts[1..], p);
        AnswersBehind(b, acts, 0, p);
        assert forall k: nat :: AnswersAt(b, acts, k, p) ==> k > 0;
      }
    }
  }

  lemma StillAlive(b: Book, acts: seq<Action>, p: Pending)
    requires BookOk(b) && Runs(b, acts) && acts != [] && Alive(b.links, p) && !AnswersAt(b, acts, 0, p)
    ensures Alive(After(b, acts[0]).links, p)
  {
    var j :| 0 <= j < |b.links| && b.links[j].rec == p;
    match acts[0]
    case ReplyTo(k) => ReplyMeans(b, k);
    case StartSession(_) => assert After(b, acts[0]).links[j].rec == p;
    case SendQuery(_, _, _) => assert After(b, acts[0]).links[j].rec == p;
    case EndSession(_) => assert After(b, acts[0]).links[j].rec == p;
  }

  /** Replies of a run behind action i are replies of the rest of the run. */
  lemma AnswersBehind(b: Book, acts: seq<Action>, i: nat, p: Pending)
    requires Runs(b, acts) && acts != []
    ensures (exists k: nat :: k > i && AnswersAt(b, acts, k, p))
       <==> (exists k: nat :: k >= i && AnswersAt(After(b, acts[0]), acts[1..], k, p))
  {
    if k: nat :| k > i && AnswersAt(b, acts, k, p) {
      AnswersNext(b, acts, k - 1, p);
    }
    if k: nat :| k >= i && AnswersAt(After(b, acts[0]), acts[1..], k, p) {
      AnswersNext(b, acts, k, p);
      assert AnswersAt(b, acts, k + 1, p);
    }
  }

  /** Every query of every run: its record hangs last in its session's list right after
      it; it is freed exactly if its reply runs later in the run; and never if the command
      was refused. */
  lemma {:induction false} SentThenFreed(b: Book, acts: seq<Action>, i: nat, p: Pending, z: Session, accepted: bool)
    requires BookOk(b) && Runs(b, acts) && i < |acts| && acts[i] == SendQuery(p, z, accepted)
    ensures var before, after := At(b, acts, i), At(b, acts, i + 1);
            && Alive(after.links, p) && Mine(after.links, z) == Mine(before.links, z) + [p.node]
            && (p in Final(b, acts).freed <==> exists k: nat :: k > i && AnswersAt(b, acts, k, p))
            && (p in Final(b, acts).freed ==> accepted)
    decreases i
  {
    var c := After(b, acts[0]);
    AfterOk(b, acts[0]);
    if i == 0 {
      SendMeans(b, p, z, accepted);
      assert At(b, acts, 1) == At(c, acts[1..], 0) == c;
      FreedIffAnswered(c, acts[1..], p);
    } else {
      SentThenFreed(c, acts[1..], i - 1, p, z, accepted);
      assert At(b, acts, i + 1) == At(c, acts[1..], i);
    }
    AnswersBehind(b, acts, i, p);
  }

  lemma StepOfRecord(b: Book, a: Action, p: Pending)
    requires BookOk(b) && Enabled(b, a) && Alive(b.links, p)
    ensures var c := After(b, a);
            && (Alive(c.links, p) ==> (p in c.inFlight <==> p in b.inFlight))
            && (!Alive(c.links, p) ==> p in c.freed && p in b.inFlight && p !in c.inFlight)
  {
    var j :| 0 <= j < |b.links| && b.links[j].rec == p;
    match a
    case StartSession(_) => assert After(b, a).links[j].rec == p;
    case SendQuery(_, _, _) => assert After(b, a).links[j].rec == p;
    case EndSession(_) => assert After(b, a).links[j].rec == p;
    case ReplyTo(k) => ReplyOfRecord(b, k, p, j);
  }

  lemma ReplyOfRecord(b: Book, k: nat, p: Pending, j: nat)
    requires BookOk(b) && Enabled(b, ReplyTo(k)) && j < |b.links| && b.links[j].rec == p
    ensures var c := After(b, ReplyTo(k));
            && (Alive(c.links, p) ==> (p in c.inFlight <==> p in b.inFlight))
            && (!Alive(c.links, p) ==> p in c.freed && p in b.inFlight && p !in c.inFlight)
  {
    var c := After(b, ReplyTo(k));
    if j != k {
      assert c.links[if j < k then j else j - 1].rec == p;
    } else {
      assert forall i :: 0 <= i < |c.links| ==> c.links[i] == b.links[if i < k then i else i + 1];
    }
  }

  lemma {:induction false} FreedStays(b: Book, acts: seq<Action>, p: Pending)
    requires BookOk(b) && Runs(b, acts) && p in b.freed && p !in b.inFlight
    ensures var c := Final(b, acts); BookOk(c) && p in c.freed && p !in c.inFlight && !Alive(c.links, p)
    decreases |acts|
  {
    if acts != [] {
      AfterOk(b, acts[0]);
      FreedStays(After(b, acts[0]), acts[1..], p);
    }
  }
}
