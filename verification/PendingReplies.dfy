/** The records of replies still to come in src/hp_pub.c. Each asynchronous query
    allocates a record that points to its session and hangs in the session's list; the
    reply callback unhooks and frees it. A session that goes away first unhooks all of
    its records, so that the callbacks that still come find no session. */
module PendingReplies {
  import opened Common
  import opened IntrusiveList
  import opened PendingLists
  import opened ReplyLedger

  ghost function Objects(links: seq<Link>, sessions: set<Session>): set<object> {
    (set l | l in links :: l.rec as object) + Nodes(links) + (set z | z in sessions :: z.asyncList as object)
  }

  lemma SameObjects(links: seq<Link>, to: seq<Link>, sessions: set<Session>)
    requires |to| == |links| && forall k :: 0 <= k < |to| ==> to[k].rec == links[k].rec
    ensures Objects(to, sessions) == Objects(links, sessions)
  {
    forall l | l in links ensures exists m :: m in to && m.rec == l.rec {
      var k :| 0 <= k < |links| && links[k] == l;
      assert to[k] in to;
    }
    forall l | l in to ensures exists m :: m in links && m.rec == l.rec {
      var k :| 0 <= k < |to| && to[k] == l;
      assert links[k] in links;
    }
  }

  lemma PartlyMore(before: seq<Link>, links: seq<Link>, z: Session, k: nat)
    requires PartlyOrphaned(before, links, z) && k < |links| && links[k].session == Some(z)
    ensures PartlyOrphaned(before, links[k := Link(links[k].rec, None)], z)
  {}

  /** Some of z's records have lost their session, the others are unchanged. */
  ghost predicate PartlyOrphaned(before: seq<Link>, links: seq<Link>, z: Session) {
    && |links| == |before|
    && forall k :: 0 <= k < |links| ==>
                     links[k] == before[k] || (before[k].session == Some(z) && links[k] == Link(before[k].rec, None))
  }

  lemma HeadBehindHead(h: ListHead, s: seq<ListHead>)
    requires h !in s && Cycle(h, s)[1] == h
    ensures s == []
  {}

  lemma FirstTwo(h: ListHead, s: seq<ListHead>)
    requires Ring(h, s)
    ensures h.next == Cycle(h, s)[1] && Cycle(h, s)[1].next != null && (s != [] ==> s[0].next == Cycle(h, s)[2])
  {
    var c := Cycle(h, s);
    assert c[0].next == c[1];
    if s != [] {
      assert c[1].next == c[2];
    }
  }

  lemma OwnerOf(links: seq<Link>, z: Session, k: nat)
    requires NodesDistinct(links) && k < |links| && links[k].rec.node in Mine(links, z)
    ensures links[k].session == Some(z)
  {
    MineOwns(links, z, links[k].rec.node);
  }

  /** Orphaning the record whose node is first leaves the rest of the list. */
  lemma RankOfFirst(links: seq<Link>, z: Session, k: nat)
    requires Distinct(Mine(links, z)) && k < |links| && links[k].session == Some(z)
    requires Mine(links, z) != [] && Mine(links, z)[0] == links[k].rec.node
    ensures Mine(links[k := Link(links[k].rec, None)], z) == Mine(links, z)[1..]
  {
    MineWithout(links, k, z);
    MineOrphan(links, k, z);
  }

  lemma {:induction false} NoneLeft(links: seq<Link>, z: Session)
    requires Mine(links, z) == []
    ensures forall k :: 0 <= k < |links| ==> links[k].session != Some(z)
  {
    if links != [] {
      NoneLeft(links[..|links| - 1], z);
      assert forall k :: 0 <= k < |links| - 1 ==> links[k] == links[..|links| - 1][k];
    }
  }

  // ---------- sessions and records ----------

  lemma OneMore(visited: seq<ListHead>, mine: seq<ListHead>)
    requires mine != []
    ensures (visited + [mine[0]]) + mine[1..] == visited + mine
  {}

  class Replies {
    var book: Book

    ghost function Footprint(): set<object>
      reads this
    {
      Objects(book.links, book.sessions)
    }

    /** The ledger is consistent, every record's pointer is what it says, and every
        session's list holds exactly its records. */
    ghost predicate Valid()
      reads this, Footprint()
    {
      BookOk(book) && Pointers(book.links) && Lists(book.links, book.sessions)
    }

    constructor ()
      ensures Valid() && book == Book([], {}, {}, [])
    {
      book := Book([], {}, {}, []);
    }

    /** A record hangs in a list if and only if its session pointer is set. */
    lemma LinkedIffSession(k: nat)
      requires Valid() && k < |book.links|
      ensures var p := book.links[k].rec;
              (p.s != null <==> p.node.next != null) && (p.s != null ==> p.node in Mine(book.links, p.s))
    {
      var l := book.links[k];
      assert PointerOk(l);
      if l.session.Some? {
        var z := l.session.value;
        MineWithout(book.links, k, z);
        Neighbours(z.asyncList, Mine(book.links, z), Rank(book.links, k, z));
      }
    }

    /** Writing the ledger does not touch the lists. */
    method SetBook(to: Book, ghost links: seq<Link>, ghost sessions: set<Session>)
      requires Pointers(links) && Lists(links, sessions)
      modifies this`book
      ensures book == to && Pointers(links) && Lists(links, sessions)
    {
      ghost var was := Snapshot(Nodes(links) + Heads(sessions));
      ListsThen(links, sessions);
      book := to;
      forall y | y in sessions
        ensures Ring(y.asyncList, Mine(links, y))
      {
        RingKept(was, y.asyncList, Mine(links, y));
      }
    }

    /** hp_subc_arg: a context that has a session keeps it; any other gets a new one, with
        an empty list. */
    method Open(data: Session?) returns (z: Session)
      requires Valid() && (data != null ==> data in book.sessions)
      modifies this
      ensures Valid() && (data != null ==> z == data && book == old(book))
      ensures data == null ==> fresh(z) && fresh(z.asyncList) && book == Started(old(book), z)
    {
      if data != null {
        return data;
      }
      var head := new ListHead();
      Init(head);
      z := new Session(head);
      Join(z);
    }

    method Join(z: Session)
      requires Valid() && Enabled(book, StartSession(z)) && Ring(z.asyncList, [])
      modifies this
      ensures Valid() && book == Started(old(book), z)
    {
      ghost var links, sessions := book.links, book.sessions + {z};
      StartedOk(book, z);
      NoneYet(links, z);
      assert Lists(links, sessions);
      SetBook(Started(book, z), links, sessions);
    }

    /** hp_sub_all, and hp_sub without topics. */
    method Send(z: Session, accepted: bool) returns (p: Pending)
      requires Valid() && z in book.sessions
      modifies this, Footprint()
      ensures Valid() && fresh(p) && book == Sent(old(book), p, z, accepted)
      ensures p.s == z && Ring(z.asyncList, old(Mine(book.links, z)) + [p.node])
      ensures forall y :: y in old(book.sessions) && y != z ==> Ring(y.asyncList, old(Mine(book.links, y)))
      ensures Alive(book.links, p) && (p in book.inFlight <==> accepted)
    {
      var node := new ListHead();
      p := new Pending(z, node);
      ghost var b := book;
      Hook(p, z, accepted);
      SendMeans(b, p, z, accepted);
      assert PointerOk(book.links[|b.links|]);
    }

    method Hook(p: Pending, z: Session, accepted: bool)
      requires Valid() && z in book.sessions && p.s == z && p !in book.freed
      requires !Alive(book.links, p) && p.node !in Nodes(book.links) && p.node !in Heads(book.sessions)
      modifies this`book, p.node, z.asyncList, Mine(book.links, z)
      ensures Valid() && book == Sent(old(book), p, z, accepted)
    {
      ghost var b := book;
      SeparateMore(b.links, b.sessions, b.inFlight, b.freed, p, z);
      SetBook(Sent(book, p, z, accepted), b.links, b.sessions);
      HookNode(b.links, b.sessions, p, z);
    }

    /** The end of hp_sub_all_cb and hp_sub_session_cb: unhook the record if its session
        is still there, and free it. */
    method Reply(p: Pending, ghost k: nat)
      requires Valid() && p in book.inFlight && k < |book.links| && book.links[k].rec == p
      modifies this, Footprint()
      ensures Valid() && book == Replied(old(book), k)
      ensures p in book.freed && !Alive(book.links, p)
      ensures forall y :: y in book.sessions ==> p.node !in Mine(book.links, y)
    {
      ghost var b := book;
      RepliedOk(b, k);
      ReplyMeans(b, k);
      WithoutFacts(b.links, k);
      var z := p.s;
      assert PointerOk(b.links[k]);
      Forget(p, k);
      if z != null {
        UnhookNode(b.links, b.sessions, k, p, z);
      } else {
        assert b.links[k].session == None;
        forall y | y in b.sessions
          ensures Ring(y.asyncList, Mine(book.links, y))
        {
          MineWithout(b.links, k, y);
        }
      }
    }

    /** What freeing the record amounts to in the ledger. */
    method Forget(p: Pending, ghost k: nat)
      requires k < |book.links| && book.links[k].rec == p && BookOk(book)
      requires Pointers(book.links) && Lists(book.links, book.sessions)
      modifies this
      ensures book == Replied(old(book), k)
      ensures Pointers(old(book.links)) && Lists(old(book.links), book.sessions)
    {
      var i := Locate(p);
      assert i == k;
      SetBook(Book(book.links[..i] + book.links[i + 1..], book.sessions, book.inFlight - {p}, book.freed + [p]),
              book.links, book.sessions);
    }

    /** What clearing its session pointer amounts to. */
    method Strike(p: Pending, ghost k: nat)
      requires k < |book.links| && book.links[k].rec == p && BookOk(book)
      requires Pointers(book.links) && Lists(book.links, book.sessions)
      modifies this
      ensures book == old(book).(links := old(book.links)[k := Link(p, None)])
      ensures Pointers(old(book.links)) && Lists(old(book.links), book.sessions)
    {
      var i := Locate(p);
      assert i == k;
      SetBook(book.(links := book.links[i := Link(p, None)]), book.links, book.sessions);
    }

    method Locate(p: Pending) returns (i: nat)
      requires Alive(book.links, p)
      ensures i < |book.links| && book.links[i].rec == p
    {
      i := 0;
      while book.links[i].rec != p
        invariant i < |book.links|
        invariant forall j :: 0 <= j < i ==> book.links[j].rec != p
        decreases |book.links| - i
      {
        i := i + 1;
        assert i < |book.links|;
      }
    }

    /** list_entry: the record a node lies in. */
    method EntryOf(node: ListHead) returns (p: Pending, ghost k: nat)
      requires node in Nodes(book.links)
      ensures k < |book.links| && book.links[k].rec == p && p.node == node
    {
      var i := 0;
      while book.links[i].rec.node != node
        invariant i < |book.links|
        invariant forall j :: 0 <= j < i ==> book.links[j].rec.node != node
        decreases |book.links| - i
      {
        i := i + 1;
        assert i < |book.links|;
      }
      return book.links[i].rec, i;
    }

    /** list_del and clearing the session pointer, for record k of session z. */
    method Orphan(p: Pending, ghost k: nat, ghost z: Session)
      requires Valid() && k < |book.links| && book.links[k] == Link(p, Some(z))
      modifies this, Footprint()
      ensures Valid() && book == old(book).(links := old(book.links)[k := Link(p, None)])
    {
      ghost var b := book;
      OrphanedLinksOk(b, b.links[k := Link(p, None)]);
      Strike(p, k);
      Detach(b, p, k, z);
    }

    method Detach(ghost b: Book, p: Pending, ghost k: nat, ghost z: Session)
      requires BookOk(b) && Pointers(b.links) && Lists(b.links, b.sessions)
      requires k < |b.links| && b.links[k] == Link(p, Some(z))
      modifies p, z.asyncList, Mine(b.links, z)
      ensures Pointers(b.links[k := Link(p, None)]) && Lists(b.links[k := Link(p, None)], b.sessions)
    {
      UnhookNode(b.links, b.sessions, k, p, z);
      ClearPointer(b, p, k);
      forall y | y in b.sessions
        ensures Ring(y.asyncList, Mine(b.links[k := Link(p, None)], y))
      {
        MineOrphan(b.links, k, y);
      }
    }

    method ClearPointer(ghost b: Book, p: Pending, ghost k: nat)
      requires BookOk(b) && k < |b.links| && b.links[k].rec == p && p.node.next == null && p.node.prev == null
      requires Pointers(b.links) && Lists(Without(b.links, k), b.sessions)
      modifies p
      ensures Pointers(b.links[k := Link(p, None)]) && Lists(Without(b.links, k), b.sessions)
    {
      ghost var rest := Without(b.links, k);
      ghost var was := Snapshot(Nodes(rest) + Heads(b.sessions));
      ListsThen(rest, b.sessions);
      p.s := null;
      forall y | y in b.sessions
        ensures Ring(y.asyncList, Mine(rest, y))
      {
        RingKept(was, y.asyncList, Mine(rest, y));
      }
    }

    /** The body of the loop: the record around the first node loses its session. */
    method UnhookFirst(pos: ListHead, ghost z: Session, ghost before: seq<Link>)
      requires Valid() && z in book.sessions && Mine(book.links, z) != [] && Mine(book.links, z)[0] == pos
      requires PartlyOrphaned(before, book.links, z)
      modifies this, Footprint()
      ensures Valid() && book == old(book).(links := book.links)
      ensures Mine(book.links, z) == old(Mine(book.links, z))[1..]
      ensures PartlyOrphaned(before, book.links, z)
    {
      var p;
      ghost var k;
      p, k := EntryOf(pos);
      OwnerOf(book.links, z, k);
      RankOfFirst(book.links, z, k);
      PartlyMore(before, book.links, z, k);
      Orphan(p, k, z);
    }

    /** hp_subc_free: going round the session's list, each step having fetched the next
        node before the current one is unhooked. Every node is visited once, in order,
        and afterwards no record points to the session. */
    method FreeSession(z: Session) returns (visited: seq<ListHead>)
      requires Valid() && z in book.sessions
      modifies this, Footprint()
      ensures Valid() && book == Orphaned(old(book), z)
      ensures visited == Mine(old(book.links), z)
      ensures forall l :: l in old(book.links) && l.session == Some(z) ==> l.rec.s == null && l.rec.node.next == null
    {
      ghost var b := book;
      visited := UnhookAll(z);
      Drop(z, b);
    }

    /** The loop of hp_subc_free. */
    method UnhookAll(z: Session) returns (visited: seq<ListHead>)
      requires Valid() && z in book.sessions
      modifies this, Footprint()
      ensures Emptied(z, old(book)) && visited == Mine(old(book.links), z)
    {
      ghost var b := book;
      var pos, next := Begin(z);
      visited := GoRound(z, b, pos, next);
      ghost var n :| Going(z, b, visited, z.asyncList, n);
      GoneRound(z, b, visited, n);
    }

    method Begin(z: Session) returns (pos: ListHead, next: ListHead)
      requires Valid() && z in book.sessions
      ensures Going(z, book, [], pos, next)
    {
      FirstTwo(z.asyncList, Mine(book.links, z));
      pos := z.asyncList.next;
      next := pos.next;
      assert [] + Mine(book.links, z) == Mine(book.links, z);
    }

    /** Back at the head, the list is empty. */
    lemma GoneRound(z: Session, b: Book, visited: seq<ListHead>, next: ListHead)
      requires Going(z, b, visited, z.asyncList, next)
      ensures Emptied(z, b) && visited == Mine(b.links, z)
    {
      var mine := Mine(book.links, z);
      assert Ring(z.asyncList, mine);
      HeadBehindHead(z.asyncList, mine);
      assert visited + [] == visited;
    }

    /** No record points to the session any more, and nothing else has changed. */
    ghost predicate Emptied(z: Session, b: Book)
      reads this, Footprint()
    {
      && Valid() && z in book.sessions && Mine(book.links, z) == []
      && book == b.(links := book.links) && PartlyOrphaned(b.links, book.links, z)
    }

    /** list_for_each_safe */
    method GoRound(z: Session, ghost b: Book, pos0: ListHead, next0: ListHead) returns (visited: seq<ListHead>)
      requires Going(z, b, [], pos0, next0)
      modifies this, Objects(b.links, b.sessions)
      ensures exists next :: Going(z, b, visited, z.asyncList, next)
    {
      visited := [];
      var pos, next := pos0, next0;
      while pos != z.asyncList
        invariant Going(z, b, visited, pos, next)
        decreases |Mine(book.links, z)|
      {
        visited, pos, next := Turn(z, b, visited, pos, next);
      }
    }

    /** Between two turns of the loop. */
    ghost predicate Going(z: Session, b: Book, visited: seq<ListHead>, pos: ListHead, next: ListHead)
      reads this, Footprint()
    {
      && At(z, b, visited, pos)
      && (Mine(book.links, z) != [] ==> next == Cycle(z.asyncList, Mine(book.links, z)[1..])[1])
    }

    /** The loop has got to pos. */
    ghost predicate At(z: Session, b: Book, visited: seq<ListHead>, pos: ListHead)
      reads this, Footprint()
    {
      && Valid() && z in book.sessions
      && book == b.(links := book.links) && PartlyOrphaned(b.links, book.links, z)
      && pos == Cycle(z.asyncList, Mine(book.links, z))[1]
      && visited + Mine(book.links, z) == Mine(b.links, z)
    }

    method Turn(z: Session, ghost b: Book, visited: seq<ListHead>, pos: ListHead, next: ListHead)
      returns (visited': seq<ListHead>, pos': ListHead, next': ListHead)
      requires Going(z, b, visited, pos, next) && pos != z.asyncList
      modifies this, Objects(b.links, b.sessions)
      ensures Going(z, b, visited', pos', next')
      ensures |Mine(book.links, z)| < old(|Mine(book.links, z)|)
    {
      visited' := UnhookAt(z, b, visited, pos, next);
      pos' := next;
      FirstTwo(z.asyncList, Mine(book.links, z));
      next' := pos'.next;
    }

    method UnhookAt(z: Session, ghost b: Book, visited: seq<ListHead>, pos: ListHead, ghost next: ListHead)
      returns (visited': seq<ListHead>)
      requires Going(z, b, visited, pos, next) && pos != z.asyncList
      modifies this, Objects(b.links, b.sessions)
      ensures At(z, b, visited', next)
      ensures |Mine(book.links, z)| < old(|Mine(book.links, z)|)
    {
      ghost var mine := Mine(book.links, z);
      SameObjects(b.links, book.links, b.sessions);
      UnhookFirst(pos, z, b.links);
      OneMore(visited, mine);
      visited' := visited + [pos];
    }

    method Drop(z: Session, ghost b: Book)
      requires Emptied(z, b)
      modifies this
      ensures Valid() && book == Orphaned(b, z)
    {
      NoneLeft(book.links, z);
      assert book.links == OrphanLinks(b.links, z);
      SetBook(book.(sessions := book.sessions - {z}), book.links, book.sessions);
    }
  }
}
