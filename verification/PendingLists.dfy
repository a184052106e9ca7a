/** The records of replies still to come in src/hp_pub.c, and the lists their sessions
    keep of them: which record is where, and rewiring one list among many. */
module PendingLists {
  import opened Common
  import opened IntrusiveList

  /** hp_sub_t */
  class Session {
    const asyncList: ListHead

    constructor (h: ListHead)
      ensures asyncList == h
    {
      asyncList := h;
    }
  }

  /** hp_sub_async_t */
  class Pending {
    var s: Session?
    const node: ListHead

    constructor (s: Session, node: ListHead)
      ensures this.s == s && this.node == node
    {
      this.s := s;
      this.node := node;
    }
  }

  // ---------- which records belong to a session ----------

  /** A record and the session it points to. */
  datatype Link = Link(rec: Pending, session: Option<Session>)

  ghost function Nodes(links: seq<Link>): set<ListHead> { set l | l in links :: l.rec.node }

  /** The nodes of the records that point to session z, in order of creation. */
  ghost function Mine(links: seq<Link>, z: Session): (r: seq<ListHead>)
    ensures forall x :: x in r ==> x in Nodes(links)
  {
    if links == [] then []
    else
      var l := links[|links| - 1];
      Mine(links[..|links| - 1], z) + if l.session == Some(z) then [l.rec.node] else []
  }

  ghost predicate NodesDistinct(links: seq<Link>) {
    forall i, j :: 0 <= i < j < |links| ==> links[i].rec.node != links[j].rec.node
  }

  /** Where record k's node is in its session's list. */
  ghost function Rank(links: seq<Link>, k: nat, z: Session): nat
    requires k < |links|
  {
    |Mine(links[..k], z)|
  }

  /** Forgetting record k, or its session, takes exactly its node out of its session's
      list and leaves the other lists alone. */
  lemma {:induction false} MineWithout(links: seq<Link>, k: nat, z: Session)
    requires k < |links|
    ensures links[k].session == Some(z) ==>
              && Rank(links, k, z) < |Mine(links, z)| && Mine(links, z)[Rank(links, k, z)] == links[k].rec.node
              && Mine(Without(links, k), z) == Without(Mine(links, z), Rank(links, k, z))
    ensures links[k].session != Some(z) ==> Mine(Without(links, k), z) == Mine(links, z)
    decreases |links|
  {
    var n := |links| - 1;
    if k == n {
      assert Without(links, k) == links[..n];
    } else {
      MineWithout(links[..n], k, z);
      assert links[..n][..k] == links[..k];
      assert Without(links, k)[..n - 1] == Without(links[..n], k);
      assert Without(links, k)[n - 1] == links[n];
    }
  }

  lemma {:induction false} MineOrphan(links: seq<Link>, k: nat, z: Session)
    requires k < |links|
    ensures Mine(links[k := Link(links[k].rec, None)], z) == Mine(Without(links, k), z)
    decreases |links|
  {
    var n := |links| - 1;
    var orphaned := links[k := Link(links[k].rec, None)];
    if k == n {
      assert orphaned[..n] == links[..n] == Without(links, k);
    } else {
      MineOrphan(links[..n], k, z);
      assert orphaned[..n] == links[..n][k := Link(links[k].rec, None)];
      assert Without(links, k)[..n - 1] == Without(links[..n], k);
      assert Without(links, k)[n - 1] == links[n];
    }
  }

  lemma MineMore(links: seq<Link>, l: Link, z: Session)
    ensures Mine(links + [l], z) ==
            if l.session == Some(z) then Mine(links, z) + [l.rec.node] else Mine(links, z)
  {
    assert (links + [l])[..|links|] == links;
  }

  lemma {:induction false} MineOwns(links: seq<Link>, z: Session, x: ListHead)
    requires x in Mine(links, z)
    ensures exists k :: 0 <= k < |links| && links[k].session == Some(z) && links[k].rec.node == x
  {
    var n := |links| - 1;
    if x in Mine(links[..n], z) {
      MineOwns(links[..n], z, x);
      var k :| 0 <= k < n && links[..n][k].session == Some(z) && links[..n][k].rec.node == x;
      assert links[k].rec.node == x;
    } else {
      assert links[n].rec.node == x;
    }
  }

  /** Different sessions' lists share no node. */
  lemma MineApart(links: seq<Link>, y: Session, z: Session)
    requires NodesDistinct(links) && y != z
    ensures forall x :: x in Mine(links, y) ==> x !in Mine(links, z)
  {
    forall x | x in Mine(links, y)
      ensures x !in Mine(links, z)
    {
      MineOwns(links, y, x);
      if x in Mine(links, z) {
        MineOwns(links, z, x);
      }
    }
  }

  lemma NotMine(links: seq<Link>, z: Session, k: nat)
    requires NodesDistinct(links) && k < |links| && links[k].session != Some(z)
    ensures links[k].rec.node !in Mine(links, z)
  {
    if links[k].rec.node in Mine(links, z) {
      MineOwns(links, z, links[k].rec.node);
    }
  }

  ghost predicate PointerOk(l: Link)
    reads l.rec, l.rec.node
  {
    && l.rec.s == (if l.session.Some? then l.session.value else null)
    && (l.session.None? ==> l.rec.node.next == null && l.rec.node.prev == null)
  }

  /** Records, nodes and heads are all different objects; no record points to a dead
      session; freed records are gone. */
  ghost predicate Separate(links: seq<Link>, sessions: set<Session>, inFlight: set<Pending>, freed: seq<Pending>) {
    && NodesDistinct(links)
    && (forall i, j :: 0 <= i < j < |links| ==> links[i].rec != links[j].rec)
    && (forall k :: 0 <= k < |links| && links[k].session.Some? ==> links[k].session.value in sessions)
    && HeadsApart(links, sessions)
    && (forall p :: p in inFlight ==> Alive(links, p))
    && (forall k :: 0 <= k < |links| ==> links[k].rec !in freed) && Distinct(freed)
  }

  ghost predicate Alive(links: seq<Link>, p: Pending) {
    exists k :: 0 <= k < |links| && links[k].rec == p
  }

  lemma SeparateMore(links: seq<Link>, sessions: set<Session>, inFlight: set<Pending>, freed: seq<Pending>,
                     p: Pending, z: Session)
    requires Separate(links, sessions, inFlight, freed) && z in sessions
    requires !Alive(links, p) && p !in freed && p.node !in Nodes(links)
    requires forall y :: y in sessions ==> y.asyncList != p.node
    ensures Separate(links + [Link(p, Some(z))], sessions, inFlight + {p}, freed)
    ensures Separate(links + [Link(p, Some(z))], sessions, inFlight, freed)
    ensures Nodes(links + [Link(p, Some(z))]) == Nodes(links) + {p.node}
  {
    var more := links + [Link(p, Some(z))];
    assert more[|links|].rec == p;
    forall q | q in inFlight ensures Alive(more, q) {
      var k :| 0 <= k < |links| && links[k].rec == q;
      assert more[k].rec == q;
    }
  }

  /** Every record's pointer is what its link says, and it is unhooked if it has none. */
  ghost predicate Pointers(links: seq<Link>)
    reads (set l | l in links :: l.rec), Nodes(links)
  {
    forall k :: 0 <= k < |links| ==> PointerOk(links[k])
  }

  /** Every session's list holds exactly its records, oldest first. */
  ghost predicate Lists(links: seq<Link>, sessions: set<Session>)
    reads Nodes(links), (set z | z in sessions :: z.asyncList)
  {
    forall z :: z in sessions ==> Ring(z.asyncList, Mine(links, z))
  }

  // ---------- rewiring one list ----------

  /** The pointers of some nodes at some moment. */
  datatype Ptr = Ptr(next: ListHead?, prev: ListHead?)

  ghost function Heads(sessions: set<Session>): set<ListHead> { set z | z in sessions :: z.asyncList }

  ghost function Snapshot(nodes: set<ListHead>): map<ListHead, Ptr>
    reads nodes
  {
    map x | x in nodes :: Ptr(x.next, x.prev)
  }

  ghost predicate RingThen(was: map<ListHead, Ptr>, h: ListHead, s: seq<ListHead>) {
    var c := Cycle(h, s);
    && h !in s && Distinct(s)
    && forall i, j :: 0 <= i && j == i + 1 < |c| ==>
                        c[i] in was && c[j] in was && was[c[i]].next == c[j] && was[c[j]].prev == c[i]
  }

  ghost predicate Kept(was: map<ListHead, Ptr>, x: ListHead)
    reads x
  {
    x in was && x.next == was[x].next && x.prev == was[x].prev
  }

  lemma InCycleEither(h: ListHead, s: seq<ListHead>)
    ensures forall i :: 0 <= i < |Cycle(h, s)| ==> Cycle(h, s)[i] == h || Cycle(h, s)[i] in s
  {}

  lemma ListsThen(links: seq<Link>, sessions: set<Session>)
    requires Lists(links, sessions)
    ensures var was := Snapshot(Nodes(links) + Heads(sessions));
            forall y :: y in sessions ==> RingThen(was, y.asyncList, Mine(links, y))
  {
    forall y | y in sessions
      ensures RingThen(Snapshot(Nodes(links) + Heads(sessions)), y.asyncList, Mine(links, y))
    {
      assert Ring(y.asyncList, Mine(links, y));
      InCycleEither(y.asyncList, Mine(links, y));
    }
  }

  lemma RingKept(was: map<ListHead, Ptr>, h: ListHead, s: seq<ListHead>)
    requires RingThen(was, h, s) && Kept(was, h) && forall x :: x in s ==> Kept(was, x)
    ensures Ring(h, s)
  {
    InCycleEither(h, s);
  }

  /** If only z's own list was rewired, the other lists and the unhooked records are as before. */
  lemma OthersKept(links: seq<Link>, sessions: set<Session>, z: Session, was: map<ListHead, Ptr>)
    requires NodesDistinct(links) && z in sessions
    requires forall y :: y in sessions ==> RingThen(was, y.asyncList, Mine(links, y))
    requires forall x :: x in Nodes(links) && x !in Mine(links, z) ==> Kept(was, x)
    requires forall y :: y in sessions && y != z ==> Kept(was, y.asyncList)
    ensures forall k :: 0 <= k < |links| && links[k].session != Some(z) ==> Kept(was, links[k].rec.node)
    ensures forall y :: y in sessions && y != z ==> Ring(y.asyncList, Mine(links, y))
  {
    forall k | 0 <= k < |links| && links[k].session != Some(z)
      ensures Kept(was, links[k].rec.node)
    {
      NotMine(links, z, k);
    }
    forall y | y in sessions && y != z
      ensures Ring(y.asyncList, Mine(links, y))
    {
      MineApart(links, y, z);
      RingKept(was, y.asyncList, Mine(links, y));
    }
  }

  ghost predicate HeadsApart(links: seq<Link>, sessions: set<Session>) {
    && (forall y :: y in sessions ==> y.asyncList !in Nodes(links))
    && (forall y, z :: y in sessions && z in sessions && y != z ==> y.asyncList != z.asyncList)
  }

  /** list_add_tail of a new node to z's list, seen from all lists. */
  method HookNode(ghost links: seq<Link>, ghost sessions: set<Session>, p: Pending, z: Session)
    requires Pointers(links) && Lists(links, sessions) && NodesDistinct(links) && HeadsApart(links, sessions)
    requires z in sessions && p.node !in Nodes(links) && p.node !in Heads(sessions)
    modifies p.node, z.asyncList, Mine(links, z)
    ensures Pointers(links) && Lists(links + [Link(p, Some(z))], sessions)
  {
    ghost var mine, was := Mine(links, z), Snapshot(Nodes(links) + Heads(sessions));
    ListsThen(links, sessions);
    AddTail(p.node, z.asyncList, mine);
    OthersKept(links, sessions, z, was);
    forall y | y in sessions
      ensures Ring(y.asyncList, Mine(links + [Link(p, Some(z))], y))
    {
      MineMore(links, Link(p, Some(z)), y);
    }
  }

  /** list_del of record k, seen from all lists. */
  method UnhookNode(ghost links: seq<Link>, ghost sessions: set<Session>, ghost k: nat, p: Pending, ghost z: Session)
    requires Pointers(links) && Lists(links, sessions) && NodesDistinct(links) && HeadsApart(links, sessions)
    requires z in sessions && k < |links| && links[k] == Link(p, Some(z))
    modifies z.asyncList, Mine(links, z)
    ensures Pointers(links) && Lists(Without(links, k), sessions)
    ensures p.node.next == null && p.node.prev == null
  {
    MineWithout(links, k, z);
    Rewire(links, sessions, k, p, z);
    ListsWithout(links, sessions, k, z);
  }

  method Rewire(ghost links: seq<Link>, ghost sessions: set<Session>, ghost k: nat, p: Pending, ghost z: Session)
    requires Pointers(links) && Lists(links, sessions) && NodesDistinct(links) && HeadsApart(links, sessions)
    requires z in sessions && k < |links| && links[k] == Link(p, Some(z)) && Rank(links, k, z) < |Mine(links, z)|
    requires Mine(links, z)[Rank(links, k, z)] == p.node
    modifies z.asyncList, Mine(links, z)
    ensures Pointers(links)
    ensures forall y :: y in sessions && y != z ==> Ring(y.asyncList, Mine(links, y))
    ensures Ring(z.asyncList, Without(Mine(links, z), Rank(links, k, z)))
    ensures p.node.next == null && p.node.prev == null
  {
    ghost var mine, was := Mine(links, z), Snapshot(Nodes(links) + Heads(sessions));
    ListsThen(links, sessions);
    Delete(p.node, z.asyncList, mine, Rank(links, k, z));
    OthersKept(links, sessions, z, was);
  }

  lemma ListsWithout(links: seq<Link>, sessions: set<Session>, k: nat, z: Session)
    requires k < |links| && links[k].session == Some(z) && Rank(links, k, z) < |Mine(links, z)|
    requires forall y :: y in sessions && y != z ==> Ring(y.asyncList, Mine(links, y))
    requires Ring(z.asyncList, Without(Mine(links, z), Rank(links, k, z)))
    ensures Lists(Without(links, k), sessions)
  {
    forall y | y in sessions
      ensures Ring(y.asyncList, Mine(Without(links, k), y))
    {
      MineWithout(links, k, y);
    }
  }
}
