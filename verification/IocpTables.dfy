/** The two tables of src/hp_iocp.c as the threads hold them: the user thread's vector
    of items and the poll thread's pds/fds arrays, searched by id, appended to and
    shifted in place. Their methods take exactly the steps of IocpProtocol. */
module IocpTables {
  import opened Common
  import opened IocpProtocol

  function Ids(items: seq<Item>): (r: seq<nat>)
    ensures |r| == |items| && forall i :: 0 <= i < |r| ==> r[i] == items[i].id
  {
    seq(|items|, i requires 0 <= i < |items| => items[i].id)
  }

  /** lo, lo + 1, ..., hi - 1 */
  function Range(lo: nat, hi: nat): (r: seq<nat>)
    requires lo <= hi
    ensures |r| == hi - lo && forall i :: 0 <= i < |r| ==> r[i] == lo + i
  {
    seq(hi - lo, i => lo + i)
  }

  // ---------- the poll thread ----------

  datatype PollD = PollD(id: nat, fd: int)
  datatype PollFd = PollFd(fd: int, events: int)

  /** The WSAPoll build: two arrays kept in parallel. */
  class PollTable {
    const pds: array<PollD>
    const fds: array<PollFd>
    var nfds: nat

    ghost predicate Valid()
      reads this, pds, fds
    {
      && nfds <= pds.Length == fds.Length
      && (forall i, j :: 0 <= i < j < nfds ==> pds[i].id < pds[j].id)
      && forall i :: 0 <= i < nfds ==> pds[i].fd == fds[i].fd
    }

    ghost function Contents(): (r: seq<Entry>)
      requires nfds <= pds.Length == fds.Length
      reads this, pds, fds
      ensures |r| == nfds
      ensures forall i :: 0 <= i < nfds ==> r[i] == Entry(pds[i].id, pds[i].fd, fds[i].events)
    {
      seq(nfds, i requires 0 <= i < nfds <= pds.Length == fds.Length reads this, pds, fds =>
        Entry(pds[i].id, pds[i].fd, fds[i].events))
    }

    constructor (maxfd: nat)
      ensures Valid() && Contents() == [] && pds.Length == maxfd && fresh(pds) && fresh(fds)
    {
      pds := new PollD[maxfd](_ => PollD(0, 0));
      fds := new PollFd[maxfd](_ => PollFd(0, 0));
      nfds := 0;
    }

    /** bsearch by id: exactly what a scan of the table would find. */
    method Search(id: nat) returns (r: Option<nat>)
      requires Valid()
      ensures r == Find(Keys(Contents()), id)
    {
      var lo, hi := 0, nfds;
      while lo < hi
        invariant 0 <= lo <= hi <= nfds
        invariant forall i :: 0 <= i < lo ==> pds[i].id < id
        invariant forall i :: hi <= i < nfds ==> id < pds[i].id
      {
        var mid := (lo + hi) / 2;
        if id < pds[mid].id {
          hi := mid;
        } else if id == pds[mid].id {
          FindUnique(Keys(Contents()), id, mid);
          return Some(mid);
        } else {
          lo := mid + 1;
        }
      }
      FindAbsent(Keys(Contents()), id);
      return None;
    }

    /** One ADD or RM message; the asserts are those of the C code. */
    method Handle(n: Note)
      requires Valid() && PollApply(Contents(), n).Some?
      requires var t := PollApply(Contents(), n).value; |t| <= pds.Length && Ascending(Keys(t))
      modifies this, pds, fds
      ensures Valid() && Contents() == PollApply(old(Contents()), n).value
    {
      var pd := Search(n.id);
      match n {
        case Add(id, fd) =>
          assert pd.None?;
          Append(id, fd);
        case Rm(id, flags) =>
          assert pd.Some?;
          SetOrRemove(pd.value, flags);
      }
    }

    method SetOrRemove(i: nat, flags: int)
      requires Valid() && i < nfds
      modifies this, pds, fds
      ensures Valid()
      ensures flags == 0 ==> Contents() == Without(old(Contents()), i)
      ensures flags != 0 ==> Contents() == old(Contents())[i := old(Contents())[i].(flags := flags)]
    {
      ghost var was := Contents();
      SetEvents(i, flags);
      if flags == 0 {
        RemoveAt(i);
        WithoutUpdated(was, i, was[i].(flags := flags));
      }
    }

    method Append(id: nat, fd: int)
      requires Valid() && nfds < pds.Length
      requires Ascending(Keys(Contents() + [Entry(id, fd, POLLIN)]))
      modifies this, pds, fds
      ensures Valid() && Contents() == old(Contents()) + [Entry(id, fd, POLLIN)]
    {
      ghost var t := Contents() + [Entry(id, fd, POLLIN)];
      forall i | 0 <= i < nfds
        ensures pds[i].id < id
      {
        assert Keys(t)[i].id < Keys(t)[nfds].id;
      }
      pds[nfds] := PollD(id, fd);
      fds[nfds] := PollFd(fd, POLLIN);
      nfds := nfds + 1;
    }

    method SetEvents(i: nat, flags: int)
      requires Valid() && i < nfds
      modifies fds
      ensures Valid() && Contents() == old(Contents())[i := old(Contents())[i].(flags := flags)]
    {
      fds[i] := fds[i].(events := flags);
    }

    /** The two memmoves. */
    method RemoveAt(i: nat)
      requires Valid() && i < nfds
      modifies this, pds, fds
      ensures Valid() && Contents() == Without(old(Contents()), i)
    {
      ghost var was := Contents();
      if i + 1 < nfds {
        Move(fds, i, nfds - 1);
        Move(pds, i, nfds - 1);
      }
      nfds := nfds - 1;
      WithoutIs(was, Contents(), i);
    }
  }

  /** memmove of the elements behind i, up to n of them, one down. */
  method Move<T>(a: array<T>, i: nat, n: nat)
    requires i <= n < a.Length
    modifies a
    ensures forall k :: 0 <= k < i ==> a[k] == old(a[k])
    ensures forall k :: i <= k < n ==> a[k] == old(a[k + 1])
  {
    forall k | i <= k < n {
      a[k] := a[k + 1];
    }
  }

  lemma WithoutUpdated<T>(s: seq<T>, i: nat, x: T)
    requires i < |s|
    ensures Without(s[i := x], i) == Without(s, i)
  {}

  lemma {:induction false} FindUnique(t: Table, id: nat, i: nat)
    requires Ascending(t) && i < |t| && t[i].id == id
    ensures Find(t, id) == Some(i)
  {
    if i > 0 {
      FindUnique(t[1..], id, i - 1);
    }
  }

  lemma FindAbsent(t: Table, id: nat)
    requires forall i :: 0 <= i < |t| ==> t[i].id != id
    ensures Find(t, id) == None
  {}

  // ---------- the user thread ----------

  /** A user callback that was run, for the item with this id. */
  datatype Call = OnAccept(id: nat) | OnLoop(id: nat) | OnError(id: nat)

  /** The visit of one item: whether it had an accept callback, and whether its on_loop
      failed. */
  datatype Round = Round(id: nat, accepts: bool, failed: bool)

  function CallsOf(r: Round): seq<Call> {
    (if r.accepts then [OnAccept(r.id)] else []) + [OnLoop(r.id)] + (if r.failed then [OnError(r.id)] else [])
  }

  function AllCalls(rounds: seq<Round>): seq<Call> {
    if rounds == [] then [] else AllCalls(rounds[..|rounds| - 1]) + CallsOf(rounds[|rounds| - 1])
  }

  function Visited(rounds: seq<Round>): (ids: seq<nat>)
    ensures |ids| == |rounds| && forall k :: 0 <= k < |ids| ==> ids[k] == rounds[k].id
  {
    seq(|rounds|, k requires 0 <= k < |rounds| => rounds[k].id)
  }

  /** The items visited whose on_loop did not fail. */
  function Surviving(rounds: seq<Round>): seq<nat> {
    if rounds == [] then []
    else
      var last := rounds[|rounds| - 1];
      Surviving(rounds[..|rounds| - 1]) + if last.failed then [] else [last.id]
  }

  /** What hp_iocp_write queues: bytes for an item, with a free callback or without. */
  datatype Buffer = Buffer(id: nat, data: seq<Byte>, hasFree: bool)

  class UserTable {
    const items: array<Item>
    var count: nat
    var ioid: nat
    /** Every message posted to the poll thread so far, every buffer put on an item's
        output vector so far, and who is being removed. */
    var posted: seq<Note>
    var queued: seq<Buffer>
    /** Every user callback run so far. */
    var calls: seq<Call>
    ghost var leaving: Option<nat>

    ghost predicate Valid()
      reads this, items
    {
      count <= items.Length && ItemsOk(View())
    }

    ghost function View(): World
      requires count <= items.Length
      reads this, items
    {
      World(items[..count], ioid, items.Length, posted, [], leaving)
    }

    constructor (maxfd: nat)
      ensures Valid() && View() == Start(maxfd) && queued == [] && calls == [] && fresh(items)
    {
      items := new Item[maxfd](_ => Item(0, 0, false, false, false));
      count, ioid, posted, queued, calls, leaving := 0, 0, [], [], [], None;
    }

    /** hp_iocp_item_find. */
    method SearchId(id: nat) returns (r: Option<nat>)
      requires Valid()
      ensures r.Some? ==> r.value < count && items[r.value].id == id
      ensures r.None? ==> forall i :: 0 <= i < count ==> items[i].id != id
    {
      var lo, hi := 0, count;
      while lo < hi
        invariant 0 <= lo <= hi <= count
        invariant forall i :: 0 <= i < lo ==> View().items[i].id < id
        invariant forall i :: hi <= i < count ==> id < View().items[i].id
      {
        var mid := (lo + hi) / 2;
        assert View().items[mid] == items[mid];
        if id < items[mid].id {
          hi := mid;
        } else if id == items[mid].id {
          return Some(mid);
        } else {
          lo := mid + 1;
        }
      }
      assert forall i :: 0 <= i < count ==> View().items[i] == items[i];
      return None;
    }

    /** hp_lfind by descriptor. */
    method SearchFd(fd: int) returns (r: Option<nat>)
      requires count <= items.Length
      ensures r == FindFd(items[..count], fd)
    {
      var i := 0;
      while i < count
        invariant i <= count
        invariant FindFd(items[..count], fd) ==
                  match FindFd(items[i..count], fd) case None => None case Some(j) => Some(i + j)
      {
        assert items[i..count][1..] == items[i + 1..count];
        if items[i].fd == fd {
          return Some(i);
        }
        i := i + 1;
      }
      return None;
    }

    /** hp_iocp_add. */
    method AddFd(fd: int, listener: bool, bound: bool) returns (id: int)
      requires Valid() && ioid < INT_MAX - 1
      modifies this`count, this`ioid, this`posted, items
      ensures Valid() && (View(), id) == AddItem(old(View()), fd, listener, bound)
      ensures id >= 0 ==> exists i: nat :: Holds(View(), i, id, fd, listener)
      ensures old(posted) <= posted
    {
      AddKeepsItems(View(), fd, listener, bound);
      AddAnswers(View(), fd, listener, bound);
      id := Enter(fd, listener, bound);
    }

    /** What it does to the vector, the counter and the messages posted. */
    method Enter(fd: int, listener: bool, bound: bool) returns (id: int)
      requires count <= items.Length && ioid < INT_MAX - 1
      modifies this`count, this`ioid, this`posted, items
      ensures count <= items.Length && (View(), id) == AddItem(old(View()), fd, listener, bound)
      ensures old(posted) <= posted
    {
      var found := SearchFd(fd);
      if found.Some? {
        id := items[found.value].id;
        SetItem(found.value, items[found.value].(listener := listener, removed := false));
      } else if count == items.Length {
        id := -2;
      } else if !bound {
        id := -3;
      } else {
        id := ioid;
        PushItem(Item(ioid, fd, listener, !listener, false));
        if !listener {
          posted := posted + [Add(ioid, fd)];
        }
        ioid := ioid + 1;
      }
    }

    /** A caller that keeps the id finds the item by it, as hp_iocp_write and hp_iocp_rm do. */
    method AddThenSearch(fd: int, listener: bool, bound: bool) returns (id: int, r: Option<nat>)
      requires Valid() && ioid < INT_MAX - 1
      modifies this`count, this`ioid, this`posted, items
      ensures Valid() && (View(), id) == AddItem(old(View()), fd, listener, bound)
      ensures id >= 0 ==> r.Some? && Holds(View(), r.value, id, fd, listener)
    {
      id := AddFd(fd, listener, bound);
      r := None;
      if id >= 0 {
        r := SearchId(id);
        assert forall i :: 0 <= i < count ==> View().items[i] == items[i];
      }
    }

    method SetItem(i: nat, it: Item)
      requires i < count <= items.Length
      modifies items
      ensures items[..count] == old(items[..count])[i := it]
    {
      items[i] := it;
    }

    method PushItem(it: Item)
      requires count < items.Length
      modifies this`count, items
      ensures count == old(count) + 1 && items[..count] == old(items[..count]) + [it]
    {
      items[count] := it;
      count := count + 1;
    }

    /** hp_iocp_rm. */
    method MarkFd(id: nat) returns (rc: int)
      requires Valid()
      modifies items
      ensures Valid()
      ensures rc == 0 ==> exists i: nat :: MarkStep(old(View()), View(), i) && old(View()).items[i].id == id
      ensures rc == 0 ==> exists i: nat :: i < count && items[i].id == id && items[i].removed
      ensures forall i :: 0 <= i < count && items[i].id != id ==> items[i] == old(items[i])
      ensures rc != 0 ==> rc == -2 && View() == old(View()) && forall i :: 0 <= i < count ==> items[i].id != id
    {
      var r := SearchId(id);
      if r.None? {
        return -2;
      }
      ghost var w := View();
      SetItem(r.value, items[r.value].(removed := true));
      assert MarkStep(w, View(), r.value);
      LeavingStays(w, View());
      return 0;
    }

    /** hp_iocp_write: for an item with callbacks in place the buffer is queued and
        POLLOUT asked for; otherwise the buffer is released at once. */
    method RequestWrite(id: nat, data: Option<seq<Byte>>, hasFree: bool, flags: int) returns (rc: int, freed: bool)
      requires Valid()
      modifies this`posted, this`queued
      ensures Valid() && (freed <==> rc != 0 && hasFree)
      ensures rc == -1 <==> data.None? || data.value == []
      ensures rc == 0 ==> exists i :: 0 <= i < count && items[i].id == id && !items[i].removed
                                      && View() == PostWrite(old(View()), i, flags)
      ensures rc == 0 ==> posted == old(posted) + [Rm(id, flags)]
      ensures rc == 0 ==> queued == old(queued) + [Buffer(id, data.value, hasFree)]
      ensures rc != 0 ==> rc in {-1, -2} && View() == old(View()) && queued == old(queued)
      ensures rc == -2 ==> forall i :: 0 <= i < count && items[i].id == id ==> items[i].removed
    {
      if data.None? || data.value == [] {
        return -1, hasFree;
      }
      var r := SearchId(id);
      if r.None? || items[r.value].removed {
        assert forall i, j :: 0 <= i < j < count ==> View().items[i].id < View().items[j].id;
        assert forall i :: 0 <= i < count ==> View().items[i] == items[i];
        return -2, hasFree;
      }
      queued := queued + [Buffer(id, data.value, hasFree)];
      posted := posted + [Rm(id, flags)];
      assert View().items[r.value] == items[r.value];
      return 0, false;
    }

    /** A user callback is run: it adds descriptors, removes others and writes to them, in
        any order and number. An error callback leaves the item it is called for alone. */
    method Callback(call: Call)
      requires Valid()
      modifies this`count, this`ioid, this`posted, this`queued, this`calls, items
      ensures calls == old(calls) + [call]
      ensures Valid() && old(ioid) <= ioid && (ioid < INT_MAX || ioid == old(ioid))
      ensures Ids(items[..count]) == old(Ids(items[..count])) + Range(old(ioid), ioid)
      ensures old(posted) <= posted && old(queued) <= queued
    {
      ghost var ids := Ids(items[..count]);
      calls := calls + [call];
      var n: int := *;
      for k := 0 to if n < 0 then 0 else n
        invariant old(posted) <= posted && old(queued) <= queued && calls == old(calls) + [call]
        invariant Valid() && old(ioid) <= ioid && (ioid < INT_MAX || ioid == old(ioid))
        invariant Ids(items[..count]) == ids + Range(old(ioid), ioid)
      {
        var adds: bool := *;
        if adds {
          if ioid < INT_MAX - 1 {
            var fd, listener, bound := *, *, *;
            AddItemIds(View(), fd, listener, bound);
            var _ := AddFd(fd, listener, bound);
          }
        } else {
          UseOther(if call.OnError? then Some(call.id) else None);
        }
      }
    }

    /** hp_iocp_rm or hp_iocp_write on some other item that the poll thread was told of. */
    method UseOther(self: Option<nat>)
      requires Valid()
      modifies this`posted, this`queued, items
      ensures Valid() && Ids(items[..count]) == old(Ids(items[..count]))
      ensures old(posted) <= posted && old(queued) <= queued
    {
      var k: int := *;
      var id: nat := if k < 0 then 0 else k;
      var r := SearchId(id);
      if r.Some? && items[r.value].known && self != Some(id) {
        var removes: bool := *;
        if removes {
          ghost var w := View();
          var _ := MarkFd(id);
          MarkIds(w, View());
        } else {
          var data, hasFree, flags := *, *, *;
          var _, _ := RequestWrite(id, data, hasFree, flags);
        }
      }
    }

    /** hp_iocp_item_on_error: post the removal, call back, shift the item out. */
    method OnError(i: nat) returns (shifted: bool)
      requires Valid() && i < count && leaving == None
      modifies this, items
      ensures Valid() && leaving == None
      ensures old(ioid) <= ioid && (ioid < INT_MAX || ioid == old(ioid))
      ensures Ids(items[..count]) == Without(old(Ids(items[..count])) + Range(old(ioid), ioid), i)
      ensures shifted <==> i < count
      ensures old(posted) + [Rm(old(items[i].id), 0)] <= posted
      ensures calls == old(calls) + [Call.OnError(old(items[i].id))]
    {
      ghost var ids, io0 := Ids(items[..count]), ioid;
      var id := items[i].id;
      BeginError(i);
      Callback(Call.OnError(id));
      shifted := i + 1 < count;
      ghost var all := items[..count];
      assert Ids(all)[i] == ids[i];
      Finish(i);
      IdsWithout(all, i);
    }

    /** The posting at the start of hp_iocp_item_on_error. */
    method BeginError(i: nat)
      requires Valid() && i < count && leaving == None
      modifies this`posted, this`leaving
      ensures Valid() && View() == IocpProtocol.BeginError(old(View()), i)
      ensures posted == old(posted) + [Rm(items[i].id, 0)]
    {
      assert View().items[i] == items[i];
      posted := posted + [Rm(items[i].id, 0)];
      leaving := Some(items[i].id);
      assert View().items[i] == items[i];
    }

    /** The memmove at its end. */
    method Finish(i: nat)
      requires Valid() && i < count && leaving == Some(items[i].id)
      modifies this`count, this`leaving, items
      ensures Valid() && View() == EndError(old(View()), i)
    {
      ghost var w := View();
      EndKeepsItems(w, i);
      if i + 1 < count {
        Move(items, i, count - 1);
      }
      count := count - 1;
      leaving := None;
      WithoutIs(w.items, items[..count], i);
    }

    /** on_accept if it has one, then on_loop, for the item at index i. */
    method CallBack(i: nat) returns (id: nat, accepts: bool)
      requires Valid() && leaving == None && i < count && ioid < INT_MAX
      modifies this`count, this`ioid, this`posted, this`queued, this`calls, items
      ensures Valid() && old(ioid) <= ioid < INT_MAX
      ensures id == old(items[i].id) && accepts == old(items[i].listener)
      ensures calls == old(calls) + CallsOf(Round(id, accepts, false))
      ensures Ids(items[..count]) == old(Ids(items[..count])) + Range(old(ioid), ioid)
    {
      ghost var ids, io0 := Ids(items[..count]), ioid;
      id, accepts := items[i].id, items[i].listener;
      if accepts {
        Callback(OnAccept(id));
      }
      ghost var io1 := ioid;
      assert Ids(items[..count]) == ids + Range(io0, io1);
      Callback(OnLoop(id));
      RangeJoin(io0, io1, ioid);
      Assoc(ids, Range(io0, io1), Range(io1, ioid));
    }

    /** One item of the loop in hp_iocp_run: its callbacks, and if on_loop fails the
        item is removed on the spot. */
    method Visit(i: nat, fails: nat -> bool) returns (round: Round, next: nat)
      requires Valid() && leaving == None && i < count && ioid < INT_MAX
      modifies this, items
      ensures Valid() && leaving == None && old(ioid) <= ioid < INT_MAX
      ensures round == Round(old(items[i].id), old(items[i].listener), fails(old(items[i].id)))
      ensures calls == old(calls) + CallsOf(round)
      ensures Moved(old(Ids(items[..count])), i, old(ioid), round, Ids(items[..count]), next, ioid)
    {
      ghost var ids, io0, c0 := Ids(items[..count]), ioid, calls;
      var id, accepts := CallBack(i);
      ghost var io1 := ioid;
      round := Round(id, accepts, fails(id));
      next := i + 1;
      if fails(id) {
        var shifted := OnError(i);
        if shifted {
          next := i;
        }
        CallsJoin(c0, id, accepts);
        MovedOut(ids, i, io0, io1, ioid, round, Ids(items[..count]), next);
      } else {
        MovedPast(ids, i, io0, ioid, round, Ids(items[..count]));
      }
    }

    /** One pass of hp_iocp_run over the items. Every item present at the start, and
        every item added meanwhile, is visited exactly once, in order of id: its on_accept
        is called if it has one, then its on_loop, and its on_error if that fails, and no
        other callback is. Those that fail, and only they, are gone afterwards. */
    method RunPass(fails: nat -> bool) returns (rounds: seq<Round>)
      requires Valid() && leaving == None && ioid < INT_MAX
      modifies this, items
      ensures Valid() && leaving == None && old(ioid) <= ioid
      ensures Visited(rounds) == old(Ids(items[..count])) + Range(old(ioid), ioid)
      ensures forall k :: 0 <= k < |rounds| ==> rounds[k].failed == fails(rounds[k].id)
      ensures calls == old(calls) + AllCalls(rounds)
      ensures Ids(items[..count]) == Surviving(rounds)
    {
      ghost var start, io0, c0 := Ids(items[..count]), ioid, calls;
      rounds := [];
      var i: nat := 0;
      assert start + Range(io0, ioid) == start;
      while i < count
        invariant Valid() && leaving == None && io0 <= ioid < INT_MAX
        invariant UnderWay(start, io0, ioid, c0, fails, rounds, Ids(items[..count]), i, calls)
        decreases |start| + INT_MAX - |rounds|
      {
        ghost var io1, ids, i0, c1 := ioid, Ids(items[..count]), i, calls;
        var round;
        round, i := Visit(i, fails);
        GoesOn(start, io0, io1, ioid, c0, fails, rounds, round, ids, i0, Ids(items[..count]), i, c1, calls);
        rounds := rounds + [round];
      }
    }
  }

  /** A pass under way: what has been visited, and what is ahead, is what was there at the
      start and what has been added; and the rounds tell the calls and what was removed. */
  ghost predicate UnderWay(start: seq<nat>, io0: nat, io: nat, c0: seq<Call>, fails: nat -> bool,
                           rounds: seq<Round>, ids: seq<nat>, i: nat, calls: seq<Call>) {
    && io0 <= io && Visited(rounds) + Ahead(ids, i) == start + Range(io0, io)
    && (forall k :: 0 <= k < |rounds| ==> rounds[k].failed == fails(rounds[k].id))
    && calls == c0 + AllCalls(rounds) && Passed(ids, i) == Surviving(rounds)
  }

  /** What is still to be visited from index i on, and what was visited and is still there. */
  function Ahead(ids: seq<nat>, i: nat): seq<nat> {
    if i <= |ids| then ids[i..] else []
  }

  function Passed(ids: seq<nat>, i: nat): seq<nat> {
    if i <= |ids| then ids[..i] else ids
  }

  /** Item i has been visited: it stays unless it failed, and others may have been added. */
  ghost predicate Moved(ids: seq<nat>, i: nat, io: nat, r: Round, ids2: seq<nat>, i2: nat, io2: nat) {
    && io <= io2 && [r.id] + Ahead(ids2, i2) == Ahead(ids, i) + Range(io, io2)
    && Passed(ids2, i2) == Passed(ids, i) + if r.failed then [] else [r.id]
  }

  lemma MovedPast(ids: seq<nat>, i: nat, io: nat, io2: nat, r: Round, ids2: seq<nat>)
    requires io <= io2 && i < |ids| && r.id == ids[i] && !r.failed && ids2 == ids + Range(io, io2)
    ensures Moved(ids, i, io, r, ids2, i + 1, io2)
  {}

  lemma MovedOut(ids: seq<nat>, i: nat, io: nat, io1: nat, io2: nat, r: Round, ids2: seq<nat>, i2: nat)
    requires io <= io1 <= io2 && i < |ids| && r.id == ids[i] && r.failed
    requires ids2 == Without(ids + Range(io, io1) + Range(io1, io2), i)
    requires i2 == if i < |ids2| then i else i + 1
    ensures Moved(ids, i, io, r, ids2, i2, io2)
  {
    RangeJoin(io, io1, io2);
    Assoc(ids, Range(io, io1), Range(io1, io2));
    assert ids2 == ids[..i] + (ids[i + 1..] + Range(io, io2));
  }

  lemma GoesOn(start: seq<nat>, io0: nat, io: nat, io2: nat, c0: seq<Call>, fails: nat -> bool,
               rounds: seq<Round>, r: Round, ids: seq<nat>, i: nat, ids2: seq<nat>, i2: nat,
               calls: seq<Call>, calls2: seq<Call>)
    requires UnderWay(start, io0, io, c0, fails, rounds, ids, i, calls)
    requires Moved(ids, i, io, r, ids2, i2, io2) && r.failed == fails(r.id) && calls2 == calls + CallsOf(r)
    ensures UnderWay(start, io0, io2, c0, fails, rounds + [r], ids2, i2, calls2)
    ensures |rounds| < |start| + (io2 - io0)
  {
    RangeJoin(io0, io, io2);
    Assoc(Visited(rounds), [r.id], Ahead(ids2, i2));
    Assoc(Visited(rounds), Ahead(ids, i), Range(io, io2));
    Assoc(start, Range(io0, io), Range(io, io2));
    RoundsSnoc(c0, rounds, r);
    assert |Visited(rounds) + ([r.id] + Ahead(ids2, i2))| == |start + Range(io0, io2)|;
  }

  lemma CallsJoin(c0: seq<Call>, id: nat, accepts: bool)
    ensures c0 + CallsOf(Round(id, accepts, false)) + [OnError(id)] == c0 + CallsOf(Round(id, accepts, true))
  {}

  lemma RoundsSnoc(c0: seq<Call>, rounds: seq<Round>, r: Round)
    ensures Visited(rounds + [r]) == Visited(rounds) + [r.id]
    ensures c0 + AllCalls(rounds + [r]) == c0 + AllCalls(rounds) + CallsOf(r)
    ensures Surviving(rounds + [r]) == Surviving(rounds) + if r.failed then [] else [r.id]
  {
    assert (rounds + [r])[..|rounds|] == rounds;
    Assoc(c0, AllCalls(rounds), CallsOf(r));
  }

  lemma IdsWithout(items: seq<Item>, i: nat)
    requires i < |items|
    ensures Ids(Without(items, i)) == Without(Ids(items), i)
  {}

  lemma RangeJoin(a: nat, b: nat, c: nat)
    requires a <= b <= c
    ensures Range(a, b) + Range(b, c) == Range(a, c)
  {}

  lemma MarkIds(w: World, v: World)
    requires v == w || exists i: nat :: MarkStep(w, v, i)
    ensures Ids(v.items) == Ids(w.items)
  {}

  lemma AddItemIds(w: World, fd: int, l: bool, b: bool)
    requires w.ioid < INT_MAX - 1
    ensures var v := AddItem(w, fd, l, b).0;
            w.ioid <= v.ioid <= w.ioid + 1 && Ids(v.items) == Ids(w.items) + Range(w.ioid, v.ioid)
  {}
}
