/** The protocol between the user thread and the poll thread of src/hp_iocp.c. The
    user thread owns the table of items; it tells the poll thread about them through
    a FIFO of ADD and RM messages, and the poll thread asserts on what it finds in its
    own table when it handles one. */
module IocpProtocol {
  import opened Common

  /** An I/O item. `listener`: it has an on_accept callback now. `known`: it had none when
      it was first added, and only then was the poll thread told about it. `removed`:
      hp_iocp_rm has reset its callbacks. */
  datatype Item = Item(id: nat, fd: int, listener: bool, known: bool, removed: bool)

  /** A message to the poll thread. An RM with flags 0 removes, any other changes the flags. */
  datatype Note = Add(id: nat, fd: int) | Rm(id: nat, flags: int)

  const POLLIN := 1

  datatype Entry = Entry(id: nat, fd: int, flags: int)

  /** `leaving`: the item whose removal has been posted and whose error callback is
      running; it is still in the table. */
  datatype World = World(
    items: seq<Item>,
    ioid: nat,
    maxfd: nat,
    queue: seq<Note>,
    pds: seq<Entry>,
    leaving: Option<nat>)

  function Start(maxfd: nat): World { World([], 0, maxfd, [], [], None) }

  // ---------- the tables as keys ----------

  datatype Key = Key(id: nat, fd: int)
  type Table = seq<Key>

  function Keys(pds: seq<Entry>): (r: Table)
    ensures |r| == |pds| && forall i :: 0 <= i < |r| ==> r[i] == Key(pds[i].id, pds[i].fd)
  {
    seq(|pds|, i requires 0 <= i < |pds| => Key(pds[i].id, pds[i].fd))
  }

  /** The data items, as the poll thread should know them. */
  function Data(items: seq<Item>, leaving: Option<nat>): Table {
    if items == [] then []
    else
      var it := items[|items| - 1];
      Data(items[..|items| - 1], leaving) + (if it.known && leaving != Some(it.id) then [Key(it.id, it.fd)] else [])
  }

  function Find(t: Table, id: nat): (r: Option<nat>)
    ensures r.Some? ==> r.value < |t| && t[r.value].id == id
    ensures r.None? ==> forall i :: 0 <= i < |t| ==> t[i].id != id
  {
    if t == [] then None
    else if t[0].id == id then Some(0)
    else match Find(t[1..], id) case None => None case Some(i) => Some(i + 1)
  }

  /** One message handled by the poll thread; None where it would hit an assertion. */
  function Apply(t: Table, n: Note): Option<Table> {
    match n
    case Add(id, fd) => if Find(t, id).Some? then None else Some(t + [Key(id, fd)])
    case Rm(id, flags) =>
      match Find(t, id)
      case None => None
      case Some(i) => Some(if flags == 0 then Without(t, i) else t)
  }

  function Replay(t: Table, q: seq<Note>): Option<Table>
    decreases |q|
  {
    if q == [] then Some(t)
    else match Apply(t, q[0])
         case None => None
         case Some(u) => Replay(u, q[1..])
  }

  lemma {:induction false} ReplayPost(t: Table, q: seq<Note>, n: Note)
    decreases |q|
    ensures Replay(t, q + [n]) == match Replay(t, q) case None => None case Some(u) => Apply(u, n)
  {
    if q == [] {
      assert [n][1..] == [];
    } else {
      assert (q + [n])[1..] == q[1..] + [n];
      if Apply(t, q[0]).Some? {
        ReplayPost(Apply(t, q[0]).value, q[1..], n);
      }
    }
  }

  // ---------- steps of the user thread ----------

  function FindFd(items: seq<Item>, fd: int): (r: Option<nat>)
    ensures r.Some? ==> r.value < |items| && items[r.value].fd == fd
    ensures r.None? ==> forall i :: 0 <= i < |items| ==> items[i].fd != fd
  {
    if items == [] then None
    else if items[0].fd == fd then Some(0)
    else match FindFd(items[1..], fd) case None => None case Some(i) => Some(i + 1)
  }

  /** hp_iocp_add; `bound` says whether CreateIoCompletionPort succeeded. */
  function AddItem(w: World, fd: int, listener: bool, bound: bool): (World, int) {
    match FindFd(w.items, fd)
    case Some(i) =>
      (w.(items := w.items[i := w.items[i].(listener := listener, removed := false)]), w.items[i].id)
    case None =>
      if |w.items| == w.maxfd then (w, -2)
      else
        var id := if w.ioid == INT_MAX - 1 then 0 else w.ioid;
        if !bound then (w.(ioid := id), -3)
        else (w.(items := w.items + [Item(id, fd, listener, !listener, false)], ioid := id + 1,
              queue := if listener then w.queue else w.queue + [Add(id, fd)]), id)
  }

  /** The first half of hp_iocp_item_on_error: the removal is posted before the callback runs. */
  function BeginError(w: World, i: nat): World
    requires i < |w.items|
  {
    w.(queue := w.queue + [Rm(w.items[i].id, 0)], leaving := Some(w.items[i].id))
  }

  /** The second half: the item is shifted out. */
  function EndError(w: World, i: nat): World
    requires i < |w.items|
  {
    w.(items := Without(w.items, i), leaving := None)
  }

  /** hp_iocp_rm: only resets the callbacks. */
  function MarkRemoved(w: World, i: nat): World
    requires i < |w.items|
  {
    w.(items := w.items[i := w.items[i].(removed := true)])
  }

  /** hp_iocp_write, and a partly finished write: asks for POLLOUT. */
  function PostWrite(w: World, i: nat, flags: int): World
    requires i < |w.items|
  {
    w.(queue := w.queue + [Rm(w.items[i].id, flags)])
  }

  // ---------- steps of the poll thread ----------

  function PollApply(pds: seq<Entry>, n: Note): Option<seq<Entry>> {
    match n
    case Add(id, fd) => if Find(Keys(pds), id).Some? then None else Some(pds + [Entry(id, fd, POLLIN)])
    case Rm(id, flags) =>
      match Find(Keys(pds), id)
      case None => None
      case Some(i) => Some(if flags == 0 then Without(pds, i) else pds[i := pds[i].(flags := flags)])
  }

  lemma PollApplyKeys(pds: seq<Entry>, n: Note)
    ensures PollApply(pds, n).Some? <==> Apply(Keys(pds), n).Some?
    ensures PollApply(pds, n).Some? ==> Keys(PollApply(pds, n).value) == Apply(Keys(pds), n).value
  {}

  // ---------- runs ----------

  // What the callers are assumed to respect: fewer than INT_MAX - 1 ids are handed
  // out, items the poll thread was never told about are neither removed nor
  // written to, and an error callback leaves the item it is called for alone.

  ghost predicate AddStep(w: World, v: World, fd: int, l: bool, b: bool) {
    && w.ioid < INT_MAX - 1
    && v == AddItem(w, fd, l, b).0
  }

  ghost predicate BeginStep(w: World, v: World, i: nat) {
    i < |w.items| && w.leaving == None && w.items[i].known && v == BeginError(w, i)
  }

  ghost predicate EndStep(w: World, v: World, i: nat) {
    i < |w.items| && w.leaving == Some(w.items[i].id) && v == EndError(w, i)
  }

  ghost predicate MarkStep(w: World, v: World, i: nat) {
    i < |w.items| && v == MarkRemoved(w, i)
  }

  ghost predicate WriteStep(w: World, v: World, i: nat, flags: int) {
    && i < |w.items| && flags != 0 && w.items[i].known && w.leaving != Some(w.items[i].id)
    && v == PostWrite(w, i, flags)
  }

  ghost predicate UserStep(w: World, v: World) {
    || (exists fd, l, b :: AddStep(w, v, fd, l, b))
    || (exists i :: BeginStep(w, v, i))
    || (exists i :: EndStep(w, v, i))
    || (exists i :: MarkStep(w, v, i))
    || (exists i, flags :: WriteStep(w, v, i, flags))
  }

  /** The poll thread handles the oldest message. */
  ghost predicate TakeStep(w: World, v: World) {
    && w.queue != [] && PollApply(w.pds, w.queue[0]).Some?
    && v == w.(pds := PollApply(w.pds, w.queue[0]).value, queue := w.queue[1..])
  }

  /** The poll thread changes the flags of an entry, having reported POLLOUT. */
  ghost predicate FlagsStep(w: World, v: World, i: nat, flags: int) {
    i < |w.pds| && v == w.(pds := w.pds[i := w.pds[i].(flags := flags)])
  }

  ghost predicate PollStep(w: World, v: World) {
    TakeStep(w, v) || exists i, flags :: FlagsStep(w, v, i, flags)
  }

  ghost predicate Run(states: seq<World>, maxfd: nat) {
    && states != [] && states[0] == Start(maxfd)
    && forall i :: 0 <= i < |states| - 1 ==> StepAt(states, i)
  }

  ghost predicate StepAt(states: seq<World>, i: nat)
    requires i + 1 < |states|
  {
    UserStep(states[i], states[i + 1]) || PollStep(states[i], states[i + 1])
  }

  // ---------- the invariant ----------

  ghost predicate Ascending(t: Table) {
    forall i, j :: 0 <= i < j < |t| ==> t[i].id < t[j].id
  }

  ghost predicate ItemsOk(w: World) {
    && |w.items| <= w.maxfd
    && IdsAscend(w.items)
    && (forall i :: 0 <= i < |w.items| ==> w.items[i].id < w.ioid)
    && (forall i, j :: 0 <= i < j < |w.items| ==> w.items[i].fd != w.items[j].fd)
    && (w.leaving.Some? ==> exists i :: 0 <= i < |w.items| && w.items[i].id == w.leaving.value)
  }

  /** The messages under way turn the poll thread's table into exactly the data items. */
  ghost predicate Agree(w: World) {
    Replay(Keys(w.pds), w.queue) == Some(Data(w.items, w.leaving))
  }

  ghost predicate Inv(w: World) { ItemsOk(w) && Agree(w) }

  ghost predicate IdsAscend(items: seq<Item>) {
    forall i, j :: 0 <= i < j < |items| ==> items[i].id < items[j].id
  }

  ghost predicate UpTo(t: Table, id: nat) {
    forall k :: 0 <= k < |t| ==> t[k].id <= id
  }

  /** The data items are in strictly ascending order. */
  lemma {:induction false} DataAscends(items: seq<Item>, leaving: Option<nat>)
    requires IdsAscend(items)
    ensures Ascending(Data(items, leaving)) && |Data(items, leaving)| <= |items|
    ensures items != [] ==> UpTo(Data(items, leaving), items[|items| - 1].id)
  {
    if items != [] {
      var n := |items| - 1;
      DataAscends(items[..n], leaving);
      var d, it := Data(items[..n], leaving), items[n];
      if n > 0 {
        assert items[n - 1].id < it.id && UpTo(d, items[n - 1].id);
      }
      assert Data(items, leaving) == d || Data(items, leaving) == d + [Key(it.id, it.fd)];
    }
  }

  /** Item it is known to the poll thread under this id. */
  predicate Known(it: Item, leaving: Option<nat>, id: nat) {
    it.id == id && it.known && leaving != Some(id)
  }

  lemma {:induction false} DataFinds(items: seq<Item>, leaving: Option<nat>, id: nat)
    ensures Find(Data(items, leaving), id).Some? <==> exists i :: 0 <= i < |items| && Known(items[i], leaving, id)
  {
    if items != [] {
      var n := |items| - 1;
      var front, d, it := items[..n], Data(items[..n], leaving), items[n];
      DataFinds(front, leaving, id);
      FindSnoc(d, Key(it.id, it.fd), id);
      assert d + [] == d;
      if i :| 0 <= i < |front| && Known(front[i], leaving, id) {
        assert Known(items[i], leaving, id);
      }
      if i :| 0 <= i < |items| && Known(items[i], leaving, id) {
        assert i < n ==> Known(front[i], leaving, id);
      }
    }
  }

  /** Membership and order of the data items. */
  lemma DataIn(items: seq<Item>, leaving: Option<nat>, id: nat)
    requires IdsAscend(items)
    ensures Ascending(Data(items, leaving)) && |Data(items, leaving)| <= |items|
    ensures Find(Data(items, leaving), id).Some? <==> exists i :: 0 <= i < |items| && Known(items[i], leaving, id)
  {
    DataAscends(items, leaving);
    DataFinds(items, leaving, id);
  }

  lemma {:induction false} DataUpdate(items: seq<Item>, leaving: Option<nat>, i: nat, it: Item)
    requires i < |items| && it.id == items[i].id && it.fd == items[i].fd && it.known == items[i].known
    ensures Data(items[i := it], leaving) == Data(items, leaving)
  {
    var n := |items| - 1;
    if i < n {
      DataUpdate(items[..n], leaving, i, it);
      assert items[i := it][..n] == items[..n][i := it];
    } else {
      assert items[i := it][..n] == items[..n];
    }
  }

  lemma {:induction false} DataIrrelevant(items: seq<Item>, id: nat)
    requires forall i :: 0 <= i < |items| ==> items[i].id != id
    ensures Data(items, Some(id)) == Data(items, None)
  {
    if items != [] {
      DataIrrelevant(items[..|items| - 1], id);
    }
  }

  /** Shifting an item out of the table is what marking it as leaving anticipates. */
  lemma {:induction false} DataWithout(items: seq<Item>, i: nat)
    requires i < |items| && IdsAscend(items)
    ensures Data(Without(items, i), None) == Data(items, Some(items[i].id))
  {
    var n, id := |items| - 1, items[i].id;
    if i == n {
      assert Without(items, i) == items[..n];
      DataIrrelevant(items[..n], id);
    } else {
      DataWithout(items[..n], i);
      assert Without(items, i)[..n - 1] == Without(items[..n], i);
      assert Without(items, i)[n - 1] == items[n] && items[n].id != id;
    }
  }

  /** Posting the removal of a data item takes its key out of the data table. */
  lemma {:induction false} DataLeave(items: seq<Item>, i: nat)
    requires i < |items| && IdsAscend(items) && items[i].known
    ensures Apply(Data(items, None), Rm(items[i].id, 0)) == Some(Data(items, Some(items[i].id)))
  {
    var n, id := |items| - 1, items[i].id;
    var d := Data(items[..n], None);
    var key := Key(items[n].id, items[n].fd);
    if i == n {
      DataFinds(items[..n], None, id);
      DataIrrelevant(items[..n], id);
      LastLeaves(d, key);
    } else {
      DataLeave(items[..n], i);
      LeaveSnoc(d, key, id, Data(items[..n], Some(id)));
      assert d + [] == d && Data(items[..n], Some(id)) + [] == Data(items[..n], Some(id));
    }
  }

  lemma LastLeaves(d: Table, key: Key)
    requires Find(d, key.id).None?
    ensures Apply(d + [key], Rm(key.id, 0)) == Some(d)
    ensures d + [] == d
  {
    FindSnoc(d, key, key.id);
    assert Without(d + [key], |d|) == d;
  }

  lemma LeaveSnoc(d: Table, key: Key, id: nat, e: Table)
    requires Apply(d, Rm(id, 0)) == Some(e) && key.id != id
    ensures Apply(d + [key], Rm(id, 0)) == Some(e + [key])
  {
    FindSnoc(d, key, id);
    var k := Find(d, id).value;
    assert Without(d + [key], k) == Without(d, k) + [key];
  }

  lemma {:induction false} FindSnoc(t: Table, k: Key, id: nat)
    ensures Find(t + [k], id) == if Find(t, id).Some? then Find(t, id) else if k.id == id then Some(|t|) else None
  {
    if t == [] {
      assert [k][1..] == [];
    } else {
      assert (t + [k])[1..] == t[1..] + [k];
      FindSnoc(t[1..], k, id);
    }
  }

  // ---------- what the calls answer ----------

  ghost predicate Unknown(w: World, fd: int) {
    forall i :: 0 <= i < |w.items| ==> w.items[i].fd != fd
  }

  /** Item i is the only one with this id, and holds the descriptor with the callbacks
      given. */
  ghost predicate Holds(v: World, i: nat, id: int, fd: int, l: bool) {
    && i < |v.items| && v.items[i].id == id && v.items[i].fd == fd
    && v.items[i].listener == l && !v.items[i].removed
    && forall j :: 0 <= j < |v.items| && v.items[j].id == id ==> j == i
  }

  /** Item i was there and nothing about the others, its own id and what the poll thread
      knows has changed. */
  ghost predicate Renewed(w: World, v: World, i: nat) {
    && i < |v.items| == |w.items| && v.queue == w.queue
    && v.items[i].id == w.items[i].id && v.items[i].known == w.items[i].known
    && forall j :: 0 <= j < |w.items| && j != i ==> v.items[j] == w.items[j]
  }

  /** Item i is new, behind the others; the poll thread is told about it exactly if it
      has no accept callback. */
  ghost predicate Appended(w: World, v: World, i: nat, id: int, fd: int, l: bool) {
    && i == |w.items| && |v.items| == |w.items| + 1 && v.items[i].known == !l
    && (forall j :: 0 <= j < |w.items| ==> v.items[j] == w.items[j] && w.items[j].id != id)
    && (id >= 0 ==> v.queue == if l then w.queue else w.queue + [Add(id, fd)])
  }

  /** What hp_iocp_add returns: the id of the one item that then holds the descriptor with
      the callbacks given, which is the one that had it if there was one, and a new one
      otherwise; -2 exactly if it is unknown and the table is full; -3 exactly if it is
      unknown, there is room and the binding failed; and a refusal changes no item. */
  lemma AddAnswers(w: World, fd: int, l: bool, b: bool)
    requires ItemsOk(w) && w.ioid < INT_MAX - 1
    ensures var (v, id) := AddItem(w, fd, l, b);
            && (id == -2 <==> Unknown(w, fd) && |w.items| == w.maxfd)
            && (id == -3 <==> Unknown(w, fd) && |w.items| < w.maxfd && !b)
            && (id < 0 ==> id in {-2, -3} && v.items == w.items && v.queue == w.queue)
            && (id >= 0 ==> exists i: nat :: Holds(v, i, id, fd, l)
                                             && if Unknown(w, fd) then Appended(w, v, i, id, fd, l)
                                             else Renewed(w, v, i))
  {
    var (v, id) := AddItem(w, fd, l, b);
    AddKeepsItems(w, fd, l, b);
    match FindFd(w.items, fd)
    case Some(i) =>
      OnlyWithId(v, i);
      assert Holds(v, i, id, fd, l) && Renewed(w, v, i);
    case None =>
      if id >= 0 {
        OnlyWithId(v, |w.items|);
        assert Holds(v, |w.items|, id, fd, l) && Appended(w, v, |w.items|, id, fd, l);
      }
  }

  lemma OnlyWithId(v: World, i: nat)
    requires ItemsOk(v) && i < |v.items|
    ensures forall j :: 0 <= j < |v.items| && v.items[j].id == v.items[i].id ==> j == i
  {}

  /** An entry of the poll thread's table: descriptor and flags under this id. */
  ghost predicate Watches(pds: seq<Entry>, id: nat, fd: int, flags: int) {
    exists i :: 0 <= i < |pds| && pds[i] == Entry(id, fd, flags)
  }

  /** What handling a message does to the poll thread's table: an ADD makes it watch the
      new descriptor for input, an RM with flags 0 drops the entry with this id, any
      other RM sets its flags, and nothing else changes. */
  lemma TakeMeans(pds: seq<Entry>, n: Note, id: nat, fd: int, flags: int)
    requires Ascending(Keys(pds)) && PollApply(pds, n).Some?
    ensures Watches(PollApply(pds, n).value, id, fd, flags) <==>
            match n
            case Add(new_id, new_fd) => Watches(pds, id, fd, flags) || (id, fd, flags) == (new_id, new_fd, POLLIN)
            case Rm(rm_id, to) =>
              if id != rm_id then Watches(pds, id, fd, flags)
              else to != 0 && flags == to && exists was :: Watches(pds, id, fd, was)
  {
    match n
    case Add(x, y) =>
      WatchesMore(pds, Entry(x, y, POLLIN), id, fd, flags);
    case Rm(x, to) =>
      var i := Find(Keys(pds), x).value;
      if to == 0 {
        WatchesLess(pds, i, id, fd, flags);
      } else {
        WatchesElse(pds, i, to, id, fd, flags);
      }
  }

  lemma WatchesMore(pds: seq<Entry>, e: Entry, id: nat, fd: int, flags: int)
    ensures Watches(pds + [e], id, fd, flags) <==> Watches(pds, id, fd, flags) || e == Entry(id, fd, flags)
  {
    var more := pds + [e];
    if i :| 0 <= i < |pds| && pds[i] == Entry(id, fd, flags) {
      assert more[i] == pds[i];
    }
    if e == Entry(id, fd, flags) {
      assert more[|pds|] == e;
    }
  }

  lemma WatchesLess(pds: seq<Entry>, i: nat, id: nat, fd: int, flags: int)
    requires Ascending(Keys(pds)) && i < |pds|
    ensures Watches(Without(pds, i), id, fd, flags) <==> id != pds[i].id && Watches(pds, id, fd, flags)
  {
    var less := Without(pds, i);
    if k :| 0 <= k < |less| && less[k] == Entry(id, fd, flags) {
      SameIdSameSlot(pds, i, if k < i then k else k + 1);
      assert pds[if k < i then k else k + 1] == less[k];
    }
    if k :| 0 <= k < |pds| && pds[k] == Entry(id, fd, flags) && id != pds[i].id {
      assert less[if k < i then k else k - 1] == pds[k];
    }
  }

  lemma SameIdSameSlot(pds: seq<Entry>, i: nat, k: nat)
    requires Ascending(Keys(pds)) && i < |pds| && k < |pds|
    ensures pds[i].id == pds[k].id <==> i == k
  {
    assert Keys(pds)[i].id == pds[i].id && Keys(pds)[k].id == pds[k].id;
  }

  lemma WatchesElse(pds: seq<Entry>, i: nat, to: int, id: nat, fd: int, flags: int)
    requires Ascending(Keys(pds)) && i < |pds|
    ensures Watches(pds[i := pds[i].(flags := to)], id, fd, flags) <==>
            if id != pds[i].id then Watches(pds, id, fd, flags)
            else flags == to && exists was :: Watches(pds, id, fd, was)
  {
    var now := pds[i := pds[i].(flags := to)];
    if k :| 0 <= k < |now| && now[k] == Entry(id, fd, flags) {
      SameIdSameSlot(pds, i, k);
      assert pds[k] == Entry(id, fd, pds[k].flags);
      assert Watches(pds, id, fd, pds[k].flags);
    }
    if was, k :| 0 <= k < |pds| && pds[k] == Entry(id, fd, was) {
      SameIdSameSlot(pds, i, k);
      assert now[k] == if k == i then Entry(id, fd, to) else pds[k];
      if id != pds[i].id && Watches(pds, id, fd, flags) {
        var j :| 0 <= j < |pds| && pds[j] == Entry(id, fd, flags);
        assert now[j] == pds[j];
      }
    }
  }

  // ---------- every step keeps it ----------

  lemma AddKeepsItems(w: World, fd: int, l: bool, b: bool)
    requires ItemsOk(w) && w.ioid < INT_MAX - 1
    ensures ItemsOk(AddItem(w, fd, l, b).0)
  {
    LeavingStays(w, AddItem(w, fd, l, b).0);
  }

  lemma AddKeepsInv(w: World, v: World, fd: int, l: bool, b: bool)
    requires Inv(w) && AddStep(w, v, fd, l, b)
    ensures Inv(v)
  {
    AddKeepsItems(w, fd, l, b);
    match FindFd(w.items, fd)
    case Some(i) => DataUpdate(w.items, w.leaving, i, w.items[i].(listener := l, removed := false));
    case None =>
      if |v.items| > |w.items| {
        AppendAgrees(w, fd, l);
      }
  }

  lemma AppendAgrees(w: World, fd: int, l: bool)
    requires Inv(w)
    ensures Replay(Keys(w.pds), if l then w.queue else w.queue + [Add(w.ioid, fd)])
         == Some(Data(w.items + [Item(w.ioid, fd, l, !l, false)], w.leaving))
  {
    var items := w.items + [Item(w.ioid, fd, l, !l, false)];
    var d := Data(w.items, w.leaving);
    assert items[..|w.items|] == w.items;
    assert w.leaving != Some(w.ioid);
    if l {
      assert Data(items, w.leaving) == d + [] == d;
    } else {
      DataIn(w.items, w.leaving, w.ioid);
      assert Find(d, w.ioid) == None;
      assert Data(items, w.leaving) == d + [Key(w.ioid, fd)];
      ReplayPost(Keys(w.pds), w.queue, Add(w.ioid, fd));
    }
  }

  lemma BeginKeepsInv(w: World, v: World, i: nat)
    requires Inv(w) && BeginStep(w, v, i)
    ensures Inv(v)
  {
    ReplayPost(Keys(w.pds), w.queue, Rm(w.items[i].id, 0));
    DataLeave(w.items, i);
  }

  lemma EndKeepsItems(w: World, i: nat)
    requires ItemsOk(w) && i < |w.items|
    ensures ItemsOk(EndError(w, i))
  {}

  lemma EndKeepsInv(w: World, v: World, i: nat)
    requires Inv(w) && EndStep(w, v, i)
    ensures Inv(v)
  {
    EndKeepsItems(w, i);
    DataWithout(w.items, i);
  }

  lemma MarkKeepsInv(w: World, v: World, i: nat)
    requires Inv(w) && MarkStep(w, v, i)
    ensures Inv(v)
  {
    DataUpdate(w.items, w.leaving, i, w.items[i].(removed := true));
    LeavingStays(w, v);
  }

  lemma WriteKeepsInv(w: World, v: World, i: nat, flags: int)
    requires Inv(w) && WriteStep(w, v, i, flags)
    ensures Inv(v)
  {
    ReplayPost(Keys(w.pds), w.queue, Rm(w.items[i].id, flags));
    DataIn(w.items, w.leaving, w.items[i].id);
  }

  lemma UserStepKeepsInv(w: World, v: World)
    requires Inv(w) && UserStep(w, v)
    ensures Inv(v)
  {
    if fd, l, b :| AddStep(w, v, fd, l, b) {
      AddKeepsInv(w, v, fd, l, b);
    } else if i :| BeginStep(w, v, i) {
      BeginKeepsInv(w, v, i);
    } else if i :| EndStep(w, v, i) {
      EndKeepsInv(w, v, i);
    } else if i :| MarkStep(w, v, i) {
      MarkKeepsInv(w, v, i);
    } else {
      var i, flags :| WriteStep(w, v, i, flags);
      WriteKeepsInv(w, v, i, flags);
    }
  }

  lemma LeavingStays(w: World, v: World)
    requires ItemsOk(w) && w.leaving == v.leaving && |w.items| <= |v.items|
    requires forall i :: 0 <= i < |w.items| ==> v.items[i].id == w.items[i].id
    ensures v.leaving.Some? ==> exists i :: 0 <= i < |v.items| && v.items[i].id == v.leaving.value
  {
    if v.leaving.Some? {
      var i :| 0 <= i < |w.items| && w.items[i].id == w.leaving.value;
      assert v.items[i].id == v.leaving.value;
    }
  }

  lemma PollStepKeepsInv(w: World, v: World)
    requires Inv(w) && PollStep(w, v)
    ensures Inv(v)
  {
    if TakeStep(w, v) {
      PollApplyKeys(w.pds, w.queue[0]);
    } else {
      assert Keys(v.pds) == Keys(w.pds);
    }
  }

  lemma StepKeepsInv(w: World, v: World)
    requires Inv(w) && (UserStep(w, v) || PollStep(w, v))
    ensures Inv(v) && v.maxfd == w.maxfd
  {
    if UserStep(w, v) {
      UserStepKeepsInv(w, v);
    } else {
      PollStepKeepsInv(w, v);
    }
  }

  lemma {:induction false} RunInv(states: seq<World>, maxfd: nat, i: nat)
    requires Run(states, maxfd) && i < |states|
    ensures Inv(states[i]) && states[i].maxfd == maxfd
  {
    if i > 0 {
      RunInv(states, maxfd, i - 1);
      assert StepAt(states, i - 1);
      StepKeepsInv(states[i - 1], states[i]);
    }
  }

  // ---------- what a run promises ----------

  /** Two-thread agreement, for every run: replaying the queued messages on the poll
      thread's table gives exactly the data items, so no assertion of the poll thread
      can fail: an ADD never finds its id, an RM always does. */
  lemma TwoThreadsAgree(states: seq<World>, maxfd: nat, i: nat)
    requires Run(states, maxfd) && i < |states|
    ensures var w := states[i];
            && Replay(Keys(w.pds), w.queue) == Some(Data(w.items, w.leaving))
            && (w.queue != [] ==> match w.queue[0]
                                  case Add(id, _) => forall j :: 0 <= j < |w.pds| ==> w.pds[j].id != id
                                  case Rm(id, _) => exists j :: 0 <= j < |w.pds| && w.pds[j].id == id)
  {
    RunInv(states, maxfd, i);
    var w := states[i];
    if w.queue != [] {
      assert Apply(Keys(w.pds), w.queue[0]).Some?;
      match w.queue[0]
      case Add(id, _) =>
        forall j | 0 <= j < |w.pds| ensures w.pds[j].id != id {
          assert Keys(w.pds)[j].id == w.pds[j].id;
        }
      case Rm(id, _) =>
        var j := Find(Keys(w.pds), id).value;
        assert w.pds[j].id == id;
    }
  }

  /** `t` is the data table of some state up to number i. */
  ghost predicate Past(states: seq<World>, i: nat, t: Option<Table>) {
    exists j :: 0 <= j <= i && j < |states| && t == Some(Data(states[j].items, states[j].leaving))
  }

  lemma PastLater(states: seq<World>, i: nat, t: Option<Table>)
    requires i > 0 && Past(states, i - 1, t)
    ensures Past(states, i, t)
  {}

  lemma {:induction false} SnapshotsOf(states: seq<World>, maxfd: nat, i: nat, k: nat)
    requires Run(states, maxfd) && i < |states| && k <= |states[i].queue|
    ensures Past(states, i, Replay(Keys(states[i].pds), states[i].queue[..k]))
  {
    var v := states[i];
    if k == |v.queue| {
      WholeQueue(states, maxfd, i);
      assert v.queue[..k] == v.queue;
    } else if i > 0 {
      var w := states[i - 1];
      assert StepAt(states, i - 1);
      if TakeStep(w, v) {
        SnapshotsOf(states, maxfd, i - 1, k + 1);
        TakeReplays(w, v, k);
      } else {
        SamePrefix(w, v, k);
        SnapshotsOf(states, maxfd, i - 1, k);
      }
      PastLater(states, i, Replay(Keys(v.pds), v.queue[..k]));
    }
  }

  lemma WholeQueue(states: seq<World>, maxfd: nat, i: nat)
    requires Run(states, maxfd) && i < |states|
    ensures Past(states, i, Replay(Keys(states[i].pds), states[i].queue))
  {
    RunInv(states, maxfd, i);
  }

  lemma TakeReplays(w: World, v: World, k: nat)
    requires TakeStep(w, v) && k < |w.queue|
    ensures Replay(Keys(v.pds), v.queue[..k]) == Replay(Keys(w.pds), w.queue[..k + 1])
  {
    PollApplyKeys(w.pds, w.queue[0]);
    assert w.queue[..k + 1][1..] == v.queue[..k];
  }

  /** Every step but the poll thread's taking a message appends at most one message. */
  lemma SamePrefix(w: World, v: World, k: nat)
    requires UserStep(w, v) || exists i, flags :: FlagsStep(w, v, i, flags)
    requires k < |v.queue|
    ensures k <= |w.queue| && v.queue[..k] == w.queue[..k] && Keys(v.pds) == Keys(w.pds)
  {}

  /** The oldest message can be handled, and the table after it fits and is in order. */
  ghost predicate NextIsSafe(w: World, maxfd: nat) {
    w.queue != [] ==>
      var u := PollApply(w.pds, w.queue[0]);
      u.Some? && |u.value| <= maxfd && Ascending(Keys(u.value))
  }

  /** For every run: the poll thread's table is at all times an earlier state of the
      data items, it fits the maxfd slots allocated for it, and it is in strictly
      ascending order of ids; all this also holds after the next message. */
  lemma PollTableIsPast(states: seq<World>, maxfd: nat, i: nat)
    requires Run(states, maxfd) && i < |states|
    ensures Past(states, i, Some(Keys(states[i].pds)))
    ensures |states[i].pds| <= maxfd && Ascending(Keys(states[i].pds))
    ensures NextIsSafe(states[i], maxfd)
  {
    var w := states[i];
    SnapshotsOf(states, maxfd, i, 0);
    assert w.queue[..0] == [];
    PastFits(states, maxfd, i, Keys(w.pds));
    if w.queue != [] {
      NextFits(states, maxfd, i);
    }
  }

  lemma NextFits(states: seq<World>, maxfd: nat, i: nat)
    requires Run(states, maxfd) && i < |states| && states[i].queue != []
    ensures NextIsSafe(states[i], maxfd)
  {
    var w := states[i];
    SnapshotsOf(states, maxfd, i, 1);
    PollApplyKeys(w.pds, w.queue[0]);
    assert w.queue[..1] == [w.queue[0]] && w.queue[..1][1..] == [];
    var t := Apply(Keys(w.pds), w.queue[0]);
    assert t.Some? ==> Replay(t.value, []) == t;
    PastFits(states, maxfd, i, t.value);
  }

  lemma PastFits(states: seq<World>, maxfd: nat, i: nat, t: Table)
    requires Run(states, maxfd) && i < |states| && Past(states, i, Some(t))
    ensures |t| <= maxfd && Ascending(t)
  {
    var j :| 0 <= j <= i && j < |states| && Some(t) == Some(Data(states[j].items, states[j].leaving));
    RunInv(states, maxfd, j);
    DataIn(states[j].items, states[j].leaving, 0);
  }

  /** Exactly which items may be removed or written to, in every run: posting a message
      about item i leaves the poll thread's assertions safe if and only if the poll thread
      was told about it when it was first added, and it is not already leaving. */
  lemma WhoMayBePosted(states: seq<World>, maxfd: nat, k: nat, i: nat, flags: int)
    requires Run(states, maxfd) && k < |states| && i < |states[k].items|
    ensures var w := states[k];
            Replay(Keys(w.pds), w.queue + [Rm(w.items[i].id, flags)]).Some? <==>
            w.items[i].known && w.leaving != Some(w.items[i].id)
  {
    RunInv(states, maxfd, k);
    var w := states[k];
    var id := w.items[i].id;
    ReplayPost(Keys(w.pds), w.queue, Rm(id, flags));
    DataIn(w.items, w.leaving, id);
    assert forall j :: 0 <= j < |w.items| && w.items[j].id == id ==> j == i;
  }

  /** What an item is now does not matter: a listener added again as a data item is never
      announced, so that a message about it trips the poll thread's assertion. */
  lemma ReaddedListener(maxfd: nat, fd: int, flags: int)
    requires maxfd > 0
    ensures exists states :: Run(states, maxfd) && Unannounced(states[|states| - 1], fd, flags)
  {
    var w := Start(maxfd);
    var v := AddItem(w, fd, true, true).0;
    var u := AddItem(v, fd, false, true).0;
    assert v.items == [Item(0, fd, true, false, false)] && u.items == [Item(0, fd, false, false, false)];
    assert AddStep(w, v, fd, true, true) && AddStep(v, u, fd, false, true);
    var states := [w, v, u];
    assert Run(states, maxfd);
    WhoMayBePosted(states, maxfd, 2, 0, flags);
    assert Unannounced(states[2], fd, flags);
  }

  /** The one item is a data item, and the poll thread could not handle a message about it. */
  ghost predicate Unannounced(w: World, fd: int, flags: int) {
    && |w.items| == 1 && w.items[0].fd == fd && !w.items[0].listener
    && Replay(Keys(w.pds), w.queue + [Rm(w.items[0].id, flags)]).None?
  }
}
