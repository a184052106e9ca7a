/** The poll registry of src/hp_poll.c: one block holds the pollfd of slot i at +i and
    its handler at -i from the same pointer. It is proved to be a plain map from
    descriptors to registrations. Its dispatch loop is proved to end and to call no ready
    handler twice, and it is shown exactly when it calls them all. */
module PollRegistry {
  import opened Common

  /** Handlers and their arguments are opaque to the registry; 0 is the null handler. */
  datatype PollFd = PollFd(fd: int, events: int, revents: int)
  datatype PollD = PollD(fn: int, onLoop: int, arg: int)
  datatype Reg = Reg(pfd: PollFd, pd: PollD)

  // ---------- the registry as a sequence of slots ----------

  function IndexOf(regs: seq<Reg>, fd: int): (r: Option<nat>)
    ensures r.Some? ==> r.value < |regs| && regs[r.value].pfd.fd == fd
    ensures r.None? ==> forall i :: 0 <= i < |regs| ==> regs[i].pfd.fd != fd
    ensures r.Some? ==> forall i :: 0 <= i < r.value ==> regs[i].pfd.fd != fd
  {
    if regs == [] then None
    else if regs[0].pfd.fd == fd then Some(0)
    else match IndexOf(regs[1..], fd) case None => None case Some(i) => Some(i + 1)
  }

  function NewReg(fd: int, events: int, pd: PollD): Reg { Reg(PollFd(fd, events, 0), pd) }

  /** hp_poll_add */
  function AddReg(regs: seq<Reg>, maxFd: nat, fd: int, events: int, pd: PollD): (seq<Reg>, int) {
    if fd < 0 then (regs, -1)
    else match IndexOf(regs, fd)
         case Some(i) => (regs[i := NewReg(fd, events, pd)], 0)
         case None => if |regs| >= maxFd then (regs, -2) else (regs + [NewReg(fd, events, pd)], 0)
  }

  /** hp_poll_rm */
  function RmReg(regs: seq<Reg>, fd: int): (seq<Reg>, int) {
    match IndexOf(regs, fd)
    case Some(i) => (Without(regs, i), 0)
    case None => (regs, -1)
  }

  ghost predicate FdsDistinct(regs: seq<Reg>) {
    forall i, j :: 0 <= i < j < |regs| ==> regs[i].pfd.fd != regs[j].pfd.fd
  }

  // ---------- the registry as a map ----------

  datatype Entry = Entry(events: int, pd: PollD)

  function EntryOf(r: Reg): Entry { Entry(r.pfd.events, r.pd) }

  function MapOf(regs: seq<Reg>): map<int, Entry> {
    if regs == [] then map[]
    else
      var n := |regs| - 1;
      MapOf(regs[..n])[regs[n].pfd.fd := EntryOf(regs[n])]
  }

  lemma {:induction false} MapHolds(regs: seq<Reg>, i: nat)
    requires FdsDistinct(regs) && i < |regs|
    ensures regs[i].pfd.fd in MapOf(regs) && MapOf(regs)[regs[i].pfd.fd] == EntryOf(regs[i])
  {
    var n := |regs| - 1;
    if i < n {
      MapHolds(regs[..n], i);
      assert regs[..n][i] == regs[i] && regs[n].pfd.fd != regs[i].pfd.fd;
    }
  }

  lemma {:induction false} MapOnly(regs: seq<Reg>, fd: int)
    requires fd in MapOf(regs)
    ensures exists i :: 0 <= i < |regs| && regs[i].pfd.fd == fd
  {
    var n := |regs| - 1;
    if regs[n].pfd.fd != fd {
      MapOnly(regs[..n], fd);
      var i :| 0 <= i < n && regs[..n][i].pfd.fd == fd;
      assert regs[i].pfd.fd == fd;
    }
  }

  lemma {:induction false} MapSize(regs: seq<Reg>)
    requires FdsDistinct(regs)
    ensures |MapOf(regs)| == |regs|
  {
    if regs != [] {
      var n := |regs| - 1;
      MapSize(regs[..n]);
      if regs[n].pfd.fd in MapOf(regs[..n]) {
        MapOnly(regs[..n], regs[n].pfd.fd);
      }
    }
  }

  /** The map has exactly the registered descriptors, with their registrations. */
  lemma MapHas(regs: seq<Reg>)
    requires FdsDistinct(regs)
    ensures |MapOf(regs)| == |regs|
    ensures forall fd :: fd in MapOf(regs) <==> exists i :: 0 <= i < |regs| && regs[i].pfd.fd == fd
    ensures forall i :: 0 <= i < |regs| ==>
                          regs[i].pfd.fd in MapOf(regs) && MapOf(regs)[regs[i].pfd.fd] == EntryOf(regs[i])
  {
    MapSize(regs);
    forall i | 0 <= i < |regs|
      ensures regs[i].pfd.fd in MapOf(regs) && MapOf(regs)[regs[i].pfd.fd] == EntryOf(regs[i])
    {
      MapHolds(regs, i);
    }
    forall fd | fd in MapOf(regs)
      ensures exists i :: 0 <= i < |regs| && regs[i].pfd.fd == fd
    {
      MapOnly(regs, fd);
    }
  }

  lemma MapKnows(regs: seq<Reg>, fd: int)
    requires FdsDistinct(regs)
    ensures |MapOf(regs)| == |regs|
    ensures fd in MapOf(regs) <==> IndexOf(regs, fd).Some?
  {
    MapHas(regs);
  }

  lemma {:induction false} MapUpdate(regs: seq<Reg>, i: nat, r: Reg)
    requires FdsDistinct(regs) && i < |regs| && r.pfd.fd == regs[i].pfd.fd
    ensures MapOf(regs[i := r]) == MapOf(regs)[r.pfd.fd := EntryOf(r)]
  {
    var n := |regs| - 1;
    if i < n {
      MapUpdate(regs[..n], i, r);
      assert regs[i := r][..n] == regs[..n][i := r];
    } else {
      assert regs[i := r][..n] == regs[..n];
    }
  }

  lemma {:induction false} MapWithout(regs: seq<Reg>, i: nat)
    requires FdsDistinct(regs) && i < |regs|
    ensures MapOf(Without(regs, i)) == MapOf(regs) - {regs[i].pfd.fd}
  {
    var n := |regs| - 1;
    var front, last := regs[..n], regs[n];
    if i < n {
      MapWithout(front, i);
      assert Without(regs, i) == Without(front, i) + [last];
      assert (Without(front, i) + [last])[..n - 1] == Without(front, i);
      UpdateThenRemove(MapOf(front), last.pfd.fd, EntryOf(last), regs[i].pfd.fd);
    } else {
      assert Without(regs, i) == front;
      NotYetThere(front, last);
      RemoveUpdated(MapOf(front), last.pfd.fd, EntryOf(last));
    }
  }

  lemma NotYetThere(front: seq<Reg>, last: Reg)
    requires FdsDistinct(front + [last])
    ensures FdsDistinct(front) && last.pfd.fd !in MapOf(front)
  {
    var all := front + [last];
    assert forall i :: 0 <= i < |front| ==> all[i] == front[i];
    assert all[|front|] == last;
    MapHas(front);
  }

  lemma UpdateThenRemove(m: map<int, Entry>, k: int, e: Entry, gone: int)
    requires k != gone
    ensures (m - {gone})[k := e] == m[k := e] - {gone}
  {}

  lemma RemoveUpdated(m: map<int, Entry>, k: int, e: Entry)
    requires k !in m
    ensures m[k := e] - {k} == m
  {}

  lemma DistinctUpdate(regs: seq<Reg>, i: nat, r: Reg)
    requires FdsDistinct(regs) && i < |regs| && r.pfd.fd == regs[i].pfd.fd
    ensures FdsDistinct(regs[i := r])
  {
    var to := regs[i := r];
    forall j, k | 0 <= j < k < |to|
      ensures to[j].pfd.fd != to[k].pfd.fd
    {
      assert to[j].pfd.fd == regs[j].pfd.fd && to[k].pfd.fd == regs[k].pfd.fd;
    }
  }

  lemma DistinctSnoc(regs: seq<Reg>, r: Reg)
    requires FdsDistinct(regs) && forall i :: 0 <= i < |regs| ==> regs[i].pfd.fd != r.pfd.fd
    ensures FdsDistinct(regs + [r])
  {}

  /** hp_poll_add on the map: an update, refused only for an invalid descriptor or for a
      new one when all max_fd slots are taken. */
  lemma AddIsMapUpdate(regs: seq<Reg>, maxFd: nat, fd: int, events: int, pd: PollD)
    requires FdsDistinct(regs) && |regs| <= maxFd
    ensures var (to, rc) := AddReg(regs, maxFd, fd, events, pd);
            && FdsDistinct(to) && |to| <= maxFd
            && (rc == -1 <==> fd < 0) && rc in {0, -1, -2}
            && (rc == -2 <==> fd >= 0 && fd !in MapOf(regs) && |MapOf(regs)| == maxFd)
            && MapOf(to) == if rc == 0 then MapOf(regs)[fd := Entry(events, pd)] else MapOf(regs)
  {
    MapKnows(regs, fd);
    match IndexOf(regs, fd)
    case Some(i) =>
      MapUpdate(regs, i, NewReg(fd, events, pd));
      DistinctUpdate(regs, i, NewReg(fd, events, pd));
    case None =>
      if fd >= 0 {
        AddNew(regs, maxFd, fd, events, pd);
      }
  }

  /** The slot an accepted add leaves: the descriptor's own, or a new one at the end, not
      ready; the other slots are as they were. */
  lemma AddSlot(regs: seq<Reg>, maxFd: nat, fd: int, events: int, pd: PollD)
    requires FdsDistinct(regs)
    ensures var (to, rc) := AddReg(regs, maxFd, fd, events, pd);
            if rc == 0 then exists i: nat :: AddedAt(regs, to, i, Reg(PollFd(fd, events, 0), pd)) else to == regs
  {
    var (to, rc) := AddReg(regs, maxFd, fd, events, pd);
    if rc == 0 {
      var i := if IndexOf(regs, fd).Some? then IndexOf(regs, fd).value else |regs|;
      assert AddedAt(regs, to, i, Reg(PollFd(fd, events, 0), pd));
    }
  }

  ghost predicate AddedAt(regs: seq<Reg>, to: seq<Reg>, i: nat, r: Reg) {
    && i < |to| && to[i] == r
    && if i < |regs| then regs[i].pfd.fd == r.pfd.fd && to == regs[i := r] else to == regs + [r]
  }

  lemma AddNew(regs: seq<Reg>, maxFd: nat, fd: int, events: int, pd: PollD)
    requires FdsDistinct(regs) && |regs| <= maxFd && fd >= 0 && IndexOf(regs, fd).None?
    ensures |regs| == maxFd ==> AddReg(regs, maxFd, fd, events, pd) == (regs, -2)
    ensures |regs| < maxFd ==>
              var (to, rc) := AddReg(regs, maxFd, fd, events, pd);
              rc == 0 && FdsDistinct(to) && |to| <= maxFd && MapOf(to) == MapOf(regs)[fd := Entry(events, pd)]
  {
    MapSnoc(regs, NewReg(fd, events, pd));
  }

  lemma MapSnoc(regs: seq<Reg>, r: Reg)
    requires FdsDistinct(regs) && IndexOf(regs, r.pfd.fd).None?
    ensures FdsDistinct(regs + [r]) && MapOf(regs + [r]) == MapOf(regs)[r.pfd.fd := EntryOf(r)]
  {
    DistinctSnoc(regs, r);
    assert (regs + [r])[..|regs|] == regs;
  }

  /** hp_poll_rm on the map: the key goes. */
  lemma RmIsMapRemoval(regs: seq<Reg>, fd: int)
    requires FdsDistinct(regs)
    ensures var (to, rc) := RmReg(regs, fd);
            && FdsDistinct(to) && |to| <= |regs|
            && rc == (if fd in MapOf(regs) then 0 else -1)
            && MapOf(to) == MapOf(regs) - {fd}
  {
    MapKnows(regs, fd);
    match IndexOf(regs, fd)
    case Some(i) =>
      MapWithout(regs, i);
      DistinctWithout(regs, i);
    case None =>
      assert MapOf(regs) - {fd} == MapOf(regs);
  }

  // ---------- any sequence of operations ----------

  datatype Op = Add(fd: int, events: int, pd: PollD) | Rm(fd: int)

  function Apply(regs: seq<Reg>, maxFd: nat, op: Op): seq<Reg> {
    match op
    case Add(fd, events, pd) => AddReg(regs, maxFd, fd, events, pd).0
    case Rm(fd) => RmReg(regs, fd).0
  }

  function ApplyAll(maxFd: nat, ops: seq<Op>): seq<Reg> {
    if ops == [] then [] else Apply(ApplyAll(maxFd, ops[..|ops| - 1]), maxFd, ops[|ops| - 1])
  }

  function MapApply(m: map<int, Entry>, maxFd: nat, op: Op): map<int, Entry> {
    match op
    case Add(fd, events, pd) =>
      if fd < 0 || (fd !in m && |m| == maxFd) then m else m[fd := Entry(events, pd)]
    case Rm(fd) => m - {fd}
  }

  function MapApplyAll(maxFd: nat, ops: seq<Op>): map<int, Entry> {
    if ops == [] then map[] else MapApply(MapApplyAll(maxFd, ops[..|ops| - 1]), maxFd, ops[|ops| - 1])
  }

  /** The paired arrays refine a map: after any sequence of adds, re-adds and removals
      the slots hold distinct descriptors, no more than max_fd, and exactly the
      registrations a plain bounded map would hold. */
  lemma {:induction false} RefinesMap(maxFd: nat, ops: seq<Op>)
    ensures FdsDistinct(ApplyAll(maxFd, ops)) && |ApplyAll(maxFd, ops)| <= maxFd
    ensures MapOf(ApplyAll(maxFd, ops)) == MapApplyAll(maxFd, ops)
  {
    if ops == [] {
      assert MapOf([]) == map[];
    } else {
      var n := |ops| - 1;
      RefinesMap(maxFd, ops[..n]);
      var regs := ApplyAll(maxFd, ops[..n]);
      match ops[n]
      case Add(fd, events, pd) => AddIsMapUpdate(regs, maxFd, fd, events, pd);
      case Rm(fd) => RmIsMapRemoval(regs, fd);
    }
  }

  // ---------- hp_poll_find ----------

  /** The first slot whose argument matches. */
  function FindArg(regs: seq<Reg>, matches: int -> bool): Option<int> {
    if regs == [] then None
    else if matches(regs[0].pd.arg) then Some(regs[0].pd.arg)
    else FindArg(regs[1..], matches)
  }

  /** It agrees with a search of the map. */
  lemma {:induction false} FindAgrees(regs: seq<Reg>, matches: int -> bool)
    requires FdsDistinct(regs)
    ensures FindArg(regs, matches).Some? <==> exists fd :: fd in MapOf(regs) && matches(MapOf(regs)[fd].pd.arg)
    ensures FindArg(regs, matches).Some? ==>
              exists fd :: fd in MapOf(regs) && MapOf(regs)[fd].pd.arg == FindArg(regs, matches).value
                           && matches(FindArg(regs, matches).value)
  {
    FindScan(regs, matches);
    MapHas(regs);
    if i :| 0 <= i < |regs| && matches(regs[i].pd.arg) && FindArg(regs, matches) == Some(regs[i].pd.arg) {
      assert regs[i].pfd.fd in MapOf(regs);
    }
    if fd :| fd in MapOf(regs) && matches(MapOf(regs)[fd].pd.arg) {
      var i :| 0 <= i < |regs| && regs[i].pfd.fd == fd;
      assert matches(regs[i].pd.arg);
    }
  }

  /** The argument is that of the first slot that matches. */
  lemma {:induction false} FindScan(regs: seq<Reg>, matches: int -> bool)
    ensures FindArg(regs, matches).Some? <==> exists i :: 0 <= i < |regs| && matches(regs[i].pd.arg)
    ensures FindArg(regs, matches).Some? ==>
              exists i :: 0 <= i < |regs| && matches(regs[i].pd.arg) && FindArg(regs, matches) == Some(regs[i].pd.arg)
                          && forall j :: 0 <= j < i ==> !matches(regs[j].pd.arg)
  {
    if regs != [] && !matches(regs[0].pd.arg) {
      FindScan(regs[1..], matches);
      var tail := regs[1..];
      if i :| 0 <= i < |tail| && matches(tail[i].pd.arg) && FindArg(tail, matches) == Some(tail[i].pd.arg)
              && forall j :: 0 <= j < i ==> !matches(tail[j].pd.arg) {
        assert regs[i + 1] == tail[i];
        assert forall j :: 1 <= j < i + 1 ==> regs[j] == tail[j - 1];
      }
      if i :| 0 <= i < |regs| && matches(regs[i].pd.arg) {
        assert regs[1..][i - 1] == regs[i];
      }
    }
  }

  // ---------- the dispatch round ----------

  function ReadyFds(regs: seq<Reg>): seq<int> {
    if regs == [] then []
    else (if regs[0].pfd.revents != 0 then [regs[0].pfd.fd] else []) + ReadyFds(regs[1..])
  }

  /** get_next_to_run over the first n slots. */
  function FirstReady(regs: seq<Reg>, n: nat): (r: Option<nat>)
    ensures r.Some? ==> r.value < |regs| && r.value < n && regs[r.value].pfd.revents != 0
    ensures r.Some? ==> forall i :: 0 <= i < r.value ==> regs[i].pfd.revents == 0
    ensures r.None? ==> forall i :: 0 <= i < |regs| && i < n ==> regs[i].pfd.revents == 0
  {
    if regs == [] || n == 0 then None
    else if regs[0].pfd.revents != 0 then Some(0)
    else match FirstReady(regs[1..], n - 1) case None => None case Some(i) => Some(i + 1)
  }

  lemma {:induction false} ReadyAppend(a: seq<Reg>, b: seq<Reg>)
    ensures ReadyFds(a + b) == ReadyFds(a) + ReadyFds(b)
  {
    if a == [] {
      assert a + b == b;
    } else {
      ReadyAppend(a[1..], b);
      assert (a + b)[1..] == a[1..] + b;
      var first := if a[0].pfd.revents != 0 then [a[0].pfd.fd] else [];
      Assoc(first, ReadyFds(a[1..]), ReadyFds(b));
    }
  }

  ghost predicate Unready(regs: seq<Reg>) {
    forall i :: 0 <= i < |regs| ==> regs[i].pfd.revents == 0
  }

  lemma {:induction false} NoneReady(regs: seq<Reg>)
    requires Unready(regs)
    ensures ReadyFds(regs) == []
  {
    if regs != [] {
      NoneReady(regs[1..]);
    }
  }

  /** Slots that are not ready do not show. */
  lemma ReadyBehind(regs: seq<Reg>, a: seq<Reg>, b: seq<Reg>)
    requires regs == a + b && Unready(a)
    ensures ReadyFds(regs) == ReadyFds(b)
  {
    NoneReady(a);
    ReadyAppend(a, b);
  }

  lemma ReadyFirst(x: Reg, b: seq<Reg>)
    ensures ReadyFds([x] + b) == (if x.pfd.revents != 0 then [x.pfd.fd] else []) + ReadyFds(b)
  {
    assert ([x] + b)[1..] == b;
  }

  /** Slot i behind slots that are not ready comes first. */
  lemma ReadyAt(regs: seq<Reg>, a: seq<Reg>, x: Reg, b: seq<Reg>)
    requires regs == a + ([x] + b) && Unready(a)
    ensures ReadyFds(regs) == (if x.pfd.revents != 0 then [x.pfd.fd] else []) + ReadyFds(b)
  {
    ReadyBehind(regs, a, [x] + b);
    ReadyFirst(x, b);
  }

  lemma ReadyMore(regs: seq<Reg>, a: seq<Reg>)
    requires Unready(a)
    ensures ReadyFds(regs + a) == ReadyFds(regs)
  {
    ReadyAppend(regs, a);
    NoneReady(a);
  }

  lemma DistinctWithout(regs: seq<Reg>, i: nat)
    requires FdsDistinct(regs) && i < |regs|
    ensures FdsDistinct(Without(regs, i))
  {}

  function Quiet(r: Reg): Reg { r.(pfd := r.pfd.(revents := 0)) }

  /** revents = 0 written through a pointer to slot i, which may have been given up. */
  function Wipe(regs: seq<Reg>, i: nat): (r: seq<Reg>)
    ensures |r| == |regs|
  {
    if i < |regs| then regs[i := Quiet(regs[i])] else regs
  }

  /** What a handler does to its own slot: it clears it; it clears it and then removes
      its descriptor; or, as the library's own handler does on an error, it removes its
      descriptor and then clears through the old pointer. */
  datatype Order = Stays | ClearsThenLeaves | LeavesThenClears

  /** A handler called, with the registrations it has added. */
  datatype Visit = Visit(order: Order, added: seq<Reg>)

  function Settle(regs: seq<Reg>, i: nat, order: Order): seq<Reg>
    requires i < |regs|
  {
    match order
    case Stays => Wipe(regs, i)
    case ClearsThenLeaves => Without(Wipe(regs, i), i)
    case LeavesThenClears => Wipe(Without(regs, i), i)
  }

  /** The slots after the handler of slot i was called. */
  function Visited(regs: seq<Reg>, i: nat, v: Visit): seq<Reg>
    requires i < |regs|
  {
    Settle(regs, i, v.order) + v.added
  }

  /** Slot i + 1 is ready, and moves under the pointer through which is then cleared. */
  predicate HitsNext(regs: seq<Reg>, i: nat, order: Order)
    requires i < |regs|
  {
    order.LeavesThenClears? && i + 1 < |regs| && regs[i + 1].pfd.revents != 0
  }

  function Hit(regs: seq<Reg>, i: nat, order: Order): seq<int>
    requires i < |regs|
  {
    if HitsNext(regs, i, order) then [regs[i + 1].pfd.fd] else []
  }

  /** The ready registrations before a call: the one called, the one wiped, the others. */
  lemma VisitReady(regs: seq<Reg>, i: nat, v: Visit)
    requires FirstReady(regs, |regs|) == Some(i) && Unready(v.added)
    ensures [regs[i].pfd.fd] + (Hit(regs, i, v.order) + ReadyFds(Visited(regs, i, v))) == ReadyFds(regs)
  {
    Around(regs, i, regs[i]);
    ReadyAt(regs, regs[..i], regs[i], regs[i + 1..]);
    SettleReady(regs, i, v.order);
    ReadyMore(Settle(regs, i, v.order), v.added);
  }

  lemma SettleReady(regs: seq<Reg>, i: nat, order: Order)
    requires i < |regs| && Unready(regs[..i])
    ensures Hit(regs, i, order) + ReadyFds(Settle(regs, i, order)) == ReadyFds(regs[i + 1..])
  {
    match order
    case Stays => StaysReady(regs, i, regs[..i], regs[i + 1..]);
    case ClearsThenLeaves => LeavesReady(regs, i, regs[..i], regs[i + 1..]);
    case LeavesThenClears => HitReady(regs, i, regs[..i], regs[i + 1..]);
  }

  lemma Around(regs: seq<Reg>, i: nat, x: Reg)
    requires i < |regs|
    ensures regs[i := x] == regs[..i] + ([x] + regs[i + 1..]) && regs[i := regs[i]] == regs
  {}

  lemma StaysReady(regs: seq<Reg>, i: nat, front: seq<Reg>, back: seq<Reg>)
    requires i < |regs| && front == regs[..i] && back == regs[i + 1..] && Unready(front)
    ensures ReadyFds(Wipe(regs, i)) == ReadyFds(back)
  {
    Around(regs, i, Quiet(regs[i]));
    ReadyAt(Wipe(regs, i), front, Quiet(regs[i]), back);
  }

  lemma LeavesReady(regs: seq<Reg>, i: nat, front: seq<Reg>, back: seq<Reg>)
    requires i < |regs| && front == regs[..i] && back == regs[i + 1..] && Unready(front)
    ensures ReadyFds(Without(Wipe(regs, i), i)) == ReadyFds(back)
  {
    assert Without(Wipe(regs, i), i) == front + back;
    ReadyBehind(front + back, front, back);
  }

  lemma HitReady(regs: seq<Reg>, i: nat, front: seq<Reg>, back: seq<Reg>)
    requires i < |regs| && front == regs[..i] && back == regs[i + 1..] && Unready(front)
    ensures Hit(regs, i, LeavesThenClears) + ReadyFds(Wipe(Without(regs, i), i)) == ReadyFds(back)
  {
    if back == [] {
      assert Wipe(Without(regs, i), i) == front;
      NoneReady(front);
    } else {
      var x, rest := back[0], back[1..];
      NextWiped(regs, i, front, x, rest);
      ReadyAt(Wipe(Without(regs, i), i), front, Quiet(x), rest);
      assert back == [x] + rest;
      ReadyFirst(x, rest);
    }
  }

  lemma NextWiped(regs: seq<Reg>, i: nat, front: seq<Reg>, x: Reg, rest: seq<Reg>)
    requires i + 1 < |regs| && front == regs[..i] && x == regs[i + 1] && rest == regs[i + 2..]
    ensures Wipe(Without(regs, i), i) == front + ([Quiet(x)] + rest)
  {}

  /** A call takes its own registration out of the ready ones, and no other, if and only
      if its handler does not remove itself first with the next slot ready. */
  lemma OnlyItsOwn(regs: seq<Reg>, i: nat, v: Visit)
    requires FirstReady(regs, |regs|) == Some(i) && Unready(v.added)
    ensures [regs[i].pfd.fd] + ReadyFds(Visited(regs, i, v)) == ReadyFds(regs) <==> !HitsNext(regs, i, v.order)
  {
    VisitReady(regs, i, v);
    CutShort(regs[i].pfd.fd, Hit(regs, i, v.order), ReadyFds(Visited(regs, i, v)), ReadyFds(regs));
  }

  lemma CutShort(x: int, hit: seq<int>, rest: seq<int>, all: seq<int>)
    requires all == [x] + (hit + rest)
    ensures [x] + rest == all <==> hit == []
  {
    assert |all| == 1 + |hit| + |rest|;
    if hit == [] {
      assert hit + rest == rest;
    }
  }

  // ---------- a whole round ----------

  ghost predicate QuietAdds(visits: seq<Visit>) {
    forall m :: 0 <= m < |visits| ==> Unready(visits[m].added)
  }

  /** The descriptors called, the ones wiped uncalled, and the slots left, when the
      handlers of the first ready slots do one after another what `visits` says. */
  function CalledIn(regs: seq<Reg>, visits: seq<Visit>): seq<int>
    decreases visits
  {
    if visits == [] then []
    else match FirstReady(regs, |regs|)
         case None => []
         case Some(i) => [regs[i].pfd.fd] + CalledIn(Visited(regs, i, visits[0]), visits[1..])
  }

  function HitIn(regs: seq<Reg>, visits: seq<Visit>): seq<int>
    decreases visits
  {
    if visits == [] then []
    else match FirstReady(regs, |regs|)
         case None => []
         case Some(i) => Hit(regs, i, visits[0].order) + HitIn(Visited(regs, i, visits[0]), visits[1..])
  }

  function LeftIn(regs: seq<Reg>, visits: seq<Visit>): seq<Reg>
    decreases visits
  {
    if visits == [] then regs
    else match FirstReady(regs, |regs|)
         case None => regs
         case Some(i) => LeftIn(Visited(regs, i, visits[0]), visits[1..])
  }

  /** a is b with some elements left out. */
  predicate Part(a: seq<int>, b: seq<int>) {
    a == [] || (b != [] && ((a[0] == b[0] && Part(a[1..], b[1..])) || Part(a, b[1..])))
  }

  lemma {:induction false} PartBehind(a: seq<int>, gone: seq<int>, b: seq<int>)
    requires Part(a, b)
    ensures Part(a, gone + b)
  {
    if gone == [] {
      assert gone + b == b;
    } else {
      PartBehind(a, gone[1..], b);
      assert (gone + b)[1..] == gone[1..] + b;
    }
  }

  lemma PartCons(x: int, a: seq<int>, gone: seq<int>, b: seq<int>)
    requires Part(a, b)
    ensures Part([x] + a, [x] + (gone + b))
  {
    PartBehind(a, gone, b);
    assert ([x] + a)[1..] == a && ([x] + (gone + b))[1..] == gone + b;
  }

  lemma {:induction false} PartMembers(a: seq<int>, b: seq<int>)
    requires Part(a, b)
    ensures forall x :: x in a ==> x in b
  {
    if a != [] {
      if a[0] == b[0] && Part(a[1..], b[1..]) {
        PartMembers(a[1..], b[1..]);
        assert a == [a[0]] + a[1..];
      } else {
        PartMembers(a, b[1..]);
      }
    }
  }

  lemma DistinctCons(x: int, s: seq<int>, xs: seq<int>)
    requires Distinct(s) && x !in s && xs == [x] + s
    ensures Distinct(xs)
  {}

  lemma {:induction false} PartDistinct(a: seq<int>, b: seq<int>)
    requires Part(a, b) && Distinct(b)
    ensures Distinct(a)
  {
    if a != [] {
      if a[0] == b[0] && Part(a[1..], b[1..]) {
        PartDistinct(a[1..], b[1..]);
        PartMembers(a[1..], b[1..]);
        assert forall j :: 1 <= j < |b| ==> b[j] == b[1..][j - 1];
        DistinctCons(a[0], a[1..], a);
      } else {
        PartDistinct(a, b[1..]);
      }
    }
  }

  /** They are the descriptors of the slots whose revents are set. */
  lemma {:induction false} ReadyMembers(regs: seq<Reg>, fd: int)
    ensures fd in ReadyFds(regs) <==>
            exists i :: 0 <= i < |regs| && regs[i].pfd.fd == fd && regs[i].pfd.revents != 0
  {
    if regs != [] {
      ReadyMembers(regs[1..], fd);
      if i :| 0 <= i < |regs[1..]| && regs[1..][i].pfd.fd == fd && regs[1..][i].pfd.revents != 0 {
        assert regs[i + 1] == regs[1..][i];
      }
      if i :| 0 <= i < |regs| && regs[i].pfd.fd == fd && regs[i].pfd.revents != 0 {
        assert i > 0 ==> regs[1..][i - 1] == regs[i];
      }
    }
  }

  lemma {:induction false} ReadyDistinct(regs: seq<Reg>)
    requires FdsDistinct(regs)
    ensures Distinct(ReadyFds(regs))
  {
    if regs != [] {
      ReadyDistinct(regs[1..]);
      if regs[0].pfd.fd in ReadyFds(regs[1..]) {
        ReadyMembers(regs[1..], regs[0].pfd.fd);
        assert false;
      }
    }
  }

  /** The registrations called are ready ones, in slot order. */
  lemma {:induction false} RoundInOrder(regs: seq<Reg>, visits: seq<Visit>)
    requires QuietAdds(visits)
    ensures Part(CalledIn(regs, visits), ReadyFds(regs))
    decreases visits
  {
    if visits != [] && FirstReady(regs, |regs|).Some? {
      var i := FirstReady(regs, |regs|).value;
      var to := Visited(regs, i, visits[0]);
      VisitReady(regs, i, visits[0]);
      RoundInOrder(to, visits[1..]);
      PartCons(regs[i].pfd.fd, CalledIn(to, visits[1..]), Hit(regs, i, visits[0].order), ReadyFds(to));
    }
  }

  /** Each ready registration is called, wiped or still ready, and only one of these. */
  lemma {:induction false} RoundCounts(regs: seq<Reg>, visits: seq<Visit>)
    requires QuietAdds(visits)
    ensures multiset(CalledIn(regs, visits)) + multiset(HitIn(regs, visits))
            + multiset(ReadyFds(LeftIn(regs, visits))) == multiset(ReadyFds(regs))
    decreases visits
  {
    if visits != [] && FirstReady(regs, |regs|).Some? {
      var i := FirstReady(regs, |regs|).value;
      var to := Visited(regs, i, visits[0]);
      VisitReady(regs, i, visits[0]);
      RoundCounts(to, visits[1..]);
      CountsCons(regs[i].pfd.fd, Hit(regs, i, visits[0].order), CalledIn(to, visits[1..]), HitIn(to, visits[1..]),
                 ReadyFds(LeftIn(to, visits[1..])), ReadyFds(to), ReadyFds(regs));
    }
  }

  lemma CountsCons(x: int, hit: seq<int>, called: seq<int>, hits: seq<int>, left: seq<int>, rest: seq<int>,
                   all: seq<int>)
    requires all == [x] + (hit + rest)
    requires multiset(called) + multiset(hits) + multiset(left) == multiset(rest)
    ensures multiset([x] + called) + multiset(hit + hits) + multiset(left) == multiset(all)
  {}

  lemma SameSize(a: seq<int>, b: seq<int>, c: seq<int>, all: seq<int>)
    requires multiset(a) + multiset(b) + multiset(c) == multiset(all)
    ensures |a| + |b| + |c| == |all|
  {
    assert |multiset(a)| == |a| && |multiset(b)| == |b| && |multiset(c)| == |c| && |multiset(all)| == |all|;
  }

  /** The ready registrations run out after as many calls as there were at most. */
  lemma {:induction false} RoundEnds(regs: seq<Reg>, visits: seq<Visit>)
    requires QuietAdds(visits) && |visits| >= |ReadyFds(regs)|
    ensures ReadyFds(LeftIn(regs, visits)) == []
    decreases visits
  {
    if FirstReady(regs, |regs|).None? {
      NoneReady(regs);
    } else if visits != [] {
      var i := FirstReady(regs, |regs|).value;
      VisitReady(regs, i, visits[0]);
      RoundEnds(Visited(regs, i, visits[0]), visits[1..]);
    }
  }

  /** No registration is called twice in a round. */
  lemma CalledOnce(regs: seq<Reg>, visits: seq<Visit>)
    requires FdsDistinct(regs) && QuietAdds(visits)
    ensures Distinct(CalledIn(regs, visits))
  {
    RoundInOrder(regs, visits);
    ReadyDistinct(regs);
    PartDistinct(CalledIn(regs, visits), ReadyFds(regs));
  }

  lemma {:induction false} NoneHit(regs: seq<Reg>, visits: seq<Visit>)
    requires QuietAdds(visits) && HitIn(regs, visits) == []
    ensures CalledIn(regs, visits) + ReadyFds(LeftIn(regs, visits)) == ReadyFds(regs)
    decreases visits
  {
    if visits != [] && FirstReady(regs, |regs|).Some? {
      var i := FirstReady(regs, |regs|).value;
      var to := Visited(regs, i, visits[0]);
      VisitReady(regs, i, visits[0]);
      NothingIn(Hit(regs, i, visits[0].order), HitIn(to, visits[1..]));
      NoneHit(to, visits[1..]);
      CalledCons(regs[i].pfd.fd, Hit(regs, i, visits[0].order), CalledIn(to, visits[1..]),
                 ReadyFds(LeftIn(to, visits[1..])), ReadyFds(to), ReadyFds(regs));
    }
  }

  lemma NothingIn(a: seq<int>, b: seq<int>)
    requires a + b == []
    ensures a == [] && b == []
  {}

  lemma CalledCons(x: int, hit: seq<int>, called: seq<int>, left: seq<int>, rest: seq<int>, all: seq<int>)
    requires all == [x] + (hit + rest) && hit == [] && called + left == rest
    ensures ([x] + called) + left == all
  {}

  /** A round that has ended called every ready registration exactly once, in slot order,
      if and only if no handler that removes itself before clearing had a ready slot
      right behind it. */
  lemma AllCalledIff(regs: seq<Reg>, visits: seq<Visit>)
    requires QuietAdds(visits) && ReadyFds(LeftIn(regs, visits)) == []
    ensures CalledIn(regs, visits) == ReadyFds(regs) <==> HitIn(regs, visits) == []
  {
    if HitIn(regs, visits) == [] {
      NoneHit(regs, visits);
    } else {
      RoundCounts(regs, visits);
      SameSize(CalledIn(regs, visits), HitIn(regs, visits), [], ReadyFds(regs));
    }
  }

  /** The failing input: two ready slots, and the first handler removes itself before it
      clears. The second is never called. */
  lemma NeighbourLost(a: Reg, b: Reg)
    requires a.pfd.revents != 0 && b.pfd.revents != 0
    ensures CalledIn([a, b], [Visit(LeavesThenClears, [])]) == [a.pfd.fd]
    ensures LeftIn([a, b], [Visit(LeavesThenClears, [])]) == [Quiet(b)]
    ensures ReadyFds([a, b]) == [a.pfd.fd, b.pfd.fd] && ReadyFds([Quiet(b)]) == []
  {
    var v := Visit(LeavesThenClears, []);
    assert FirstReady([a, b], 2) == Some(0);
    assert Without([a, b], 0) == [b];
    assert Visited([a, b], 0, v) == [Quiet(b)];
    assert [v][1..] == [];
    assert CalledIn([a, b], [v]) == [a.pfd.fd] + CalledIn([Quiet(b)], []);
    assert LeftIn([a, b], [v]) == LeftIn([Quiet(b)], []);
    assert [a, b] == [a] + [b];
    ReadyFirst(a, [b]);
    assert [b][1..] == [];
    NoneReady([Quiet(b)]);
  }

  lemma {:induction false} RoundSnoc(regs: seq<Reg>, visits: seq<Visit>, i: nat, v: Visit)
    requires FirstReady(LeftIn(regs, visits), |LeftIn(regs, visits)|) == Some(i)
    ensures LeftIn(regs, visits + [v]) == Visited(LeftIn(regs, visits), i, v)
    ensures CalledIn(regs, visits + [v]) == CalledIn(regs, visits) + [LeftIn(regs, visits)[i].pfd.fd]
    decreases visits
  {
    if visits == [] {
      assert [v][1..] == [] && visits + [v] == [v];
    } else {
      var j := FirstReady(regs, |regs|).value;
      assert (visits + [v])[0] == visits[0] && (visits + [v])[1..] == visits[1..] + [v];
      RoundSnoc(Visited(regs, j, visits[0]), visits[1..], i, v);
    }
  }

  /** What one turn of the dispatch loop does: it ends, or calls the first ready handler. */
  ghost predicate Turned(regs: seq<Reg>, to: seq<Reg>) {
    match FirstReady(regs, |regs|)
    case None => to == regs
    case Some(i) =>
      if regs[i].pd.fn == 0 then to == regs
      else exists v: Visit :: Unready(v.added) && to == Visited(regs, i, v)
  }

  ghost predicate Turns(run: seq<seq<Reg>>) {
    forall m :: 0 <= m < |run| - 1 ==> Turned(run[m], run[m + 1])
  }

  /** A null handler makes the loop spin: if the first ready slot has one, then after any
      number of turns the registry is unchanged and the same slot is the first ready one. */
  lemma {:induction false} NullHandlerSpins(run: seq<seq<Reg>>, i: nat, m: nat)
    requires m < |run| && Turns(run)
    requires FirstReady(run[0], |run[0]|) == Some(i) && run[0][i].pd.fn == 0
    ensures run[m] == run[0] && FirstReady(run[m], |run[m]|) == Some(i)
  {
    if m > 0 {
      NullHandlerSpins(run, i, m - 1);
      assert Turned(run[m - 1], run[m]);
    }
  }

  // ---------- what a call keeps ----------

  /** Every ready slot has a handler, and no slot from k on is ready: those are new. */
  ghost predicate Runnable(regs: seq<Reg>, k: nat) {
    && k <= |regs|
    && (forall j :: 0 <= j < |regs| && regs[j].pfd.revents != 0 ==> j < k && regs[j].pd.fn != 0)
  }

  function Behind(k: nat, order: Order): int { if order.Stays? then k else k - 1 }

  lemma VisitRunnable(regs: seq<Reg>, i: nat, v: Visit, k: nat)
    requires i < k && Runnable(regs, k) && Unready(v.added)
    ensures Runnable(Visited(regs, i, v), Behind(k, v.order))
  {
    var base, left := Settle(regs, i, v.order), Behind(k, v.order);
    match v.order {
      case Stays =>
      case ClearsThenLeaves => WithoutRunnable(Wipe(regs, i), i, k);
      case LeavesThenClears => WithoutRunnable(regs, i, k);
    }
    MoreRunnable(base, v.added, left);
  }

  lemma WithoutRunnable(regs: seq<Reg>, i: nat, k: nat)
    requires i < k && Runnable(regs, k)
    ensures Runnable(Without(regs, i), k - 1)
  {
    var w := Without(regs, i);
    forall j | 0 <= j < |w| && w[j].pfd.revents != 0
      ensures j < k - 1 && w[j].pd.fn != 0
    {
      assert w[j] == regs[if j < i then j else j + 1];
    }
  }

  lemma MoreRunnable(regs: seq<Reg>, a: seq<Reg>, k: nat)
    requires Runnable(regs, k) && Unready(a)
    ensures Runnable(regs + a, k)
  {}

  /** Registrations added before the handler touches its own slot might as well have been
      added after. */
  lemma SettleLater(regs: seq<Reg>, a: seq<Reg>, i: nat, order: Order)
    requires i < |regs| && Unready(a)
    ensures Settle(regs + a, i, order) == Settle(regs, i, order) + a
  {
    match order
    case Stays => WipeLater(regs, a, i);
    case ClearsThenLeaves =>
      WipeLater(regs, a, i);
      WithoutLater(Wipe(regs, i), a, i);
    case LeavesThenClears =>
      WithoutLater(regs, a, i);
      WipeLater(Without(regs, i), a, i);
  }

  lemma VisitAdds(base: seq<Reg>, a: seq<Reg>, b: seq<Reg>, c: seq<Reg>)
    ensures base + a + b + c == base + (a + b + c)
  {}

  lemma WithoutLater(regs: seq<Reg>, a: seq<Reg>, i: nat)
    requires i < |regs|
    ensures Without(regs + a, i) == Without(regs, i) + a
  {}

  lemma WipeLater(regs: seq<Reg>, a: seq<Reg>, i: nat)
    requires i <= |regs| && Unready(a)
    ensures Wipe(regs + a, i) == Wipe(regs, i) + a
  {
    if i == |regs| && a != [] {
      assert Quiet(a[0]) == a[0];
    }
  }

  lemma {:induction false} IndexIs(regs: seq<Reg>, fd: int, i: nat)
    requires i < |regs| && regs[i].pfd.fd == fd && forall j :: 0 <= j < i ==> regs[j].pfd.fd != fd
    ensures IndexOf(regs, fd) == Some(i)
  {
    var r := IndexOf(regs, fd).value;
    assert r == i;
  }

  lemma FirstIs(regs: seq<Reg>, n: nat, i: nat)
    requires i < n <= |regs| && regs[i].pfd.revents != 0 && forall j :: 0 <= j < i ==> regs[j].pfd.revents == 0
    ensures FirstReady(regs, n) == Some(i)
  {
    var r := FirstReady(regs, n).value;
    assert r == i;
  }

  /** `regs` are the slots of these arrays, handlers counted down from max. */
  ghost predicate Slots(regs: seq<Reg>, max: nat, fds: seq<PollFd>, pds: seq<PollD>) {
    && |regs| <= max && |fds| == |pds| == max + 1
    && (forall i :: 0 <= i < |regs| ==> regs[i].pfd == fds[i + 1])
    && (forall i :: 0 <= i < |regs| ==> regs[i].pd == pds[max - i])
  }

  /** Descriptors moved down and handlers up by one, from slot index on. */
  lemma SlotsMoved(max: nat, index: nat, was: seq<Reg>, f0: seq<PollFd>, p0: seq<PollD>,
                   now: seq<Reg>, f1: seq<PollFd>, p1: seq<PollD>)
    requires Slots(was, max, f0, p0) && Slots(now, max, f1, p1) && 1 <= index <= |was| == |now| + 1
    requires forall x :: index <= x < |was| ==> f1[x] == f0[x + 1]
    requires forall x :: 1 <= x < index ==> f1[x] == f0[x]
    requires forall x :: max + 1 - |was| < x <= max + 1 - index ==> p1[x] == p0[x - 1]
    requires forall x :: max + 1 - index < x <= max ==> p1[x] == p0[x]
    ensures now == Without(was, index - 1)
  {
    forall k | 0 <= k < |now|
      ensures now[k] == was[if k < index - 1 then k else k + 1]
    {
      assert now[k].pfd == f1[k + 1] && now[k].pd == p1[max - k];
    }
    WithoutIs(was, now, index - 1);
  }

  // ---------- the C structure ----------

  class Poll {
    const maxFd: nat
    /** Slot i is fds[i] and pds[maxFd + 1 - i]; slot 0 is not used. */
    const fds: array<PollFd>
    const pds: array<PollD>
    var nfds: nat

    ghost predicate Shape()
      reads this
    {
      fds.Length == pds.Length == maxFd + 1 && nfds <= maxFd
    }

    ghost function Regs(): (r: seq<Reg>)
      requires Shape()
      reads this, fds, pds
      ensures |r| == nfds
      ensures forall i :: 1 <= i <= nfds ==> r[i - 1] == Reg(fds[i], pds[maxFd + 1 - i])
    {
      seq(nfds, i requires 0 <= i < nfds && Shape() reads this, fds, pds => Reg(fds[i + 1], pds[maxFd - i]))
    }

    ghost predicate Valid()
      reads this, fds, pds
    {
      Shape() && FdsDistinct(Regs())
    }

    constructor (maxFd: int)
      ensures Valid() && Regs() == [] && fresh(fds) && fresh(pds)
      ensures this.maxFd == if maxFd <= 0 then 65534 else maxFd
    {
      var n := if maxFd <= 0 then 65535 else maxFd + 1;
      fds := new PollFd[n](_ => PollFd(0, 0, 0));
      pds := new PollD[n](_ => PollD(0, 0, 0));
      this.maxFd := n - 1;
      nfds := 0;
    }

    /** hp_lfind by descriptor, from slot 1. */
    method SearchFd(fd: int) returns (r: Option<nat>)
      requires Shape()
      ensures r == IndexOf(Regs(), fd)
    {
      var i := 1;
      ghost var regs := Regs();
      while i <= nfds
        invariant 1 <= i <= nfds + 1
        invariant forall j :: 0 <= j < i - 1 ==> regs[j].pfd.fd != fd
      {
        assert regs[i - 1].pfd == fds[i];
        if fds[i].fd == fd {
          IndexIs(regs, fd, i - 1);
          return Some(i - 1);
        }
        i := i + 1;
      }
      return None;
    }

    /** hp_poll_add */
    method AddFd(fd: int, events: int, pd: PollD) returns (rc: int)
      requires Valid()
      modifies this`nfds, fds, pds
      ensures Valid() && (Regs(), rc) == AddReg(old(Regs()), maxFd, fd, events, pd)
    {
      AddIsMapUpdate(Regs(), maxFd, fd, events, pd);
      if fd < 0 {
        return -1;
      }
      var found := SearchFd(fd);
      if found.Some? {
        Store(found.value + 1, fd, events, pd);
      } else {
        if nfds >= maxFd {
          return -2;
        }
        Append(fd, events, pd);
      }
      return 0;
    }

    method Append(fd: int, events: int, pd: PollD)
      requires Shape() && nfds < maxFd
      modifies this`nfds, fds, pds
      ensures Shape() && Regs() == old(Regs()) + [NewReg(fd, events, pd)]
    {
      nfds := nfds + 1;
      fds[nfds] := PollFd(fd, events, 0);
      pds[maxFd + 1 - nfds] := pd;
    }

    method Store(index: nat, fd: int, events: int, pd: PollD)
      requires Shape() && 1 <= index <= nfds
      modifies fds, pds
      ensures Regs() == old(Regs())[index - 1 := NewReg(fd, events, pd)]
    {
      fds[index] := PollFd(fd, events, 0);
      pds[maxFd + 1 - index] := pd;
    }

    /** hp_poll_rm_at: the handlers of the slots above move one place up in memory, through
        a copy, and their descriptors one place down. */
    method RemoveAt(index: nat)
      requires Shape() && 1 <= index <= nfds
      modifies this`nfds, fds, pds
      ensures Shape() && Regs() == Without(old(Regs()), index - 1)
    {
      ghost var was, f0, p0 := Regs(), fds[..], pds[..];
      if index < nfds {
        MoveHandlers(index);
        MoveFds(index);
      }
      nfds := nfds - 1;
      SlotsMoved(maxFd, index, was, f0, p0, Regs(), fds[..], pds[..]);
    }

    /** The memmove. */
    method MoveFds(index: nat)
      requires Shape() && 1 <= index < nfds
      modifies fds
      ensures forall x :: index <= x < nfds ==> fds[x] == old(fds[x + 1])
      ensures forall x :: 1 <= x < index ==> fds[x] == old(fds[x])
    {
      forall j | index <= j < nfds {
        fds[j] := fds[j + 1];
      }
    }

    /** The two memcpys through a copy. */
    method MoveHandlers(index: nat)
      requires Shape() && 1 <= index < nfds
      modifies pds
      ensures forall x :: maxFd + 1 - nfds < x <= maxFd + 1 - index ==> pds[x] == old(pds[x - 1])
      ensures forall x :: maxFd + 1 - index < x <= maxFd ==> pds[x] == old(pds[x])
    {
      var start, n := maxFd + 1 - nfds, nfds - index;
      var cpy := pds[start..start + n];
      forall j | 0 <= j < n {
        pds[start + 1 + j] := cpy[j];
      }
    }

    /** hp_poll_rm */
    method RemoveFd(fd: int) returns (rc: int)
      requires Valid()
      modifies this`nfds, fds, pds
      ensures Valid() && (Regs(), rc) == RmReg(old(Regs()), fd)
    {
      RmIsMapRemoval(Regs(), fd);
      var found := SearchFd(fd);
      if found.None? {
        return -1;
      }
      RemoveAt(found.value + 1);
      return 0;
    }

    /** hp_poll_find */
    method Find(matches: int -> bool) returns (r: Option<int>)
      requires Valid()
      ensures r == FindArg(Regs(), matches)
    {
      var i := 1;
      ghost var regs := Regs();
      while i <= nfds
        invariant 1 <= i <= nfds + 1
        invariant FindArg(regs, matches) == FindArg(regs[i - 1..], matches)
      {
        assert regs[i - 1..][1..] == regs[i..];
        if matches(pds[maxFd + 1 - i].arg) {
          return Some(pds[maxFd + 1 - i].arg);
        }
        i := i + 1;
      }
      return None;
    }

    /** get_next_to_run for "was polled". */
    method NextToRun(n: nat) returns (r: Option<nat>)
      requires Shape() && n <= nfds
      ensures r == FirstReady(Regs(), n)
    {
      var i := 1;
      ghost var regs := Regs();
      while i <= n
        invariant 1 <= i <= n + 1
        invariant forall j :: 0 <= j < i - 1 ==> regs[j].pfd.revents == 0
      {
        assert regs[i - 1].pfd == fds[i];
        if fds[i].revents != 0 {
          FirstIs(regs, n, i - 1);
          return Some(i - 1);
        }
        i := i + 1;
      }
      return None;
    }

    /** pfd->revents = 0, through a pointer to slot i that the handler was given. */
    method ClearReady(i: nat)
      requires Valid() && i < maxFd
      modifies fds
      ensures Valid() && Regs() == Wipe(old(Regs()), i)
    {
      ghost var regs := Regs();
      fds[i + 1] := fds[i + 1].(revents := 0);
      assert Regs() == Wipe(regs, i);
      if i < nfds {
        DistinctUpdate(regs, i, Quiet(regs[i]));
      }
    }

    /** It may register descriptors that are not registered. */
    method AddOthers() returns (ghost added: seq<Reg>)
      requires Valid()
      modifies this`nfds, fds, pds
      ensures Valid() && Regs() == old(Regs()) + added && Unready(added)
    {
      var more: int := *;
      ghost var regs := Regs();
      added := [];
      while more > 0
        invariant Valid() && Regs() == regs + added && Unready(added)
      {
        var fd, events, pd := *, *, *;
        var found := SearchFd(fd);
        if found.None? {
          var rc := AddFd(fd, events, pd);
          if rc == 0 {
            Assoc(regs, added, [NewReg(fd, events, pd)]);
            added := added + [NewReg(fd, events, pd)];
          }
        }
        more := more - 1;
      }
    }

    /** Takes out slot i, which the handler of slot i asks for. */
    method Leave(i: nat)
      requires Valid() && i < nfds
      modifies this`nfds, fds, pds
      ensures Valid() && Regs() == Without(old(Regs()), i)
    {
      DistinctWithout(Regs(), i);
      RemoveAt(i + 1);
    }

    /** A handler's dealings with its own slot, in one of the three orders; between a
        removal and the clearing it may add others. */
    method OwnSlot(i: nat) returns (ghost v: Visit)
      requires Valid() && i < nfds
      modifies this`nfds, fds, pds
      ensures Valid() && Unready(v.added) && Regs() == Visited(old(Regs()), i, v)
    {
      var leaves: bool, late: bool := *, *;
      if leaves && late {
        Leave(i);
        ghost var left := Regs();
        ghost var added := AddOthers();
        ClearReady(i);
        WipeLater(left, added, i);
        v := Visit(LeavesThenClears, added);
      } else {
        ClearReady(i);
        v := Visit(Stays, []);
        if leaves {
          Leave(i);
          v := Visit(ClearsThenLeaves, []);
        }
      }
    }

    /** A handler called for slot i: it clears that slot's revents, may remove its own
        descriptor before or after that, and may add others at any time. */
    method Handler(i: nat) returns (ghost v: Visit)
      requires Valid() && i < nfds
      modifies this`nfds, fds, pds
      ensures Valid() && Unready(v.added) && Regs() == Visited(old(Regs()), i, v)
    {
      ghost var regs := Regs();
      ghost var first := AddOthers();
      ghost var own := OwnSlot(i);
      SettleLater(regs, first, i, own.order);
      ghost var later := AddOthers();
      v := Visit(own.order, first + own.added + later);
      VisitAdds(Settle(regs, i, own.order), first, own.added, later);
    }

    /** One turn of the dispatch loop with slot i the first ready one: its handler is
        called if it is set, and nothing happens otherwise. */
    method Turn(i: nat) returns (ghost v: Visit)
      requires Valid() && FirstReady(Regs(), nfds) == Some(i)
      modifies this`nfds, fds, pds
      ensures Valid() && Unready(v.added) && Turned(old(Regs()), Regs())
      ensures old(Regs())[i].pd.fn != 0 ==> Regs() == Visited(old(Regs()), i, v)
    {
      v := Visit(Stays, []);
      if pds[maxFd - i].fn != 0 {
        v := Handler(i);
      }
    }

    /** The dispatch loop of hp_poll_run: repeatedly the first ready slot among those
        there were when poll returned. It ends, having called ready registrations in slot
        order and none twice; and all of them exactly if no handler wiped the next slot. */
    method Dispatch() returns (called: seq<int>, ghost visits: seq<Visit>)
      requires Valid() && Runnable(Regs(), nfds)
      modifies this`nfds, fds, pds
      ensures Valid() && QuietAdds(visits) && ReadyFds(Regs()) == []
      ensures called == CalledIn(old(Regs()), visits) && Regs() == LeftIn(old(Regs()), visits)
      ensures Part(called, ReadyFds(old(Regs()))) && Distinct(called)
      ensures called == ReadyFds(old(Regs())) <==> HitIn(old(Regs()), visits) == []
    {
      var n := nfds;
      called, visits := [], [];
      ghost var k: nat := nfds;
      ghost var start := Regs();
      while true
        invariant Valid() && k <= n && Runnable(Regs(), k)
        invariant QuietAdds(visits) && called == CalledIn(start, visits) && Regs() == LeftIn(start, visits)
        decreases |ReadyFds(Regs())|
      {
        ghost var regs := Regs();
        var next := NextToRun(if n < nfds then n else nfds);
        ScanAll(regs, if n < nfds then n else nfds);
        if next.None? {
          NoneReady(regs);
          RoundInOrder(start, visits);
          CalledOnce(start, visits);
          AllCalledIff(start, visits);
          return;
        }
        var fd := fds[next.value + 1].fd;
        ghost var v := Turn(next.value);
        VisitReady(regs, next.value, v);
        VisitRunnable(regs, next.value, v, k);
        RoundSnoc(start, visits, next.value, v);
        k := Behind(k, v.order);
        called, visits := called + [fd], visits + [v];
      }
    }
  }

  /** Scanning the first n slots is scanning all, if the others are not ready. */
  lemma {:induction false} ScanAll(regs: seq<Reg>, n: nat)
    requires n <= |regs| && forall i :: n <= i < |regs| ==> regs[i].pfd.revents == 0
    ensures FirstReady(regs, n) == FirstReady(regs, |regs|)
    ensures FirstReady(regs, n).None? ==> forall i :: 0 <= i < |regs| ==> regs[i].pfd.revents == 0
  {
    if n > 0 {
      ScanAll(regs[1..], n - 1);
    }
  }
}
