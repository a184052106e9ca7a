/** The epoll registry of src/hp_epoll.c: a table of pointers to registrations, mirrored
    by the kernel's interest set, which holds the same pointers. */
module EpollRegistry {
  import opened Common

  /** hp_epolld; the handler fields change, the descriptor does not. */
  class Epolld {
    const fd: int
    var fn: int
    var onLoop: int
    var arg: int

    constructor (fd: int, fn: int, onLoop: int, arg: int)
      ensures this.fd == fd && this.fn == fn && this.onLoop == onLoop && this.arg == arg
    {
      this.fd, this.fn, this.onLoop, this.arg := fd, fn, onLoop, arg;
    }
  }

  // ---------- table and kernel ----------

  /** - table: ed[0..ev_len)
      - kernel: the interest set, descriptor to data pointer
      - live: registrations allocated and not freed
      - max: max_ev_len */
  datatype State = State(table: seq<Epolld>, kernel: map<int, Epolld>, live: set<Epolld>, max: nat)

  ghost predicate FdsDistinct(t: seq<Epolld>) {
    forall i, j :: 0 <= i < j < |t| ==> t[i].fd != t[j].fd
  }

  /** The kernel watches exactly the table's descriptors, with the table's pointers, all
      of them to live registrations. */
  ghost predicate Agree(s: State) {
    && |s.table| <= s.max && FdsDistinct(s.table)
    && s.kernel == KernelOf(s.table)
    && forall i :: 0 <= i < |s.table| ==> s.table[i] in s.live
  }

  /** The interest set a table stands for. */
  function KernelOf(t: seq<Epolld>): map<int, Epolld> {
    if t == [] then map[] else KernelOf(t[..|t| - 1])[t[|t| - 1].fd := t[|t| - 1]]
  }

  function IndexOf(t: seq<Epolld>, fd: int): (r: Option<nat>)
    ensures r.Some? ==> r.value < |t| && t[r.value].fd == fd
    ensures r.None? ==> forall i :: 0 <= i < |t| ==> t[i].fd != fd
  {
    if t == [] then None
    else if t[0].fd == fd then Some(0)
    else match IndexOf(t[1..], fd) case None => None case Some(i) => Some(i + 1)
  }

  ghost predicate FirstMatch(t: seq<Epolld>, matches: int -> bool, i: nat)
    requires i < |t|
    reads set d | d in t
  {
    matches(t[i].arg) && forall j :: 0 <= j < i ==> !matches(t[j].arg)
  }

  lemma {:induction false} KernelHas(t: seq<Epolld>)
    requires FdsDistinct(t)
    ensures |KernelOf(t)| == |t|
    ensures forall fd :: fd in KernelOf(t) <==> exists i :: 0 <= i < |t| && t[i].fd == fd
    ensures forall i :: 0 <= i < |t| ==> t[i].fd in KernelOf(t) && KernelOf(t)[t[i].fd] == t[i]
  {
    if t != [] {
      var n := |t| - 1;
      KernelHas(t[..n]);
      assert forall i :: 0 <= i < n ==> t[..n][i] == t[i];
      assert t[n].fd !in KernelOf(t[..n]);
    }
  }

  lemma {:induction false} KernelWithout(t: seq<Epolld>, i: nat)
    requires FdsDistinct(t) && i < |t|
    ensures KernelOf(Without(t, i)) == KernelOf(t) - {t[i].fd}
  {
    var n := |t| - 1;
    if i < n {
      KernelWithout(t[..n], i);
      assert Without(t, i)[..n - 1] == Without(t[..n], i);
      assert Without(t, i)[n - 1] == t[n];
    } else {
      KernelHas(t[..n]);
      assert Without(t, i) == t[..n];
      assert forall j :: 0 <= j < n ==> t[..n][j] == t[j];
    }
  }

  // ---------- steps ----------

  /** - Register: hp_epoll_add of a descriptor not in the table; `ok` is the kernel's answer
      - Again: hp_epoll_add of one that is
      - Remove: hp_epoll_rm
      - Close: the application closes a descriptor, and the kernel forgets it */
  datatype Action = Register(p: Epolld, ok: bool) | Again(fd: int) | Remove(fd: int) | Close(fd: int)

  /** Descriptors are removed before they are closed. */
  ghost predicate Enabled(s: State, a: Action) {
    match a
    case Register(p, ok) => IndexOf(s.table, p.fd).None? && |s.table| < s.max && p !in s.live
    case Again(fd) => IndexOf(s.table, fd).Some?
    case Remove(fd) => true
    case Close(fd) => IndexOf(s.table, fd).None?
  }

  /** An entry whose EPOLL_CTL_ADD fails is leaked, not registered. */
  ghost function After(s: State, a: Action): State {
    match a
    case Register(p, ok) =>
      if ok then s.(table := s.table + [p], kernel := s.kernel[p.fd := p], live := s.live + {p})
      else s.(live := s.live + {p})
    case Again(fd) => s
    case Remove(fd) =>
      (match IndexOf(s.table, fd)
       case None => s.(kernel := s.kernel - {fd})
       case Some(i) => s.(table := Without(s.table, i), kernel := s.kernel - {fd}, live := s.live - {s.table[i]}))
    case Close(fd) => s.(kernel := s.kernel - {fd})
  }

  lemma AfterAgrees(s: State, a: Action)
    requires Agree(s) && Enabled(s, a)
    ensures Agree(After(s, a))
  {
    KernelHas(s.table);
    match a
    case Register(p, ok) => assert (s.table + [p])[..|s.table|] == s.table;
    case Again(fd) =>
    case Remove(fd) => RemoveAgrees(s, fd);
    case Close(fd) => assert s.kernel - {fd} == s.kernel;
  }

  lemma NotWatched(s: State, fd: int)
    requires Agree(s) && IndexOf(s.table, fd).None?
    ensures fd !in s.kernel
  {
    KernelHas(s.table);
  }

  /** The kernel has this pointer for its descriptor. */
  lemma WatchedAgain(s: State, p: Epolld)
    requires Agree(s) && p in s.table
    ensures p.fd in s.kernel && s.kernel[p.fd := p] == s.kernel
  {
    KernelHas(s.table);
  }

  lemma RemoveAgrees(s: State, fd: int)
    requires Agree(s)
    ensures Agree(After(s, Remove(fd)))
  {
    match IndexOf(s.table, fd)
    case None =>
      KernelHas(s.table);
      assert s.kernel - {fd} == s.kernel;
    case Some(i) =>
      KernelWithout(s.table, i);
      WithoutRegistered(s.table, s.live, i);
  }

  /** The other registrations are distinct and live, and are not the one taken out. */
  lemma WithoutRegistered(t: seq<Epolld>, live: set<Epolld>, i: nat)
    requires FdsDistinct(t) && i < |t| && forall j :: 0 <= j < |t| ==> t[j] in live
    ensures FdsDistinct(Without(t, i))
    ensures forall j :: 0 <= j < |t| - 1 ==> Without(t, i)[j] in live - {t[i]}
  {
    var w := Without(t, i);
    forall j | 0 <= j < |w|
      ensures w[j] in live - {t[i]}
    {
      assert w[j] == t[if j < i then j else j + 1];
    }
  }

  function Start(max: nat): State { State([], map[], {}, max) }

  ghost predicate Runs(s: State, acts: seq<Action>)
    decreases |acts|
  {
    acts == [] || (Enabled(s, acts[0]) && Runs(After(s, acts[0]), acts[1..]))
  }

  ghost function Final(s: State, acts: seq<Action>): State
    decreases |acts|
  {
    if acts == [] then s else Final(After(s, acts[0]), acts[1..])
  }

  lemma {:induction false} RunAgrees(s: State, acts: seq<Action>)
    requires Agree(s) && Runs(s, acts)
    ensures Agree(Final(s, acts)) && Final(s, acts).max == s.max
    decreases |acts|
  {
    if acts != [] {
      AfterAgrees(s, acts[0]);
      RunAgrees(After(s, acts[0]), acts[1..]);
    }
  }

  // ---------- what a run promises ----------

  /** What epoll_wait may report: different registrations of the interest set, at most
      as many as asked for. */
  ghost predicate Batch(s: State, asked: nat, ev: seq<int>) {
    && |ev| <= asked && (forall i :: 0 <= i < |ev| ==> ev[i] in s.kernel)
    && forall i, j :: 0 <= i < j < |ev| ==> ev[i] != ev[j]
  }

  lemma {:induction false} DistinctFits(ev: seq<int>, keys: set<int>)
    requires (forall i :: 0 <= i < |ev| ==> ev[i] in keys) && forall i, j :: 0 <= i < j < |ev| ==> ev[i] != ev[j]
    ensures |ev| <= |keys|
  {
    if ev != [] {
      var n := |ev| - 1;
      DistinctFits(ev[..n], keys - {ev[n]});
    }
  }

  /** For every run that removes descriptors before closing them: the kernel's interest
      set is the table; an ADD of a descriptor not in the table cannot find it already
      there, so the branch marked as unreachable is; and although one more event than
      registered is asked for, what epoll_wait reports fits the buffer and every pointer
      in it is to a live registration. */
  lemma TableAndKernelAgree(max: nat, acts: seq<Action>, fd: int, ev: seq<int>)
    requires Runs(Start(max), acts)
    requires Batch(Final(Start(max), acts), |Final(Start(max), acts).table| + 1, ev)
    ensures var s := Final(Start(max), acts);
            && s.kernel == KernelOf(s.table)
            && (IndexOf(s.table, fd).None? ==> fd !in s.kernel)
            && |ev| <= |s.table| <= max
            && forall i :: 0 <= i < |ev| ==>
                             ev[i] in s.kernel && s.kernel[ev[i]] in s.live && s.kernel[ev[i]].fd == ev[i]
  {
    RunAgrees(Start(max), acts);
    var s := Final(Start(max), acts);
    KernelHas(s.table);
    DistinctFits(ev, s.kernel.Keys);
    assert |s.kernel.Keys| == |s.kernel|;
    forall i | 0 <= i < |ev|
      ensures ev[i] in s.kernel && s.kernel[ev[i]] in s.live && s.kernel[ev[i]].fd == ev[i]
    {
      var j :| 0 <= j < |s.table| && s.table[j].fd == ev[i];
      assert s.kernel[s.table[j].fd] == s.table[j];
    }
  }

  /** Exactly when closing a descriptor is safe: the table and the kernel still agree if
      and only if it was not registered. */
  lemma CloseAgreesIff(s: State, fd: int)
    requires Agree(s)
    ensures Agree(After(s, Close(fd))) <==> IndexOf(s.table, fd).None?
  {
    KernelHas(s.table);
    if IndexOf(s.table, fd).None? {
      assert s.kernel - {fd} == s.kernel;
    } else {
      assert fd in KernelOf(s.table);
    }
  }

  lemma IndexIs(t: seq<Epolld>, fd: int, i: nat)
    requires i < |t| && t[i].fd == fd && forall j :: 0 <= j < i ==> t[j].fd != fd
    ensures IndexOf(t, fd) == Some(i)
  {
    if i > 0 {
      IndexIs(t[1..], fd, i - 1);
    }
  }

  // ---------- the C structure ----------

  const ENOMEM := 12
  const EEXIST := 17

  class Epoll {
    const ed: array<Epolld?>
    var evLen: nat
    /** The kernel's interest set, and what malloc and free have done. */
    var kernel: map<int, Epolld>
    /** The events the kernel reports for each watched descriptor. */
    var masks: map<int, int>
    ghost var live: set<Epolld>

    ghost predicate Shape()
      reads this, ed
    {
      evLen <= ed.Length && forall i :: 0 <= i < evLen ==> ed[i] != null
    }

    ghost function Table(): (r: seq<Epolld>)
      requires Shape()
      reads this, ed
      ensures |r| == evLen && forall i :: 0 <= i < evLen ==> r[i] == ed[i]
    {
      ed[..evLen]
    }

    ghost function View(): State
      requires Shape()
      reads this, ed
    {
      State(Table(), kernel, live, ed.Length)
    }

    ghost predicate Valid()
      reads this, ed
    {
      Shape() && Agree(View()) && masks.Keys == kernel.Keys
    }

    constructor (maxEvLen: int)
      ensures Valid() && fresh(ed) && View() == Start(if maxEvLen <= 0 then 65535 else maxEvLen)
    {
      ed := new Epolld?[if maxEvLen <= 0 then 65535 else maxEvLen](_ => null);
      evLen, kernel, masks, live := 0, map[], map[], {};
    }

    method SearchFd(fd: int) returns (r: Option<nat>)
      requires Shape()
      ensures r == IndexOf(Table(), fd)
    {
      var i := 0;
      ghost var t := Table();
      while i < evLen
        invariant i <= evLen
        invariant forall j :: 0 <= j < i ==> t[j].fd != fd
      {
        assert t[i] == ed[i];
        if ed[i].fd == fd {
          IndexIs(t, fd, i);
          return Some(i);
        }
        i := i + 1;
      }
      return None;
    }

    /** EPOLL_CTL_ADD: EEXIST if and only if the descriptor is watched; otherwise it is
        done if the kernel accepts it. */
    method CtlAdd(p: Epolld, events: int, accepts: bool) returns (errno: int)
      modifies this`kernel, this`masks
      ensures errno == EEXIST <==> p.fd in old(kernel)
      ensures errno == 0 <==> p.fd !in old(kernel) && accepts
      ensures kernel == if errno == 0 then old(kernel)[p.fd := p] else old(kernel)
      ensures masks == if errno == 0 then old(masks)[p.fd := events] else old(masks)
    {
      if p.fd in kernel {
        return EEXIST;
      }
      if !accepts {
        errno := *;
        return if errno in {0, EEXIST} then ENOMEM else errno;
      }
      kernel, masks := kernel[p.fd := p], masks[p.fd := events];
      return 0;
    }

    /** EPOLL_CTL_MOD with a pointer: done if the descriptor is watched and the kernel
        accepts it. */
    method CtlMod(fd: int, p: Epolld, events: int, accepts: bool) returns (errno: int)
      modifies this`kernel, this`masks
      ensures errno == 0 <==> fd in old(kernel) && accepts
      ensures kernel == if errno == 0 then old(kernel)[fd := p] else old(kernel)
      ensures masks == if errno == 0 then old(masks)[fd := events] else old(masks)
    {
      if fd in kernel && accepts {
        kernel, masks := kernel[fd := p], masks[fd := events];
        return 0;
      }
      errno := *;
      return if errno == 0 then ENOMEM else errno;
    }

    /** hp_epoll_add, with a kernel that accepts what it is asked or does not. -1 is for
        an invalid descriptor only. A known one gets the new handler, and the new events
        unless the kernel refuses (-3). A new one is in table, kernel and masks afterwards
        exactly if there was room and the kernel accepted it; otherwise -2. */
    method AddFd(fd: int, events: int, fn: int, onLoop: int, arg: int, accepts: bool) returns (rc: int, p: Epolld?)
      requires Valid()
      modifies this`evLen, this`kernel, this`masks, this`live, ed, set q | q in Table() && q.fd == fd
      ensures Valid()
      ensures rc == -1 <==> fd < 0
      ensures fd >= 0 && IndexOf(old(Table()), fd).Some? ==> rc == if accepts then 0 else -3
      ensures fd >= 0 && IndexOf(old(Table()), fd).None? ==>
                rc == if |old(Table())| < ed.Length && accepts then 0 else -2
      ensures rc in {0, -3} ==> Registered(p, fd, fn, onLoop, arg)
      ensures rc == 0 && IndexOf(old(Table()), fd).None? ==>
                Table() == old(Table()) + [p] && kernel == old(kernel)[fd := p] && live == old(live) + {p}
      ensures rc != 0 || IndexOf(old(Table()), fd).Some? ==> Table() == old(Table()) && kernel == old(kernel)
      ensures rc != 0 ==> live == old(live) + if p == null || rc != -2 then {} else {p}
      ensures masks == if rc == 0 then old(masks)[fd := events] else old(masks)
      ensures rc == -2 ==> (p == null <==> |old(Table())| == ed.Length)
    {
      if fd < 0 {
        return -1, null;
      }
      var found := SearchFd(fd);
      if found.None? {
        rc, p := EnterNew(fd, events, fn, onLoop, arg, accepts);
      } else {
        p := ed[found.value];
        assert Table()[found.value] == p;
        rc := Update(p, events, fn, onLoop, arg, accepts);
      }
    }

    /** hp_epoll_add for a known descriptor. */
    method Update(p: Epolld, events: int, fn: int, onLoop: int, arg: int, accepts: bool) returns (rc: int)
      requires Valid() && p in Table()
      modifies this`kernel, this`masks, p
      ensures Valid() && kernel == old(kernel) && rc == if accepts then 0 else -3
      ensures p.fn == fn && p.onLoop == onLoop && p.arg == arg
      ensures masks == if rc == 0 then old(masks)[p.fd := events] else old(masks)
    {
      p.fn, p.arg, p.onLoop := fn, arg, onLoop;
      rc := Rewatch(p, events, accepts);
    }

    /** The table has this registration, with this handler. */
    ghost predicate Registered(p: Epolld?, fd: int, fn: int, onLoop: int, arg: int)
      requires Shape()
      reads this, ed, p
    {
      p != null && p in Table() && p.fd == fd && p.fn == fn && p.onLoop == onLoop && p.arg == arg
    }

    /** hp_epoll_add for a descriptor that is not in the table. */
    method EnterNew(fd: int, events: int, fn: int, onLoop: int, arg: int, accepts: bool)
      returns (rc: int, p: Epolld?)
      requires Valid() && IndexOf(Table(), fd).None?
      modifies this`evLen, this`kernel, this`masks, this`live, ed
      ensures Valid() && (p == null || fresh(p))
      ensures p == null <==> |old(Table())| == ed.Length
      ensures rc == if p != null && accepts then 0 else -2
      ensures View() == if p == null then old(View()) else After(old(View()), Register(p, accepts))
      ensures p != null ==> p.fd == fd
      ensures rc == 0 ==> Registered(p, fd, fn, onLoop, arg)
      ensures masks == if rc == 0 then old(masks)[fd := events] else old(masks)
    {
      if evLen >= ed.Length {
        return -2, null;
      }
      var fresher := new Epolld(fd, fn, onLoop, arg);
      rc := Enter(fresher, events, accepts);
      return rc, fresher;
    }

    /** EPOLL_CTL_MOD with the pointer the kernel has. */
    method Rewatch(p: Epolld, events: int, accepts: bool) returns (rc: int)
      requires Valid() && p in Table()
      modifies this`kernel, this`masks
      ensures Valid() && kernel == old(kernel) && rc == if accepts then 0 else -3
      ensures masks == if rc == 0 then old(masks)[p.fd := events] else old(masks)
    {
      ghost var s := View();
      WatchedAgain(s, p);
      var errno := CtlMod(p.fd, p, events, accepts);
      rc := if errno == 0 then 0 else -3;
      assert kernel == s.kernel && View() == s;
    }

    /** The part of hp_epoll_add for a new descriptor. */
    method Enter(p: Epolld, events: int, accepts: bool) returns (rc: int)
      requires Valid() && IndexOf(Table(), p.fd).None? && evLen < ed.Length && p !in live
      modifies this`evLen, this`kernel, this`masks, this`live, ed
      ensures Valid() && rc == (if accepts then 0 else -2)
      ensures View() == After(old(View()), Register(p, accepts))
      ensures masks == if rc == 0 then old(masks)[p.fd := events] else old(masks)
    {
      ghost var s := View();
      NotWatched(s, p.fd);
      live := live + {p};
      var errno := CtlAdd(p, events, accepts);
      if errno == 0 {
        Store(p);
        AfterAgrees(s, Register(p, true));
        assert View() == After(s, Register(p, true));
        return 0;
      } else if errno != EEXIST {
        AfterAgrees(s, Register(p, false));
        assert View() == After(s, Register(p, false));
        return -2;
      }
      // the branch marked "should NOT come here"
      assert false;
    }

    /** hp_epoll_rm */
    method RemoveFd(fd: int) returns (rc: int)
      requires Valid()
      modifies this`evLen, this`kernel, this`masks, this`live, ed
      ensures Valid() && View() == After(old(View()), Remove(fd)) && masks == old(masks) - {fd}
      ensures rc == if IndexOf(old(Table()), fd).Some? then 0 else -2
      ensures live == if rc == 0 then old(live) - {old(Table())[IndexOf(old(Table()), fd).value]} else old(live)
    {
      ghost var s := View();
      RemoveAgrees(s, fd);
      var found := SearchFd(fd);
      kernel, masks := kernel - {fd}, masks - {fd};
      if found.None? {
        return -2;
      }
      var index := found.value;
      live := live - {s.table[index]};
      ShiftDown(index);
      return 0;
    }

    /** The memmove of hp_epoll_rm. */
    method ShiftDown(index: nat)
      requires Shape() && index < evLen
      modifies this`evLen, ed
      ensures Shape() && Table() == Without(old(Table()), index)
    {
      ghost var t := Table();
      if index + 1 < evLen {
        forall i | index <= i < evLen - 1 {
          ed[i] := ed[i + 1];
        }
      }
      evLen := evLen - 1;
      assert Table() == Without(t, index);
    }

    /** Stores a pointer in the next slot. */
    method Store(p: Epolld)
      requires Shape() && evLen < ed.Length
      modifies this`evLen, ed
      ensures Shape() && Table() == old(Table()) + [p]
    {
      ghost var t := Table();
      ed[evLen] := p;
      evLen := evLen + 1;
      assert Table() == t + [p];
    }

    /** hp_epoll_find: the argument of the first entry that matches. */
    method Find(matches: int -> bool) returns (r: Option<int>)
      requires Valid()
      ensures r.Some? ==> (exists i :: 0 <= i < evLen && FirstMatch(Table(), matches, i) && Table()[i].arg == r.value)
      ensures r.None? ==> forall i :: 0 <= i < evLen ==> !matches(Table()[i].arg)
    {
      var i := 0;
      while i < evLen
        invariant i <= evLen && forall j :: 0 <= j < i ==> !matches(Table()[j].arg)
      {
        if matches(ed[i].arg) {
          assert Table()[i].arg == ed[i].arg;
          return Some(ed[i].arg);
        }
        i := i + 1;
      }
      return None;
    }
  }
}
