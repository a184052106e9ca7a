/** The circular doubly linked list of include/hp/klist.h. Every operation rewires the
    next and prev pointers of nodes that live inside other objects; what it does is
    stated on the sequence of nodes between a head and itself. */
module IntrusiveList {
  import opened Common

  class ListHead {
    var next: ListHead?
    var prev: ListHead?

    constructor ()
      ensures next == null && prev == null
    {
      next, prev := null, null;
    }
  }

  /** Neighbours in `c` point at each other. */
  ghost predicate Linked(c: seq<ListHead>)
    reads c
  {
    forall i, j :: 0 <= i && j == i + 1 < |c| ==> c[i].next == c[j] && c[j].prev == c[i]
  }

  function Cycle(h: ListHead, s: seq<ListHead>): seq<ListHead> { [h] + s + [h] }

  /** Going round from `h` one meets exactly the nodes `s`, in order, in both directions. */
  ghost predicate Ring(h: ListHead, s: seq<ListHead>)
    reads h, s
  {
    h !in s && Distinct(s) && Linked(Cycle(h, s))
  }

  /** INIT_LIST_HEAD */
  method Init(h: ListHead)
    modifies h
    ensures Ring(h, [])
  {
    h.next := h;
    h.prev := h;
  }

  /** __list_add */
  method InsertBetween(n: ListHead, prev: ListHead, next: ListHead,
                       ghost h: ListHead, ghost s: seq<ListHead>, ghost k: nat)
    requires Ring(h, s) && k <= |s| && prev == Cycle(h, s)[k] && next == Cycle(h, s)[k + 1]
    requires n != h && n !in s
    modifies n, h, s
    ensures Ring(h, s[..k] + [n] + s[k..])
  {
    ghost var c := Cycle(h, s);
    ghost var d := Cycle(h, s[..k] + [n] + s[k..]);
    next.prev := n;
    n.next := next;
    n.prev := prev;
    prev.next := n;
    assert d == c[..k + 1] + [n] + c[k + 1..];
    forall i, j | 0 <= i && j == i + 1 < |d|
      ensures d[i].next == d[j] && d[j].prev == d[i]
    {
      if i < k {
        assert old(c[i].next == c[j] && c[j].prev == c[i]);
      } else if i > k + 1 {
        assert old(c[i - 1].next == c[j - 1] && c[j - 1].prev == c[i - 1]);
      }
    }
  }

  /** klist_add: right after the head. */
  method Add(n: ListHead, h: ListHead, ghost s: seq<ListHead>)
    requires Ring(h, s) && n != h && n !in s
    modifies n, h, s
    ensures Ring(h, [n] + s)
  {
    assert Cycle(h, s)[0].next == Cycle(h, s)[1];
    InsertBetween(n, h, h.next, h, s, 0);
    assert s[..0] + [n] + s[0..] == [n] + s;
  }

  /** list_add_tail: right before the head. */
  method AddTail(n: ListHead, h: ListHead, ghost s: seq<ListHead>)
    requires Ring(h, s) && n != h && n !in s
    modifies n, h, s
    ensures Ring(h, s + [n])
  {
    assert Cycle(h, s)[|s|].next == Cycle(h, s)[|s| + 1];
    InsertBetween(n, h.prev, h, h, s, |s|);
    assert s[..|s|] + [n] + s[|s|..] == s + [n];
  }

  /** __list_del: the two nodes become neighbours. */
  method Unlink(prev: ListHead, next: ListHead, ghost h: ListHead, ghost s: seq<ListHead>, ghost k: nat)
    requires Ring(h, s) && k < |s| && prev == Cycle(h, s)[k] && next == Cycle(h, s)[k + 2]
    modifies prev`next, next`prev
    ensures Ring(h, Without(s, k))
  {
    ghost var c := Cycle(h, s);
    ghost var d := Cycle(h, Without(s, k));
    next.prev := prev;
    prev.next := next;
    assert d == c[..k + 1] + c[k + 2..];
    forall i, j | 0 <= i && j == i + 1 < |d|
      ensures d[i].next == d[j] && d[j].prev == d[i]
    {
      if i < k {
        assert old(c[i].next == c[j] && c[j].prev == c[i]);
      } else if i > k {
        assert old(c[i + 1].next == c[j + 1] && c[j + 1].prev == c[i + 1]);
      }
    }
  }

  /** list_del: removes the entry and clears its pointers. */
  method Delete(e: ListHead, ghost h: ListHead, ghost s: seq<ListHead>, ghost k: nat)
    requires Ring(h, s) && k < |s| && s[k] == e
    modifies h, s
    ensures Ring(h, Without(s, k)) && e.next == null && e.prev == null
  {
    Neighbours(h, s, k);
    Unlink(e.prev, e.next, h, s, k);
    e.next := null;
    e.prev := null;
  }

  lemma Neighbours(h: ListHead, s: seq<ListHead>, k: nat)
    requires Ring(h, s) && k < |s|
    ensures s[k].prev == Cycle(h, s)[k] && s[k].next == Cycle(h, s)[k + 2]
  {
    var c := Cycle(h, s);
    assert c[k].next == c[k + 1] && c[k + 1].prev == c[k];
    assert c[k + 1].next == c[k + 2];
  }

  /** list_del_init */
  method DeleteInit(e: ListHead, ghost h: ListHead, ghost s: seq<ListHead>, ghost k: nat)
    requires Ring(h, s) && k < |s| && s[k] == e
    modifies h, s
    ensures Ring(h, Without(s, k)) && Ring(e, [])
  {
    Neighbours(h, s, k);
    Unlink(e.prev, e.next, h, s, k);
    Init(e);
  }

  /** list_move within one list: the entry becomes the first. */
  method MoveToFront(e: ListHead, h: ListHead, ghost s: seq<ListHead>, ghost k: nat)
    requires Ring(h, s) && k < |s| && s[k] == e
    modifies h, s
    ensures Ring(h, [e] + Without(s, k))
  {
    Neighbours(h, s, k);
    Unlink(e.prev, e.next, h, s, k);
    Add(e, h, Without(s, k));
  }

  lemma InCycle(h: ListHead, s: seq<ListHead>, k: nat)
    requires k < |s| + 2
    ensures Cycle(h, s)[k] == h || Cycle(h, s)[k] in s
  {}

  /** list_move from one list to another. */
  method Move(e: ListHead, ghost from: ListHead, ghost s: seq<ListHead>, ghost k: nat,
              h: ListHead, ghost t: seq<ListHead>)
    requires Ring(from, s) && Ring(h, t) && Apart(from, s, h, t)
    requires k < |s| && s[k] == e
    modifies from, s, h, t
    ensures Ring(from, Without(s, k)) && Ring(h, [e] + t)
  {
    Neighbours(from, s, k);
    ghost var prev, next := e.prev, e.next;
    InCycle(from, s, k);
    InCycle(from, s, k + 2);
    Unlink(e.prev, e.next, from, s, k);
    assert forall i :: 0 <= i < |t| ==> t[i] != prev && t[i] != next;
    assert forall i :: 0 <= i < |Cycle(h, t)| ==> Cycle(h, t)[i] == h || Cycle(h, t)[i] in t;
    assert Linked(Cycle(h, t));
    ghost var rest := Without(s, k);
    Add(e, h, t);
    assert forall i :: 0 <= i < |Cycle(from, rest)| ==> Cycle(from, rest)[i] == from || Cycle(from, rest)[i] in rest;
    assert Linked(Cycle(from, rest));
  }

  ghost predicate Apart(h: ListHead, s: seq<ListHead>, g: ListHead, t: seq<ListHead>) {
    h != g && h !in t && g !in s && forall i, j :: 0 <= i < |s| && 0 <= j < |t| ==> s[i] != t[j]
  }

  /** list_empty */
  method IsEmpty(h: ListHead, ghost s: seq<ListHead>) returns (r: bool)
    requires Ring(h, s)
    ensures r <==> s == []
  {
    assert Cycle(h, s)[0].next == Cycle(h, s)[1];
    r := h.next == h;
  }

  /** __list_splice: the whole of `list` goes in front of what follows `h`. */
  method SpliceNonEmpty(list: ListHead, ghost s: seq<ListHead>, h: ListHead, ghost t: seq<ListHead>)
    requires Ring(list, s) && Ring(h, t) && Apart(list, s, h, t) && s != []
    modifies s, h, t
    ensures Ring(h, s + t) && list.next == old(list.next) && list.prev == old(list.prev)
  {
    ghost var a, b, d := Cycle(list, s), Cycle(h, t), Cycle(h, s + t);
    assert a[0].next == a[1] && a[|s|].next == a[|s| + 1] && b[0].next == b[1];
    var first, last, at := list.next, list.prev, h.next;
    assert first == s[0] && last == s[|s| - 1] && at == b[1];
    first.prev := h;
    h.next := first;
    last.next := at;
    at.prev := last;
    assert d == [h] + s + b[1..];
    assert forall i, j :: 0 <= i < |s| && 0 <= j < |t| ==> s[i] != t[j];
    forall i, j | 0 <= i && j == i + 1 < |d|
      ensures d[i].next == d[j] && d[j].prev == d[i]
    {
      if 0 < i < |s| {
        assert d[i] == a[i] && d[j] == a[j];
        assert old(a[i].next == a[j] && a[j].prev == a[i]);
      } else if i > |s| {
        assert d[i] == b[i - |s|] && d[j] == b[j - |s|];
        assert old(b[i - |s|].next == b[j - |s|] && b[j - |s|].prev == b[i - |s|]);
      }
    }
  }

  /** list_splice: afterwards `list` itself must not be used as a list, unless it was empty. */
  method Splice(list: ListHead, ghost s: seq<ListHead>, h: ListHead, ghost t: seq<ListHead>)
    requires Ring(list, s) && Ring(h, t) && Apart(list, s, h, t)
    modifies s, h, t
    ensures Ring(h, s + t)
  {
    var empty := IsEmpty(list, s);
    if !empty {
      SpliceNonEmpty(list, s, h, t);
    } else {
      assert s + t == t;
    }
  }

  /** list_splice_init: `list` ends up empty. */
  method SpliceInit(list: ListHead, ghost s: seq<ListHead>, h: ListHead, ghost t: seq<ListHead>)
    requires Ring(list, s) && Ring(h, t) && Apart(list, s, h, t)
    modifies list, s, h, t
    ensures Ring(h, s + t) && Ring(list, [])
  {
    var empty := IsEmpty(list, s);
    if !empty {
      SpliceNonEmpty(list, s, h, t);
      Init(list);
    } else {
      assert s + t == t;
    }
  }
}
