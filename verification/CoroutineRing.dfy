/** The intrusive ring primitives of servant/servant/CoroutineScheduler.h. */
module CoroutineRing {
  import opened SchedulerSpec

  class CoroutineInfo {
    var prev: CoroutineInfo?
    var next: CoroutineInfo?
    const uid: nat
    var status: Status

    constructor (uid: nat)
      ensures this.uid == uid && status == Free && prev == null && next == null
    {
      this.uid := uid;
      status := Free;
      prev, next := null, null;
    }
  }

  ghost predicate Distinct(q: seq<CoroutineInfo>) {
    forall i, j :: 0 <= i < j < |q| ==> q[i] != q[j]
  }

  /** Once round the ring, from the sentinel back to it. */
  ghost function Circle(h: CoroutineInfo, q: seq<CoroutineInfo>): seq<CoroutineInfo> {
    [h] + q + [h]
  }

  /** `h` is the sentinel of a circular doubly linked list that holds exactly `q`, in order. */
  ghost predicate Linked(h: CoroutineInfo, q: seq<CoroutineInfo>)
    reads h, q
  {
    h !in q && Distinct(q)
    && forall i :: 0 <= i <= |q| ==>
         Circle(h, q)[i].next == Circle(h, q)[i + 1] && Circle(h, q)[i + 1].prev == Circle(h, q)[i]
  }

  method CoroutineHeadInit(h: CoroutineInfo)
    modifies h
    ensures Linked(h, []) && h.status == old(h.status)
  {
    h.next := h;
    h.prev := h;
  }

  predicate CoroutineHeadEmpty(h: CoroutineInfo)
    reads h
  {
    h.next == h
  }

  lemma EmptyIff(h: CoroutineInfo, q: seq<CoroutineInfo>)
    requires Linked(h, q)
    ensures CoroutineHeadEmpty(h) <==> q == []
    ensures q != [] ==> h.next == q[0]
  {
    assert Circle(h, q)[0].next == Circle(h, q)[1];
    if q != [] { assert Circle(h, q)[1] == q[0]; }
  }

  /** CoroutineAddTail: the new node stands between the old last one and the sentinel. */
  method CoroutineAddTail(c: CoroutineInfo, h: CoroutineInfo, ghost q: seq<CoroutineInfo>)
    requires Linked(h, q) && c != h && c !in q
    modifies c, h, q
    ensures Linked(h, q + [c])
    ensures forall o: CoroutineInfo :: o == c || o == h || o in q ==> o.status == old(o.status)
  {
    ghost var n := |q|;
    ghost var r := Circle(h, q);
    assert r[n].next == r[n + 1] && r[n + 1].prev == r[n];
    assert r[n + 1] == h && r[n] == if n == 0 then h else q[n - 1];
    var last := h.prev;
    h.prev := c;
    c.next := h;
    c.prev := last;
    last.next := c;
    ghost var r' := Circle(h, q + [c]);
    forall i | 0 <= i <= n + 1
      ensures r'[i].next == r'[i + 1] && r'[i + 1].prev == r'[i]
    {
      if i < n {
        assert r'[i] == r[i] && r'[i + 1] == r[i + 1];
        assert old(r[i].next) == r[i + 1] && old(r[i + 1].prev) == r[i];
      }
    }
  }

  /** CoroutineDel: its neighbours are joined, and its own pointers cleared. */
  method CoroutineDel(c: CoroutineInfo, ghost h: CoroutineInfo, ghost q: seq<CoroutineInfo>, ghost at: nat)
    requires Linked(h, q) && at < |q| && q[at] == c
    modifies h, q
    ensures Linked(h, q[..at] + q[at + 1..]) && c.next == null && c.prev == null
    ensures h.status == old(h.status) && forall k :: 0 <= k < |q| ==> q[k].status == old(q[k].status)
  {
    ghost var n := |q|;
    ghost var r := Circle(h, q);
    assert r[at].next == r[at + 1] && r[at + 1].prev == r[at];
    assert r[at + 1].next == r[at + 2] && r[at + 2].prev == r[at + 1];
    assert r[at + 1] == c;
    var p, x := c.prev, c.next;
    x.prev := p;
    p.next := x;
    c.next := null;
    c.prev := null;
    ghost var q' := q[..at] + q[at + 1..];
    ghost var r' := Circle(h, q');
    forall i | 0 <= i <= n - 1
      ensures r'[i].next == r'[i + 1] && r'[i + 1].prev == r'[i]
    {
      if i < at {
        assert r'[i] == r[i] && r'[i + 1] == r[i + 1];
        assert old(r[i].next) == r[i + 1] && old(r[i + 1].prev) == r[i];
      } else if i == at {
        assert r'[i] == r[at] && r'[i + 1] == r[at + 2];
      } else {
        assert r'[i] == r[i + 1] && r'[i + 1] == r[i + 2];
        assert old(r[i + 1].next) == r[i + 2] && old(r[i + 2].prev) == r[i + 1];
      }
    }
  }
}
