/** TC_LoopQueue (util/include/tc_loop_queue.h) used by one thread at a time. */
module LoopQueues {

  /** How far slot `b` is ahead of slot `e`, going round a ring of n slots. */
  function Ahead(n: nat, e: nat, b: nat): nat
    requires e < n && b < n
  {
    if b >= e then b - e else b + n - e
  }

  /** The slot k places after slot e. */
  function Slot(n: nat, e: nat, k: nat): nat {
    if e + k < n then e + k else e + k - n
  }

  function After(n: nat, i: nat): nat
    requires i < n
  {
    if i == n - 1 then 0 else i + 1
  }

  /** The test of push_back, for `iEnd` as the producer last read it; `_iCapacity - 2` is a uint32_t. */
  predicate LooksFull(n: nat, iEnd: nat, iBegin: nat)
    requires n > 0
  {
    (iEnd > iBegin && iEnd - iBegin < 2) || (iBegin > iEnd && iBegin - iEnd > (n - 2) % 0x1_0000_0000)
  }

  /** The test of the bulk push_back. */
  predicate LooksTooSmall(n: nat, iEnd: nat, iBegin: nat, count: nat)
    requires n > 0
  {
    count > n - 1 || (iEnd > iBegin && iEnd - iBegin < count + 1) || (iBegin > iEnd && iBegin - iEnd > n - count - 1)
  }

  lemma FullMeans(n: nat, iEnd: nat, iBegin: nat)
    requires 0 < n <= 1000000 && iEnd < n && iBegin < n
    ensures n > 1 ==> (LooksFull(n, iEnd, iBegin) <==> Ahead(n, iEnd, iBegin) == n - 1)
    ensures n == 1 ==> !LooksFull(n, iEnd, iBegin)
  {
  }

  lemma TooSmallMeans(n: nat, iEnd: nat, iBegin: nat, count: nat)
    requires n > 0 && iEnd < n && iBegin < n
    ensures LooksTooSmall(n, iEnd, iBegin, count) <==> Ahead(n, iEnd, iBegin) + count > n - 1
  {
  }

  class LoopQueue<T(0)> {
    const p: array<T>
    const iCapacity: nat
    const iCapacitySub: nat
    var iBegin: nat
    var iEnd: nat

    ghost predicate Valid()
      reads this
    {
      0 < iCapacity <= 1000000 && iCapacitySub == iCapacity - 1 && p.Length == iCapacity
      && iBegin < iCapacity && iEnd < iCapacity
    }

    /** The queued items, oldest first. */
    ghost function Contents(): (s: seq<T>)
      requires Valid()
      reads this, p
      ensures |s| == Ahead(iCapacity, iEnd, iBegin)
    {
      if iBegin >= iEnd then p[iEnd..iBegin] else p[iEnd..] + p[..iBegin]
    }

    constructor (iSize: nat)
      requires iSize < 1000000
      ensures Valid() && Contents() == [] && iCapacitySub == iSize && fresh(p)
    {
      iBegin, iEnd := 0, 0;
      iCapacitySub := iSize;
      iCapacity := iSize + 1;
      p := new T[iSize + 1];
    }

    function Size(): (n: nat)
      requires Valid()
      reads this, p
      ensures n == |Contents()|
    {
      if iBegin < iEnd then iBegin + iCapacity - iEnd else iBegin - iEnd
    }

    /**
     * push_back(t, bEmpty). A queue made with iSize 0 accepts every item and keeps none; any other
     * accepts exactly when fewer than iSize items are queued.
     */
    method PushBack(t: T) returns (ok: bool, bEmpty: bool)
      requires Valid()
      modifies this`iBegin, p
      ensures Valid()
      ensures ok <==> iCapacitySub == 0 || |old(Contents())| < iCapacitySub
      ensures Contents() == if ok && iCapacitySub > 0 then old(Contents()) + [t] else old(Contents())
      ensures bEmpty <==> ok && old(Contents()) == []
    {
      bEmpty := false;
      FullMeans(iCapacity, iEnd, iBegin);
      var end := iEnd;
      if (end > iBegin && end - iBegin < 2) || (iBegin > end && iBegin - end > (iCapacity - 2) % 0x1_0000_0000) {
        return false, false;
      }
      if iEnd == iBegin { bEmpty := true; }
      Append(t);
      if !bEmpty && Size() == 1 { bEmpty := true; }
      ok := true;
    }

    /** Writes slot _iBegin and advances the index; with room to spare the item joins the queue. */
    method Append(t: T)
      requires Valid()
      modifies this`iBegin, p
      ensures Valid()
      ensures |old(Contents())| < iCapacitySub ==> Contents() == old(Contents()) + [t]
      ensures iCapacitySub == 0 ==> Contents() == []
    {
      p[iBegin] := t;
      if iBegin == iCapacitySub { iBegin := 0; } else { iBegin := iBegin + 1; }
    }

    /** push_back(vt): all of the items or none. */
    method PushAll(vt: seq<T>) returns (ok: bool)
      requires Valid()
      modifies this`iBegin, p
      ensures Valid()
      ensures ok <==> |old(Contents())| + |vt| <= iCapacitySub
      ensures Contents() == if ok then old(Contents()) + vt else old(Contents())
    {
      hide LooksTooSmall, Contents;
      TooSmallMeans(iCapacity, iEnd, iBegin, |vt|);
      if LooksTooSmall(iCapacity, iEnd, iBegin, |vt|) { return false; }
      var i := 0;
      while i < |vt|
        invariant 0 <= i <= |vt| && Valid()
        invariant |old(Contents())| + |vt| <= iCapacitySub
        invariant Contents() == old(Contents()) + vt[..i]
      {
        Append(vt[i]);
        assert vt[..i + 1] == vt[..i] + [vt[i]];
        i := i + 1;
      }
      ok := true;
    }

    method PopFront(t: T) returns (ok: bool, r: T)
      requires Valid()
      modifies this`iEnd
      ensures Valid() && ok == (old(Contents()) != [])
      ensures ok ==> old(Contents()) == [r] + Contents()
      ensures !ok ==> r == t && Contents() == old(Contents())
    {
      if iEnd == iBegin { return false, t; }
      r := p[iEnd];
      if iEnd == iCapacitySub { iEnd := 0; } else { iEnd := iEnd + 1; }
      ok := true;
    }

    method GetFront(t: T) returns (ok: bool, r: T)
      requires Valid()
      ensures ok == (Contents() != [])
      ensures r == if ok then Contents()[0] else t
    {
      if iEnd == iBegin { return false, t; }
      r := p[iEnd];
      ok := true;
    }
  }
}
