/**
 * TC_Monitor (util/include/tc_monitor.h): a mutex and a condition variable whose notifications are
 * counted in _nnotify while the lock is held and delivered when it is given up.
 */
module Monitors {

  type Thread = nat

  /** How many of `waiting` threads notifyImpl(n) wakes. */
  function WokenBy(n: int, waiting: nat): (k: nat)
    ensures n == -1 ==> k == waiting
    ensures 0 <= n <= waiting ==> k == n
    ensures n > waiting ==> k == waiting
  {
    if n == -1 || n > waiting then waiting else if n < 0 then 0 else n
  }

  class Monitor {
    var nnotify: int
    var owner: set<Thread>   // the thread holding _mutex, if any
    var waiting: set<Thread> // blocked in _cond
    var ready: set<Thread>   // woken, still to take _mutex again

    ghost predicate Valid()
      reads this
    {
      nnotify >= -1 && |owner| <= 1 && waiting !! ready && owner !! waiting && owner !! ready
    }

    constructor ()
      ensures Valid() && nnotify == 0 && owner == {} && waiting == {} && ready == {}
    {
      nnotify := 0;
      owner, waiting, ready := {}, {}, {};
    }

    /** lock(): possible when nobody holds the mutex; forgets notifications never delivered. */
    method Lock(t: Thread)
      requires Valid() && owner == {} && t !in waiting && t !in ready
      modifies this`owner, this`nnotify
      ensures Valid() && owner == {t} && nnotify == 0
    {
      owner := {t};
      nnotify := 0;
    }

    method Notify(t: Thread)
      requires Valid() && owner == {t}
      modifies this`nnotify
      ensures Valid() && nnotify == if old(nnotify) == -1 then -1 else old(nnotify) + 1
    {
      if nnotify != -1 { nnotify := nnotify + 1; }
    }

    method NotifyAll(t: Thread)
      requires Valid() && owner == {t}
      modifies this`nnotify
      ensures Valid() && nnotify == -1
    {
      nnotify := -1;
    }

    /** signal(): wakes some waiting thread, if there is one. */
    method Signal()
      requires Valid()
      modifies this`waiting, this`ready
      ensures Valid() && waiting <= old(waiting)
      ensures ready == old(ready) + (old(waiting) - waiting)
      ensures |waiting| == |old(waiting)| - WokenBy(1, |old(waiting)|)
    {
      if waiting != {} {
        var w :| w in waiting;
        ready := ready + {w};
        waiting := waiting - {w};
      }
    }

    /** notifyImpl(n): n signals, or with -1 a broadcast, which wakes every waiting thread. */
    method NotifyImpl(n: int)
      requires Valid() && n >= -1
      modifies this`waiting, this`ready
      ensures Valid() && waiting <= old(waiting)
      ensures ready == old(ready) + (old(waiting) - waiting)
      ensures |waiting| == |old(waiting)| - WokenBy(n, |old(waiting)|)
    {
      if n == -1 {
        ready := ready + waiting;
        waiting := {};
        return;
      }
      var left := n;
      while left > 0
        invariant 0 <= left <= n && waiting <= old(waiting) && Valid()
        invariant ready == old(ready) + (old(waiting) - waiting)
        invariant |waiting| == |old(waiting)| - WokenBy(n - left, |old(waiting)|)
      {
        ghost var before := waiting;
        Signal();
        assert old(waiting) - waiting == (old(waiting) - before) + (before - waiting);
        left := left - 1;
      }
    }

    /** unlock(): the notifications counted since lock() are delivered before the mutex is released. */
    method Unlock(t: Thread)
      requires Valid() && owner == {t}
      modifies this
      ensures Valid() && owner == {} && waiting <= old(waiting) && nnotify == old(nnotify)
      ensures ready == old(ready) + (old(waiting) - waiting)
      ensures |waiting| == |old(waiting)| - WokenBy(old(nnotify), |old(waiting)|)
    {
      NotifyImpl(nnotify);
      owner := {};
    }

    /** wait(), up to the point where the thread sleeps: it joins the queue as it releases the mutex. */
    method Wait(t: Thread)
      requires Valid() && owner == {t}
      modifies this
      ensures Valid() && owner == {} && t in waiting && waiting - {t} <= old(waiting)
      ensures ready == old(ready) + (old(waiting) - waiting)
      ensures |waiting| == |old(waiting)| - WokenBy(old(nnotify), |old(waiting)|) + 1
    {
      NotifyImpl(nnotify);
      owner := {};
      waiting := waiting + {t};
    }

    /** wait(), after a wakeup: the mutex is taken again and the counter cleared. */
    method Resume(t: Thread)
      requires Valid() && owner == {} && t in ready
      modifies this
      ensures Valid() && owner == {t} && ready == old(ready) - {t} && waiting == old(waiting) && nnotify == 0
    {
      ready := ready - {t};
      owner := {t};
      nnotify := 0;
    }
  }
}
