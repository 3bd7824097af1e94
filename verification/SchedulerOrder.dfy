/**
 * Who the three wakeup calls of a round wake, into which ring, and in what order
 * (servant/libservant/CoroutineScheduler.cpp).
 */
module SchedulerOrder {
  import opened SchedulerSpec
  import opened SchedulerRun

  /** The ids of `ids` that are in `from`, each where it occurs first. */
  function Firsts(ids: seq<nat>, from: set<nat>): (r: seq<nat>)
    ensures forall u: nat :: u in r <==> u in ids && u in from
  {
    if ids == [] then []
    else if ids[0] in from then [ids[0]] + Firsts(ids[1..], from - {ids[0]})
    else Firsts(ids[1..], from)
  }

  ghost function Elements(q: seq<nat>): set<nat> {
    set u | u in q
  }

  /** The coroutines whose status is one of `ss`. */
  ghost function With(st: Sched, ss: set<Status>): set<nat> {
    set u | u in st.status && st.status[u] in ss
  }

  /** The coroutines of the timers that are due, in deadline order. */
  function DueIds(ts: seq<Timer>, now: int): seq<nat> {
    if ts == [] || ts[0].deadline > now then [] else [ts[0].uid] + DueIds(ts[1..], now)
  }

  /** The coroutines `ids` have gone, in this order, to the tail of ring `to`; all others are where they were. */
  ghost predicate Joined(st: Sched, r: Sched, ids: seq<nat>, to: Status) {
    && (forall s: Status :: s in st.ring && s in r.ring)
    && r.ring[to] == st.ring[to] + ids
    && (forall s :: s in {Active, Avail, Free} && s != to ==> r.ring[s] == st.ring[s])
    && (forall v: nat :: v in r.status <==> v in st.status)
    && (forall v: nat :: v in ids ==> v in st.status)
    && (forall v: nat :: v in st.status ==> r.status[v] == if v in ids then to else st.status[v])
  }

  lemma JoinedNone(st: Sched, to: Status)
    requires Inv(st)
    ensures Joined(st, st, [], to)
  {
    hide Inv;
    InvKeys(st);
  }

  /** One more at the front of the line, and then the rest. */
  lemma JoinedCons(st: Sched, m: Sched, r: Sched, u: nat, ids: seq<nat>, to: Status)
    requires to in {Active, Avail} && u in st.status && st.status[u] in {Inactive, Timeout}
    requires (forall s: Status :: s in st.ring) && m.ring == Move(st, u, to).ring && m.status == Move(st, u, to).status
    requires Joined(m, r, ids, to)
    ensures Joined(st, r, [u] + ids, to)
  {
    hide Remove;
    MoveShape(st, u, to);
    assert st.ring[to] + ([u] + ids) == (st.ring[to] + [u]) + ids;
  }

  /** A coroutine that moved to a ring it was not allowed to leave from does not move again. */
  lemma WithLess(st: Sched, m: Sched, u: nat, ss: set<Status>, to: Status)
    requires (forall s: Status :: s in st.ring) && u in st.status && to !in ss
    requires m.status == Move(st, u, to).status
    ensures With(m, ss) == With(st, ss) - {u}
  {
    hide Remove;
  }

  lemma {:induction false} TimeoutJoins(st: Sched, now: int)
    requires Inv(st) && !st.terminal
    ensures Joined(st, WakeTimeout(st, now), Firsts(DueIds(st.timers, now), With(st, {Inactive, Timeout})), Active)
    decreases |st.timers|
  {
    hide Inv, Move, Joined, With;
    if st.timers == [] || st.timers[0].deadline > now {
      JoinedNone(st, Active);
    } else {
      var u := st.timers[0].uid;
      InvKeys(st);
      LateTimers(st);
      PopInv(st);
      var m := MoveToActive(st, u).(timers := st.timers[1..]);
      MoveIfKeeps(st, u, {Inactive, Timeout}, Active);
      TimeoutJoins(m, now);
      Joins(st, m, WakeTimeout(st, now), u, {Inactive, Timeout}, DueIds(m.timers, now), Active);
    }
  }

  /** One step of such a loop, whether it moves the coroutine or not. */
  lemma Joins(st: Sched, m: Sched, r: Sched, u: nat, ss: set<Status>, rest: seq<nat>, to: Status)
    requires Inv(st) && u in st.status && to in {Active, Avail} && ss <= {Inactive, Timeout}
    requires m.ring == MoveIf(st, u, ss, to).ring && m.status == MoveIf(st, u, ss, to).status
    requires Joined(m, r, Firsts(rest, With(m, ss)), to)
    ensures Joined(st, r, Firsts([u] + rest, With(st, ss)), to)
  {
    hide Inv, Move, Joined, With, Firsts;
    InvKeys(st);
    IsWith(st, u, ss);
    FirstsCons(u, rest, With(st, ss));
    if st.status[u] in ss {
      WithLess(st, m, u, ss, to);
      JoinedCons(st, m, r, u, Firsts(rest, With(m, ss)), to);
    } else {
      SameWith(st, m, ss);
      SameJoined(st, m, r, Firsts(rest, With(m, ss)), to);
    }
  }

  lemma IsWith(st: Sched, u: nat, ss: set<Status>)
    requires u in st.status
    ensures u in With(st, ss) <==> st.status[u] in ss
  {
  }

  lemma FirstsCons(u: nat, rest: seq<nat>, from: set<nat>)
    ensures Firsts([u] + rest, from) ==
      if u in from then [u] + Firsts(rest, from - {u}) else Firsts(rest, from)
  {
    assert ([u] + rest)[1..] == rest;
  }

  lemma SameJoined(st: Sched, m: Sched, r: Sched, ids: seq<nat>, to: Status)
    requires st.ring == m.ring && st.status == m.status && Joined(m, r, ids, to)
    ensures Joined(st, r, ids, to)
  {
  }

  lemma {:induction false} AvailJoins(st: Sched, ids: seq<nat>)
    requires Inv(st) && forall i :: 0 <= i < |ids| ==> ids[i] in st.status
    ensures Joined(st, AvailAll(st, ids), Firsts(ids, With(st, {Inactive})), Avail)
    decreases |ids|
  {
    hide Inv, Move, Joined, With, MoveIf;
    if ids == [] {
      JoinedNone(st, Avail);
    } else {
      MoveIfInv(st, ids[0], {Inactive}, Avail);
      var m := MoveToAvail(st, ids[0]);
      MoveIfIds(st, ids[0], {Inactive}, Avail);
      AvailJoins(m, ids[1..]);
      Joins(st, m, AvailAll(st, ids), ids[0], {Inactive}, ids[1..], Avail);
      assert ids == [ids[0]] + ids[1..];
    }
  }

  lemma MoveIfIds(st: Sched, u: nat, ss: set<Status>, to: Status)
    requires u in st.status
    ensures forall v: nat :: v in MoveIf(st, u, ss, to).status <==> v in st.status
  {
  }

  lemma {:induction false} ActiveJoins(st: Sched, ids: seq<nat>)
    requires Inv(st) && forall i :: 0 <= i < |ids| ==> ids[i] in st.status
    ensures Joined(st, ActiveAll(st, ids), Firsts(ids, With(st, {Inactive, Timeout})), Active)
    decreases |ids|
  {
    hide Inv, Move, Joined, With, MoveIf;
    if ids == [] {
      JoinedNone(st, Active);
    } else {
      MoveIfInv(st, ids[0], {Inactive, Timeout}, Active);
      var m := MoveToActive(st, ids[0]);
      MoveIfIds(st, ids[0], {Inactive, Timeout}, Active);
      ActiveJoins(m, ids[1..]);
      Joins(st, m, ActiveAll(st, ids), ids[0], {Inactive, Timeout}, ids[1..], Active);
      assert ids == [ids[0]] + ids[1..];
    }
  }

  // ---------- a whole round ----------

  /** Woken by a timer: due, and asleep or inactive. */
  ghost function DueWoken(st: Sched, now: int): seq<nat> {
    Firsts(DueIds(st.timers, now), With(st, {Inactive, Timeout}))
  }

  /** Woken by their own yield(true): still inactive after the timers. */
  ghost function SelfWoken(st: Sched, now: int): seq<nat> {
    Firsts(st.needActive, With(st, {Inactive}) - Elements(DueWoken(st, now)))
  }

  /** Woken by a put: still asleep or inactive after both. */
  ghost function PutWoken(st: Sched, now: int): seq<nat> {
    Firsts(st.activeQueue,
           With(st, {Inactive, Timeout}) - Elements(DueWoken(st, now)) - Elements(SelfWoken(st, now)))
  }

  lemma WithAfter(st: Sched, r: Sched, ids: seq<nat>, to: Status, ss: set<Status>)
    requires Joined(st, r, ids, to) && to !in ss
    ensures With(r, ss) == With(st, ss) - Elements(ids)
  {
  }

  lemma QueuesKnown(st: Sched)
    requires Inv(st)
    ensures forall i :: 0 <= i < |st.needActive| ==> st.needActive[i] in st.status
    ensures forall i :: 0 <= i < |st.activeQueue| ==> st.activeQueue[i] in st.status
  {
    hide Partition;
    PartitionKeys(st);
  }

  /** The three loops of a round, one after the other. */
  lemma RoundJoins(st: Sched, now: int) returns (t: Sched, s: Sched)
    requires Inv(st) && !st.terminal
    ensures Joined(st, t, DueWoken(st, now), Active)
    ensures Joined(t, s, SelfWoken(st, now), Avail)
    ensures Joined(s, WakeAll(st, now), PutWoken(st, now), Active)
  {
    hide Inv, WakeTimeout, AvailAll, ActiveAll, Joined, With, Elements, Firsts, DueIds, Woke;
    t := WakeTimeout(st, now);
    TimeoutJoins(st, now);
    WakeTimeoutWoke(st, now);
    WokeFacts(st, t);
    QueuesKnown(t);
    AvailJoins(t, t.needActive);
    WithAfter(st, t, DueWoken(st, now), Active, {Inactive});
    WithAfter(st, t, DueWoken(st, now), Active, {Inactive, Timeout});
    s := WakeSelf(t);
    AvailAllWoke(t, t.needActive);
    WokeFacts(t, AvailAll(t, t.needActive));
    ClearInv(AvailAll(t, t.needActive));
    JoinedSame(t, AvailAll(t, t.needActive), s, SelfWoken(st, now), Avail);
    WithAfter(t, s, SelfWoken(st, now), Avail, {Inactive, Timeout});
    ClearInv(s);
    QueuesKnown(s);
    ActiveJoins(s.(activeQueue := []), s.activeQueue);
    SameWith(s, s.(activeQueue := []), {Inactive, Timeout});
    SameJoined(s, s.(activeQueue := []), WakeAll(st, now), PutWoken(st, now), Active);
  }

  lemma SameWith(st: Sched, m: Sched, ss: set<Status>)
    requires st.status == m.status
    ensures With(st, ss) == With(m, ss)
  {
  }

  lemma JoinedSame(st: Sched, m: Sched, r: Sched, ids: seq<nat>, to: Status)
    requires Joined(st, m, ids, to) && r.ring == m.ring && r.status == m.status
    ensures Joined(st, r, ids, to)
  {
  }

  /**
   * A round wakes exactly these: the due sleepers and then those that were put go to the tail of ACTIVE,
   * in timer and then in queue order; those that asked for it themselves go to the tail of AVAIL, in the
   * order in which they asked; nobody else changes status, and FREE stays as it is.
   */
  lemma RoundOrder(st: Sched, now: int)
    requires Inv(st) && !st.terminal
    ensures var r := WakeAll(st, now);
      var due, own, put := DueWoken(st, now), SelfWoken(st, now), PutWoken(st, now);
      && (forall s: Status :: s in r.ring && s in st.ring)
      && r.ring[Active] == st.ring[Active] + due + put
      && r.ring[Avail] == st.ring[Avail] + own
      && r.ring[Free] == st.ring[Free]
      && (forall v: nat :: v in r.status <==> v in st.status)
      && (forall v: nat :: v in st.status ==>
            r.status[v] == if v in due || v in put then Active else if v in own then Avail else st.status[v])
  {
    hide Inv, WakeAll, DueWoken, SelfWoken, PutWoken;
    var t, s := RoundJoins(st, now);
    Disjoint(st, now);
  }

  lemma Disjoint(st: Sched, now: int)
    ensures forall v: nat :: v in SelfWoken(st, now) ==> v !in DueWoken(st, now)
    ensures forall v: nat :: v in PutWoken(st, now) ==> v !in DueWoken(st, now) && v !in SelfWoken(st, now)
  {
    hide With, Firsts, DueIds;
  }
}
