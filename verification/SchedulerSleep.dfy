/** How long a sleeping coroutine sleeps (servant/libservant/CoroutineScheduler.cpp), over any run. */
module SchedulerSleep {
  import opened SchedulerSpec
  import opened SchedulerRun
  import opened SchedulerOrder
  import opened SchedulerWakeups

  /** No timer of u is due before `limit`. */
  ghost predicate TimersFrom(st: Sched, u: nat, limit: int) {
    forall t: Timer :: t in st.timers && t.uid == u ==> limit <= t.deadline
  }

  lemma {:induction false} DueIdsAre(ts: seq<Timer>, now: int, u: nat)
    requires SortedTimers(ts)
    ensures u in DueIds(ts, now) <==> exists t: Timer :: t in ts && t.uid == u && t.deadline <= now
  {
    if ts != [] {
      assert ts == [ts[0]] + ts[1..];
      if ts[0].deadline <= now {
        DueIdsAre(ts[1..], now, u);
      } else {
        assert forall t: Timer :: t in ts ==> ts[0].deadline <= t.deadline;
      }
    }
  }

  lemma InOrder(st: Sched)
    requires Inv(st)
    ensures SortedTimers(st.timers)
  {
    hide Partition;
    PartitionKeys(st);
  }

  /** A round leaves a sleeper asleep if and only if no timer of its own is due and nobody has put it. */
  lemma SleepsOnIff(st: Sched, now: int, u: nat)
    requires Inv(st) && !st.terminal && u in st.status && st.status[u] == Timeout
    ensures var r := WakeAll(st, now);
      && u in r.status
      && (r.status[u] == Timeout <==> TimersFrom(st, u, now + 1) && u !in st.activeQueue)
      && (r.status[u] != Timeout ==> r.status[u] == Active)
  {
    hide Inv, WakeAll, SortedTimers, DueIds, Elements;
    RoundOrder(st, now);
    InOrder(st);
    DueIdsAre(st.timers, now, u);
    assert u in With(st, {Inactive, Timeout}) && u !in With(st, {Inactive});
    assert u !in SelfWoken(st, now);
    InElements(DueWoken(st, now), u);
    InElements(SelfWoken(st, now), u);
  }

  lemma InElements(q: seq<nat>, u: nat)
    ensures u in Elements(q) <==> u in q
  {
  }

  // ---------- over a run ----------

  ghost predicate Puts(es: seq<Effect>, u: nat) {
    PutId(u) in es
  }

  /** The event neither puts u nor is a round at `limit` or later. */
  ghost predicate Quiet(ev: Event, u: nat, limit: int) {
    match ev
    case Outside(e) => e != PutId(u)
    case Wakeups(now) => now < limit
    case Run(_, a) => !Puts(a.effects, u)
    case Terminate => true
  }

  /** u is asleep, no timer of u is due before `limit`, and no put of u is waiting. */
  ghost predicate Sleeping(st: Sched, u: nat, limit: int) {
    u in st.status && st.status[u] == Timeout && TimersFrom(st, u, limit) && u !in st.activeQueue
  }

  lemma {:induction false} PerformsSleeping(st: Sched, es: seq<Effect>, u: nat, limit: int)
    requires Inv(st) && Sleeping(st, u, limit) && !Puts(es, u)
    ensures Sleeping(Performs(st, es), u, limit)
    decreases |es|
  {
    hide Inv, Create, TimersFrom;
    if es != [] {
      assert es[0] in es && forall e :: e in es[1..] ==> e in es;
      if es[0].NewCoroutine? { CreateFrame(st); }
      assert Sleeping(Perform(st, es[0]), u, limit) by { SameTimers(st, Perform(st, es[0]), u, limit); }
      PerformsSleeping(Perform(st, es[0]), es[1..], u, limit);
    }
  }

  lemma SameTimers(st: Sched, r: Sched, u: nat, limit: int)
    requires r.timers == st.timers && TimersFrom(st, u, limit)
    ensures TimersFrom(r, u, limit)
  {
  }

  lemma RoundSleeping(st: Sched, now: int, u: nat, limit: int)
    requires Inv(st) && Sleeping(st, u, limit) && now < limit
    ensures Sleeping(WakeAll(st, now), u, limit)
  {
    hide Inv, WakeAll, WakeTimeout, Woke, WakeSelf;
    if st.terminal {
      WakesNobody(st, now);
    } else {
      SleepsOnIff(st, now, u);
      WakeAllWoke(st, now);
      WakeTimeoutWoke(st, now);
    }
  }

  lemma DispatchSleeping(st: Sched, s: Status, a: Action, u: nat, limit: int)
    requires Inv(st) && s in {Active, Avail} && s in st.ring && st.ring[s] != []
    requires Sleeping(st, u, limit) && !Puts(a.effects, u)
    ensures Sleeping(Dispatch(st, s, a), u, limit)
  {
    hide Inv, Performs, Leave, InsertTimer;
    InvKeys(st);
    var w := st.ring[s][0];
    PerformsKeeps(st, a.effects);
    PerformsSleeping(st, a.effects, u, limit);
    var p := Performs(st, a.effects);
    LeaveKeeps(p, w, a.end);
    if a.end.Sleep? {
      InsertTimerIn(p.timers, Timer(a.end.now + if a.end.ms >= 0 then a.end.ms else -a.end.ms, w));
    }
  }

  lemma StepSleeping(y: System, ev: Event, u: nat, limit: int)
    requires Inv(y.st) && Sleeping(y.st, u, limit) && Quiet(ev, u, limit)
    ensures Sleeping(Step(y, ev).st, u, limit)
  {
    hide Inv, Sleeping, WakeAll, Dispatch, Perform;
    match ev
    case Outside(e) =>
      PerformsSleeping(y.st, [e], u, limit);
      PerformsOne(y.st, e);
    case Wakeups(now) => RoundSleeping(y.st, now, u, limit);
    case Run(s, a) =>
      if s in {Active, Avail} && s in y.st.ring && y.st.ring[s] != [] {
        DispatchSleeping(y.st, s, a, u, limit);
      }
    case Terminate => TerminatedSleeping(y.st, u, limit);
  }

  lemma TerminatedSleeping(st: Sched, u: nat, limit: int)
    requires Inv(st) && Sleeping(st, u, limit)
    ensures Sleeping(Terminated(st), u, limit)
  {
    hide Inv;
  }

  lemma {:induction false} ExecuteSleeping(y: System, evs: seq<Event>, u: nat, limit: int)
    requires Inv(y.st) && Sleeping(y.st, u, limit)
    requires forall i :: 0 <= i < |evs| ==> Quiet(evs[i], u, limit)
    ensures Sleeping(Execute(y, evs).st, u, limit)
    decreases |evs|
  {
    hide Inv, Sleeping, Step, Quiet;
    if evs != [] {
      StepSleeping(y, evs[0], u, limit);
      ExecuteSleeping(Step(y, evs[0]), evs[1..], u, limit);
    }
  }

  /** sleep(ms) at time `now`: off the ring, and a timer |ms| ahead. */
  lemma SleepBegins(y: System, s: Status, effects: seq<Effect>, ms: int, now: int)
    requires Inv(y.st) && s in {Active, Avail} && s in y.st.ring && y.st.ring[s] != []
    ensures var u := y.st.ring[s][0]; var z := Step(y, Run(s, Action(effects, Sleep(ms, now))));
      var deadline := now + if ms >= 0 then ms else -ms;
      && u in z.st.status && z.st.status[u] == Timeout
      && Timer(deadline, u) in z.st.timers
      && (u !in z.st.activeQueue && (forall t: Timer :: t in y.st.timers ==> t.uid != u) ==>
            Sleeping(z.st, u, deadline))
  {
    hide Inv, Performs, Leave, InsertTimer;
    InvKeys(y.st);
    var u := y.st.ring[s][0];
    PerformsKeeps(y.st, effects);
    var p := Performs(y.st, effects);
    LeaveKeeps(p, u, Sleep(ms, now));
    InsertTimerIn(p.timers, Timer(now + if ms >= 0 then ms else -ms, u));
  }

  /**
   * A coroutine that slept at `now` for `ms` is asleep after any run without a put of it in which every
   * round comes before `now + |ms|`, provided no timer of an earlier sleep of it is still there.
   */
  lemma SleepsThrough(y: System, s: Status, effects: seq<Effect>, ms: int, now: int, evs: seq<Event>)
    requires Inv(y.st) && s in {Active, Avail} && s in y.st.ring && y.st.ring[s] != []
    requires forall i :: 0 <= i < |evs| ==> Quiet(evs[i], y.st.ring[s][0], now + if ms >= 0 then ms else -ms)
    ensures var u := y.st.ring[s][0]; var z := Step(y, Run(s, Action(effects, Sleep(ms, now))));
      u !in z.st.activeQueue && (forall t: Timer :: t in y.st.timers ==> t.uid != u) ==>
        var r := Execute(z, evs).st; u in r.status && r.status[u] == Timeout
  {
    hide Inv, Step, Quiet, Execute, Sleeping;
    var u := y.st.ring[s][0];
    var deadline := now + if ms >= 0 then ms else -ms;
    var z := Step(y, Run(s, Action(effects, Sleep(ms, now))));
    SleepBegins(y, s, effects, ms, now);
    if u !in z.st.activeQueue && forall t: Timer :: t in y.st.timers ==> t.uid != u {
      ExecuteSleeping(z, evs, u, deadline);
      SleepingMeans(Execute(z, evs).st, u, deadline);
    }
  }

  lemma SleepingMeans(st: Sched, u: nat, limit: int)
    requires Sleeping(st, u, limit)
    ensures u in st.status && st.status[u] == Timeout
  {
  }

  // ---------- the timer a put leaves behind ----------

  function Ring(s: Status): map<Status, seq<nat>> {
    map[Free := if s == Free then [1] else [], Active := if s == Active then [1] else [],
        Avail := if s == Avail then [1] else [], Inactive := if s == Inactive then [1] else [],
        Timeout := if s == Timeout then [1] else []]
  }

  lemma RingAll(s: Status)
    ensures forall t: Status :: t in Ring(s) && Ring(s)[t] == if t == s then [1] else []
  {
    forall t: Status ensures t in Ring(s) && Ring(s)[t] == if t == s then [1] else [] {
      match t case Free => case Active => case Avail => case Inactive => case Timeout =>
    }
  }

  lemma IsRing(m: map<Status, seq<nat>>, s: Status)
    requires forall t: Status :: t in m && m[t] == if t == s then [1] else []
    ensures m == Ring(s)
  {
    RingAll(s);
  }

  /** The only coroutine of a pool of one, with status `s`. */
  function One(s: Status, queue: seq<nat>, timers: seq<Timer>): Sched {
    Sched(Ring(s), map[1 := s], 1, 1, if s == Free then 0 else 1, 1, [], queue, timers, false)
  }

  lemma OneMoves(st: Sched, s: Status, to: Status)
    requires s != to && st.ring == Ring(s) && st.status == map[1 := s]
    ensures s in st.ring && to in st.ring
    ensures Move(st, 1, to) == st.(ring := Ring(to), status := map[1 := to])
  {
    hide Ring;
    RingAll(s);
    RingAll(to);
    assert Remove([1], 1) == [];
    MoveShape(st, 1, to);
    var m := Move(st, 1, to);
    forall t: Status ensures t in m.ring && m.ring[t] == if t == to then [1] else [] {
      if t == to { assert m.ring[t] == [] + [1]; }
    }
    IsRing(m.ring, to);
  }

  lemma OneBegins()
    ensures Init(1) == One(Free, [], [])
  {
    var e := Empty(1);
    assert Grow(e, 1) == Grow(AddNew(e), 0) == AddNew(e);
    var m := AddNew(e).ring;
    forall t: Status ensures t in m && m[t] == if t == Free then [1] else [] {
      match t case Free => assert m[t] == [] + [1]; case Active => case Avail => case Inactive => case Timeout =>
    }
    IsRing(m, Free);
  }

  lemma OneCreated()
    requires Inv(One(Free, [], []))
    ensures Perform(One(Free, [], []), NewCoroutine) == One(Avail, [], [])
  {
    hide Inv, Ring, Move;
    RingAll(Free);
    OneMoves(One(Free, [], []).(used := 1), Free, Avail);
  }

  lemma OneSleeps(s: Status, timers: seq<Timer>, ms: nat, now: int)
    requires Inv(One(s, [], timers)) && s in {Active, Avail}
    ensures s in One(s, [], timers).ring && One(s, [], timers).ring[s] == [1]
    ensures Dispatch(One(s, [], timers), s, Action([], Sleep(ms, now)))
         == One(Timeout, [], InsertTimer(timers, Timer(now + ms, 1)))
  {
    hide Inv, Ring, Move, InsertTimer;
    RingAll(s);
    InvKeys(One(s, [], timers));
    OneMoves(One(s, [], InsertTimer(timers, Timer(now + ms, 1))), s, Timeout);
    RingAll(Timeout);
  }

  lemma OnePut(timers: seq<Timer>, now: int)
    requires Inv(One(Timeout, [1], timers)) && forall t: Timer :: t in timers ==> t.deadline > now
    ensures WakeAll(One(Timeout, [1], timers), now) == One(Active, [], timers)
  {
    hide Inv, Ring, Move;
    RingAll(Timeout);
    var st := One(Timeout, [1], timers);
    ClearInv(st);
    assert timers != [] ==> timers[0] in timers;
    assert WakeTimeout(st, now) == st && WakeSelf(st) == st;
    OneMoves(st.(activeQueue := []), Timeout, Active);
    MoveIfInv(st.(activeQueue := []), 1, {Inactive, Timeout}, Active);
  }

  lemma OneDue(t0: Timer, t1: Timer, now: int)
    requires Inv(One(Timeout, [], [t0, t1])) && t0.uid == 1 && t0.deadline <= now < t1.deadline
    ensures WakeAll(One(Timeout, [], [t0, t1]), now) == One(Active, [], [t1])
  {
    hide Inv, Ring, Move;
    RingAll(Timeout);
    var st := One(Timeout, [], [t0, t1]);
    OneMoves(st, Timeout, Active);
    PopInv(st);
    assert [t0, t1][1..] == [t1];
    var r := One(Active, [], [t1]);
    assert WakeTimeout(st, now) == WakeTimeout(r, now) == r;
    ClearInv(r);
  }

  lemma TwoTimers(a: Timer, b: Timer)
    requires a.deadline < b.deadline
    ensures InsertTimer([], a) == [a] && InsertTimer([a], b) == [a, b]
  {
    assert [a][1..] == [];
  }

  /**
   * Without that proviso the law fails: a put ends a sleep but leaves its timer, which then cuts a later
   * sleep short. Here coroutine 1 sleeps 10000 ms at time 5500 and is back in ACTIVE at 6000.
   */
  lemma StaleTimerWakes()
    ensures var evs := [Outside(NewCoroutine), Run(Avail, Action([], Sleep(1000, 5000))), Outside(PutId(1)),
                        Wakeups(5500), Run(Active, Action([], Sleep(10000, 5500))), Wakeups(6000)];
      Execute(Start(1), evs).st == One(Active, [], [Timer(15500, 1)])
  {
    hide Inv, Ring, Dispatch, WakeAll, InsertTimer, Left, Create;
    OneBegins();
    var y0 := Start(1);
    OneCreated();
    var y1 := Step(y0, Outside(NewCoroutine));
    OneSleeps(Avail, [], 1000, 5000);
    TwoTimers(Timer(6000, 1), Timer(15500, 1));
    var y2 := Step(y1, Run(Avail, Action([], Sleep(1000, 5000))));
    assert y2.st == One(Timeout, [], [Timer(6000, 1)]);
    var y3 := Step(y2, Outside(PutId(1)));
    assert y3.st == One(Timeout, [1], [Timer(6000, 1)]);
    OnePut([Timer(6000, 1)], 5500);
    var y4 := Step(y3, Wakeups(5500));
    OneSleeps(Active, [Timer(6000, 1)], 10000, 5500);
    var y5 := Step(y4, Run(Active, Action([], Sleep(10000, 5500))));
    assert y5.st == One(Timeout, [], [Timer(6000, 1), Timer(15500, 1)]);
    OneDue(Timer(6000, 1), Timer(15500, 1), 6000);
    SixEvents(y0, Outside(NewCoroutine), Run(Avail, Action([], Sleep(1000, 5000))), Outside(PutId(1)),
              Wakeups(5500), Run(Active, Action([], Sleep(10000, 5500))), Wakeups(6000));
  }

  lemma SixEvents(y: System, a: Event, b: Event, c: Event, d: Event, e: Event, f: Event)
    requires Inv(y.st)
    ensures Execute(y, [a, b, c, d, e, f]) == Step(Step(Step(Step(Step(Step(y, a), b), c), d), e), f)
  {
    hide Inv, Step;
    ExecuteSplit(y, [a], [b, c, d, e, f]);
    ExecuteSplit(Step(y, a), [b], [c, d, e, f]);
    ExecuteSplit(Step(Step(y, a), b), [c], [d, e, f]);
    ExecuteSplit(Step(Step(Step(y, a), b), c), [d], [e, f]);
    ExecuteSplit(Step(Step(Step(Step(y, a), b), c), d), [e], [f]);
    assert [a] + [b, c, d, e, f] == [a, b, c, d, e, f];
    assert [b] + [c, d, e, f] == [b, c, d, e, f];
    assert [c] + [d, e, f] == [c, d, e, f];
    assert [d] + [e, f] == [d, e, f];
    assert [e] + [f] == [e, f];
    ExecuteOne(y, a);
    ExecuteOne(Step(y, a), b);
    ExecuteOne(Step(Step(y, a), b), c);
    ExecuteOne(Step(Step(Step(y, a), b), c), d);
    ExecuteOne(Step(Step(Step(Step(y, a), b), c), d), e);
    ExecuteOne(Step(Step(Step(Step(Step(y, a), b), c), d), e), f);
  }
}
