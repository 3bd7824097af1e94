/**
 * No lost wakeups (servant/libservant/CoroutineScheduler.cpp), over every interleaving of dispatches,
 * puts from any thread, creations and wakeup rounds.
 */
module SchedulerWakeups {
  import opened SchedulerSpec
  import opened SchedulerRun

  /**
   * What happened to the coroutines: the deadline of each one's latest sleep, whether its latest
   * yield asked to be woken again, and the puts drained since it last went inactive.
   */
  datatype Hist = Hist(wake: map<nat, int>, again: map<nat, bool>, drained: set<nat>)

  datatype System = System(st: Sched, h: Hist)

  datatype Event =
    | Outside(e: Effect)
    | Wakeups(now: int)
    | Run(s: Status, a: Action)
    | Terminate

  function Left(h: Hist, u: nat, end: End): Hist {
    match end
    case Yield(again) => h.(again := h.again[u := again], drained := h.drained - {u})
    case Sleep(ms, now) => h.(wake := h.wake[u := now + if ms >= 0 then ms else -ms])
    case Finish => h
  }

  /** One event; dispatching from an empty ring, or one the loops do not serve, is no event. */
  function Step(y: System, ev: Event): (r: System)
    requires Inv(y.st)
    ensures Inv(r.st)
  {
    match ev
    case Outside(e) => y.(st := Perform(y.st, e))
    case Wakeups(now) =>
      System(WakeAll(y.st, now), y.h.(drained := y.h.drained + set u | u in y.st.activeQueue))
    case Run(s, a) =>
      if s in {Active, Avail} && s in y.st.ring && y.st.ring[s] != [] then
        System(Dispatch(y.st, s, a), Left(y.h, y.st.ring[s][0], a.end))
      else y
    case Terminate => y.(st := Terminated(y.st))
  }

  function Execute(y: System, evs: seq<Event>): (r: System)
    requires Inv(y.st)
    ensures Inv(r.st)
    decreases |evs|
  {
    if evs == [] then y else Execute(Step(y, evs[0]), evs[1..])
  }

  function Start(pool: nat): System
    requires pool > 0
    ensures Inv(Start(pool).st)
  {
    InitInv(pool);
    System(Init(pool), Hist(map[], map[], {}))
  }

  /**
   * Until terminate(), sleepers have their timer in the multimap; the inactive ones wait for nothing
   * already delivered.
   */
  ghost predicate Owed(y: System) {
    && !y.st.terminal
    && (forall u: nat :: u in y.st.status && y.st.status[u] == Timeout ==>
          u in y.h.wake && Timer(y.h.wake[u], u) in y.st.timers)
    && (forall u: nat :: u in y.st.status && y.st.status[u] == Inactive ==>
          u in y.h.again && u !in y.h.drained && (y.h.again[u] ==> u in y.st.needActive))
  }

  lemma StartOwed(pool: nat)
    requires pool > 0
    ensures Owed(Start(pool))
  {
    hide Init, Inv;
    InitInv(pool);
  }

  /** The state right after a wakeup round at `now`. */
  ghost predicate Settled(y: System, now: int) {
    && (forall u: nat :: u in y.st.status && y.st.status[u] == Timeout ==>
          u in y.h.wake && y.h.wake[u] > now)
    && (forall u: nat :: u in y.st.status && y.st.status[u] == Inactive ==>
          u in y.h.again && !y.h.again[u] && u !in y.h.drained)
  }

  lemma PerformOwed(y: System, e: Effect)
    requires Inv(y.st) && Owed(y)
    ensures Owed(y.(st := Perform(y.st, e)))
  {
    hide Inv, Perform;
    PerformsKeeps(y.st, [e]);
    PerformsOne(y.st, e);
    InvKeys(y.st);
  }

  lemma PerformsOne(st: Sched, e: Effect)
    requires Inv(st)
    ensures Performs(st, [e]) == Perform(st, e)
  {
    hide Inv, Perform;
  }

  /** A coroutine asleep after the wakeups has a deadline to come, and still its timer. */
  lemma SleeperSettled(y: System, now: int, u: nat)
    requires Inv(y.st) && Owed(y)
    requires var r := WakeAll(y.st, now); u in r.status && r.status[u] == Timeout
    ensures u in y.h.wake && y.h.wake[u] > now && Timer(y.h.wake[u], u) in WakeAll(y.st, now).timers
  {
    hide Inv, WakeTimeout, WakeSelf, WakeAll, Woke, Appends;
    WakeAllWoke(y.st, now);
    WakeTimeoutWoke(y.st, now);
    var t, r := WakeTimeout(y.st, now), WakeAll(y.st, now);
    WokeFacts(y.st, r);
    var x := Timer(y.h.wake[u], u);
    if x.deadline <= now {
      WokeFacts(t, WakeSelf(t));
      StaysAwake(t, WakeSelf(t), u);
      StaysAwake(WakeSelf(t), r, u);
    }
  }

  lemma InactiveSettled(y: System, now: int, u: nat)
    requires Inv(y.st) && Owed(y)
    requires var r := WakeAll(y.st, now); u in r.status && r.status[u] == Inactive
    ensures u in y.h.again && !y.h.again[u] && u !in Step(y, Wakeups(now)).h.drained
  {
    hide Inv, WakeTimeout, WakeSelf, WakeAll, Woke, Appends;
    WakeAllWoke(y.st, now);
    WokeFacts(y.st, WakeAll(y.st, now));
  }

  lemma WakeupsOwed(y: System, now: int)
    requires Inv(y.st) && Owed(y)
    ensures Owed(Step(y, Wakeups(now))) && Settled(Step(y, Wakeups(now)), now)
    ensures Free in y.st.ring && Free in Step(y, Wakeups(now)).st.ring
    ensures Step(y, Wakeups(now)).st.ring[Free] == y.st.ring[Free]
  {
    hide Inv, WakeTimeout, WakeSelf, WakeAll, Woke, Appends;
    WakeAllWoke(y.st, now);
    var r := WakeAll(y.st, now);
    WokeFacts(y.st, r);
    WokeFree(y.st, r);
    var z := Step(y, Wakeups(now));
    forall u: nat | u in r.status && r.status[u] == Timeout
      ensures u in y.h.wake && y.h.wake[u] > now && Timer(y.h.wake[u], u) in r.timers
    {
      SleeperSettled(y, now, u);
    }
    forall u: nat | u in r.status && r.status[u] == Inactive
      ensures u in y.h.again && !y.h.again[u] && u !in z.h.drained
    {
      InactiveSettled(y, now, u);
    }
  }

  lemma WokeFree(st: Sched, r: Sched)
    requires Inv(st) && Inv(r) && Woke(st, r)
    ensures Free in st.ring && Free in r.ring && r.ring[Free] == st.ring[Free]
  {
    hide Inv;
    InvKeys(st);
    InvKeys(r);
  }

  /** What a dispatch of u can change about coroutines that wait. */
  lemma DispatchWaits(st: Sched, s: Status, a: Action)
    requires Inv(st) && s in {Active, Avail} && s in st.ring && st.ring[s] != []
    ensures var u := st.ring[s][0]; var r := Dispatch(st, s, a);
      && r.terminal == st.terminal
      && (forall v: nat :: v in r.status && v != u && r.status[v] in {Timeout, Inactive} ==>
            v in st.status && st.status[v] == r.status[v])
      && u in r.status && (r.status[u] == Timeout ==> a.end.Sleep?) && (r.status[u] == Inactive ==> a.end.Yield?)
      && (forall t: Timer :: t in st.timers ==> t in r.timers)
      && (a.end.Sleep? ==>
            var ms := if a.end.ms >= 0 then a.end.ms else -a.end.ms; Timer(a.end.now + ms, u) in r.timers)
      && (forall v: nat :: v in st.needActive ==> v in r.needActive)
      && (a.end.Yield? && a.end.again && !st.terminal ==> u in r.needActive)
  {
    hide Inv, Performs, Leave, InsertTimer;
    InvKeys(st);
    var u := st.ring[s][0];
    PerformsKeeps(st, a.effects);
    var p := Performs(st, a.effects);
    LeaveKeeps(p, u, a.end);
    if a.end.Sleep? {
      InsertTimerIn(p.timers, Timer(a.end.now + if a.end.ms >= 0 then a.end.ms else -a.end.ms, u));
    }
  }

  lemma RunOwed(y: System, s: Status, a: Action)
    requires Inv(y.st) && Owed(y)
    ensures Owed(Step(y, Run(s, a)))
  {
    hide Inv, Dispatch;
    if s in {Active, Avail} && s in y.st.ring && y.st.ring[s] != [] {
      DispatchWaits(y.st, s, a);
    }
  }

  lemma {:induction false} ExecuteOwed(y: System, evs: seq<Event>)
    requires Inv(y.st) && Pending(y)
    ensures Pending(Execute(y, evs))
    decreases |evs|
  {
    hide Inv, Pending, Step;
    if evs != [] {
      StepOwed(y, evs[0]);
      ExecuteOwed(Step(y, evs[0]), evs[1..]);
    }
  }

  /** What holds along a run: nothing that is owed is lost, unless terminate() has been called. */
  ghost predicate Pending(y: System) {
    y.st.terminal || Owed(y)
  }

  lemma StepOwed(y: System, ev: Event)
    requires Inv(y.st) && Pending(y)
    ensures Pending(Step(y, ev))
  {
    hide Inv, Owed, Perform, WakeAll, Dispatch;
    if y.st.terminal {
      TerminalStays(y, ev);
    } else {
      match ev
      case Outside(e) => PerformOwed(y, e);
      case Wakeups(now) => WakeupsOwed(y, now);
      case Run(s, a) => RunOwed(y, s, a);
      case Terminate =>
    }
  }

  /** There is no way back from terminate(), and the wakeup calls do nothing any more. */
  lemma TerminalStays(y: System, ev: Event)
    requires Inv(y.st) && y.st.terminal
    ensures Step(y, ev).st.terminal
    ensures ev.Wakeups? ==> Step(y, ev).st == y.st
  {
    hide Inv, Perform, Dispatch;
    match ev
    case Outside(e) =>
      PerformsKeeps(y.st, [e]);
      PerformsOne(y.st, e);
    case Wakeups(now) => WakesNobody(y.st, now);
    case Run(s, a) =>
      if s in {Active, Avail} && s in y.st.ring && y.st.ring[s] != [] {
        DispatchKeeps(y.st, s, a);
      }
    case Terminate =>
  }

  lemma WakesNobody(st: Sched, now: int)
    requires Inv(st) && st.terminal
    ensures WakeAll(st, now) == st
  {
    hide Inv, AvailAll, ActiveAll;
    assert WakeTimeout(st, now) == st;
  }

  /**
   * After the wakeup calls of a pass at time `now`, in any run, as long as terminate() has not been
   * called: no coroutine whose deadline has come is still asleep; every INACTIVE one yielded without
   * asking to be woken and has had no drained put since; and the FREE ring is untouched.
   */
  lemma NoLostWakeups(pool: nat, evs: seq<Event>, now: int)
    requires pool > 0 && !Execute(Start(pool), evs).st.terminal
    ensures var y := Execute(Start(pool), evs); var z := Step(y, Wakeups(now));
      && Settled(z, now)
      && Inv(z.st) && Free in y.st.ring && Free in z.st.ring && z.st.ring[Free] == y.st.ring[Free]
  {
    hide Inv, Owed, Step, Settled, Execute, Start;
    StartOwed(pool);
    ExecuteOwed(Start(pool), evs);
    WakeupsOwed(Execute(Start(pool), evs), now);
  }

  // ---------- tars_run passes are such runs ----------

  function Outsides(es: seq<Effect>): (evs: seq<Event>)
    ensures |evs| == |es|
  {
    if es == [] then [] else [Outside(es[0])] + Outsides(es[1..])
  }

  function Runs(s: Status, acts: seq<Action>): (evs: seq<Event>)
    ensures |evs| == |acts|
  {
    if acts == [] then [] else [Run(s, acts[0])] + Runs(s, acts[1..])
  }

  /** What one pass does, event by event. */
  function PassEvents(x: Input): seq<Event> {
    Outsides(x.before) + [Wakeups(x.now)] + Runs(Active, x.onActive) + Runs(Avail, x.onAvail)
  }

  function PassesEvents(xs: seq<Input>): seq<Event> {
    if xs == [] then [] else PassEvents(xs[0]) + PassesEvents(xs[1..])
  }

  lemma {:induction false} ExecuteSplit(y: System, evs: seq<Event>, more: seq<Event>)
    requires Inv(y.st)
    ensures Execute(y, evs + more) == Execute(Execute(y, evs), more)
    decreases |evs|
  {
    hide Inv, Step;
    if evs == [] {
      assert evs + more == more;
    } else {
      assert (evs + more)[1..] == evs[1..] + more;
      ExecuteSplit(Step(y, evs[0]), evs[1..], more);
    }
  }

  lemma {:induction false} PerformsIsExecute(y: System, es: seq<Effect>)
    requires Inv(y.st)
    ensures Execute(y, Outsides(es)) == y.(st := Performs(y.st, es))
    decreases |es|
  {
    hide Inv, Perform;
    if es != [] {
      assert Outsides(es)[1..] == Outsides(es[1..]);
      PerformsIsExecute(Step(y, Outside(es[0])), es[1..]);
    }
  }

  /** Dispatches that find the ring empty are no events, so the loop is all of its runs. */
  lemma {:induction false} LoopIsExecute(y: System, s: Status, acts: seq<Action>)
    requires Inv(y.st) && s in {Active, Avail}
    ensures Execute(y, Runs(s, acts)).st == Loop(y.st, s, acts).st
    decreases |acts|
  {
    hide Inv, Dispatch, Left;
    InvKeys(y.st);
    if acts != [] {
      assert Runs(s, acts)[1..] == Runs(s, acts[1..]);
      LoopIsExecute(Step(y, Run(s, acts[0])), s, acts[1..]);
      LoopStep(y.st, s, acts);
      LoopStep(y.st, s, acts[1..]);
    }
  }

  /** The events before the loops of a pass end in the state in which its first loop begins. */
  lemma AwakeIsExecute(y: System, x: Input)
    requires Inv(y.st)
    ensures Execute(y, Outsides(x.before) + [Wakeups(x.now)])
         == Step(Execute(y, Outsides(x.before)), Wakeups(x.now))
    ensures Step(Execute(y, Outsides(x.before)), Wakeups(x.now)).st == Awake(y.st, x)
  {
    hide Inv, WakeAll, Performs;
    ExecuteSplit(y, Outsides(x.before), [Wakeups(x.now)]);
    PerformsIsExecute(y, x.before);
    ExecuteOne(Execute(y, Outsides(x.before)), Wakeups(x.now));
  }

  lemma ExecuteOne(y: System, ev: Event)
    requires Inv(y.st)
    ensures Execute(y, [ev]) == Step(y, ev)
  {
    hide Inv, Step;
  }

  /** A pass of a scheduler that is not terminated is the run of its events. */
  lemma PassIsExecute(y: System, x: Input)
    requires Inv(y.st) && !y.st.terminal
    ensures Execute(y, PassEvents(x)).st == Pass(y.st, x).st && !Pass(y.st, x).st.terminal
  {
    hide Inv, Step, Execute, Awake, Loop, Pass;
    var woken := Outsides(x.before) + [Wakeups(x.now)];
    AwakeIsExecute(y, x);
    PassIs(y.st, x);
    var z := Execute(y, woken);
    LoopIsExecute(z, Active, x.onActive);
    ExecuteSplit(y, woken, Runs(Active, x.onActive));
    LoopIsExecute(Execute(z, Runs(Active, x.onActive)), Avail, x.onAvail);
    ExecuteSplit(y, woken + Runs(Active, x.onActive), Runs(Avail, x.onAvail));
  }

  lemma {:induction false} PassesAreExecute(y: System, xs: seq<Input>)
    requires Inv(y.st) && !y.st.terminal
    ensures Execute(y, PassesEvents(xs)).st == After(y.st, xs) && !After(y.st, xs).terminal
    decreases |xs|
  {
    hide Inv, Step, Pass, PassEvents;
    if xs != [] {
      PassIsExecute(y, xs[0]);
      var z := Execute(y, PassEvents(xs[0]));
      PassesAreExecute(z, xs[1..]);
      ExecuteSplit(y, PassEvents(xs[0]), PassesEvents(xs[1..]));
    }
  }

  /**
   * No lost wakeups for passes: whatever passes a new scheduler has made, the state in which the
   * loops of the next one begin is that of a run that ends with its wakeup calls, and is settled.
   */
  lemma PassesLoseNothing(pool: nat, xs: seq<Input>, x: Input)
    requires pool > 0
    ensures var y := Execute(Start(pool), PassesEvents(xs) + Outsides(x.before)); var z := Step(y, Wakeups(x.now));
      z.st == Awake(After(Start(pool).st, xs), x) && Settled(z, x.now)
  {
    hide Inv, Step, Execute, Settled, Awake, After, WakeAll, Performs, Init;
    var s := Start(pool);
    InitInv(pool);
    PassesAreExecute(s, xs);
    var p := Execute(s, PassesEvents(xs));
    ExecuteSplit(s, PassesEvents(xs), Outsides(x.before));
    AwakeIsExecute(p, x);
    PerformsIsExecute(p, x.before);
    PerformsKeeps(p.st, x.before);
    NoLostWakeups(pool, PassesEvents(xs) + Outsides(x.before), x.now);
  }
}
