/**
 * Wakeups, dispatches and tars_run passes (servant/libservant/CoroutineScheduler.cpp), and bounded
 * waiting over whole runs.
 */
module SchedulerRun {
  import opened Arithmetic
  import opened SchedulerSpec

  // ---------- what a running coroutine, or another thread, can do ----------

  /** createCoroutine, or put of an id; one that no coroutine has (see PutInv) is not followed. */
  datatype Effect = NewCoroutine | PutId(uid: nat)

  /** How a dispatched coroutine gives control back: yield(again), sleep(ms) at time `now`, or its end. */
  datatype End = Yield(again: bool) | Sleep(ms: int, now: int) | Finish

  datatype Action = Action(effects: seq<Effect>, end: End)

  function Put(st: Sched, u: nat): Sched {
    if st.terminal then st else st.(activeQueue := st.activeQueue + [u])
  }

  /** terminate(). */
  function Terminated(st: Sched): (r: Sched)
    requires Inv(st)
    ensures Inv(r)
  {
    hide Partition;
    PartitionKeys(st);
    SamePartition(st, st.(terminal := true));
    st.(terminal := true)
  }

  function Perform(st: Sched, e: Effect): (r: Sched)
    requires Inv(st)
    ensures Inv(r)
  {
    match e
    case NewCoroutine => CreateInv(st); Create(st).st
    case PutId(u) =>
      if 1 <= u <= st.uniq then PutInv(st, u); Put(st, u) else st
  }

  /** A put keeps the invariant exactly when it names a created coroutine, or comes too late to matter. */
  lemma PutInv(st: Sched, u: nat)
    requires Inv(st)
    ensures Inv(Put(st, u)) <==> st.terminal || 1 <= u <= st.uniq
  {
    hide Partition;
    PartitionKeys(st);
    SamePartition(st, Put(st, u));
    var q := Put(st, u).activeQueue;
    if !st.terminal { assert q[|q| - 1] == u; }
  }

  function Performs(st: Sched, es: seq<Effect>): (r: Sched)
    requires Inv(st)
    ensures Inv(r)
    decreases |es|
  {
    if es == [] then st else Performs(Perform(st, es[0]), es[1..])
  }

  function Deadline(now: int, ms: int): int {
    now + if ms >= 0 then ms else -ms
  }

  /** multimap::insert: behind every timer that is not later. */
  function InsertTimer(ts: seq<Timer>, t: Timer): seq<Timer> {
    if ts == [] || t.deadline < ts[0].deadline then [t] + ts else [ts[0]] + InsertTimer(ts[1..], t)
  }

  /** yield, sleep, or the tail of corotineProc, for the running coroutine u. */
  function Leave(st: Sched, u: nat, end: End): (r: Sched)
    requires Inv(st) && u in st.status && st.status[u] in {Active, Avail}
    ensures Inv(r)
  {
    LeaveInv(st, u, end);
    match end
    case Yield(again) =>
      MoveToInactive(if again && !st.terminal then st.(needActive := st.needActive + [u]) else st, u)
    case Sleep(ms, now) =>
      MoveToTimeout(st.(timers := InsertTimer(st.timers, Timer(Deadline(now, ms), u))), u)
    case Finish => MoveToFreeList(st.(used := st.used - 1), u)
  }

  /** The multimap keeps its timers, in order, and gains one. */
  lemma {:induction false} InsertTimerIn(ts: seq<Timer>, t: Timer)
    ensures forall x: Timer :: x in InsertTimer(ts, t) <==> x in ts || x == t
  {
    if !(ts == [] || t.deadline < ts[0].deadline) {
      InsertTimerIn(ts[1..], t);
      assert ts == [ts[0]] + ts[1..];
    }
  }

  /** It stands behind all that are not later and in front of all that are: among equal ones, last. */
  lemma {:induction false} InsertTimerPlace(ts: seq<Timer>, t: Timer) returns (i: nat)
    requires SortedTimers(ts)
    ensures i <= |ts| && InsertTimer(ts, t) == ts[..i] + [t] + ts[i..]
    ensures forall k :: 0 <= k < |ts| ==> (k < i <==> ts[k].deadline <= t.deadline)
  {
    if ts == [] || t.deadline < ts[0].deadline {
      i := 0;
    } else {
      var rest := ts[1..];
      var j := InsertTimerPlace(rest, t);
      i := j + 1;
      assert ts[..i] == [ts[0]] + rest[..j] && ts[i..] == rest[j..];
      assert [ts[0]] + (rest[..j] + [t] + rest[j..]) == ts[..i] + [t] + ts[i..];
      forall k | 0 <= k < |ts| ensures k < i <==> ts[k].deadline <= t.deadline {
        if k > 0 { assert ts[k] == rest[k - 1]; }
      }
    }
  }

  lemma {:induction false} InsertTimerSorted(ts: seq<Timer>, t: Timer)
    requires SortedTimers(ts)
    ensures SortedTimers(InsertTimer(ts, t))
  {
    if !(ts == [] || t.deadline < ts[0].deadline) {
      InsertTimerSorted(ts[1..], t);
      InsertTimerIn(ts[1..], t);
      var r := InsertTimer(ts[1..], t);
      assert forall x: Timer :: x in ts[1..] ==> ts[0].deadline <= x.deadline;
      forall i, j | 0 <= i < j < |r| + 1 ensures ([ts[0]] + r)[i].deadline <= ([ts[0]] + r)[j].deadline {
        assert r[j - 1] in r;
      }
    }
  }

  lemma InsertTimerOk(ts: seq<Timer>, t: Timer, uniq: nat)
    requires forall i :: 0 <= i < |ts| ==> 1 <= ts[i].uid <= uniq
    requires 1 <= t.uid <= uniq
    ensures forall i :: 0 <= i < |InsertTimer(ts, t)| ==> 1 <= InsertTimer(ts, t)[i].uid <= uniq
  {
    hide InsertTimer;
    InsertTimerIn(ts, t);
    var r := InsertTimer(ts, t);
    forall i | 0 <= i < |r| ensures 1 <= r[i].uid <= uniq {
      assert r[i] in r;
    }
  }

  lemma LeaveInv(st: Sched, u: nat, end: End)
    requires Inv(st) && u in st.status && st.status[u] in {Active, Avail}
    ensures match end
            case Yield(again) =>
              Inv(MoveToInactive(if again && !st.terminal then st.(needActive := st.needActive + [u]) else st, u))
            case Sleep(ms, now) =>
              Inv(MoveToTimeout(st.(timers := InsertTimer(st.timers, Timer(Deadline(now, ms), u))), u))
            case Finish => st.used > 0 && Inv(MoveToFreeList(st.(used := st.used - 1), u))
  {
    hide Partition, Move, InsertTimer, TimersOk, Created, MoveToInactive, MoveToTimeout, MoveToFreeList, Accounted;
    match end
    case Yield(again) => YieldInv(st, u, again);
    case Sleep(ms, now) => SleepInv(st, u, Deadline(now, ms));
    case Finish => FinishInv(st, u);
  }

  lemma YieldInv(st: Sched, u: nat, again: bool)
    requires Inv(st) && u in st.status && st.status[u] in {Active, Avail}
    ensures Inv(MoveToInactive(if again && !st.terminal then st.(needActive := st.needActive + [u]) else st, u))
  {
    hide Partition, Move, NoDup;
    PartitionKeys(st);
    var s1 := if again && !st.terminal then st.(needActive := st.needActive + [u]) else st;
    SamePartition(st, s1);
    MoveInv(s1, u, Inactive, 0);
  }

  lemma SleepInv(st: Sched, u: nat, deadline: int)
    requires Inv(st) && u in st.status && st.status[u] in {Active, Avail}
    ensures Inv(MoveToTimeout(st.(timers := InsertTimer(st.timers, Timer(deadline, u))), u))
  {
    hide Partition, Move, InsertTimer, NoDup;
    PartitionKeys(st);
    InsertTimerOk(st.timers, Timer(deadline, u), st.uniq);
    InsertTimerSorted(st.timers, Timer(deadline, u));
    var s1 := st.(timers := InsertTimer(st.timers, Timer(deadline, u)));
    assert TimersOk(s1);
    SamePartition(st, s1);
    MoveInv(s1, u, Timeout, 0);
  }

  lemma FinishInv(st: Sched, u: nat)
    requires Inv(st) && u in st.status && st.status[u] in {Active, Avail}
    ensures st.used > 0 && Inv(MoveToFreeList(st.(used := st.used - 1), u))
  {
    hide Partition, Move, NoDup;
    PartitionKeys(st);
    assert u in st.ring[st.status[u]];
    var s1 := st.(used := st.used - 1);
    SamePartition(st, s1);
    MoveInv(s1, u, Free, 1);
  }

  // ---------- wakeups ----------

  /** wakeupbytimeout at time `now`. */
  function WakeTimeout(st: Sched, now: int): (r: Sched)
    requires Inv(st)
    ensures Inv(r)
    decreases |st.timers|
  {
    if st.terminal || st.timers == [] || st.timers[0].deadline > now then st
    else
      PopInv(st);
      WakeTimeout(MoveToActive(st, st.timers[0].uid).(timers := st.timers[1..]), now)
  }

  lemma PopInv(st: Sched)
    requires Inv(st) && st.timers != []
    ensures Inv(MoveToActive(st, st.timers[0].uid).(timers := st.timers[1..]))
    ensures MoveToActive(st, st.timers[0].uid).timers == st.timers
  {
    hide Partition, Move, NoDup;
    PartitionKeys(st);
    var u := st.timers[0].uid;
    MoveIfInv(st, u, {Inactive, Timeout}, Active);
    var m := MoveToActive(st, u);
    MoveIfKeeps(st, u, {Inactive, Timeout}, Active);
    PartitionKeys(m);
    SamePartition(m, m.(timers := st.timers[1..]));
  }

  lemma MoveIfKeeps(st: Sched, u: nat, allowed: set<Status>, to: Status)
    ensures var m := MoveIf(st, u, allowed, to); m == st.(ring := m.ring, status := m.status)
  {
  }

  function AvailAll(st: Sched, ids: seq<nat>): (r: Sched)
    requires Inv(st)
    ensures Inv(r)
    decreases |ids|
  {
    if ids == [] then st
    else
      MoveIfInv(st, ids[0], {Inactive}, Avail);
      AvailAll(MoveToAvail(st, ids[0]), ids[1..])
  }

  function ActiveAll(st: Sched, ids: seq<nat>): (r: Sched)
    requires Inv(st)
    ensures Inv(r)
    decreases |ids|
  {
    if ids == [] then st
    else
      MoveIfInv(st, ids[0], {Inactive, Timeout}, Active);
      ActiveAll(MoveToActive(st, ids[0]), ids[1..])
  }

  lemma ClearInv(st: Sched)
    requires Inv(st)
    ensures Inv(st.(needActive := [])) && Inv(st.(activeQueue := []))
  {
    hide Partition;
    PartitionKeys(st);
    SamePartition(st, st.(needActive := []));
    SamePartition(st, st.(activeQueue := []));
  }

  /** wakeupbyself. */
  function WakeSelf(st: Sched): (r: Sched)
    requires Inv(st)
    ensures Inv(r)
  {
    if st.terminal then st
    else ClearInv(AvailAll(st, st.needActive)); AvailAll(st, st.needActive).(needActive := [])
  }

  /** wakeup: the queue is swapped out, then its ids are moved. */
  function Wake(st: Sched): (r: Sched)
    requires Inv(st)
    ensures Inv(r)
  {
    if st.terminal then st
    else ClearInv(st); ActiveAll(st.(activeQueue := []), st.activeQueue)
  }

  function WakeAll(st: Sched, now: int): (r: Sched)
    requires Inv(st)
    ensures Inv(r)
  {
    Wake(WakeSelf(WakeTimeout(st, now)))
  }

  // ---------- dispatching ----------

  /** The rings loops dispatch from keep their order: steps only append to them. */
  ghost predicate Appends(st: Sched, r: Sched)
    requires Inv(st) && Inv(r)
  {
    st.ring[Active] <= r.ring[Active] && st.ring[Avail] <= r.ring[Avail]
  }

  lemma {:induction false} PerformsKeeps(st: Sched, es: seq<Effect>)
    requires Inv(st)
    ensures var r := Performs(st, es);
      && Appends(st, r) && r.ring[Active] == st.ring[Active]
      && r.timers == st.timers && r.needActive == st.needActive && r.terminal == st.terminal
      && st.uniq <= r.uniq
      && (forall u: nat :: u in st.status && st.status[u] != Free ==> u in r.status && r.status[u] == st.status[u])
      && (forall u: nat :: u in r.status && (u !in st.status || st.status[u] == Free) ==> r.status[u] in {Free, Avail})
    decreases |es|
  {
    hide Partition, Create, Accounted, Created, TimersOk;
    PartitionKeys(st);
    if es != [] {
      if es[0].NewCoroutine? {
        CreateFrame(st);
        CreateInv(st);
      }
      PerformsKeeps(Perform(st, es[0]), es[1..]);
    }
  }

  /** switchCoro to the head of a ring, and back. */
  function Dispatch(st: Sched, s: Status, a: Action): (r: Sched)
    requires Inv(st) && s in {Active, Avail} && st.ring[s] != []
    ensures Inv(r)
  {
    PartitionKeys(st);
    PerformsKeeps(st, a.effects);
    Leave(Performs(st, a.effects), st.ring[s][0], a.end)
  }

  lemma RemoveHead(q: seq<nat>, u: nat)
    requires q != [] && q[0] == u
    ensures Remove(q, u) == q[1..]
  {
  }

  /** Giving control back takes the running coroutine out of its ring and touches no other place there. */
  lemma LeaveKeeps(st: Sched, u: nat, end: End)
    requires Inv(st) && u in st.status && st.status[u] in {Active, Avail}
    requires st.ring[st.status[u]][0] == u
    ensures var s := st.status[u]; var r := Leave(st, u, end);
      && r.ring[s] == st.ring[s][1..]
      && (forall o :: o in {Active, Avail} && o != s ==> r.ring[o] == st.ring[o])
      && u in r.status
      && r.status[u] == (match end case Yield(_) => Inactive case Sleep(_, _) => Timeout case Finish => Free)
      && (forall v: nat :: v in st.status && v != u ==> v in r.status && r.status[v] == st.status[v])
      && (forall v: nat :: v in r.status ==> v in st.status)
      && r.terminal == st.terminal && r.activeQueue == st.activeQueue
      && (end.Sleep? ==>
            var ms := if end.ms >= 0 then end.ms else -end.ms;
            r.timers == InsertTimer(st.timers, Timer(end.now + ms, u)))
      && (!end.Sleep? ==> r.timers == st.timers)
      && r.needActive == (if end.Yield? && end.again && !st.terminal then st.needActive + [u] else st.needActive)
  {
    hide Move, Remove, InsertTimer, NoDup;
    var s := st.status[u];
    RemoveHead(st.ring[s], u);
    match end
    case Yield(again) =>
      MoveShape(if again && !st.terminal then st.(needActive := st.needActive + [u]) else st, u, Inactive);
    case Sleep(ms, now) => MoveShape(st.(timers := InsertTimer(st.timers, Timer(Deadline(now, ms), u))), u, Timeout);
    case Finish => MoveShape(st.(used := st.used - 1), u, Free);
  }

  lemma DispatchKeeps(st: Sched, s: Status, a: Action)
    requires Inv(st) && s in {Active, Avail} && st.ring[s] != []
    ensures var r := Dispatch(st, s, a);
      && st.ring[s][1..] <= r.ring[s]
      && (forall o :: o in {Active, Avail} && o != s ==> st.ring[o] <= r.ring[o])
      && r.terminal == st.terminal
  {
    hide Inv, Performs, Leave;
    InvKeys(st);
    var u := st.ring[s][0];
    PerformsKeeps(st, a.effects);
    var p := Performs(st, a.effects);
    LeaveKeeps(p, u, a.end);
  }

  lemma InvKeys(st: Sched)
    requires Inv(st)
    ensures Partition(st)
    ensures forall s: Status :: s in st.ring
    ensures forall u: nat :: u in st.status <==> 1 <= u <= st.uniq
    ensures forall s: Status, i :: 0 <= i < |st.ring[s]| ==> st.ring[s][i] in st.status && st.status[st.ring[s][i]] == s
    ensures forall u: nat :: u in st.status ==> u in st.ring[st.status[u]]
  {
    PartitionKeys(st);
  }

  datatype Ran = Ran(st: Sched, ids: seq<nat>)

  /** `while (iLoop > 0 && !empty(ring))`, iLoop starting at |acts|: the i-th dispatched takes acts[i]. */
  function Loop(st: Sched, s: Status, acts: seq<Action>): (r: Ran)
    requires Inv(st) && s in {Active, Avail}
    ensures Inv(r.st)
    decreases |acts|
  {
    if acts == [] || st.ring[s] == [] then Ran(st, [])
    else
      var r := Loop(Dispatch(st, s, acts[0]), s, acts[1..]);
      Ran(r.st, [st.ring[s][0]] + r.ids)
  }

  lemma LoopStep(st: Sched, s: Status, acts: seq<Action>)
    requires Inv(st) && s in {Active, Avail} && s in st.ring
    ensures acts == [] || st.ring[s] == [] ==> Loop(st, s, acts) == Ran(st, [])
    ensures acts != [] && st.ring[s] != [] ==>
      var r := Loop(Dispatch(st, s, acts[0]), s, acts[1..]); Loop(st, s, acts) == Ran(r.st, [st.ring[s][0]] + r.ids)
  {
    hide Inv, Dispatch;
  }

  /** The clock at the wakeups, what happened since the last pass, and what dispatched coroutines do. */
  datatype Input = Input(now: int, before: seq<Effect>, onActive: seq<Action>, onAvail: seq<Action>)

  /** The budget iLoop of the loop over ring s. */
  function Budget(x: Input, s: Status): nat {
    if s == Active then |x.onActive| else |x.onAvail|
  }

  const LOOP := 100

  /** tars_run dispatches up to 100 coroutines of each ring. */
  ghost predicate OfTarsRun(x: Input) {
    Budget(x, Active) == LOOP && Budget(x, Avail) == LOOP
  }

  /** A round of run() dispatches up to 100 ACTIVE ones and at most one AVAIL one. */
  ghost predicate OfRun(x: Input) {
    Budget(x, Active) == LOOP && Budget(x, Avail) == 1
  }

  datatype Passed = Passed(st: Sched, active: seq<nat>, avail: seq<nat>)

  /** One call of tars_run; with the budget of OfRun, one round of run(). */
  function Pass(st: Sched, x: Input): (r: Passed)
    requires Inv(st)
    ensures Inv(r.st)
  {
    var s0 := Performs(st, x.before);
    if s0.terminal then Passed(s0, [], []) else
    var s1 := WakeAll(s0, x.now);
    var a := Loop(s1, Active, x.onActive);
    var b := Loop(a.st, Avail, x.onAvail);
    Passed(b.st, a.ids, b.ids)
  }

  function Passes(st: Sched, xs: seq<Input>): (ps: seq<Passed>)
    requires Inv(st)
    ensures |ps| == |xs|
    decreases |xs|
  {
    if xs == [] then [] else
    var p := Pass(st, xs[0]);
    [p] + Passes(p.st, xs[1..])
  }

  /** After terminate() a pass dispatches nobody. */
  lemma TerminatedPass(st: Sched, x: Input)
    requires Inv(st) && st.terminal
    ensures Pass(st, x) == Passed(Performs(st, x.before), [], [])
  {
    hide Inv, Performs;
    PerformsKeeps(st, x.before);
  }

  /** The state after some passes. */
  function After(st: Sched, xs: seq<Input>): (r: Sched)
    requires Inv(st)
    ensures Inv(r)
    decreases |xs|
  {
    if xs == [] then st else After(Pass(st, xs[0]).st, xs[1..])
  }

  lemma {:induction false} AfterIsLast(st: Sched, xs: seq<Input>)
    requires Inv(st) && xs != []
    ensures After(st, xs) == Passes(st, xs)[|xs| - 1].st
    decreases |xs|
  {
    hide Inv, Pass;
    if |xs| > 1 {
      var p := Pass(st, xs[0]);
      AfterIsLast(p.st, xs[1..]);
      assert Passes(st, xs) == [p] + Passes(p.st, xs[1..]);
    }
  }

  lemma {:induction false} AfterOneMore(st: Sched, xs: seq<Input>, x: Input)
    requires Inv(st)
    ensures After(st, xs + [x]) == Pass(After(st, xs), x).st
    decreases |xs|
  {
    hide Inv, Pass;
    if xs == [] {
      assert xs + [x] == [x];
    } else {
      assert (xs + [x])[1..] == xs[1..] + [x];
      AfterOneMore(Pass(st, xs[0]).st, xs[1..], x);
    }
  }

  function IdsOf(p: Passed, s: Status): seq<nat> {
    if s == Active then p.active else p.avail
  }

  // ---------- bounded waiting ----------

  /** A loop dispatches the ring in order, as far as its budget goes, and shifts the rest forward. */
  lemma {:induction false} LoopOrder(st: Sched, s: Status, acts: seq<Action>, k: nat)
    requires Inv(st) && s in {Active, Avail} && s in st.ring && k < |st.ring[s]|
    ensures var r := Loop(st, s, acts);
      if k < |acts| then k < |r.ids| && r.ids[k] == st.ring[s][k]
      else s in r.st.ring && k - |acts| < |r.st.ring[s]| && r.st.ring[s][k - |acts|] == st.ring[s][k]
    decreases |acts|
  {
    hide Inv, Dispatch;
    if acts != [] {
      var d := Dispatch(st, s, acts[0]);
      if k > 0 {
        NextInLine(st, s, acts[0], k);
        LoopOrder(d, s, acts[1..], k - 1);
      }
    }
  }

  lemma NextInLine(st: Sched, s: Status, a: Action, k: nat)
    requires Inv(st) && s in {Active, Avail} && s in st.ring && 0 < k < |st.ring[s]|
    ensures var d := Dispatch(st, s, a); s in d.ring && k - 1 < |d.ring[s]| && d.ring[s][k - 1] == st.ring[s][k]
  {
    hide Inv, Dispatch;
    DispatchKeeps(st, s, a);
    InvKeys(Dispatch(st, s, a));
    assert Dispatch(st, s, a).ring[s][k - 1] == st.ring[s][1..][k - 1];
  }

  lemma {:induction false} LoopOther(st: Sched, s: Status, acts: seq<Action>, o: Status)
    requires Inv(st) && s in {Active, Avail} && o in {Active, Avail} && o != s
    ensures st.ring[o] <= Loop(st, s, acts).st.ring[o]
    ensures Loop(st, s, acts).st.terminal == st.terminal
    decreases |acts|
  {
    hide Inv, Dispatch;
    InvKeys(st);
    if acts != [] && st.ring[s] != [] {
      DispatchKeeps(st, s, acts[0]);
      InvKeys(Dispatch(st, s, acts[0]));
      LoopOther(Dispatch(st, s, acts[0]), s, acts[1..], o);
    }
  }

  lemma LoopTerminal(st: Sched, s: Status, acts: seq<Action>)
    requires Inv(st) && s in {Active, Avail}
    ensures Loop(st, s, acts).st.terminal == st.terminal
  {
    LoopOther(st, s, acts, if s == Active then Avail else Active);
  }

  /** What a wakeup may change: coroutines leave INACTIVE and TIMEOUT only, for ACTIVE or AVAIL. */
  ghost predicate Woke(st: Sched, r: Sched)
    requires Inv(st) && Inv(r)
  {
    && Appends(st, r) && r.ring[Free] == st.ring[Free]
    && (forall v: nat :: v in st.status <==> v in r.status)
    && (forall v: nat :: v in st.status && r.status[v] != st.status[v] ==>
          st.status[v] in {Inactive, Timeout} && r.status[v] in {Active, Avail})
    && r.terminal == st.terminal
  }

  lemma MoveWoke(st: Sched, u: nat, to: Status)
    requires Inv(st) && u in st.status && st.status[u] in {Inactive, Timeout} && to in {Active, Avail}
    requires st.status[u] in st.ring && to in st.ring && Inv(Move(st, u, to))
    ensures Woke(st, Move(st, u, to))
  {
    hide Inv, Move, Remove, Partition;
    InvKeys(st);
    MoveShape(st, u, to);
  }

  /** A wakeup of one id: it leaves the allowed rings, and nothing else changes place. */
  lemma MoveIfWakes(st: Sched, u: nat, allowed: set<Status>, to: Status)
    requires Inv(st) && to in {Active, Avail} && allowed <= {Inactive, Timeout}
    requires Inv(MoveIf(st, u, allowed, to))
    ensures var r := MoveIf(st, u, allowed, to);
      && Woke(st, r)
      && (u in st.status ==> u in r.status && r.status[u] !in allowed)
      && r == st.(ring := r.ring, status := r.status)
  {
    hide Inv, Move, Woke;
    InvKeys(st);
    WokeRefl(st);
    if u in st.status && st.status[u] in allowed {
      MoveWoke(st, u, to);
      MoveShape(st, u, to);
    }
  }

  lemma WokeTrans(a: Sched, b: Sched, c: Sched)
    requires Inv(a) && Inv(b) && Inv(c) && Woke(a, b) && Woke(b, c)
    ensures Woke(a, c)
  {
    hide Inv;
    InvKeys(a);
    InvKeys(b);
    InvKeys(c);
  }

  /** A coroutine that is awake is not put back to sleep by a wakeup. */
  lemma StaysAwake(n: Sched, r: Sched, u: nat)
    requires Inv(n) && Inv(r) && Woke(n, r) && u in n.status
    ensures u in r.status
    ensures n.status[u] != Timeout ==> r.status[u] != Timeout
    ensures n.status[u] != Inactive ==> r.status[u] != Inactive
  {
    hide Inv, Appends;
  }

  lemma {:induction false} WakeTimeoutWoke(st: Sched, now: int)
    requires Inv(st)
    ensures var r := WakeTimeout(st, now);
      && Woke(st, r) && r.needActive == st.needActive && r.activeQueue == st.activeQueue
      && (!st.terminal ==> forall t: Timer :: t in r.timers <==> t in st.timers && t.deadline > now)
      && (!st.terminal ==> forall t: Timer :: t in st.timers && t.deadline <= now ==>
            t.uid in r.status && r.status[t.uid] !in {Timeout, Inactive})
    decreases |st.timers|
  {
    hide Inv, MoveIf, Woke;
    WokeRefl(st);
    if st.terminal || st.timers == [] || st.timers[0].deadline > now {
      LateTimers(st);
    } else {
      var t0, rest := st.timers[0], st.timers[1..];
      PopInv(st);
      MoveIfInv(st, t0.uid, {Inactive, Timeout}, Active);
      MoveIfWakes(st, t0.uid, {Inactive, Timeout}, Active);
      var m := MoveToActive(st, t0.uid);
      var n := m.(timers := rest);
      WokeTimers(st, m, rest);
      WakeTimeoutWoke(n, now);
      WokeTrans(st, n, WakeTimeout(n, now));
      LateTimers(st);
      StaysAwake(n, WakeTimeout(n, now), t0.uid);
      assert st.timers == [t0] + rest;
    }
  }

  lemma WokeRefl(st: Sched)
    requires Inv(st)
    ensures Woke(st, st)
  {
    hide Inv;
    InvKeys(st);
  }

  lemma WokeTimers(st: Sched, m: Sched, ts: seq<Timer>)
    requires Inv(st) && Inv(m) && Inv(m.(timers := ts)) && Woke(st, m)
    ensures Woke(st, m.(timers := ts))
  {
    hide Inv;
    InvKeys(st);
    InvKeys(m);
  }

  /** The multimap's order: behind its head no timer is earlier, and all name created coroutines. */
  lemma LateTimers(st: Sched)
    requires Inv(st)
    ensures forall t: Timer :: t in st.timers ==> t.deadline >= st.timers[0].deadline && t.uid in st.status
  {
    hide Partition;
    PartitionKeys(st);
  }

  lemma {:induction false} AvailAllWoke(st: Sched, ids: seq<nat>)
    requires Inv(st)
    ensures var r := AvailAll(st, ids);
      && Woke(st, r) && r.needActive == st.needActive && r.activeQueue == st.activeQueue && r.timers == st.timers
      && (forall u: nat :: u in ids && u in st.status ==> u in r.status && r.status[u] != Inactive)
    decreases |ids|
  {
    hide Inv, MoveIf, Woke;
    WokeRefl(st);
    if ids != [] {
      MoveIfInv(st, ids[0], {Inactive}, Avail);
      MoveIfWakes(st, ids[0], {Inactive}, Avail);
      var m := MoveToAvail(st, ids[0]);
      WokeFacts(st, m);
      AvailAllWoke(m, ids[1..]);
      WokeTrans(st, m, AvailAll(m, ids[1..]));
      if ids[0] in m.status { StaysAwake(m, AvailAll(m, ids[1..]), ids[0]); }
      assert ids == [ids[0]] + ids[1..];
    }
  }

  lemma {:induction false} ActiveAllWoke(st: Sched, ids: seq<nat>)
    requires Inv(st)
    ensures var r := ActiveAll(st, ids);
      && Woke(st, r) && r.needActive == st.needActive && r.activeQueue == st.activeQueue && r.timers == st.timers
      && (forall u: nat :: u in ids && u in st.status ==> u in r.status && r.status[u] !in {Inactive, Timeout})
    decreases |ids|
  {
    hide Inv, MoveIf, Woke;
    WokeRefl(st);
    if ids != [] {
      MoveIfInv(st, ids[0], {Inactive, Timeout}, Active);
      MoveIfWakes(st, ids[0], {Inactive, Timeout}, Active);
      var m := MoveToActive(st, ids[0]);
      WokeFacts(st, m);
      ActiveAllWoke(m, ids[1..]);
      WokeTrans(st, m, ActiveAll(m, ids[1..]));
      if ids[0] in m.status { StaysAwake(m, ActiveAll(m, ids[1..]), ids[0]); }
      assert ids == [ids[0]] + ids[1..];
    }
  }

  lemma WokeClear(st: Sched, r: Sched)
    requires Inv(st) && Inv(r) && Inv(r.(needActive := [])) && Woke(st, r)
    ensures Woke(st, r.(needActive := []))
  {
    hide Inv;
    InvKeys(st);
    InvKeys(r);
  }

  /** The three wakeup calls of a pass. */
  lemma WakeAllWoke(st: Sched, now: int)
    requires Inv(st) && !st.terminal
    ensures var t := WakeTimeout(st, now); var s := WakeSelf(t); var r := WakeAll(st, now);
      && Woke(st, r) && Woke(st, t) && Woke(t, s) && Woke(s, r)
      && r.needActive == [] && r.activeQueue == [] && r.timers == t.timers
      && (forall u: nat :: u in st.needActive && u in st.status ==> u in r.status && r.status[u] != Inactive)
      && (forall u: nat :: u in st.activeQueue && u in st.status ==>
            u in r.status && r.status[u] !in {Inactive, Timeout})
  {
    hide Inv, WakeTimeout, AvailAll, ActiveAll, Woke, Appends;
    WakeTimeoutWoke(st, now);
    var t := WakeTimeout(st, now);
    WokeFacts(st, t);
    AvailAllWoke(t, t.needActive);
    WokeFacts(t, AvailAll(t, t.needActive));
    ClearInv(AvailAll(t, t.needActive));
    WokeClear(t, AvailAll(t, t.needActive));
    var s := WakeSelf(t);
    WokeFacts(t, s);
    ClearInv(s);
    ActiveAllWoke(s.(activeQueue := []), s.activeQueue);
    var r := Wake(s);
    WokeFacts(s.(activeQueue := []), r);
    WokeQueue(s, r);
    WokeFacts(s, r);
    forall u: nat | u in st.needActive && u in st.status ensures u in r.status && r.status[u] != Inactive {
      StaysAwake(s, r, u);
    }
    WokeTrans(st, t, s);
    WokeTrans(st, s, r);
  }

  lemma WokeQueue(s: Sched, r: Sched)
    requires Inv(s) && Inv(r) && Inv(s.(activeQueue := [])) && Woke(s.(activeQueue := []), r)
    ensures Woke(s, r)
  {
    hide Inv;
    InvKeys(s);
    InvKeys(r);
  }

  lemma WokeFacts(st: Sched, r: Sched)
    requires Inv(st) && Inv(r) && Woke(st, r)
    ensures forall v: nat :: v in st.status <==> v in r.status
    ensures forall v: nat :: v in st.status && r.status[v] != st.status[v] ==>
      st.status[v] in {Inactive, Timeout} && r.status[v] in {Active, Avail}
    ensures r.terminal == st.terminal && Appends(st, r)
  {
    hide Inv;
    InvKeys(st);
    InvKeys(r);
  }

  /** The state in which a pass begins its first loop. */
  function Awake(st: Sched, x: Input): (r: Sched)
    requires Inv(st)
    ensures Inv(r)
  {
    WakeAll(Performs(st, x.before), x.now)
  }

  lemma AwakeRuns(st: Sched, x: Input)
    requires Inv(st) && !st.terminal
    ensures !Performs(st, x.before).terminal && !Awake(st, x).terminal
  {
    hide Inv, Performs, WakeAll, Woke;
    PerformsKeeps(st, x.before);
    var s0 := Performs(st, x.before);
    WakeAllWoke(s0, x.now);
    WokeFacts(s0, Awake(st, x));
  }

  lemma BeforeLoops(st: Sched, x: Input, s: Status, k: nat)
    requires Inv(st) && !st.terminal && s in {Active, Avail}
    requires s in st.ring && k < |st.ring[s]|
    ensures s in Awake(st, x).ring && k < |Awake(st, x).ring[s]| && Awake(st, x).ring[s][k] == st.ring[s][k]
  {
    hide Inv, Performs, WakeAll, Woke;
    InvKeys(st);
    PerformsKeeps(st, x.before);
    var s0 := Performs(st, x.before);
    InvKeys(s0);
    WakeAllWoke(s0, x.now);
    WokeFacts(s0, Awake(st, x));
    InvKeys(Awake(st, x));
  }

  /** The state in which the loop over ring `s` begins: the loop over ACTIVE comes first. */
  function LoopStart(st: Sched, x: Input, s: Status): (r: Sched)
    requires Inv(st)
    ensures Inv(r)
  {
    if s == Avail then Loop(Awake(st, x), Active, x.onActive).st else Awake(st, x)
  }

  /** Who is queued when the pass begins keeps its place until the loop begins, and others may join. */
  lemma StartKeeps(st: Sched, x: Input, s: Status, k: nat)
    requires Inv(st) && !st.terminal && s in {Active, Avail}
    requires s in st.ring && k < |st.ring[s]|
    ensures s in LoopStart(st, x, s).ring && k < |LoopStart(st, x, s).ring[s]|
    ensures LoopStart(st, x, s).ring[s][k] == st.ring[s][k]
  {
    hide Inv, Loop, Awake;
    BeforeLoops(st, x, s, k);
    InvKeys(Awake(st, x));
    if s == Avail {
      LoopOther(Awake(st, x), Active, x.onActive, Avail);
      InvKeys(LoopStart(st, x, s));
    }
  }

  /** A pass before terminate(): the wakeups and the two loops. */
  lemma PassIs(st: Sched, x: Input)
    requires Inv(st) && !st.terminal
    ensures var a := Loop(Awake(st, x), Active, x.onActive); var b := Loop(a.st, Avail, x.onAvail);
      Pass(st, x) == Passed(b.st, a.ids, b.ids) && !b.st.terminal
  {
    hide Inv, Performs, WakeAll, Loop;
    AwakeRuns(st, x);
    var a := Loop(Awake(st, x), Active, x.onActive);
    LoopTerminal(Awake(st, x), Active, x.onActive);
    LoopTerminal(a.st, Avail, x.onAvail);
  }

  /** In one pass the k-th of a ring, when its loop begins, is dispatched k-th, or moves forward by the budget. */
  lemma PassOrder(st: Sched, x: Input, s: Status, k: nat)
    requires Inv(st) && !st.terminal && s in {Active, Avail}
    requires s in LoopStart(st, x, s).ring && k < |LoopStart(st, x, s).ring[s]|
    ensures var p := Pass(st, x); var q := LoopStart(st, x, s).ring[s]; var n := Budget(x, s);
      && !p.st.terminal
      && if k < n then k < |IdsOf(p, s)| && IdsOf(p, s)[k] == q[k]
         else s in p.st.ring && k - n < |p.st.ring[s]| && p.st.ring[s][k - n] == q[k]
  {
    hide Inv, Awake, Loop, Pass;
    PassIs(st, x);
    var a := Loop(Awake(st, x), Active, x.onActive);
    if s == Active {
      LoopOrder(Awake(st, x), Active, x.onActive, k);
      InvKeys(a.st);
      InvKeys(Loop(a.st, Avail, x.onAvail).st);
      LoopOther(a.st, Avail, x.onAvail, Active);
    } else {
      LoopOrder(a.st, Avail, x.onAvail, k);
    }
  }

  lemma OneRoundLess(k: nat, n: nat)
    requires 0 < n <= k
    ensures (k - n) / n == k / n - 1 && (k - n) % n == k % n && k / n > 0
  {
    QuotientsEqual(n, k / n - 1, k % n, (k - n) / n, (k - n) % n);
  }

  /** The passes, of budget n for ring s, up to the one that dispatches index k. */
  ghost predicate PassesFor(xs: seq<Input>, s: Status, n: nat, k: nat) {
    n > 0 && |xs| == k / n + 1 && forall i :: 0 <= i < |xs| ==> Budget(xs[i], s) == n
  }

  /** Where a coroutine waits, run() does not find that none is in use. */
  lemma InUse(st: Sched, s: Status)
    requires Inv(st) && s in {Active, Avail} && s in st.ring && st.ring[s] != []
    ensures st.used > 0
  {
    hide Partition;
    PartitionKeys(st);
  }

  /**
   * Bounded waiting: the coroutine at index k of the ACTIVE or AVAIL ring when that ring's loop
   * begins, whether it waited there before or was woken or created in this very pass, is dispatched
   * k / n passes later as number k % n, n being the loop's budget, whatever the coroutines, the other
   * threads and the clock do. Until then some coroutine is in use, so that run() does not stop.
   */
  lemma {:induction false} BoundedWaiting(st: Sched, xs: seq<Input>, s: Status, n: nat, k: nat)
    requires Inv(st) && !st.terminal && s in {Active, Avail} && PassesFor(xs, s, n, k)
    ensures var q := LoopStart(st, xs[0], s).ring; var ps := Passes(st, xs);
      s in q && k < |q[s]| ==>
        && (var ids := IdsOf(ps[k / n], s); k % n < |ids| && ids[k % n] == q[s][k])
        && forall j :: 0 <= j < k / n ==> ps[j].st.used > 0 && !ps[j].st.terminal
    decreases k
  {
    hide Inv, Pass, LoopStart;
    var q := LoopStart(st, xs[0], s).ring;
    if s in q && k < |q[s]| {
      PassOrder(st, xs[0], s, k);
      var p := Pass(st, xs[0]);
      if k >= n {
        OneRoundLess(k, n);
        InUse(p.st, s);
        StartKeeps(p.st, xs[1], s, k - n);
        BoundedWaiting(p.st, xs[1..], s, n, k - n);
        assert Passes(st, xs) == [p] + Passes(p.st, xs[1..]);
      }
    }
  }

  /** In particular for the coroutine that stands at index k between two passes. */
  lemma WaitsBetweenPasses(st: Sched, xs: seq<Input>, s: Status, n: nat, k: nat)
    requires Inv(st) && !st.terminal && s in {Active, Avail} && PassesFor(xs, s, n, k)
    requires s in st.ring && k < |st.ring[s]|
    ensures var ids := IdsOf(Passes(st, xs)[k / n], s);
      k % n < |ids| && ids[k % n] == st.ring[s][k]
  {
    hide Inv, Pass, LoopStart, Passes;
    StartKeeps(st, xs[0], s, k);
    BoundedWaiting(st, xs, s, n, k);
  }

  /** Under tars_run index k means k / 100 passes, in either ring. */
  lemma TarsRunWaits(st: Sched, xs: seq<Input>, s: Status, k: nat)
    requires Inv(st) && !st.terminal && s in {Active, Avail}
    requires s in st.ring && k < |st.ring[s]|
    requires |xs| == k / 100 + 1 && forall i :: 0 <= i < |xs| ==> OfTarsRun(xs[i])
    ensures var ids := IdsOf(Passes(st, xs)[k / 100], s);
      k % 100 < |ids| && ids[k % 100] == st.ring[s][k]
  {
    hide Inv, Pass, Passes;
    WaitsBetweenPasses(st, xs, s, 100, k);
  }

  /** Under run() an AVAIL coroutine at index k waits k rounds, and run() goes on until then. */
  lemma RunWaits(st: Sched, xs: seq<Input>, k: nat)
    requires Inv(st) && !st.terminal && Avail in st.ring && k < |st.ring[Avail]|
    requires |xs| == k + 1 && forall i :: 0 <= i < |xs| ==> OfRun(xs[i])
    ensures var ps := Passes(st, xs);
      && 0 < |ps[k].avail| && ps[k].avail[0] == st.ring[Avail][k]
      && forall j :: 0 <= j < k ==> ps[j].st.used > 0 && !ps[j].st.terminal
  {
    hide Inv, Pass, Passes, LoopStart;
    StartKeeps(st, xs[0], Avail, k);
    assert k / 1 == k && k % 1 == 0;
    BoundedWaiting(st, xs, Avail, 1, k);
  }
}
