/**
 * The wait of a synchronous call: the caller's half of ServantProxy::invoke and the network thread's
 * ObjectProxy::finishInvoke, interleaved one shared access at a time.
 */
module SyncCall {

  datatype Thread = Invoker | Finisher

  datatype InvokerAt =
    | IPush            // about to clear bMonitorFin, make the monitor and queue the message
    | IPeek            // about to test bMonitorFin without the lock
    | ILock            // in lock(): about to take the mutex
    | IClear           // in lock(): about to reset _nnotify
    | ICheck           // about to test bMonitorFin again
    | IWaitRead        // in wait(): about to read _nnotify
    | IWaitSignal(n: int)
    | ISleep           // about to release the mutex and join the queue, in one step
    | IBlocked         // asleep in the queue
    | IWake            // woken: about to take the mutex again
    | IWaitClear       // about to reset _nnotify
    | IUnlockRead      // in unlock(): about to read _nnotify
    | IUnlockSignal(n: int)
    | IRelease
    | IDone

  datatype FinisherAt =
    | FLock
    | FClear
    | FNotify          // about to call notify()
    | FSetFin          // about to set bMonitorFin
    | FUnlockRead
    | FUnlockSignal(n: int)
    | FRelease
    | FDone

  datatype Mutex = Free | HeldBy(t: Thread)

  datatype State = State(mutex: Mutex, nnotify: int, fin: bool, inv: InvokerAt, net: FinisherAt)

  function Init(): State {
    State(Free, 0, false, IPush, FLock)
  }

  /** signal() and broadcast() both wake the only thread that ever waits on this monitor. */
  function Signal(s: State): State {
    if s.inv.IBlocked? then s.(inv := IWake) else s
  }

  predicate Enabled(s: State, t: Thread) {
    match t
    case Invoker =>
      s.inv != IDone && s.inv != IBlocked && ((s.inv == ILock || s.inv == IWake) ==> s.mutex == Free)
    case Finisher =>
      s.inv != IPush && s.net != FDone && (s.net == FLock ==> s.mutex == Free)
  }

  function InvokerStep(s: State): State {
    match s.inv
    case IPush => s.(fin := false, nnotify := 0, inv := IPeek)
    case IPeek => s.(inv := if s.fin then IDone else ILock)
    case ILock => s.(mutex := HeldBy(Invoker), inv := IClear)
    case IClear => s.(nnotify := 0, inv := ICheck)
    case ICheck => s.(inv := if s.fin then IUnlockRead else IWaitRead)
    case IWaitRead => s.(inv := IWaitSignal(s.nnotify))
    case IWaitSignal(n) =>
      if n > 0 then s.(inv := IWaitSignal(n - 1)) else s.(inv := ISleep)
    case ISleep => s.(mutex := Free, inv := IBlocked)
    case IBlocked => s
    case IWake => s.(mutex := HeldBy(Invoker), inv := IWaitClear)
    case IWaitClear => s.(nnotify := 0, inv := IUnlockRead)
    case IUnlockRead => s.(inv := IUnlockSignal(s.nnotify))
    case IUnlockSignal(n) =>
      if n > 0 then s.(inv := IUnlockSignal(n - 1)) else s.(inv := IRelease)
    case IRelease => s.(mutex := Free, inv := IDone)
    case IDone => s
  }

  function FinisherStep(s: State): State {
    match s.net
    case FLock => s.(mutex := HeldBy(Finisher), net := FClear)
    case FClear => s.(nnotify := 0, net := FNotify)
    case FNotify => s.(nnotify := if s.nnotify != -1 then s.nnotify + 1 else -1, net := FSetFin)
    case FSetFin => s.(fin := true, net := FUnlockRead)
    case FUnlockRead => s.(net := FUnlockSignal(s.nnotify))
    case FUnlockSignal(n) =>
      if n > 0 then Signal(s).(net := FUnlockSignal(n - 1))
      else if n == -1 then Signal(s).(net := FRelease)
      else s.(net := FRelease)
    case FRelease => s.(mutex := Free, net := FDone)
    case FDone => s
  }

  /** A thread that cannot go on leaves everything as it is. */
  function Step(s: State, t: Thread): State {
    if !Enabled(s, t) then s else match t case Invoker => InvokerStep(s) case Finisher => FinisherStep(s)
  }

  function Run(s: State, schedule: seq<Thread>): State
    decreases |schedule|
  {
    if schedule == [] then s else Run(Step(s, schedule[0]), schedule[1..])
  }

  predicate InvokerHolds(p: InvokerAt) {
    p == IClear || p == ICheck || p == IWaitRead || p.IWaitSignal? || p == ISleep || p == IWaitClear
    || p == IUnlockRead || p.IUnlockSignal? || p == IRelease
  }

  predicate FinisherHolds(p: FinisherAt) {
    p == FClear || p == FNotify || p == FSetFin || p == FUnlockRead || p.FUnlockSignal? || p == FRelease
  }

  /** bMonitorFin is set exactly by the finisher's fourth step. */
  predicate PastSetFin(p: FinisherAt) {
    p == FUnlockRead || p.FUnlockSignal? || p == FRelease || p == FDone
  }

  predicate Inv(s: State) {
    && (s.mutex == HeldBy(Invoker) <==> InvokerHolds(s.inv))
    && (s.mutex == HeldBy(Finisher) <==> FinisherHolds(s.net))
    && (s.inv == IPush ==> s.net == FLock)
    && (s.fin <==> PastSetFin(s.net))
    && 0 <= s.nnotify <= 1
    && (s.net == FNotify ==> s.nnotify == 0)
    && (s.net == FSetFin || s.net == FUnlockRead ==> s.nnotify == 1)
    && (s.net.FUnlockSignal? ==> 0 <= s.net.n <= 1)
    && ((s.inv == ICheck || s.inv == IWaitRead || s.inv == IUnlockRead) ==> s.nnotify == 0)
    && ((s.inv == IWaitRead || s.inv.IWaitSignal? || s.inv == ISleep) ==> s.net == FLock)
    && (s.inv.IWaitSignal? ==> s.inv.n == 0) && (s.inv.IUnlockSignal? ==> s.inv.n == 0)
    && (s.inv == IBlocked ==> !s.fin || s.net == FUnlockRead || (s.net.FUnlockSignal? && s.net.n == 1))
  }

  lemma InvokerStepInv(s: State)
    requires Inv(s) && Enabled(s, Invoker)
    ensures Inv(InvokerStep(s))
  {
  }

  lemma FinisherStepInv(s: State)
    requires Inv(s) && Enabled(s, Finisher)
    ensures Inv(FinisherStep(s))
  {
  }

  lemma StepInv(s: State, t: Thread)
    requires Inv(s)
    ensures Inv(Step(s, t))
  {
    hide Inv, Enabled, InvokerStep, FinisherStep;
    if Enabled(s, t) {
      match t
      case Invoker => InvokerStepInv(s);
      case Finisher => FinisherStepInv(s);
    }
  }

  lemma {:induction false} RunInv(s: State, schedule: seq<Thread>)
    requires Inv(s)
    ensures Inv(Run(s, schedule))
    decreases |schedule|
  {
    if schedule != [] {
      StepInv(s, schedule[0]);
      RunInv(Step(s, schedule[0]), schedule[1..]);
    }
  }

  /** Whatever the interleaving, once finishInvoke has returned the caller is not left asleep. */
  lemma NeverLeftAsleep(schedule: seq<Thread>)
    ensures var s := Run(Init(), schedule); s.net == FDone ==> s.fin && s.inv != IBlocked
  {
    RunInv(Init(), schedule);
  }

  /** The caller's half and the network thread's half are never inside the monitor together. */
  lemma MutualExclusion(schedule: seq<Thread>)
    ensures var s := Run(Init(), schedule); !(InvokerHolds(s.inv) && FinisherHolds(s.net))
  {
    RunInv(Init(), schedule);
  }

  /** The caller goes past its wait only after the answer was recorded. */
  lemma {:induction false} ReturnsAfterFin(schedule: seq<Thread>)
    ensures var s := Run(Init(), schedule); s.inv == IDone ==> s.fin
  {
    RunReturns(Init(), schedule);
  }

  predicate ReturnsOnlyAfterFin(s: State) {
    (s.inv == IWake || s.inv == IWaitClear || s.inv == IUnlockRead || s.inv.IUnlockSignal? || s.inv == IRelease
    || s.inv == IDone) ==> s.fin
  }

  lemma StepReturns(s: State, t: Thread)
    requires Inv(s) && ReturnsOnlyAfterFin(s)
    ensures ReturnsOnlyAfterFin(Step(s, t))
  {
  }

  lemma {:induction false} RunReturns(s: State, schedule: seq<Thread>)
    requires Inv(s) && ReturnsOnlyAfterFin(s)
    ensures ReturnsOnlyAfterFin(Run(s, schedule))
    decreases |schedule|
  {
    hide Inv, Step, ReturnsOnlyAfterFin;
    if schedule != [] {
      StepInv(s, schedule[0]);
      StepReturns(s, schedule[0]);
      RunReturns(Step(s, schedule[0]), schedule[1..]);
    }
  }

  // ---------- every fair run ends ----------

  function InvokerLeft(p: InvokerAt): nat {
    match p
    case IPush => 15
    case IPeek => 14
    case ILock => 13
    case IClear => 12
    case ICheck => 11
    case IWaitRead => 10
    case IWaitSignal(_) => 9
    case ISleep => 8
    case IBlocked => 7
    case IWake => 6
    case IWaitClear => 5
    case IUnlockRead => 4
    case IUnlockSignal(_) => 3
    case IRelease => 2
    case IDone => 0
  }

  function FinisherLeft(p: FinisherAt): nat {
    match p
    case FLock => 8
    case FClear => 7
    case FNotify => 6
    case FSetFin => 5
    case FUnlockRead => 4
    case FUnlockSignal(n) => if n > 0 then 3 else 2
    case FRelease => 1
    case FDone => 0
  }

  function Left(s: State): nat {
    InvokerLeft(s.inv) + FinisherLeft(s.net)
  }

  predicate Finished(s: State) {
    s.inv == IDone && s.net == FDone
  }

  /** No deadlock: until both halves are through, at least one of the threads can go on. */
  lemma SomeoneCanGo(s: State)
    requires Inv(s)
    ensures !Finished(s) <==> Enabled(s, Invoker) || Enabled(s, Finisher)
  {
  }

  lemma InvokerShortens(s: State)
    requires Inv(s) && Enabled(s, Invoker)
    ensures Left(InvokerStep(s)) < Left(s)
  {
    hide FinisherStep;
  }

  lemma FinisherShortens(s: State)
    requires Inv(s) && Enabled(s, Finisher)
    ensures Left(FinisherStep(s)) < Left(s)
  {
    hide InvokerStep;
  }

  lemma StepShortens(s: State, t: Thread)
    requires Inv(s)
    ensures Left(Step(s, t)) <= Left(s)
    ensures Enabled(s, t) ==> Left(Step(s, t)) < Left(s)
  {
    hide Inv, Enabled, InvokerStep, FinisherStep, Left;
    if Enabled(s, t) {
      match t
      case Invoker => InvokerShortens(s);
      case Finisher => FinisherShortens(s);
    }
  }

  lemma {:induction false} RunShortens(s: State, schedule: seq<Thread>)
    requires Inv(s)
    ensures Left(Run(s, schedule)) <= Left(s)
    ensures (exists t :: t in schedule && Enabled(s, t)) ==> Left(Run(s, schedule)) < Left(s)
    decreases |schedule|
  {
    if schedule != [] {
      StepInv(s, schedule[0]);
      StepShortens(s, schedule[0]);
      RunShortens(Step(s, schedule[0]), schedule[1..]);
    }
  }

  /** One round after another. */
  function RunRounds(s: State, rounds: seq<seq<Thread>>): State
    decreases |rounds|
  {
    if rounds == [] then s else RunRounds(Run(s, rounds[0]), rounds[1..])
  }

  lemma {:induction false} RoundsFinish(s: State, rounds: seq<seq<Thread>>)
    requires Inv(s) && Left(s) <= |rounds|
    requires forall r :: r in rounds ==> Invoker in r && Finisher in r
    ensures Finished(RunRounds(s, rounds))
    decreases |rounds|
  {
    if rounds != [] {
      RunInv(s, rounds[0]);
      RunShortens(s, rounds[0]);
      SomeoneCanGo(s);
      assert Invoker in rounds[0] && Finisher in rounds[0];
      RoundsFinish(Run(s, rounds[0]), rounds[1..]);
    }
  }

  /**
   * The call always returns: any schedule made of 23 rounds, each giving both threads at least one
   * turn and otherwise arbitrary, takes both halves to their end.
   */
  lemma CallReturns(rounds: seq<seq<Thread>>)
    requires |rounds| >= 23
    requires forall r :: r in rounds ==> Invoker in r && Finisher in r
    ensures Finished(RunRounds(Init(), rounds))
  {
    RoundsFinish(Init(), rounds);
  }
}
