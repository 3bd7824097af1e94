/**
 * TC_LoopQueue shared by one producer and one consumer thread (util/include/tc_loop_queue.h): every
 * read and write of the shared indices and slots is a step of its own, interleaved arbitrarily.
 */
module SpscQueue {
  import opened LoopQueues

  /** Where the producer is inside push_back(t, bEmpty) or push_back(vt). */
  datatype Producer<T> =
    | PIdle
    | PRead(t: T)                             // about to read _iEnd
    | PCheck(t: T, end: nat, seen: nat) // has read it, when `seen` items were queued
    | PWrite(t: T)                            // about to write slot _iBegin
    | PWasEmpty(t: T)                         // about to compare _iEnd and _iBegin
    | PPublish(t: T, bEmpty: bool)            // about to advance _iBegin
    | PSize(bEmpty: bool, onto: bool)         // about to compute size(); `onto`: published into an empty queue
    | BRead(vt: seq<T>)
    | BCheck(vt: seq<T>, end: nat, seen: nat)
    | BWrite(rest: seq<T>)
    | BPublish(rest: seq<T>)

  /** Where the consumer is inside pop_front(t). */
  datatype Consumer<T> =
    | CIdle
    | CCheck       // about to compare _iEnd and _iBegin
    | CRead        // about to copy slot _iEnd
    | CPublish(t: T) // about to advance _iEnd

  datatype Outcome = NoneYet | Accepted(bEmpty: bool) | Rejected

  /** What the latest pop_front returned. */
  datatype Popped<T> = NotYet | Took(t: T) | FoundEmpty

  /** `pushed` and `popped` record the items published and taken; `asked` the items of accepted pushes. */
  datatype State<T> = State(
    n: nat, p: seq<T>, iBegin: nat, iEnd: nat,
    prod: Producer<T>, cons: Consumer<T>,
    pushed: seq<T>, popped: seq<T>, asked: seq<T>, outcome: Outcome, got: Popped<T>)

  datatype Event<T> = Push(t: T) | PushAll(vt: seq<T>) | ProducerStep | Pop | ConsumerStep

  /** The number of items between the indices, which is what size() computes. */
  function Held<T>(s: State<T>): nat
    requires s.iBegin < s.n && s.iEnd < s.n
  {
    Ahead(s.n, s.iEnd, s.iBegin)
  }

  function Produce<T>(s: State<T>): State<T>
    requires 1 < s.n && s.iBegin < s.n && s.iEnd < s.n && |s.p| == s.n
  {
    match s.prod
    case PIdle => s
    case PRead(t) => s.(prod := PCheck(t, s.iEnd, Ahead(s.n, s.iEnd, s.iBegin)))
    case PCheck(t, end, _) =>
      if LooksFull(s.n, end, s.iBegin) then s.(prod := PIdle, outcome := Rejected)
      else s.(prod := PWrite(t), outcome := Accepted(false), asked := s.asked + [t])
    case PWrite(t) => s.(p := s.p[s.iBegin := t], prod := PWasEmpty(t))
    case PWasEmpty(t) => s.(prod := PPublish(t, s.iEnd == s.iBegin))
    case PPublish(t, bEmpty) =>
      s.(iBegin := After(s.n, s.iBegin), pushed := s.pushed + [t], prod := PSize(bEmpty, s.iEnd == s.iBegin))
    case PSize(bEmpty, _) => s.(prod := PIdle, outcome := Accepted(bEmpty || Held(s) == 1))
    case BRead(vt) => s.(prod := BCheck(vt, s.iEnd, Ahead(s.n, s.iEnd, s.iBegin)))
    case BCheck(vt, end, _) =>
      if LooksTooSmall(s.n, end, s.iBegin, |vt|) then s.(prod := PIdle, outcome := Rejected)
      else s.(prod := BWrite(vt), outcome := Accepted(false), asked := s.asked + vt)
    case BWrite(rest) =>
      if rest == [] then s.(prod := PIdle) else s.(p := s.p[s.iBegin := rest[0]], prod := BPublish(rest))
    case BPublish(rest) =>
      if rest == [] then s.(prod := PIdle)
      else s.(iBegin := After(s.n, s.iBegin), pushed := s.pushed + [rest[0]], prod := BWrite(rest[1..]))
  }

  function Consume<T>(s: State<T>): State<T>
    requires 1 < s.n && s.iBegin < s.n && s.iEnd < s.n && |s.p| == s.n
  {
    match s.cons
    case CIdle => s
    case CCheck => if s.iEnd == s.iBegin then s.(cons := CIdle, got := FoundEmpty) else s.(cons := CRead)
    case CRead => s.(cons := CPublish(s.p[s.iEnd]))
    case CPublish(t) => s.(iEnd := After(s.n, s.iEnd), popped := s.popped + [t], cons := CIdle, got := Took(t))
  }

  /** A call begins only when its thread is idle. */
  function Step<T>(s: State<T>, ev: Event<T>): State<T>
    requires 1 < s.n && s.iBegin < s.n && s.iEnd < s.n && |s.p| == s.n
  {
    match ev
    case Push(t) => if s.prod.PIdle? then s.(prod := PRead(t), outcome := NoneYet) else s
    case PushAll(vt) => if s.prod.PIdle? then s.(prod := BRead(vt), outcome := NoneYet) else s
    case ProducerStep => Produce(s)
    case Pop => if s.cons.CIdle? then s.(cons := CCheck, got := NotYet) else s
    case ConsumerStep => Consume(s)
  }

  // ---------- the invariant ----------

  /** The producer's old view of _iEnd never makes it think there is more room than there is. */
  ghost predicate ProducerOk<T>(s: State<T>)
    requires s.iBegin < s.n && s.iEnd < s.n && |s.p| == s.n
  {
    match s.prod
    case PCheck(_, end, seen) => end < s.n && Ahead(s.n, end, s.iBegin) == seen && Held(s) <= seen
    case PWrite(_) => Held(s) < s.n - 1
    case PWasEmpty(t) => Held(s) < s.n - 1 && s.p[s.iBegin] == t
    case PPublish(t, bEmpty) => Held(s) < s.n - 1 && s.p[s.iBegin] == t && (bEmpty ==> Held(s) == 0)
    case PSize(bEmpty, onto) => bEmpty || onto ==> Held(s) <= 1
    case BCheck(_, end, seen) => end < s.n && Ahead(s.n, end, s.iBegin) == seen && Held(s) <= seen
    case BWrite(rest) => Held(s) + |rest| <= s.n - 1
    case BPublish(rest) => Held(s) + |rest| <= s.n - 1 && rest != [] && s.p[s.iBegin] == rest[0]
    case _ => true
  }

  ghost predicate ConsumerOk<T>(s: State<T>)
    requires s.iBegin < s.n && s.iEnd < s.n && |s.p| == s.n
  {
    match s.cons
    case CIdle => true
    case CCheck => s.got == NotYet
    case CRead => s.got == NotYet && Held(s) > 0
    case CPublish(t) => s.got == NotYet && Held(s) > 0 && t == s.p[s.iEnd]
  }

  /** Items of accepted pushes that are not yet published. */
  function Pending<T>(s: State<T>): seq<T> {
    match s.prod
    case PWrite(t) => [t]
    case PWasEmpty(t) => [t]
    case PPublish(t, _) => [t]
    case BWrite(rest) => rest
    case BPublish(rest) => rest
    case _ => []
  }

  /** The slots between the indices hold, in order, what was published and not taken. */
  ghost predicate SlotsHold<T>(s: State<T>)
    requires s.iBegin < s.n && s.iEnd < s.n && |s.p| == s.n
  {
    && |s.pushed| == |s.popped| + Held(s)
    && s.popped <= s.pushed
    && forall k :: 0 <= k < Held(s) ==> s.p[Slot(s.n, s.iEnd, k)] == s.pushed[|s.popped| + k]
  }

  ghost predicate Shape<T>(s: State<T>) {
    1 < s.n <= 1000000 && |s.p| == s.n && s.iBegin < s.n && s.iEnd < s.n
  }

  ghost predicate Inv<T>(s: State<T>) {
    && Shape(s) && SlotsHold(s)
    && ProducerOk(s) && ConsumerOk(s)
    && s.asked == s.pushed + Pending(s)
  }

  /** Writing the slot at _iBegin of a queue with room touches no queued item. */
  lemma WriteKeeps<T>(s: State<T>, t: T)
    requires Shape(s) && SlotsHold(s) && ConsumerOk(s) && Held(s) < s.n - 1
    ensures var r := s.(p := s.p[s.iBegin := t]); SlotsHold(r) && ConsumerOk(r) && Held(r) == Held(s)
  {
  }

  lemma PublishKeeps<T>(s: State<T>, t: T)
    requires Shape(s) && SlotsHold(s) && ConsumerOk(s) && Held(s) < s.n - 1 && s.p[s.iBegin] == t
    ensures var r := s.(iBegin := After(s.n, s.iBegin), pushed := s.pushed + [t]);
      SlotsHold(r) && ConsumerOk(r) && Held(r) == Held(s) + 1
  {
  }

  lemma TakeKeeps<T>(s: State<T>)
    requires Shape(s) && SlotsHold(s) && Held(s) > 0
    ensures var r := s.(iEnd := After(s.n, s.iEnd), popped := s.popped + [s.p[s.iEnd]]);
      SlotsHold(r) && Held(r) == Held(s) - 1
  {
    assert Slot(s.n, s.iEnd, 0) == s.iEnd;
    forall k | 0 <= k < Held(s) - 1
      ensures s.p[Slot(s.n, After(s.n, s.iEnd), k)] == s.pushed[|s.popped| + 1 + k]
    {
      assert Slot(s.n, After(s.n, s.iEnd), k) == Slot(s.n, s.iEnd, k + 1);
    }
  }

  /** Only the two index reads, the two tests and the comparisons: nothing shared changes. */
  lemma QuietStepInv<T>(s: State<T>)
    requires Inv(s)
    requires !s.prod.PWrite? && !s.prod.PPublish? && !s.prod.BWrite? && !s.prod.BPublish?
    ensures Inv(Produce(s))
  {
    hide SlotsHold, ConsumerOk, LooksFull, LooksTooSmall, After, Slot;
    var r := Produce(s);
    assert r.p == s.p && r.iBegin == s.iBegin && r.iEnd == s.iEnd && r.cons == s.cons;
    FrameSlots(s, r);
    match s.prod
    case PCheck(t, end, _) => FullMeans(s.n, end, s.iBegin);
    case BCheck(vt, end, _) => TooSmallMeans(s.n, end, s.iBegin, |vt|);
    case _ =>
  }

  lemma FrameSlots<T>(s: State<T>, r: State<T>)
    requires Shape(s) && SlotsHold(s)
    requires r.n == s.n && r.p == s.p && r.iBegin == s.iBegin && r.iEnd == s.iEnd
    requires r.pushed == s.pushed && r.popped == s.popped
    ensures SlotsHold(r) && Held(r) == Held(s)
    ensures r.cons == s.cons && r.got == s.got && ConsumerOk(s) ==> ConsumerOk(r)
  {
  }

  lemma WriteStepInv<T>(s: State<T>)
    requires Inv(s) && (s.prod.PWrite? || s.prod.BWrite?)
    ensures Inv(Produce(s))
  {
    hide SlotsHold, ConsumerOk, LooksFull, LooksTooSmall, After, Slot, Ahead;
    if s.prod.BWrite? && s.prod.rest == [] {
      FrameSlots(s, Produce(s));
    } else {
      var t := if s.prod.PWrite? then s.prod.t else s.prod.rest[0];
      WriteKeeps(s, t);
      FrameSlots(s.(p := s.p[s.iBegin := t]), Produce(s));
    }
  }

  lemma PublishStepInv<T>(s: State<T>)
    requires Inv(s) && (s.prod.PPublish? || s.prod.BPublish?)
    ensures Inv(Produce(s))
  {
    hide SlotsHold, ConsumerOk, LooksFull, LooksTooSmall, Slot;
    var t := if s.prod.PPublish? then s.prod.t else s.prod.rest[0];
    PublishKeeps(s, t);
    FrameSlots(s.(iBegin := After(s.n, s.iBegin), pushed := s.pushed + [t]), Produce(s));
    if s.prod.BPublish? {
      assert s.pushed + s.prod.rest == (s.pushed + [t]) + s.prod.rest[1..];
    }
  }

  lemma ProduceInv<T>(s: State<T>)
    requires Inv(s)
    ensures Inv(Produce(s))
  {
    hide Inv, Produce;
    if s.prod.PWrite? || s.prod.BWrite? {
      WriteStepInv(s);
    } else if s.prod.PPublish? || s.prod.BPublish? {
      PublishStepInv(s);
    } else {
      QuietStepInv(s);
    }
  }

  lemma ConsumeInv<T>(s: State<T>)
    requires Inv(s)
    ensures Inv(Consume(s))
  {
    hide SlotsHold, LooksFull, LooksTooSmall, Slot;
    if s.cons.CPublish? {
      TakeKeeps(s);
      FrameSlots(s.(iEnd := After(s.n, s.iEnd), popped := s.popped + [s.p[s.iEnd]]), Consume(s));
    } else {
      FrameSlots(s, Consume(s));
    }
  }

  lemma StepInv<T>(s: State<T>, ev: Event<T>)
    requires Inv(s)
    ensures Inv(Step(s, ev))
  {
    match ev
    case ProducerStep => ProduceInv(s);
    case ConsumerStep => ConsumeInv(s);
    case _ =>
  }

  function Execute<T>(s: State<T>, evs: seq<Event<T>>): (r: State<T>)
    requires Inv(s)
    ensures Inv(r) && r.n == s.n
    decreases |evs|
  {
    if evs == [] then s else StepInv(s, evs[0]); Execute(Step(s, evs[0]), evs[1..])
  }

  /** A queue made with iSize items of room, over whatever its memory held. */
  function Init<T>(memory: seq<T>): State<T> {
    State(|memory|, memory, 0, 0, PIdle, CIdle, [], [], [], NoneYet, NotYet)
  }

  /**
   * Safety of every interleaving: what was popped is a prefix of what was pushed, at most iSize items
   * are held, the memory between the indices is intact, and every item of an accepted push has been
   * or will be published, in order.
   */
  lemma SafeInterleavings<T>(memory: seq<T>, evs: seq<Event<T>>)
    requires 1 < |memory| <= 1000000
    ensures var s := Execute(Init(memory), evs);
      && s.popped <= s.pushed <= s.asked && s.asked == s.pushed + Pending(s)
      && |s.pushed| - |s.popped| == Held(s) <= |memory| - 1
      && SlotsHold(s)
  {
    assert Inv(Execute(Init(memory), evs));
  }

  /** A slot the consumer is about to copy, or has to copy later, is never the one being written. */
  lemma NoOverwrite<T>(memory: seq<T>, evs: seq<Event<T>>, k: nat)
    requires 1 < |memory| <= 1000000
    requires var s := Execute(Init(memory), evs);
      k < Held(s) && (s.prod.PWrite? || (s.prod.BWrite? && s.prod.rest != []))
    ensures var s := Execute(Init(memory), evs); Slot(s.n, s.iEnd, k) != s.iBegin
  {
    assert Inv(Execute(Init(memory), evs));
  }

  /**
   * A push is refused exactly when its items did not fit at the moment it read _iEnd, `seen` items
   * being queued then. By the time it decides, the consumer may have made room, never the reverse.
   */
  lemma Decision<T>(memory: seq<T>, evs: seq<Event<T>>)
    requires 1 < |memory| <= 1000000
    requires var p := Execute(Init(memory), evs).prod; p.PCheck? || p.BCheck?
    ensures var s := Execute(Init(memory), evs);
      && Held(s) <= s.prod.seen
      && (s.prod.PCheck? ==> (Produce(s).outcome == Rejected <==> s.prod.seen == |memory| - 1))
      && (s.prod.BCheck? ==> (Produce(s).outcome == Rejected <==> s.prod.seen + |s.prod.vt| > |memory| - 1))
  {
    var s := Execute(Init(memory), evs);
    assert Inv(s);
    FullMeans(s.n, s.prod.end, s.iBegin);
    if s.prod.BCheck? { TooSmallMeans(s.n, s.prod.end, s.iBegin, |s.prod.vt|); }
  }

  /**
   * No lost notification: a push that published its item into an empty queue reports bEmpty, unless
   * the consumer has already taken that item by the time the producer looks.
   */
  lemma EmptyIsReported<T>(memory: seq<T>, evs: seq<Event<T>>)
    requires 1 < |memory| <= 1000000
    requires var p := Execute(Init(memory), evs).prod; p.PSize? && p.onto
    ensures var s := Execute(Init(memory), evs);
      Produce(s).outcome == Accepted(true) || s.popped == s.pushed
  {
    assert Inv(Execute(Init(memory), evs));
  }

  /** The two tests for emptiness, so that a push reports bEmpty if and only if they show the queue empty before it. */
  lemma EmptyMeans<T>(memory: seq<T>, evs: seq<Event<T>>)
    requires 1 < |memory| <= 1000000
    ensures var s := Execute(Init(memory), evs);
      && (s.prod.PWasEmpty? ==> Produce(s).prod == PPublish(s.prod.t, Held(s) == 0))
      && (s.prod.PSize? && Held(s) == 1 ==> Produce(s).outcome == Accepted(true))
      && (s.prod.PSize? && Held(s) > 1 ==> Produce(s).outcome == Accepted(false))
      && (s.prod.PSize? && Held(s) == 0 ==> Produce(s).outcome == Accepted(s.prod.bEmpty))
  {
    assert Inv(Execute(Init(memory), evs));
  }

  // ---------- what a pop returns ----------

  /**
   * pop_front returns false exactly when the queue is empty at the moment it compares the indices, and
   * then nothing but that is changed.
   */
  lemma PopDecision<T>(memory: seq<T>, evs: seq<Event<T>>)
    requires 1 < |memory| <= 1000000
    ensures var s := Execute(Init(memory), evs); var r := Consume(s);
      s.cons.CCheck? ==>
        && (r.got == FoundEmpty <==> Held(s) == 0)
        && (Held(s) == 0 ==> r == s.(cons := CIdle, got := FoundEmpty))
        && (Held(s) > 0 ==> r == s.(cons := CRead))
  {
    assert Inv(Execute(Init(memory), evs));
  }

  predicate OfProducer<T>(ev: Event<T>) {
    ev.Push? || ev.PushAll? || ev.ProducerStep?
  }

  /** Whatever the producer does, the consumer's place and index stay, and items are only added. */
  lemma {:induction false} ProducerOnly<T>(s: State<T>, evs: seq<Event<T>>)
    requires Inv(s) && forall i :: 0 <= i < |evs| ==> OfProducer(evs[i])
    ensures var r := Execute(s, evs);
      r.cons == s.cons && r.popped == s.popped && r.got == s.got && s.pushed <= r.pushed
    decreases |evs|
  {
    hide Inv, LooksFull, LooksTooSmall, After;
    if evs != [] {
      StepInv(s, evs[0]);
      InvShape(s);
      ProducerOnly(Step(s, evs[0]), evs[1..]);
    }
  }

  lemma InvShape<T>(s: State<T>)
    requires Inv(s)
    ensures Shape(s)
  {
  }

  /** Steps of the consumer with anything the producer may do before the first and between them. */
  function Turns<T>(p: seq<Event<T>>, q: seq<Event<T>>): seq<Event<T>> {
    [ConsumerStep] + p + [ConsumerStep] + q + [ConsumerStep]
  }

  /**
   * A pop that does not find the queue empty takes the oldest item: three steps later, whatever the
   * producer did in between, it has returned exactly the first item that was published and not yet taken.
   */
  lemma PopTakes<T>(s: State<T>, p: seq<Event<T>>, q: seq<Event<T>>)
    requires Inv(s) && s.cons.CCheck? && Held(s) > 0
    requires forall i :: 0 <= i < |p| ==> OfProducer(p[i])
    requires forall i :: 0 <= i < |q| ==> OfProducer(q[i])
    ensures var r := Execute(s, Turns(p, q));
      && |s.popped| < |s.pushed| && r.cons.CIdle?
      && r.popped == s.popped + [s.pushed[|s.popped|]]
      && r.got == Took(s.pushed[|s.popped|])
  {
    hide Produce, LooksFull, LooksTooSmall, After, ProducerOk;
    var s1 := Consume(s);
    StepInv(s, ConsumerStep);
    ProducerOnly(s1, p);
    var s2 := Execute(s1, p);
    StepInv(s2, ConsumerStep);
    var s3 := Consume(s2);
    ProducerOnly(s3, q);
    var s4 := Execute(s3, q);
    StepInv(s4, ConsumerStep);
    OldestAt(s4);
    TurnsRun(s, p, q);
  }

  /** From the call on. */
  lemma PopReturns<T>(s: State<T>, p: seq<Event<T>>, q: seq<Event<T>>)
    requires Inv(s) && s.cons.CIdle?
    requires forall i :: 0 <= i < |p| ==> OfProducer(p[i])
    requires forall i :: 0 <= i < |q| ==> OfProducer(q[i])
    ensures var r := Execute(s, [Pop] + Turns(p, q));
      Held(s) > 0 ==>
        && |s.popped| < |s.pushed| && r.cons.CIdle?
        && r.popped == s.popped + [s.pushed[|s.popped|]]
        && r.got == Took(s.pushed[|s.popped|])
    ensures Held(s) == 0 ==>
      Execute(s, [Pop, ConsumerStep]) == s.(got := FoundEmpty)
  {
    hide Produce, LooksFull, LooksTooSmall, After, Slot, Turns;
    StepInv(s, Pop);
    OneStep(s, Pop);
    ExecuteSplit(s, [Pop], Turns(p, q));
    if Held(s) > 0 {
      PopTakes(Step(s, Pop), p, q);
    } else {
      OneStep(Step(s, Pop), ConsumerStep);
      assert [Event<T>.Pop, Event<T>.ConsumerStep] == [Event<T>.Pop] + [Event<T>.ConsumerStep];
      ExecuteSplit(s, [Pop], [ConsumerStep]);
    }
  }

  lemma OldestAt<T>(s: State<T>)
    requires Inv(s) && Held(s) > 0
    ensures |s.popped| < |s.pushed| && s.p[s.iEnd] == s.pushed[|s.popped|]
  {
    assert Slot(s.n, s.iEnd, 0) == s.iEnd;
  }

  lemma {:induction false} ExecuteSplit<T>(s: State<T>, evs: seq<Event<T>>, more: seq<Event<T>>)
    requires Inv(s)
    ensures Execute(s, evs + more) == Execute(Execute(s, evs), more)
    decreases |evs|
  {
    hide Inv, Step;
    if evs == [] {
      assert evs + more == more;
    } else {
      assert (evs + more)[1..] == evs[1..] + more;
      InvShape(s);
      StepInv(s, evs[0]);
      ExecuteSplit(Step(s, evs[0]), evs[1..], more);
    }
  }

  lemma OneStep<T>(s: State<T>, ev: Event<T>)
    requires Inv(s)
    ensures Execute(s, [ev]) == Step(s, ev)
  {
    hide Step;
    assert [ev][1..] == [];
  }

  lemma TurnsRun<T>(s: State<T>, p: seq<Event<T>>, q: seq<Event<T>>)
    requires Inv(s)
    ensures Inv(Consume(s)) && Inv(Consume(Execute(Consume(s), p)))
    ensures Execute(s, Turns(p, q)) == Consume(Execute(Consume(Execute(Consume(s), p)), q))
  {
    hide Inv, Consume, Produce;
    var c: seq<Event<T>> := [ConsumerStep];
    InvShape(s);
    StepInv(s, ConsumerStep);
    OneStep(s, ConsumerStep);
    ExecuteSplit(s, c, p);
    var s2 := Execute(Consume(s), p);
    InvShape(s2);
    StepInv(s2, ConsumerStep);
    OneStep(s2, ConsumerStep);
    ExecuteSplit(s, c + p, c);
    ExecuteSplit(s, c + p + c, q);
    var s4 := Execute(Consume(s2), q);
    InvShape(s4);
    OneStep(s4, ConsumerStep);
    ExecuteSplit(s, c + p + c + q, c);
  }

  // ---------- what a push does before it returns ----------

  /** How many steps the producer still has to make, at most. */
  function StepsLeft<T>(p: Producer<T>): nat {
    match p
    case PIdle => 0
    case PSize(_, _) => 1
    case PPublish(_, _) => 2
    case PWasEmpty(_) => 3
    case PWrite(_) => 4
    case PCheck(_, _, _) => 5
    case PRead(_) => 6
    case BPublish(rest) => if rest == [] then 1 else 2 * |rest|
    case BWrite(rest) => 2 * |rest| + 1
    case BCheck(vt, _, _) => 2 * |vt| + 2
    case BRead(vt) => 2 * |vt| + 3
  }

  /** A push of `items` that began in state s0 and has come as far as s. */
  ghost predicate Underway<T>(s0: State<T>, items: seq<T>, s: State<T>) {
    match s.prod
    case PRead(t) => items == [t] && s.outcome == NoneYet && s.asked == s0.asked
    case PCheck(t, _, _) => items == [t] && s.outcome == NoneYet && s.asked == s0.asked
    case BRead(vt) => items == vt && s.outcome == NoneYet && s.asked == s0.asked
    case BCheck(vt, _, _) => items == vt && s.outcome == NoneYet && s.asked == s0.asked
    case PIdle => s.outcome != NoneYet && s.asked == s0.asked + if s.outcome == Rejected then [] else items
    case _ => s.outcome.Accepted? && s.asked == s0.asked + items
  }

  function ProducerSteps<T>(evs: seq<Event<T>>): nat {
    if evs == [] then 0 else (if evs[0].ProducerStep? then 1 else 0) + ProducerSteps(evs[1..])
  }

  lemma StepUnderway<T>(s0: State<T>, items: seq<T>, s: State<T>, ev: Event<T>)
    requires Inv(s) && Underway(s0, items, s) && !ev.Push? && !ev.PushAll?
    ensures var r := Step(s, ev);
      && Underway(s0, items, r) && StepsLeft(r.prod) <= StepsLeft(s.prod)
      && (ev.ProducerStep? && !s.prod.PIdle? ==> StepsLeft(r.prod) < StepsLeft(s.prod))
  {
    hide Inv, Produce;
    InvShape(s);
    if ev.ProducerStep? { ProduceUnderway(s0, items, s); }
  }

  lemma ProduceUnderway<T>(s0: State<T>, items: seq<T>, s: State<T>)
    requires Shape(s) && Underway(s0, items, s)
    ensures Underway(s0, items, Produce(s))
    ensures StepsLeft(Produce(s).prod) < StepsLeft(s.prod) || s.prod == Produce(s).prod == PIdle
  {
    hide LooksFull, LooksTooSmall, After;
  }

  lemma {:induction false} RunUnderway<T>(s0: State<T>, items: seq<T>, s: State<T>, evs: seq<Event<T>>)
    requires Inv(s) && Underway(s0, items, s)
    requires forall i :: 0 <= i < |evs| ==> !evs[i].Push? && !evs[i].PushAll?
    ensures var r := Execute(s, evs);
      Underway(s0, items, r) && (ProducerSteps(evs) >= StepsLeft(s.prod) ==> r.prod.PIdle?)
    decreases |evs|
  {
    hide Inv, Step, Underway;
    if evs == [] {
      NothingLeft(s.prod);
    } else {
      InvShape(s);
      StepInv(s, evs[0]);
      StepUnderway(s0, items, s, evs[0]);
      NothingLeft(s.prod);
      RunUnderway(s0, items, Step(s, evs[0]), evs[1..]);
    }
  }

  lemma NothingLeft<T>(p: Producer<T>)
    ensures StepsLeft(p) == 0 <==> p.PIdle?
  {
  }

  /**
   * A push always returns, and what it returns is what happened: after at most 6 steps of its own (2n + 3
   * for n items at once), whatever the consumer does meanwhile, its items have all been published in
   * order, behind those of before, or it was refused and none has been.
   */
  lemma PushReturns<T>(s: State<T>, ev: Event<T>, evs: seq<Event<T>>)
    requires Inv(s) && s.prod.PIdle? && (ev.Push? || ev.PushAll?)
    requires forall i :: 0 <= i < |evs| ==> !evs[i].Push? && !evs[i].PushAll?
    ensures var items := if ev.Push? then [ev.t] else ev.vt; var r := Execute(Step(s, ev), evs);
      ProducerSteps(evs) >= (if ev.Push? then 6 else 2 * |items| + 3) ==>
        && r.prod.PIdle? && r.outcome != NoneYet
        && r.pushed == s.pushed + if r.outcome == Rejected then [] else items
  {
    hide Inv, Step, Underway;
    var items := if ev.Push? then [ev.t] else ev.vt;
    var b := Begun(s, ev);
    RunUnderway(s, items, b, evs);
    var r := Execute(b, evs);
    AllPublished(s);
    if r.prod.PIdle? {
      AllPublished(r);
      Returned(s, items, r);
    }
  }

  lemma AllPublished<T>(s: State<T>)
    requires Inv(s) && s.prod.PIdle?
    ensures s.asked == s.pushed
  {
  }

  lemma Returned<T>(s0: State<T>, items: seq<T>, s: State<T>)
    requires Underway(s0, items, s) && s.prod.PIdle?
    ensures s.outcome != NoneYet && s.asked == s0.asked + if s.outcome == Rejected then [] else items
  {
  }

  lemma Begun<T>(s: State<T>, ev: Event<T>) returns (b: State<T>)
    requires Inv(s) && s.prod.PIdle? && (ev.Push? || ev.PushAll?)
    ensures b == Step(s, ev) && Inv(b)
    ensures Underway(s, if ev.Push? then [ev.t] else ev.vt, b)
    ensures StepsLeft(b.prod) == if ev.Push? then 6 else 2 * |ev.vt| + 3
  {
    b := Step(s, ev);
    StepInv(s, ev);
  }
}
