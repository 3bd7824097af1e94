/**
 * The coroutine scheduler as a state machine over coroutine ids
 * (servant/libservant/CoroutineScheduler.cpp): what every step keeps, and what whole runs guarantee.
 */
module SchedulerSpec {

  datatype Status = Free | Active | Avail | Inactive | Timeout

  datatype Timer = Timer(deadline: int, uid: nat)

  /**
   * `ring[s]` lists the ids in the ring for status `s`, head first; `status[u]` is coroutine u's
   * status field; ids run from 1 to `uniq`. `timers` is the multimap in iteration order.
   */
  datatype Sched = Sched(
    ring: map<Status, seq<nat>>,
    status: map<nat, Status>,
    pool: nat,
    current: nat,
    used: nat,
    uniq: nat,
    needActive: seq<nat>,
    activeQueue: seq<nat>,
    timers: seq<Timer>,
    terminal: bool)

  // ---------- invariants ----------

  ghost predicate NoDup(q: seq<nat>) {
    forall i, j :: 0 <= i < j < |q| ==> q[i] != q[j]
  }

  /** Every created coroutine is in exactly one ring, once, and that ring matches its status. */
  ghost predicate Partition(st: Sched) {
    && (forall s: Status :: s in st.ring)
    && (forall u: nat :: u in st.status <==> 1 <= u <= st.uniq)
    && (forall s: Status :: NoDup(st.ring[s]))
    && (forall s: Status, u: nat :: u in st.ring[s] <==> u in st.status && st.status[u] == s)
  }

  function Busy(st: Sched): nat
    requires forall s: Status :: s in st.ring
  {
    |st.ring[Active]| + |st.ring[Avail]| + |st.ring[Inactive]| + |st.ring[Timeout]|
  }

  /** `used` counts the coroutines that are not FREE, `uniq` all that were created. */
  ghost predicate Accounted(st: Sched)
    requires forall s: Status :: s in st.ring
  {
    st.used == Busy(st) && st.uniq == Busy(st) + |st.ring[Free]|
  }

  ghost predicate Created(st: Sched, ids: seq<nat>) {
    forall i :: 0 <= i < |ids| ==> 1 <= ids[i] <= st.uniq
  }

  ghost predicate TimersOk(st: Sched) {
    && (forall i :: 0 <= i < |st.timers| ==> 1 <= st.timers[i].uid <= st.uniq)
    && SortedTimers(st.timers)
  }

  ghost predicate SortedTimers(ts: seq<Timer>) {
    forall i, j :: 0 <= i < j < |ts| ==> ts[i].deadline <= ts[j].deadline
  }

  ghost predicate Inv(st: Sched) {
    Partition(st) && Accounted(st) && st.current == st.uniq && st.uniq <= st.pool && st.pool > 0
    && Created(st, st.needActive) && Created(st, st.activeQueue) && TimersOk(st)
  }

  // ---------- moving between rings ----------

  function Remove(q: seq<nat>, u: nat): seq<nat> {
    if q == [] then [] else if q[0] == u then q[1..] else [q[0]] + Remove(q[1..], u)
  }

  /** CoroutineDel, setStatus, CoroutineAddTail. */
  function Move(st: Sched, u: nat, to: Status): Sched
    requires u in st.status && st.status[u] in st.ring && to in st.ring
  {
    var from := st.status[u];
    var out := st.ring[from := Remove(st.ring[from], u)];
    st.(ring := out[to := out[to] + [u]], status := st.status[u := to])
  }

  function MoveIf(st: Sched, u: nat, allowed: set<Status>, to: Status): Sched {
    if u in st.status && st.status[u] in allowed && st.status[u] in st.ring && to in st.ring then Move(st, u, to)
    else st
  }

  function MoveToActive(st: Sched, u: nat): Sched {
    MoveIf(st, u, {Inactive, Timeout}, Active)
  }

  function MoveToAvail(st: Sched, u: nat): Sched {
    MoveIf(st, u, {Inactive}, Avail)
  }

  function MoveToInactive(st: Sched, u: nat): Sched {
    MoveIf(st, u, {Active, Avail}, Inactive)
  }

  function MoveToTimeout(st: Sched, u: nat): Sched {
    MoveIf(st, u, {Active, Avail}, Timeout)
  }

  function MoveToFreeList(st: Sched, u: nat): Sched {
    MoveIf(st, u, {Active, Avail, Inactive, Timeout}, Free)
  }

  lemma {:induction false} RemoveFacts(q: seq<nat>, u: nat)
    requires NoDup(q) && u in q
    ensures NoDup(Remove(q, u)) && |Remove(q, u)| == |q| - 1
    ensures forall x: nat :: x in Remove(q, u) <==> x in q && x != u
    ensures q[0] == u ==> Remove(q, u) == q[1..]
  {
    if q[0] != u {
      RemoveFacts(q[1..], u);
      var r := Remove(q[1..], u);
      assert q == [q[0]] + q[1..];
      assert q[0] !in q[1..];
      forall i, j | 0 <= i < j < |r| + 1 ensures ([q[0]] + r)[i] != ([q[0]] + r)[j] {
        if i == 0 { assert r[j - 1] in r; }
      }
    } else {
      assert q == [u] + q[1..];
    }
  }

  lemma MoveShape(st: Sched, u: nat, to: Status)
    requires (forall s: Status :: s in st.ring) && u in st.status && st.status[u] != to
    ensures var m := Move(st, u, to);
      && (forall s: Status :: s in m.ring)
      && m.ring[st.status[u]] == Remove(st.ring[st.status[u]], u)
      && m.ring[to] == st.ring[to] + [u]
      && (forall s: Status :: s != to && s != st.status[u] ==> m.ring[s] == st.ring[s])
      && (forall v: nat :: v in m.status <==> v in st.status)
      && (forall v: nat :: v in st.status ==> m.status[v] == if v == u then to else st.status[v])
      && m == st.(ring := m.ring, status := m.status)
  {
    hide Remove;
  }

  lemma AppendFacts(q: seq<nat>, u: nat)
    requires NoDup(q) && u !in q
    ensures NoDup(q + [u])
    ensures forall x: nat :: x in q + [u] <==> x in q || x == u
  {
    forall i, j | 0 <= i < j < |q| + 1 ensures (q + [u])[i] != (q + [u])[j] {
      if j == |q| { assert q[i] in q; }
    }
  }

  lemma MoveRing(st: Sched, u: nat, to: Status, s: Status)
    requires Partition(st) && u in st.status && st.status[u] != to
    ensures var m := Move(st, u, to);
      s in m.ring && NoDup(m.ring[s]) && forall v: nat :: v in m.ring[s] <==> v in m.status && m.status[v] == s
  {
    hide Move, Remove, NoDup;
    var from := st.status[u];
    assert u in st.ring[from];
    assert u !in st.ring[to];
    assert NoDup(st.ring[s]);
    MoveShape(st, u, to);
    if s == from { RemoveFacts(st.ring[from], u); }
    if s == to { AppendFacts(st.ring[to], u); }
  }

  lemma MovePartition(st: Sched, u: nat, to: Status)
    requires Partition(st) && u in st.status && st.status[u] != to
    ensures Partition(Move(st, u, to))
    ensures |Move(st, u, to).ring[to]| == |st.ring[to]| + 1
    ensures |Move(st, u, to).ring[st.status[u]]| == |st.ring[st.status[u]]| - 1
    ensures forall s: Status :: s != to && s != st.status[u] ==> Move(st, u, to).ring[s] == st.ring[s]
  {
    hide Move, Remove, NoDup;
    var from := st.status[u];
    assert u in st.ring[from] && NoDup(st.ring[from]);
    RemoveFacts(st.ring[from], u);
    MoveShape(st, u, to);
    var m := Move(st, u, to);
    forall s: Status
      ensures NoDup(m.ring[s])
      ensures forall v: nat :: v in m.ring[s] <==> v in m.status && m.status[v] == s
    {
      MoveRing(st, u, to, s);
    }
  }

  /** The invariant, with `used` off by `d` from the number of busy coroutines. */
  ghost predicate InvOff(st: Sched, d: int) {
    Partition(st) && st.used + d == Busy(st) && st.uniq == Busy(st) + |st.ring[Free]|
    && st.current == st.uniq && st.uniq <= st.pool && st.pool > 0
    && Created(st, st.needActive) && Created(st, st.activeQueue) && TimersOk(st)
  }

  function Weight(s: Status): int {
    if s == Free then 0 else 1
  }

  lemma MoveInv(st: Sched, u: nat, to: Status, d: int)
    requires InvOff(st, d) && u in st.status && st.status[u] != to
    ensures InvOff(Move(st, u, to), d + Weight(to) - Weight(st.status[u]))
  {
    hide NoDup, Remove, Partition, Move;
    PartitionKeys(st);
    MoveShape(st, u, to);
    MovePartition(st, u, to);
    BusyAfter(st, Move(st, u, to), st.status[u], to);
  }

  lemma BusyAfter(st: Sched, m: Sched, from: Status, to: Status)
    requires (forall s: Status :: s in st.ring && s in m.ring) && from != to
    requires |m.ring[to]| == |st.ring[to]| + 1 && |m.ring[from]| == |st.ring[from]| - 1
    requires forall s: Status :: s != to && s != from ==> m.ring[s] == st.ring[s]
    ensures Busy(m) == Busy(st) + Weight(to) - Weight(from)
    ensures Busy(m) + |m.ring[Free]| == Busy(st) + |st.ring[Free]|
  {
  }

  lemma MoveIfInv(st: Sched, u: nat, allowed: set<Status>, to: Status)
    requires Inv(st) && to !in allowed && to != Free && Free !in allowed
    ensures Inv(MoveIf(st, u, allowed, to))
  {
    hide Partition;
    PartitionKeys(st);
    assert InvOff(st, 0);
    if u in st.status && st.status[u] in allowed {
      MoveInv(st, u, to, 0);
    }
  }

  lemma PartitionKeys(st: Sched)
    requires Partition(st)
    ensures forall s: Status :: s in st.ring
    ensures forall u: nat :: u in st.status <==> 1 <= u <= st.uniq
    ensures forall s: Status, i :: 0 <= i < |st.ring[s]| ==> st.ring[s][i] in st.status && st.status[st.ring[s][i]] == s
    ensures forall u: nat :: u in st.status ==> u in st.ring[st.status[u]]
  {
    hide NoDup;
    forall s: Status, i | 0 <= i < |st.ring[s]| ensures st.ring[s][i] in st.status && st.status[st.ring[s][i]] == s {
      assert st.ring[s][i] in st.ring[s];
    }
  }

  // ---------- the pool ----------

  /** One round of the loop in init and increaseCoroPoolSize: generateId, setStatus, CoroutineAddTail. */
  function AddNew(st: Sched): Sched
    requires Free in st.ring
  {
    var id := st.uniq + 1;
    st.(ring := st.ring[Free := st.ring[Free] + [id]], status := st.status[id := Free], uniq := id)
  }

  function Grow(st: Sched, n: nat): Sched
    requires Free in st.ring
    decreases n
  {
    if n == 0 then st else Grow(AddNew(st), n - 1)
  }

  function Empty(pool: nat): Sched {
    Sched(map[Free := [], Active := [], Avail := [], Inactive := [], Timeout := []], map[],
          pool, 0, 0, 0, [], [], [], false)
  }

  /** init: at most 100 coroutines to begin with. */
  function Init(pool: nat): Sched {
    var n := if pool <= 100 then pool else 100;
    Grow(Empty(pool), n).(current := n)
  }

  function Increment(st: Sched): nat
    requires st.current <= st.pool
  {
    if st.pool - st.current > 100 then 100 else st.pool - st.current
  }

  function Increase(st: Sched): Sched
    requires st.current <= st.pool && Free in st.ring
  {
    Grow(st, Increment(st)).(current := st.current + Increment(st))
  }

  datatype Made = Made(st: Sched, uid: nat)

  /** createCoroutine; uid 0 is failure. */
  function Create(st: Sched): Made
    requires Inv(st)
  {
    var grow := st.used >= st.current || st.ring[Free] == [];
    if grow && Increment(st) == 0 then Made(st, 0) else
    GrowInv(st, Increment(st));
    var s1 := if grow then Increase(st) else st;
    PartitionKeys(s1);
    var u := s1.ring[Free][0];
    Made(Move(s1.(used := s1.used + 1), u, Avail), u)
  }

  lemma AddNewPartition(st: Sched)
    requires Partition(st)
    ensures Partition(AddNew(st))
  {
    var id := st.uniq + 1;
    assert id !in st.status;
    assert id !in st.ring[Free];
    var q := st.ring[Free] + [id];
    forall i, j | 0 <= i < j < |q| ensures q[i] != q[j] {
      if j == |q| - 1 { assert st.ring[Free][i] in st.ring[Free]; }
    }
  }

  lemma {:induction false} GrowInv(st: Sched, n: nat)
    requires Partition(st) && Accounted(st)
    ensures Partition(Grow(st, n)) && Accounted(Grow(st, n)) && Grow(st, n).uniq == st.uniq + n
    ensures |Grow(st, n).ring[Free]| == |st.ring[Free]| + n
    ensures forall s: Status :: s != Free ==> Grow(st, n).ring[s] == st.ring[s]
    ensures forall u: nat :: u in st.status ==> u in Grow(st, n).status && Grow(st, n).status[u] == st.status[u]
    ensures forall u: nat :: u in Grow(st, n).status && u !in st.status ==> Grow(st, n).status[u] == Free
    ensures Grow(st, n) == st.(ring := Grow(st, n).ring, status := Grow(st, n).status, uniq := st.uniq + n)
    decreases n
  {
    if n > 0 {
      AddNewPartition(st);
      GrowInv(AddNew(st), n - 1);
    }
  }

  /** Whatever the pool size, the scheduler starts in the invariant. */
  lemma InitInv(pool: nat)
    requires pool > 0
    ensures Inv(Init(pool)) && !Init(pool).terminal && Init(pool).timers == []
    ensures forall u: nat :: u in Init(pool).status ==> Init(pool).status[u] == Free
  {
    forall s: Status ensures s in Empty(pool).ring {
      match s
      case Free =>
      case Active =>
      case Avail =>
      case Inactive =>
      case Timeout =>
    }
    GrowInv(Empty(pool), if pool <= 100 then pool else 100);
  }

  /** The state from which createCoroutine takes the head of the FREE ring. */
  function Grown(st: Sched): Sched
    requires Inv(st)
  {
    if st.used >= st.current || st.ring[Free] == [] then Increase(st) else st
  }

  lemma GrownInv(st: Sched)
    requires Inv(st)
    ensures Inv(Grown(st)) && (Grown(st).ring[Free] != [] <==> st.used < st.pool)
    ensures Grown(st).used == st.used && st.uniq <= Grown(st).uniq
    ensures forall s: Status :: s != Free ==> Grown(st).ring[s] == st.ring[s]
    ensures forall u: nat :: u in st.status ==> u in Grown(st).status && Grown(st).status[u] == st.status[u]
    ensures forall u: nat :: u in Grown(st).status && u !in st.status ==> Grown(st).status[u] == Free
    ensures var g := Grown(st); g == st.(ring := g.ring, status := g.status, uniq := g.uniq, current := g.current)
  {
    hide Grow, Partition;
    PartitionKeys(st);
    GrowInv(st, Increment(st));
    PartitionKeys(Grow(st, Increment(st)));
    SamePartition(Grow(st, Increment(st)), Grown(st));
  }

  lemma SamePartition(st: Sched, t: Sched)
    requires Partition(st)
    ensures t.ring == st.ring && t.status == st.status && t.uniq == st.uniq ==> Partition(t)
  {
  }

  /**
   * createCoroutine keeps the invariant; it returns 0 exactly when all pool coroutines are in use,
   * and otherwise the id of a coroutine that was FREE or did not exist before.
   */
  lemma CreateInv(st: Sched)
    requires Inv(st)
    ensures var m := Create(st);
      && Inv(m.st)
      && (m.uid == 0 <==> st.used == st.pool)
      && (m.uid == 0 ==> m.st == st)
      && (m.uid != 0 ==> m.uid !in st.status || st.status[m.uid] == Free)
      && (m.uid != 0 ==> m.uid in m.st.status && m.st.status[m.uid] == Avail && m.st.used == st.used + 1)
      && (m.uid != 0 ==> m.st.ring[Avail] == st.ring[Avail] + [m.uid])
  {
    hide NoDup, Grown, Remove, Move, Partition;
    PartitionKeys(st);
    GrownInv(st);
    PartitionKeys(Grown(st));
    CreateIs(st);
    if st.used < st.pool {
      var s1 := Grown(st);
      var u := s1.ring[Free][0];
      SamePartition(s1, s1.(used := s1.used + 1));
      MoveInv(s1.(used := s1.used + 1), u, Avail, -1);
      MoveShape(s1.(used := s1.used + 1), u, Avail);
    }
  }

  lemma CreateIs(st: Sched)
    requires Inv(st)
    ensures Inv(Grown(st)) && (Grown(st).ring[Free] != [] <==> st.used < st.pool)
    ensures Create(st) ==
      if st.used == st.pool then Made(st, 0)
      else Made(Move(Grown(st).(used := st.used + 1), Grown(st).ring[Free][0], Avail), Grown(st).ring[Free][0])
  {
    hide Move, Grow, NoDup;
    GrownInv(st);
    PartitionKeys(Grown(st));
  }

  /**
   * Which coroutine that is: the one that has been FREE for longest, or if none is, the first of up to
   * 100 new ones.
   */
  lemma CreateTakes(st: Sched)
    requires Inv(st) && st.used < st.pool
    ensures var m := Create(st);
      && Free in m.st.ring
      && (st.used < st.current ==>
            && st.ring[Free] != [] && m.uid == st.ring[Free][0]
            && m.st.ring[Free] == st.ring[Free][1..] && m.st.uniq == st.uniq)
      && (st.used >= st.current ==>
            && m.uid == st.uniq + 1 && |m.st.ring[Free]| == m.st.uniq - m.uid
            && m.st.uniq == st.uniq + if st.pool - st.uniq > 100 then 100 else st.pool - st.uniq)
  {
    hide NoDup, Remove, Move, Partition, Grow;
    PartitionKeys(st);
    GrownInv(st);
    CreateIs(st);
    var g := Grown(st);
    PartitionKeys(g);
    if st.used >= st.current {
      GrowInv(st, Increment(st));
      NewInLine(st, Increment(st));
    }
    var u := g.ring[Free][0];
    MoveShape(g.(used := g.used + 1), u, Avail);
    RemoveFirst(g.ring[Free]);
  }

  lemma RemoveFirst(q: seq<nat>)
    requires q != []
    ensures Remove(q, q[0]) == q[1..]
  {
  }

  /** New coroutines join the FREE ring with consecutive ids. */
  lemma {:induction false} NewInLine(st: Sched, n: nat)
    requires Free in st.ring
    ensures var q := st.ring[Free]; var g := Grow(st, n);
      && Free in g.ring && g.uniq == st.uniq + n && |g.ring[Free]| == |q| + n && q <= g.ring[Free]
      && forall i :: |q| <= i < |q| + n ==> g.ring[Free][i] == st.uniq + 1 + (i - |q|)
    decreases n
  {
    if n > 0 {
      var q := st.ring[Free];
      NewInLine(AddNew(st), n - 1);
      assert (q + [st.uniq + 1])[|q|] == st.uniq + 1;
    }
  }

  /** init begins with up to 100 coroutines, FREE and in the order of their ids from 1 up. */
  lemma InitPool(pool: nat)
    ensures var st := Init(pool); var n := if pool <= 100 then pool else 100;
      && Free in st.ring && st.uniq == st.current == |st.ring[Free]| == n && st.pool == pool
      && st.used == 0 && st.needActive == [] && st.activeQueue == []
      && forall i :: 0 <= i < n ==> st.ring[Free][i] == i + 1
  {
    hide Grow;
    var n := if pool <= 100 then pool else 100;
    NewInLine(Empty(pool), n);
    GrowRest(Empty(pool), n);
  }

  lemma {:induction false} GrowRest(st: Sched, n: nat)
    requires Free in st.ring
    ensures var g := Grow(st, n); g == st.(ring := g.ring, status := g.status, uniq := g.uniq)
    decreases n
  {
    if n > 0 { GrowRest(AddNew(st), n - 1); }
  }

  /** What createCoroutine leaves alone: other coroutines' statuses, the other rings, the wake queues. */
  lemma CreateFrame(st: Sched)
    requires Inv(st)
    ensures var m := Create(st).st;
      && m == st.(ring := m.ring, status := m.status, uniq := m.uniq, current := m.current, used := m.used)
      && (forall s: Status :: s != Free && s != Avail ==> s in m.ring && m.ring[s] == st.ring[s])
      && st.uniq <= m.uniq
      && (forall u: nat :: u in st.status && st.status[u] != Free ==> u in m.status && m.status[u] == st.status[u])
      && (forall u: nat :: u in m.status && (u !in st.status || st.status[u] == Free) ==> m.status[u] in {Free, Avail})
  {
    hide NoDup, Grown, Remove, Move, Partition;
    PartitionKeys(st);
    GrownInv(st);
    PartitionKeys(Grown(st));
    CreateIs(st);
    if st.used < st.pool {
      var s1 := Grown(st);
      MoveShape(s1.(used := s1.used + 1), s1.ring[Free][0], Avail);
    }
  }

  // ---------- init, a second time ----------

  /**
   * init(pool) on a scheduler in any state: the table and the counters start afresh, while the rings
   * and the queues keep what they hold.
   */
  function Reinit(st: Sched, pool: nat): Sched
    requires Free in st.ring
  {
    var n := if pool <= 100 then pool else 100;
    Grow(st.(status := map[], pool := pool, used := 0, uniq := 0, terminal := false), n).(current := n)
  }

  lemma {:induction false} GrowShape(st: Sched, n: nat)
    requires Free in st.ring
    ensures var g := Grow(st, n);
      && g.uniq == st.uniq + n
      && Free in g.ring && |g.ring[Free]| == |st.ring[Free]| + n && st.ring[Free] <= g.ring[Free]
      && (forall s: Status :: s != Free ==>
            (s in g.ring <==> s in st.ring) && (s in g.ring ==> g.ring[s] == st.ring[s]))
    decreases n
  {
    if n > 0 { GrowShape(AddNew(st), n - 1); }
  }

  /** A second init loses the old coroutines: it gives a sound scheduler exactly when none was ever created. */
  lemma ReinitInvIff(st: Sched, pool: nat)
    requires Inv(st) && pool > 0
    ensures Inv(Reinit(st, pool)) <==> st.uniq == 0
  {
    hide NoDup, Created, TimersOk, Grow;
    PartitionKeys(st);
    var n := if pool <= 100 then pool else 100;
    var base := st.(status := map[], pool := pool, used := 0, uniq := 0, terminal := false);
    GrowShape(base, n);
    if st.uniq == 0 {
      EmptyRings(st);
      InitInv(pool);
      assert base == Empty(pool).(current := st.current);
      GrowCurrent(Empty(pool), st.current, n);
      assert Reinit(st, pool) == Init(pool);
    } else {
      var r := Reinit(st, pool);
      assert r.uniq == n && |r.ring[Free]| == |st.ring[Free]| + n;
      assert Busy(r) == Busy(st);
      assert !Accounted(r);
    }
  }

  lemma SomeCreated(st: Sched, ids: seq<nat>)
    requires Created(st, ids) && ids != []
    ensures st.uniq > 0
  {
    assert 1 <= ids[0] <= st.uniq;
  }

  lemma SomeTimer(st: Sched)
    requires TimersOk(st) && st.timers != []
    ensures st.uniq > 0
  {
    assert 1 <= st.timers[0].uid <= st.uniq;
  }

  lemma EmptyRings(st: Sched)
    requires Inv(st) && st.uniq == 0
    ensures st.ring == Empty(0).ring && st.needActive == [] && st.activeQueue == [] && st.timers == []
  {
    forall s: Status ensures st.ring[s] == [] && s in Empty(0).ring && Empty(0).ring[s] == [] {
      match s case Free => case Active => case Avail => case Inactive => case Timeout =>
    }
    if st.needActive != [] { SomeCreated(st, st.needActive); }
    if st.activeQueue != [] { SomeCreated(st, st.activeQueue); }
    if st.timers != [] { SomeTimer(st); }
  }

  lemma {:induction false} GrowCurrent(st: Sched, c: nat, n: nat)
    requires Free in st.ring
    ensures Grow(st.(current := c), n) == Grow(st, n).(current := c)
    decreases n
  {
    if n > 0 { GrowCurrent(AddNew(st), c, n - 1); }
  }
}
