/**
 * CoroutineScheduler over heap-allocated coroutines (servant/libservant/CoroutineScheduler.cpp): each
 * method rewires the intrusive rings and is proved to do what its step of SchedulerSpec says.
 */
module CoroutineScheduling {
  import opened SchedulerSpec
  import opened SchedulerRun
  import opened CoroutineRing

  lemma {:induction false} RemoveAt(ids: seq<nat>, i: nat)
    requires NoDup(ids) && i < |ids|
    ensures Remove(ids, ids[i]) == ids[..i] + ids[i + 1..]
  {
    if i > 0 {
      RemoveAt(ids[1..], i - 1);
      assert ids[1..][i - 1] == ids[i];
      assert ids[0] != ids[i];
      assert [ids[0]] + (ids[1..][..i - 1] + ids[1..][i..]) == ids[..i] + ids[i + 1..];
    } else {
      assert ids[..0] + ids[1..] == ids[1..];
    }
  }

  // ---------- rings of ids as rings of objects ----------

  /** `all` lists the coroutines by id: coroutine u is all[u - 1]. */
  ghost predicate Numbered(all: seq<CoroutineInfo>) {
    forall i :: 0 <= i < |all| ==> all[i].uid == i + 1
  }

  ghost predicate InRange(n: nat, ids: seq<nat>) {
    forall i :: 0 <= i < |ids| ==> 1 <= ids[i] <= n
  }

  ghost function Nodes(all: seq<CoroutineInfo>, ids: seq<nat>): (q: seq<CoroutineInfo>)
    requires InRange(|all|, ids)
    ensures |q| == |ids|
  {
    seq(|ids|, i requires 0 <= i < |ids| => all[ids[i] - 1])
  }

  /** Disjoint rings of known coroutines. */
  ghost predicate Apart(n: nat, r: map<Status, seq<nat>>) {
    && (forall s: Status :: s in r && InRange(n, r[s]) && NoDup(r[s]))
    && (forall s: Status, t: Status, u: nat :: s in r && t in r && u in r[s] && u in r[t] ==> s == t)
  }

  lemma NodesFacts(all: seq<CoroutineInfo>, ids: seq<nat>, u: nat)
    requires Numbered(all) && InRange(|all|, ids) && 1 <= u <= |all|
    ensures all[u - 1] in Nodes(all, ids) <==> u in ids
  {
    if u in ids {
      var i :| 0 <= i < |ids| && ids[i] == u;
      assert Nodes(all, ids)[i] == all[u - 1];
    }
    if all[u - 1] in Nodes(all, ids) {
      var i :| 0 <= i < |ids| && Nodes(all, ids)[i] == all[u - 1];
      assert all[ids[i] - 1].uid == ids[i];
    }
  }

  lemma NodesIn(all: seq<CoroutineInfo>, ids: seq<nat>)
    requires InRange(|all|, ids)
    ensures forall o :: o in Nodes(all, ids) ==> o in all
  {
  }

  lemma NodesApart(all: seq<CoroutineInfo>, r: map<Status, seq<nat>>, s: Status, t: Status)
    requires Numbered(all) && Apart(|all|, r) && s != t
    ensures forall o :: o in Nodes(all, r[s]) ==> o !in Nodes(all, r[t])
  {
    forall o | o in Nodes(all, r[s]) ensures o !in Nodes(all, r[t]) {
      var i :| 0 <= i < |r[s]| && Nodes(all, r[s])[i] == o;
      var u := r[s][i];
      assert u in r[s] && o == all[u - 1];
      NodesFacts(all, r[t], u);
    }
  }

  ghost function StatusAt(all: seq<CoroutineInfo>, u: nat): Status
    requires 1 <= u <= |all|
    reads all
  {
    all[u - 1].status
  }

  class CoroutineScheduler {
    const active: CoroutineInfo
    const avail: CoroutineInfo
    const inactive: CoroutineInfo
    const timeout: CoroutineInfo
    const free: CoroutineInfo
    const allCoro: array<CoroutineInfo?>
    const poolSize: nat
    var currentSize: nat
    var usedSize: nat
    var uniqId: nat
    var needActiveCoroId: seq<nat>
    var activeCoroQueue: seq<nat>
    var timeoutCoroId: seq<Timer>
    var terminal: bool

    // Ghost view: the created coroutines by id, and the ids in the ring of each status.
    ghost var all: seq<CoroutineInfo>
    ghost var ring: map<Status, seq<nat>>

    function Head(s: Status): CoroutineInfo {
      match s
      case Free => free
      case Active => active
      case Avail => avail
      case Inactive => inactive
      case Timeout => timeout
    }

    ghost predicate Sentinels()
      reads this`all
    {
      (forall s: Status, t: Status :: s != t ==> Head(s) != Head(t))
      && (forall s: Status :: Head(s) !in all)
    }

    /** The id table: coroutine u is at index u. */
    ghost predicate Table()
      reads this`all, this`uniqId, allCoro
    {
      && allCoro.Length == poolSize + 1 && uniqId == |all| <= poolSize && Numbered(all)
      && (forall u :: 1 <= u <= uniqId ==> allCoro[u] == all[u - 1])
      && (forall u :: 0 <= u <= poolSize && !(1 <= u <= uniqId) ==> allCoro[u] == null)
    }

    ghost function Objects(): set<object>
      reads this`all
    {
      {active, avail, inactive, timeout, free} + set o | o in all
    }

    /** The pointers of the five rings spell out `r`. */
    ghost predicate Wired(r: map<Status, seq<nat>>)
      requires Apart(|all|, r)
      reads this`all, Objects()
    {
      forall s: Status :: Spells(s, r[s])
    }

    ghost predicate Spells(s: Status, ids: seq<nat>)
      requires InRange(|all|, ids)
      reads this`all, Head(s), all
    {
      Linked(Head(s), Nodes(all, ids))
    }

    ghost function Abs(): Sched
      requires |all| == uniqId
      reads this, all
    {
      Sched(ring, map u: nat | 1 <= u <= uniqId :: StatusAt(all, u), poolSize, currentSize, usedSize, uniqId,
            needActiveCoroId, activeCoroQueue, timeoutCoroId, terminal)
    }

    ghost predicate Valid()
      reads this, allCoro, Objects()
    {
      Sentinels() && Table() && Partition(Abs()) && Apart(|all|, ring) && Wired(ring)
    }

    /** Five empty rings and an empty id table. */
    constructor (pool: nat)
      ensures Valid() && poolSize == pool && Abs() == Empty(pool)
      ensures all == [] && fresh(active) && fresh(avail) && fresh(inactive) && fresh(timeout) && fresh(free)
      ensures fresh(allCoro)
    {
      active := new CoroutineInfo(0);
      avail := new CoroutineInfo(0);
      inactive := new CoroutineInfo(0);
      timeout := new CoroutineInfo(0);
      free := new CoroutineInfo(0);
      poolSize := pool;
      allCoro := new CoroutineInfo?[pool + 1](_ => null);
      currentSize, usedSize, uniqId := 0, 0, 0;
      needActiveCoroId, activeCoroQueue, timeoutCoroId, terminal := [], [], [], false;
      all, ring := [], map[Free := [], Active := [], Avail := [], Inactive := [], Timeout := []];
      new;
      hide Valid, Abs, Objects, FiveHeads;
      InitHeads(active, avail, inactive, timeout, free);
      EmptyValid();
    }

    static ghost predicate FiveHeads(
        a: CoroutineInfo, b: CoroutineInfo, c: CoroutineInfo, d: CoroutineInfo, e: CoroutineInfo)
      reads a, b, c, d, e
    {
      a != b && a != c && a != d && a != e && b != c && b != d && b != e && c != d && c != e && d != e
      && Linked(a, []) && Linked(b, []) && Linked(c, []) && Linked(d, []) && Linked(e, [])
    }

    static method InitHeads(a: CoroutineInfo, b: CoroutineInfo, c: CoroutineInfo, d: CoroutineInfo, e: CoroutineInfo)
      requires a != b && a != c && a != d && a != e && b != c && b != d && b != e && c != d && c != e && d != e
      modifies a, b, c, d, e
      ensures FiveHeads(a, b, c, d, e)
    {
      CoroutineHeadInit(a);
      CoroutineHeadInit(b);
      CoroutineHeadInit(c);
      CoroutineHeadInit(d);
      CoroutineHeadInit(e);
    }

    /** init: at most 100 coroutines to begin with. */
    method Initialize()
      requires Valid() && poolSize > 0 && Abs() == Empty(poolSize)
      modifies this, allCoro, Objects()
      ensures Valid() && Abs() == Init(poolSize) && Inv(Abs())
      ensures fresh(Objects() - old(Objects()))
    {
      hide Wired, Table, Sentinels, Apart, Partition, Grow, Inv;
      InitInv(poolSize);
      var n := if poolSize <= 100 then poolSize else 100;
      TableSize();
      Fill(n);
      TableSize();
      Resize(n);
    }

    lemma TableSize()
      requires Table()
      ensures uniqId == |all|
    {
    }

    /** `_currentSize = n`. */
    method Resize(n: nat)
      requires Valid()
      modifies this`currentSize
      ensures Valid() && Abs() == old(Abs()).(current := n)
    {
      hide Table, Sentinels, Apart, NoDup;
      TableSize();
      currentSize := n;
      assert Abs().status == old(Abs().status);
      SamePartition(old(Abs()), Abs());
      assert old(Wired(ring));
      assert Objects() == old(Objects());
      assert Wired(ring);
    }

    lemma EmptyValid()
      requires all == [] && uniqId == 0 && allCoro.Length == poolSize + 1
      requires forall u :: 0 <= u <= poolSize ==> allCoro[u] == null
      requires ring == map[Free := [], Active := [], Avail := [], Inactive := [], Timeout := []]
      requires currentSize == 0 && usedSize == 0 && !terminal
      requires needActiveCoroId == [] && activeCoroQueue == [] && timeoutCoroId == []
      requires FiveHeads(active, avail, inactive, timeout, free)
      ensures Valid() && Abs() == Empty(poolSize)
      ensures Objects() == {active, avail, inactive, timeout, free}
    {
      hide Wired, Sentinels, Apart, Linked, Objects;
      EmptyWired();
      assert Abs().status == map[];
      assert Table();
      assert Partition(Abs());
    }

    lemma EmptyWired()
      requires all == [] && FiveHeads(active, avail, inactive, timeout, free)
      requires ring == map[Free := [], Active := [], Avail := [], Inactive := [], Timeout := []]
      ensures Sentinels() && Apart(|all|, ring) && Wired(ring)
      ensures forall s: Status :: s in ring && ring[s] == []
      ensures Objects() == {active, avail, inactive, timeout, free}
    {
      hide Linked;
      forall s: Status ensures s in ring && ring[s] == [] && Linked(Head(s), []) {
        match s
        case Free =>
        case Active =>
        case Avail =>
        case Inactive =>
        case Timeout =>
      }
      assert forall s: Status :: Nodes(all, ring[s]) == [];
    }

    /** The creation loop of init and increaseCoroPoolSize. */
    method Fill(n: nat)
      requires Valid() && uniqId + n <= poolSize
      modifies this`all, this`ring, this`uniqId, allCoro, Objects()
      ensures Valid() && Abs() == Grow(old(Abs()), n) && old(all) <= all
      ensures fresh(Objects() - old(Objects())) && old(Objects()) <= Objects()
    {
      hide Wired, Table, Sentinels, Partition, Apart, AddNew;
      TableSize();
      PartitionKeys(Abs());
      var i := 0;
      while i < n
        invariant 0 <= i <= n && Valid() && uniqId == old(uniqId) + i && |all| == uniqId && old(all) <= all
        invariant Free in Abs().ring && Grow(Abs(), n - i) == Grow(old(Abs()), n)
        invariant fresh(Objects() - old(Objects())) && old(Objects()) <= Objects()
      {
        NewCoroutine();
        PartitionKeys(Abs());
        i := i + 1;
      }
    }

    /** generateId, the id table, and CoroutineAddTail to the free ring. */
    method NewCoroutine()
      requires Valid() && uniqId < poolSize
      modifies this`all, this`ring, this`uniqId, allCoro, Objects()
      ensures Valid() && |all| == uniqId == old(uniqId) + 1 && old(all) <= all
      ensures Free in old(Abs().ring) && Abs() == AddNew(old(Abs()))
      ensures fresh(Objects() - old(Objects())) && old(Objects()) <= Objects()
    {
      hide NoDup, Partition, Wired, Apart, Linked, Nodes, Sentinels, Table, Inv;
      TableSize();
      ghost var before := Abs();
      ghost var r := ring;
      PartitionKeys(before);
      AddNewPartition(before);
      var id := uniqId + 1;
      var coro := new CoroutineInfo(id);
      Enroll(coro);
      Append(coro, Free, ring);
      ring := ring[Free := ring[Free] + [id]];
      TableSize();
      EnrolledAbs(before);
    }

    lemma EnrolledAbs(before: Sched)
      requires Table() && Free in before.ring && before.uniq + 1 == uniqId
      requires ring == before.ring[Free := before.ring[Free] + [uniqId]]
      requires forall v: nat :: v in before.status <==> 1 <= v < uniqId
      requires forall v :: 1 <= v <= uniqId ==> StatusAt(all, v) == if v == uniqId then Free else before.status[v]
      requires before == before.(pool := poolSize, current := currentSize, used := usedSize,
        needActive := needActiveCoroId, activeQueue := activeCoroQueue, timers := timeoutCoroId, terminal := terminal)
      ensures Abs() == AddNew(before)
    {
      hide StatusAt;
      assert Abs().status == AddNew(before).status;
    }

    /** `_all_coro[iId] = coro`; the new coroutine is in no ring yet. */
    method Enroll(coro: CoroutineInfo)
      requires Valid() && uniqId < poolSize && coro.uid == uniqId + 1 && coro !in Objects()
      modifies this`all, this`uniqId, allCoro
      ensures Sentinels() && Table() && Apart(|all|, ring) && Wired(ring)
      ensures uniqId == old(uniqId) + 1 && all == old(all) + [coro]
      ensures forall s: Status :: coro.uid !in ring[s]
    {
      hide NoDup, Partition, Linked;
      var id := uniqId + 1;
      allCoro[id] := coro;
      ghost var a0 := all;
      all := all + [coro];
      uniqId := id;
      forall s: Status ensures Spells(s, ring[s]) {
        assert old(Spells(s, ring[s]));
        assert Nodes(all, ring[s]) == Nodes(a0, ring[s]);
        NodesIn(a0, ring[s]);
        assert Linked(Head(s), Nodes(a0, ring[s]));
      }
    }

    lemma HeadsApart(ids: seq<nat>, s: Status)
      requires Sentinels() && InRange(|all|, ids)
      ensures Head(s) !in Nodes(all, ids)
    {
      NodesIn(all, ids);
    }

    /** No object of one ring belongs to another. */
    lemma RingsApart(r: map<Status, seq<nat>>, s: Status, t: Status)
      requires Sentinels() && Table() && Apart(|all|, r) && s != t
      ensures Head(s) != Head(t) && Head(s) !in Nodes(all, r[t]) && Head(t) !in Nodes(all, r[s])
      ensures forall o :: o in Nodes(all, r[s]) ==> o !in Nodes(all, r[t])
    {
      NodesApart(all, r, s, t);
      HeadsApart(r[t], s);
      HeadsApart(r[s], t);
    }

    /** The ring of status t shares no object with any other. */
    ghost predicate Alone(r: map<Status, seq<nat>>, t: Status)
      requires Apart(|all|, r)
      reads this`all
    {
      forall s: Status :: s != t ==>
        Head(s) != Head(t) && Head(s) !in Nodes(all, r[t]) && Head(t) !in Nodes(all, r[s])
        && forall o :: o in Nodes(all, r[s]) ==> o !in Nodes(all, r[t])
    }

    lemma RingAlone(r: map<Status, seq<nat>>, t: Status)
      requires Sentinels() && Table() && Apart(|all|, r)
      ensures Alone(r, t)
      ensures Head(t) in Objects() && forall o :: o in Nodes(all, r[t]) ==> o in Objects()
    {
      forall s: Status | s != t
        ensures Head(s) != Head(t) && Head(s) !in Nodes(all, r[t]) && Head(t) !in Nodes(all, r[s])
        ensures forall o :: o in Nodes(all, r[s]) ==> o !in Nodes(all, r[t])
      {
        RingsApart(r, s, t);
      }
      NodesIn(all, r[t]);
    }

    lemma RemoveApart(r: map<Status, seq<nat>>, from: Status, u: nat)
      requires Apart(|all|, r) && u in r[from]
      ensures InRange(|all|, Remove(r[from], u)) && u !in Remove(r[from], u)
      ensures Apart(|all|, r[from := Remove(r[from], u)])
    {
      hide NoDup, Remove;
      var ids := r[from];
      assert NoDup(ids);
      RemoveFacts(ids, u);
      var out := Remove(ids, u);
      forall i | 0 <= i < |out| ensures 1 <= out[i] <= |all| {
        assert out[i] in out;
      }
    }

    lemma RemoveNodes(r: map<Status, seq<nat>>, from: Status, u: nat) returns (at: nat)
      requires Apart(|all|, r) && u in r[from] && 1 <= u <= |all|
      requires InRange(|all|, Remove(r[from], u))
      ensures at < |r[from]| && Nodes(all, r[from])[at] == all[u - 1]
      ensures Nodes(all, Remove(r[from], u)) == Nodes(all, r[from])[..at] + Nodes(all, r[from])[at + 1..]
    {
      hide NoDup, Remove;
      var ids := r[from];
      at :| 0 <= at < |ids| && ids[at] == u;
      RemoveAt(ids, at);
    }

    /** CoroutineDel of a coroutine in the ring of status `from`. */
    method Unlink(c: CoroutineInfo, ghost from: Status, ghost r: map<Status, seq<nat>>)
      requires Sentinels() && Table() && Apart(|all|, r) && Wired(r)
      requires c.uid in r[from] && 1 <= c.uid <= |all| && all[c.uid - 1] == c
      modifies Objects()
      ensures Apart(|all|, r[from := Remove(r[from], c.uid)])
      ensures Wired(r[from := Remove(r[from], c.uid)])
      ensures forall o :: o in all ==> o.status == old(o.status)
    {
      hide NoDup, Remove, Nodes, Numbered;
      ghost var q := Nodes(all, r[from]);
      RingAlone(r, from);
      RemoveApart(r, from, c.uid);
      ghost var at := RemoveNodes(r, from, c.uid);
      assert Spells(from, r[from]);
      assert forall s: Status :: Spells(s, r[s]);
      CoroutineDel(c, Head(from), q, at);
      ghost var r' := r[from := Remove(r[from], c.uid)];
      forall s: Status ensures Spells(s, r'[s]) {
        if s != from {
          ghost var h, qs := Head(s), Nodes(all, r[s]);
          assert old(Spells(s, r[s])) && old(Linked(h, qs));
          NodesIn(all, r[s]);
          assert forall o :: o in qs ==> o !in q;
          assert forall o :: o in qs ==> o.next == old(o.next) && o.prev == old(o.prev);
          assert Linked(h, qs);
        }
      }
    }

    /** CoroutineAddTail of a coroutine that is in no ring to the ring of status `to`. */
    method Append(c: CoroutineInfo, to: Status, ghost r: map<Status, seq<nat>>)
      requires Sentinels() && Table() && Apart(|all|, r) && Wired(r)
      requires 1 <= c.uid <= |all| && all[c.uid - 1] == c && forall s: Status :: c.uid !in r[s]
      modifies Objects()
      ensures Apart(|all|, r[to := r[to] + [c.uid]])
      ensures Wired(r[to := r[to] + [c.uid]])
      ensures forall o :: o in all ==> o.status == old(o.status)
    {
      hide NoDup, Nodes, Numbered, Table, Sentinels;
      ghost var q := Nodes(all, r[to]);
      RingAlone(r, to);
      AppendApart(r, to, c.uid);
      NotInNodes(c, r);
      assert Spells(to, r[to]);
      assert forall s: Status :: Spells(s, r[s]);
      CoroutineAddTail(c, Head(to), q);
      ghost var r' := r[to := r[to] + [c.uid]];
      forall s: Status ensures Spells(s, r'[s]) {
        if s != to {
          ghost var h, qs := Head(s), Nodes(all, r[s]);
          assert old(Spells(s, r[s])) && old(Linked(h, qs));
          NodesIn(all, r[s]);
          assert forall o :: o in qs ==> o !in q;
          assert forall o :: o in qs ==> o.next == old(o.next) && o.prev == old(o.prev);
          assert Linked(h, qs);
        }
      }
    }

    lemma AppendApart(r: map<Status, seq<nat>>, to: Status, u: nat)
      requires Apart(|all|, r) && 1 <= u <= |all| && forall s: Status :: u !in r[s]
      ensures Apart(|all|, r[to := r[to] + [u]])
      ensures Nodes(all, r[to] + [u]) == Nodes(all, r[to]) + [all[u - 1]]
    {
      AppendFacts(r[to], u);
    }

    lemma NotInNodes(c: CoroutineInfo, r: map<Status, seq<nat>>)
      requires Sentinels() && Table() && Apart(|all|, r)
      requires 1 <= c.uid <= |all| && all[c.uid - 1] == c && forall s: Status :: c.uid !in r[s]
      ensures c in all && forall s: Status :: c !in Nodes(all, r[s]) && c != Head(s)
    {
      forall s: Status ensures c !in Nodes(all, r[s]) {
        NodesFacts(all, r[s], c.uid);
      }
    }

    /** setStatus of a coroutine that is in no ring. */
    method SetStatus(c: CoroutineInfo, to: Status, ghost r: map<Status, seq<nat>>)
      requires Sentinels() && Table() && Apart(|all|, r) && Wired(r)
      requires 1 <= c.uid <= |all| && all[c.uid - 1] == c && forall s: Status :: c.uid !in r[s]
      modifies Objects()
      ensures Wired(r) && c.status == to
      ensures forall o :: o in all && o != c ==> o.status == old(o.status)
    {
      hide NoDup, Nodes, Numbered;
      NotInNodes(c, r);
      assert forall s: Status :: Spells(s, r[s]);
      c.status := to;
      forall s: Status ensures Spells(s, r[s]) {
        assert Linked(Head(s), Nodes(all, r[s]));
      }
    }

    lemma InOneRing(u: nat, from: Status)
      requires Valid() && u in ring[from]
      ensures Apart(|all|, ring[from := Remove(ring[from], u)])
      ensures var r := ring[from := Remove(ring[from], u)]; forall s: Status :: u !in r[s]
    {
      hide NoDup, Remove, Wired;
      RemoveApart(ring, from, u);
    }

    ghost function Moved(u: nat, from: Status, to: Status): map<Status, seq<nat>>
      requires from in ring && to in ring
      reads this`ring
    {
      var r := ring[from := Remove(ring[from], u)];
      r[to := r[to] + [u]]
    }

    /** The abstract state after a move, from what the pointers and status fields now are. */
    lemma MovedAbs(before: Sched, u: nat, to: Status)
      requires |all| == uniqId && 1 <= u <= uniqId && Partition(before) && u in before.status && before.status[u] != to
      requires before.status.Keys == Abs().status.Keys
      requires forall v :: 1 <= v <= uniqId ==>
        v in before.status && StatusAt(all, v) == if v == u then to else before.status[v]
      requires ring == Move(before, u, to).ring
      requires before == before.(pool := poolSize, current := currentSize, used := usedSize, uniq := uniqId,
        needActive := needActiveCoroId, activeQueue := activeCoroQueue, timers := timeoutCoroId, terminal := terminal)
      ensures Abs() == Move(before, u, to)
    {
      hide Remove, StatusAt;
      assert Abs().status == Move(before, u, to).status;
    }

    lemma RingMoved(before: Sched, u: nat, to: Status)
      requires Partition(before) && u in before.status && before.status[u] != to && before.ring == ring
      ensures Move(before, u, to).ring == Moved(u, before.status[u], to)
    {
      hide Remove;
    }

    /** CoroutineDel, setStatus, CoroutineAddTail: the body of every moveTo method. */
    method Rewire(c: CoroutineInfo, to: Status)
      requires Valid() && 1 <= c.uid <= |all| && all[c.uid - 1] == c && c.status != to
      modifies Objects()
      ensures old(c.status) in ring && to in ring
      ensures Apart(|all|, Moved(c.uid, old(c.status), to)) && Wired(Moved(c.uid, old(c.status), to))
      ensures forall v :: 1 <= v <= |all| ==> StatusAt(all, v) == if v == c.uid then to else old(StatusAt(all, v))
    {
      hide NoDup, Remove, Linked, Nodes, Apart, Wired, Partition;
      ghost var from := c.status;
      ghost var u := c.uid;
      PartitionKeys(Abs());
      assert Abs().status[u] == StatusAt(all, u) == from;
      InOneRing(u, from);
      Unlink(c, from, ring);
      ghost var r := ring[from := Remove(ring[from], u)];
      SetStatus(c, to, r);
      Append(c, to, r);
      forall v | 1 <= v <= |all| ensures StatusAt(all, v) == if v == u then to else old(StatusAt(all, v)) {
        assert all[v - 1] in all;
      }
    }

    ghost predicate Has(c: CoroutineInfo)
      reads this`all
    {
      1 <= c.uid <= |all| && all[c.uid - 1] == c
    }

    /** The status field of a coroutine is the abstract status. */
    lemma Known(c: CoroutineInfo)
      requires Valid() && Has(c)
      ensures |all| == uniqId
      ensures c.uid in Abs().status && Abs().status[c.uid] == c.status
      ensures forall s: Status :: s in Abs().ring
    {
      hide NoDup;
      PartitionKeys(Abs());
      assert StatusAt(all, c.uid) == c.status;
    }

    /** `_all_coro[id]` is the coroutine with that id. */
    lemma Entry(id: nat)
      requires Valid()
      ensures |all| == uniqId
      ensures 1 <= id <= uniqId ==>
        id < allCoro.Length && allCoro[id] != null && allCoro[id].uid == id && Has(allCoro[id])
    {
    }

    lemma MovePlan(c: CoroutineInfo, to: Status)
      requires Valid() && Has(c) && c.status != to
      ensures |all| == uniqId && c.status in ring && to in ring
      ensures c.uid in Abs().status && Abs().status[c.uid] == c.status
      ensures Move(Abs(), c.uid, to).ring == Moved(c.uid, c.status, to)
      ensures Partition(Move(Abs(), c.uid, to))
    {
      hide NoDup, Remove, Move;
      Known(c);
      MovePartition(Abs(), c.uid, to);
      RingMoved(Abs(), c.uid, to);
    }

    method Relink(c: CoroutineInfo, to: Status)
      requires Valid() && Has(c) && c.status != to
      modifies this`ring, Objects()
      ensures Valid() && |all| == uniqId && Abs() == Move(old(Abs()), c.uid, to)
    {
      hide NoDup, Remove, Linked, Nodes, Apart, Wired, Move, Numbered, Sentinels, InRange, Moved, Head, Accounted;
      ghost var before := Abs();
      MovePlan(c, to);
      ghost var r := Moved(c.uid, c.status, to);
      Rewire(c, to);
      ring := r;
      assert forall v :: 1 <= v <= uniqId ==> before.status[v] == old(StatusAt(all, v));
      MovedAbs(before, c.uid, to);
    }

    // ---------- moveTo ----------

    method MoveToActive(c: CoroutineInfo)
      requires Valid() && Has(c)
      modifies this`ring, Objects()
      ensures Valid() && |all| == uniqId && Abs() == SchedulerSpec.MoveToActive(old(Abs()), c.uid)
    {
      hide Valid, Move, Abs;
      Known(c);
      if c.status == Inactive { Relink(c, Active); }
      else if c.status == Timeout { Relink(c, Active); }
    }

    method MoveToAvail(c: CoroutineInfo)
      requires Valid() && Has(c)
      modifies this`ring, Objects()
      ensures Valid() && |all| == uniqId && Abs() == SchedulerSpec.MoveToAvail(old(Abs()), c.uid)
    {
      hide Valid, Move, Abs;
      Known(c);
      if c.status == Inactive { Relink(c, Avail); }
    }

    method MoveToInactive(c: CoroutineInfo)
      requires Valid() && Has(c)
      modifies this`ring, Objects()
      ensures Valid() && |all| == uniqId && Abs() == SchedulerSpec.MoveToInactive(old(Abs()), c.uid)
    {
      hide Valid, Move, Abs;
      Known(c);
      if c.status == Active { Relink(c, Inactive); }
      else if c.status == Avail { Relink(c, Inactive); }
    }

    method MoveToTimeout(c: CoroutineInfo)
      requires Valid() && Has(c)
      modifies this`ring, Objects()
      ensures Valid() && |all| == uniqId && Abs() == SchedulerSpec.MoveToTimeout(old(Abs()), c.uid)
    {
      hide Valid, Move, Abs;
      Known(c);
      if c.status == Active { Relink(c, Timeout); }
      else if c.status == Avail { Relink(c, Timeout); }
    }

    method MoveToFreeList(c: CoroutineInfo)
      requires Valid() && Has(c)
      modifies this`ring, Objects()
      ensures Valid() && |all| == uniqId && Abs() == SchedulerSpec.MoveToFreeList(old(Abs()), c.uid)
    {
      hide Valid, Move, Abs;
      Known(c);
      if c.status == Active { Relink(c, Free); }
      else if c.status == Avail { Relink(c, Free); }
      else if c.status == Inactive { Relink(c, Free); }
      else if c.status == Timeout { Relink(c, Free); }
    }

    // ---------- counters, queues and timers: rings, table and statuses stay as they are ----------

    /** `_usedSize = v`. */
    method SetUsed(v: nat)
      requires Valid()
      modifies this`usedSize
      ensures Valid() && |all| == uniqId && Abs() == old(Abs()).(used := v)
    {
      hide Wired, Table, Sentinels, Apart, NoDup;
      TableSize();
      usedSize := v;
      assert Abs().status == old(Abs().status);
      SamePartition(old(Abs()), Abs());
      assert old(Wired(ring));
      assert Objects() == old(Objects());
    }

    /** `_needActiveCoroId` becomes v. */
    method SetNeedActive(v: seq<nat>)
      requires Valid()
      modifies this`needActiveCoroId
      ensures Valid() && |all| == uniqId && Abs() == old(Abs()).(needActive := v)
    {
      hide Wired, Table, Sentinels, Apart, NoDup;
      TableSize();
      needActiveCoroId := v;
      assert Abs().status == old(Abs().status);
      SamePartition(old(Abs()), Abs());
      assert old(Wired(ring));
      assert Objects() == old(Objects());
    }

    /** `_activeCoroQueue` becomes v. */
    method SetQueue(v: seq<nat>)
      requires Valid()
      modifies this`activeCoroQueue
      ensures Valid() && |all| == uniqId && Abs() == old(Abs()).(activeQueue := v) && activeCoroQueue == v
    {
      hide Wired, Table, Sentinels, Apart, NoDup;
      TableSize();
      activeCoroQueue := v;
      assert Abs().status == old(Abs().status);
      SamePartition(old(Abs()), Abs());
      assert old(Wired(ring));
      assert Objects() == old(Objects());
    }

    /** `_timeoutCoroId` becomes v. */
    method SetTimers(v: seq<Timer>)
      requires Valid()
      modifies this`timeoutCoroId
      ensures Valid() && |all| == uniqId && Abs() == old(Abs()).(timers := v)
    {
      hide Wired, Table, Sentinels, Apart, NoDup;
      TableSize();
      timeoutCoroId := v;
      assert Abs().status == old(Abs().status);
      SamePartition(old(Abs()), Abs());
      assert old(Wired(ring));
      assert Objects() == old(Objects());
    }

    // ---------- the pool ----------

    method IncreaseCoroPoolSize() returns (ret: int)
      requires Valid() && Inv(Abs())
      modifies this`all, this`ring, this`uniqId, this`currentSize, allCoro, Objects()
      ensures Valid() && |all| == uniqId && fresh(Objects() - old(Objects())) && old(all) <= all
      ensures old(Abs()).current <= old(Abs()).pool && Free in old(Abs()).ring
      ensures ret == 0 || ret == -1
      ensures ret == -1 <==> Increment(old(Abs())) == 0
      ensures Abs() == if ret == 0 then Increase(old(Abs())) else old(Abs())
    {
      hide Wired, Table, Sentinels, Apart, Partition, Grow, Accounted;
      TableSize();
      PartitionKeys(Abs());
      var inc := if poolSize - currentSize > 100 then 100 else poolSize - currentSize;
      if inc <= 0 { return -1; }
      var now := currentSize;
      Fill(inc);
      Resize(now + inc);
      TableSize();
      ret := 0;
    }

    /** The sentinel's next is the head of its ring. */
    lemma RingHead(s: Status)
      requires Valid()
      ensures |all| == uniqId && s in Abs().ring && Abs().ring == ring
      ensures CoroutineHeadEmpty(Head(s)) <==> ring[s] == []
      ensures ring[s] != [] ==>
        Head(s).next != null && Head(s).next.uid == ring[s][0] && Has(Head(s).next) && Head(s).next.status == s
    {
      hide NoDup, Linked, Head, Sentinels, Circle;
      assert Spells(s, ring[s]);
      EmptyIff(Head(s), Nodes(all, ring[s]));
      if ring[s] != [] {
        HeadStatus(s);
      }
    }

    lemma HeadStatus(s: Status)
      requires Valid() && s in ring && ring[s] != []
      ensures InRange(|all|, ring[s]) && Nodes(all, ring[s])[0] == all[ring[s][0] - 1]
      ensures Has(all[ring[s][0] - 1]) && all[ring[s][0] - 1].uid == ring[s][0] && all[ring[s][0] - 1].status == s
    {
      hide NoDup, Wired, Sentinels;
      PartitionKeys(Abs());
      var u := ring[s][0];
      assert u in Abs().ring[s];
      assert Abs().status[u] == StatusAt(all, u);
    }

    /** createCoroutine; 0 is failure. */
    method CreateCoroutine() returns (uid: nat)
      requires Valid() && Inv(Abs())
      modifies this`all, this`ring, this`uniqId, this`currentSize, this`usedSize, allCoro, Objects()
      ensures Valid() && |all| == uniqId && fresh(Objects() - old(Objects())) && old(all) <= all
      ensures Inv(Abs()) && Create(old(Abs())) == Made(Abs(), uid)
    {
      hide Valid, Abs, Inv, Move, Grow, Increment, Accounted, Partition;
      Sized();
      ghost var before := Abs();
      InvBasics();
      CreateInv(before);
      RingHead(Free);
      if usedSize >= currentSize || CoroutineHeadEmpty(free) {
        var ret := IncreaseCoroPoolSize();
        if ret != 0 { return 0; }
      }
      SameUsed();
      GrownHead(before);
      RingHead(Free);
      var coro := free.next;
      SetUsed(usedSize + 1);
      Relink(coro, Avail);
      uid := coro.uid;
    }

    lemma SameUsed()
      requires |all| == uniqId
      ensures Abs().used == usedSize && Abs().ring == ring
    {
    }

    lemma GrownHead(st: Sched)
      requires Inv(st) && !((st.used >= st.current || st.ring[Free] == []) && Increment(st) == 0)
      ensures var s1 := if st.used >= st.current || st.ring[Free] == [] then Increase(st) else st;
        Free in s1.ring && s1.ring[Free] != [] && s1.used == st.used
    {
      hide NoDup, Grow;
      GrowInv(st, Increment(st));
    }

    lemma Sized()
      requires Valid()
      ensures |all| == uniqId
    {
    }

    lemma InvBasics()
      requires Valid() && Inv(Abs())
      ensures |all| == uniqId && Abs().ring == ring && Abs().used == usedSize && Abs().current == currentSize
      ensures currentSize <= poolSize && forall s: Status :: s in ring
    {
    }

    // ---------- the running coroutine gives control back ----------

    method Yield(c: CoroutineInfo, again: bool)
      requires Valid() && Inv(Abs()) && Has(c) && c.status in {Active, Avail}
      modifies this`ring, this`needActiveCoroId, Objects()
      ensures Valid() && |all| == uniqId && c.uid in old(Abs()).status && old(Abs()).status[c.uid] in {Active, Avail}
      ensures Abs() == Leave(old(Abs()), c.uid, End.Yield(again)) && Inv(Abs())
    {
      hide Valid, Abs, Inv, Move;
      Sized();
      Known(c);
      Scalars();
      LeaveInv(Abs(), c.uid, End.Yield(again));
      if again && !terminal {
        SetNeedActive(needActiveCoroId + [c.uid]);
      }
      MoveToInactive(c);
    }

    method Sleep(c: CoroutineInfo, ms: int, now: int)
      requires Valid() && Inv(Abs()) && Has(c) && c.status in {Active, Avail}
      modifies this`ring, this`timeoutCoroId, Objects()
      ensures Valid() && |all| == uniqId && c.uid in old(Abs()).status && old(Abs()).status[c.uid] in {Active, Avail}
      ensures Abs() == Leave(old(Abs()), c.uid, End.Sleep(ms, now)) && Inv(Abs())
    {
      hide Valid, Abs, Inv, Move, InsertTimer;
      Sized();
      Known(c);
      Scalars();
      LeaveInv(Abs(), c.uid, End.Sleep(ms, now));
      var deadline := now + (if ms >= 0 then ms else -ms);
      SetTimers(InsertTimer(timeoutCoroId, Timer(deadline, c.uid)));
      MoveToTimeout(c);
    }

    /** The tail of corotineProc. */
    method Finish(c: CoroutineInfo)
      requires Valid() && Inv(Abs()) && Has(c) && c.status in {Active, Avail}
      modifies this`ring, this`usedSize, Objects()
      ensures Valid() && |all| == uniqId && c.uid in old(Abs()).status && old(Abs()).status[c.uid] in {Active, Avail}
      ensures Abs() == Leave(old(Abs()), c.uid, End.Finish) && Inv(Abs())
    {
      hide Valid, Abs, Inv, Move;
      Sized();
      Known(c);
      Scalars();
      LeaveInv(Abs(), c.uid, End.Finish);
      SetUsed(usedSize - 1);
      MoveToFreeList(c);
    }

    lemma Scalars()
      requires |all| == uniqId
      ensures var a := Abs();
        && a.ring == ring && a.pool == poolSize && a.current == currentSize && a.used == usedSize && a.uniq == uniqId
        && a.needActive == needActiveCoroId && a.activeQueue == activeCoroQueue && a.timers == timeoutCoroId
        && a.terminal == terminal
    {
    }

    // ---------- wakeups ----------

    /** put(iCoroId); a later wakeup() asserts that there is such a coroutine. */
    method Put(id: nat)
      requires Valid() && Inv(Abs())
      modifies this`activeCoroQueue
      ensures Valid() && |all| == uniqId && Abs() == SchedulerRun.Put(old(Abs()), id)
      ensures activeCoroQueue == if terminal then old(activeCoroQueue) else old(activeCoroQueue) + [id]
      ensures Inv(Abs()) <==> terminal || 1 <= id <= uniqId
    {
      hide Valid, Abs, Inv;
      Sized();
      Scalars();
      PutInv(Abs(), id);
      if !terminal {
        SetQueue(activeCoroQueue + [id]);
      }
    }

    /** The assert of wakeup() fails exactly for the numbers in the table's range that name no coroutine. */
    lemma AssertHolds(id: nat)
      requires Valid() && id <= poolSize
      ensures id < allCoro.Length && (allCoro[id] != null <==> 1 <= id <= uniqId)
    {
    }

    /** terminate(). */
    method Terminate()
      requires Valid() && Inv(Abs())
      modifies this`terminal
      ensures Valid() && |all| == uniqId && Abs() == Terminated(old(Abs()))
    {
      hide Wired, Table, Sentinels, Apart, NoDup;
      TableSize();
      terminal := true;
      assert Abs().status == old(Abs().status);
      SamePartition(old(Abs()), Abs());
      assert old(Wired(ring));
      assert Objects() == old(Objects());
    }

    lemma Ids()
      requires Valid() && Inv(Abs())
      ensures |all| == uniqId
      ensures forall i :: 0 <= i < |needActiveCoroId| ==> 1 <= needActiveCoroId[i] <= uniqId
      ensures forall i :: 0 <= i < |activeCoroQueue| ==> 1 <= activeCoroQueue[i] <= uniqId
      ensures forall i :: 0 <= i < |timeoutCoroId| ==> 1 <= timeoutCoroId[i].uid <= uniqId
    {
    }

    method WakeupByTimeout(now: int)
      requires Valid() && Inv(Abs())
      modifies this`ring, this`timeoutCoroId, Objects()
      ensures Valid() && |all| == uniqId && Inv(Abs()) && Abs() == WakeTimeout(old(Abs()), now)
    {
      hide Valid, Abs, Inv, MoveIf;
      Sized();
      Scalars();
      if terminal { return; }
      while timeoutCoroId != []
        invariant Valid() && |all| == uniqId && Inv(Abs()) && !Abs().terminal
        invariant WakeTimeout(Abs(), now) == WakeTimeout(old(Abs()), now)
        decreases |timeoutCoroId|
      {
        Scalars();
        Ids();
        var it := timeoutCoroId[0];
        if it.deadline > now { break; }
        Entry(it.uid);
        PopInv(Abs());
        var coro := allCoro[it.uid];
        MoveToActive(coro);
        Scalars();
        SetTimers(timeoutCoroId[1..]);
        Scalars();
      }
      Scalars();
    }

    method WakeupBySelf()
      requires Valid() && Inv(Abs())
      modifies this`ring, this`needActiveCoroId, Objects()
      ensures Valid() && |all| == uniqId && Inv(Abs()) && Abs() == WakeSelf(old(Abs()))
    {
      hide Valid, Abs, Inv, MoveIf;
      Sized();
      Scalars();
      if terminal { return; }
      var i := 0;
      while i < |needActiveCoroId|
        invariant 0 <= i <= |needActiveCoroId| && needActiveCoroId == old(Abs()).needActive
        invariant Valid() && |all| == uniqId && Inv(Abs()) && Abs().needActive == needActiveCoroId
        invariant AvailAll(Abs(), needActiveCoroId[i..]) == AvailAll(old(Abs()), needActiveCoroId)
      {
        Ids();
        Entry(needActiveCoroId[i]);
        MoveIfInv(Abs(), needActiveCoroId[i], {Inactive}, Avail);
        MoveIfKeeps(Abs(), needActiveCoroId[i], {Inactive}, Avail);
        var coro := allCoro[needActiveCoroId[i]];
        assert needActiveCoroId[i..][1..] == needActiveCoroId[i + 1..];
        MoveToAvail(coro);
        i := i + 1;
      }
      ClearInv(Abs());
      SetNeedActive([]);
    }

    method Wakeup()
      requires Valid() && Inv(Abs())
      modifies this`ring, this`activeCoroQueue, Objects()
      ensures Valid() && |all| == uniqId && Inv(Abs()) && Abs() == Wake(old(Abs()))
    {
      hide Valid, Abs, Inv, MoveIf;
      Sized();
      Scalars();
      if terminal { return; }
      Ids();
      ClearInv(Abs());
      var coroIds := activeCoroQueue;
      SetQueue([]);
      ghost var begun := Abs();
      var i := 0;
      while i < |coroIds|
        invariant 0 <= i <= |coroIds|
        invariant Valid() && |all| == uniqId && Inv(Abs())
        invariant ActiveAll(Abs(), coroIds[i..]) == ActiveAll(begun, coroIds)
      {
        Entry(coroIds[i]);
        MoveIfInv(Abs(), coroIds[i], {Inactive, Timeout}, Active);
        var coro := allCoro[coroIds[i]];
        assert coroIds[i..][1..] == coroIds[i + 1..];
        MoveToActive(coro);
        i := i + 1;
      }
    }

    // ---------- dispatching ----------

    /** What happens while a coroutine runs, or between two passes. */
    method PerformAll(es: seq<Effect>)
      requires Valid() && Inv(Abs())
      modifies this`all, this`ring, this`uniqId, this`currentSize, this`usedSize, this`activeCoroQueue
      modifies allCoro, Objects()
      ensures Valid() && |all| == uniqId && fresh(Objects() - old(Objects()))
      ensures old(all) <= all
      ensures Abs() == Performs(old(Abs()), es) && Inv(Abs())
    {
      hide Valid, Abs, Inv, Create, SchedulerRun.Put;
      Sized();
      var i := 0;
      assert es[0..] == es;
      while i < |es|
        invariant 0 <= i <= |es| && Valid() && |all| == uniqId && Inv(Abs()) && old(all) <= all
        invariant fresh(Objects() - old(Objects()))
        invariant Performs(Abs(), es[i..]) == Performs(old(Abs()), es)
      {
        Scalars();
        assert es[i..][1..] == es[i + 1..];
        match es[i] {
          case NewCoroutine =>
            var uid := CreateCoroutine();
          case PutId(u) =>
            if 1 <= u <= uniqId { Put(u); }
        }
        i := i + 1;
      }
    }

    /** switchCoro to the head of a ring, what it does there, and the switch back. */
    method SwitchTo(s: Status, a: Action)
      requires Valid() && Inv(Abs()) && s in {Active, Avail} && s in Abs().ring && Abs().ring[s] != []
      modifies this, allCoro, Objects()
      ensures Valid() && |all| == uniqId && fresh(Objects() - old(Objects()))
      ensures s in old(Abs()).ring && Abs() == Dispatch(old(Abs()), s, a) && Inv(Abs())
    {
      hide Valid, Abs, Inv, Performs, Leave, Head;
      RingHead(s);
      var coro := Head(s).next;
      ghost var before := Abs();
      PerformsKeeps(before, a.effects);
      Known(coro);
      PerformAll(a.effects);
      Known(coro);
      match a.end
      case Yield(again) => Yield(coro, again);
      case Sleep(ms, now) => Sleep(coro, ms, now);
      case Finish => Finish(coro);
    }

    /** `while (iLoop > 0 && !CoroutineHeadEmpty(&ring))`; `ids` records who was dispatched. */
    method RunLoop(s: Status, acts: seq<Action>) returns (ids: seq<nat>)
      requires Valid() && Inv(Abs()) && s in {Active, Avail}
      modifies this, allCoro, Objects()
      ensures Valid() && |all| == uniqId && fresh(Objects() - old(Objects()))
      ensures Ran(Abs(), ids) == Loop(old(Abs()), s, acts) && Inv(Abs())
    {
      hide Valid, Abs, Inv, Dispatch, Head, Loop, Linked;
      Sized();
      ids := [];
      var iLoop := |acts|;
      ghost var goal := Loop(Abs(), s, acts);
      assert acts[0..] == acts;
      RingHead(s);
      while iLoop > 0 && !CoroutineHeadEmpty(Head(s))
        invariant 0 <= iLoop <= |acts| && Valid() && |all| == uniqId && Inv(Abs())
        invariant fresh(Objects() - old(Objects()))
        invariant var r := Loop(Abs(), s, acts[|acts| - iLoop..]); goal == Ran(r.st, ids + r.ids)
        decreases iLoop
      {
        RingHead(s);
        LoopStep(Abs(), s, acts[|acts| - iLoop..]);
        var coro := Head(s).next;
        ids := ids + [coro.uid];
        assert acts[|acts| - iLoop..][1..] == acts[|acts| - (iLoop - 1)..];
        SwitchTo(s, acts[|acts| - iLoop]);
        iLoop := iLoop - 1;
      }
      RingHead(s);
      LoopStep(Abs(), s, acts[|acts| - iLoop..]);
      assert ids + [] == ids;
    }

    /** tars_run, after `before` has happened since the last pass. */
    method TarsRun(x: Input) returns (ranActive: seq<nat>, ranAvail: seq<nat>)
      requires Valid() && Inv(Abs())
      modifies this, allCoro, Objects()
      ensures Valid() && |all| == uniqId && fresh(Objects() - old(Objects()))
      ensures Passed(Abs(), ranActive, ranAvail) == Pass(old(Abs()), x)
    {
      hide Valid, Abs, Inv, Performs, WakeTimeout, WakeSelf, Wake, Loop;
      Sized();
      PerformAll(x.before);
      Scalars();
      ranActive, ranAvail := [], [];
      if !terminal {
        WakeupByTimeout(x.now);
        WakeupBySelf();
        Wakeup();
        ranActive := RunLoop(Active, x.onActive);
        ranAvail := RunLoop(Avail, x.onAvail);
      }
    }

    /**
     * run(): rounds until terminate() or until no coroutine is in use. Watched for as many rounds as
     * there are inputs; `before` holds what happened while a round waited.
     */
    method Run(xs: seq<Input>) returns (rounds: nat)
      requires Valid() && Inv(Abs())
      modifies this, allCoro, Objects()
      ensures Valid() && |all| == uniqId && fresh(Objects() - old(Objects()))
      ensures rounds <= |xs| && Abs() == After(old(Abs()), xs[..rounds])
      ensures rounds < |xs| ==> Abs().terminal || (rounds > 0 && Abs().used == 0)
      ensures forall j :: 0 <= j < rounds ==> !After(old(Abs()), xs[..j]).terminal
      ensures forall j :: 0 < j < rounds ==> After(old(Abs()), xs[..j]).used != 0
    {
      hide Valid, Abs, Inv, Pass;
      Sized();
      Scalars();
      rounds := 0;
      while !terminal && rounds < |xs|
        invariant Valid() && |all| == uniqId && Inv(Abs()) && fresh(Objects() - old(Objects()))
        invariant terminal == Abs().terminal
        invariant rounds <= |xs| && Abs() == After(old(Abs()), xs[..rounds])
        invariant forall j :: 0 <= j < rounds ==> !After(old(Abs()), xs[..j]).terminal
        invariant forall j :: 0 < j <= rounds ==> After(old(Abs()), xs[..j]).used != 0
      {
        var ranActive, ranAvail := TarsRun(xs[rounds]);
        AfterOneMore(old(Abs()), xs[..rounds], xs[rounds]);
        assert xs[..rounds] + [xs[rounds]] == xs[..rounds + 1];
        rounds := rounds + 1;
        Scalars();
        if usedSize == 0 { break; }
      }
    }
  }
}
