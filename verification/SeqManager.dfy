/**
 * SeqManager (servant/servant/ServantProxy.h, servant/libservant/ServantProxy.cpp): the free list of
 * request queue numbers.
 */
module SeqManagers {

  const MAX_UNSIGN_SHORT := 0xffff

  /** What the manager stands for: the ids to hand out, next one first, and the ids in use. */
  datatype Pool = Pool(num: nat, free: seq<nat>, held: set<nat>)

  ghost predicate PoolOk(q: Pool) {
    && (forall i, j :: 0 <= i < j < |q.free| ==> q.free[i] != q.free[j])
    && (forall id :: id in q.free ==> id < q.num && id !in q.held)
    && (forall id :: 0 <= id < q.num ==> id in q.free || id in q.held)
    && (forall id :: id in q.held ==> id < q.num)
  }

  function Fresh(num: nat): Pool {
    Pool(num, seq(num, i => i), {})
  }

  function Take(q: Pool): Pool
    requires q.free != []
  {
    q.(free := q.free[1..], held := q.held + {q.free[0]})
  }

  function Release(q: Pool, id: nat): Pool {
    q.(free := q.free + [id], held := q.held - {id})
  }

  // ---------- the array-threaded list ----------

  datatype SeqInfo = SeqInfo(next: nat, free: bool)

  /** Following `next` from `from` meets exactly `ids`, in order, and then the end mark. */
  ghost predicate Chain(p: seq<SeqInfo>, from: nat, ids: seq<nat>)
    decreases |ids|
  {
    if ids == [] then from == MAX_UNSIGN_SHORT
    else from == ids[0] < |p| && Chain(p, p[from].next, ids[1..])
  }

  /** So a list that ends is acyclic, and the fields alone decide which ids it holds. */
  lemma {:induction false} ChainUnique(p: seq<SeqInfo>, from: nat, a: seq<nat>, b: seq<nat>)
    requires |p| <= MAX_UNSIGN_SHORT && Chain(p, from, a) && Chain(p, from, b)
    ensures a == b
    decreases |a|
  {
    if a != [] && b != [] {
      ChainUnique(p, p[from].next, a[1..], b[1..]);
    }
  }

  /** Reached from `from` after k steps along `next`. */
  function Follow(p: seq<SeqInfo>, from: nat, k: nat): nat
    decreases k
  {
    if k == 0 || from >= |p| then from else Follow(p, p[from].next, k - 1)
  }

  ghost predicate Reaches(p: seq<SeqInfo>, from: nat, n: nat, id: nat) {
    exists k :: 0 <= k < n && Follow(p, from, k) == id
  }

  lemma {:induction false} ChainFollows(p: seq<SeqInfo>, from: nat, ids: seq<nat>, k: nat)
    requires |p| <= MAX_UNSIGN_SHORT && Chain(p, from, ids) && k <= |ids|
    ensures Follow(p, from, k) == if k < |ids| then ids[k] else MAX_UNSIGN_SHORT
    decreases k
  {
    if k > 0 {
      ChainFollows(p, p[from].next, ids[1..], k - 1);
    }
  }

  lemma {:induction false} ChainFrame(p: seq<SeqInfo>, q: seq<SeqInfo>, from: nat, ids: seq<nat>)
    requires Chain(p, from, ids) && |q| == |p| && forall i :: i in ids && i < |p| ==> q[i].next == p[i].next
    ensures Chain(q, from, ids)
    decreases |ids|
  {
    if ids != [] {
      assert from in ids;
      ChainFrame(p, q, p[from].next, ids[1..]);
    }
  }

  lemma {:induction false} ChainLast(p: seq<SeqInfo>, from: nat, ids: seq<nat>)
    requires Chain(p, from, ids) && ids != []
    ensures ids[|ids| - 1] < |p| && p[ids[|ids| - 1]].next == MAX_UNSIGN_SHORT
    decreases |ids|
  {
    if |ids| > 1 {
      ChainLast(p, p[from].next, ids[1..]);
    } else {
      assert Chain(p, p[from].next, []);
    }
  }

  /** Hanging one more id behind the tail. */
  lemma {:induction false} ChainAppend(p: seq<SeqInfo>, q: seq<SeqInfo>, from: nat, ids: seq<nat>, id: nat)
    requires |p| <= MAX_UNSIGN_SHORT && Chain(p, from, ids) && ids != [] && |q| == |p| && id < |p|
    requires forall i, j :: 0 <= i < j < |ids| ==> ids[i] != ids[j]
    requires forall i :: i in ids && i < |p| && i != ids[|ids| - 1] ==> q[i].next == p[i].next
    requires ids[|ids| - 1] < |p| ==> q[ids[|ids| - 1]].next == id
    requires q[id].next == MAX_UNSIGN_SHORT
    ensures Chain(q, from, ids + [id])
    decreases |ids|
  {
    assert (ids + [id])[1..] == ids[1..] + [id];
    if |ids| == 1 {
      assert Chain(q, id, [id]);
    } else {
      assert ids[0] in ids && ids[0] != ids[|ids| - 1];
      assert forall i :: i in ids[1..] ==> i in ids;
      ChainAppend(p, q, p[from].next, ids[1..], id);
    }
  }

  /** The fields thread exactly `ids`: the list runs through them to the tail, and they are the ones marked free. */
  ghost predicate Threads(p: seq<SeqInfo>, free: nat, freeTail: nat, ids: seq<nat>) {
    && Chain(p, free, ids)
    && freeTail == (if ids == [] then MAX_UNSIGN_SHORT else ids[|ids| - 1])
    && (forall i, j :: 0 <= i < j < |ids| ==> ids[i] != ids[j])
    && (forall i :: 0 <= i < |p| ==> (p[i].free <==> i in ids))
    && (forall i :: i in ids ==> i < |p|)
  }

  /** Walking from `free` meets the free ids and no other, meets none twice, passes the tail last, and stops. */
  lemma FreeListShape(p: seq<SeqInfo>, free: nat, freeTail: nat, ids: seq<nat>)
    requires |p| < MAX_UNSIGN_SHORT && Threads(p, free, freeTail, ids)
    ensures Follow(p, free, |ids|) == MAX_UNSIGN_SHORT
    ensures ids != [] ==> Follow(p, free, |ids| - 1) == freeTail
    ensures forall i, j :: 0 <= i < j <= |ids| ==> Follow(p, free, i) != Follow(p, free, j)
    ensures forall k :: 0 <= k < |ids| ==> Follow(p, free, k) < |p| && p[Follow(p, free, k)].free
    ensures forall id :: 0 <= id < |p| && p[id].free ==> Reaches(p, free, |ids|, id)
  {
    forall k | 0 <= k <= |ids|
      ensures Follow(p, free, k) == if k < |ids| then ids[k] else MAX_UNSIGN_SHORT
    {
      ChainFollows(p, free, ids, k);
    }
    assert forall k :: 0 <= k < |ids| ==> ids[k] in ids;
    forall i, j | 0 <= i < j <= |ids|
      ensures Follow(p, free, i) != Follow(p, free, j)
    {
      assert ids[i] in ids;
    }
    forall id | 0 <= id < |p| && p[id].free
      ensures Reaches(p, free, |ids|, id)
    {
      assert id in ids;
      var k :| 0 <= k < |ids| && ids[k] == id;
      assert Follow(p, free, k) == id;
    }
  }

  lemma TakeThreads(p: seq<SeqInfo>, free: nat, freeTail: nat, ids: seq<nat>)
    requires |p| < MAX_UNSIGN_SHORT && Threads(p, free, freeTail, ids) && ids != []
    ensures free < |p| && free == ids[0] && free !in ids[1..]
    ensures free == freeTail <==> |ids| == 1
    ensures free == freeTail ==> p[free].next == MAX_UNSIGN_SHORT
    ensures Threads(p[free := p[free].(free := false)], p[free].next,
      if free == freeTail then MAX_UNSIGN_SHORT else freeTail, ids[1..])
  {
    ChainLast(p, free, ids);
    ChainFrame(p, p[free := p[free].(free := false)], p[free].next, ids[1..]);
    assert forall i :: i in ids <==> i == free || i in ids[1..];
  }

  lemma DelThreads(p: seq<SeqInfo>, free: nat, freeTail: nat, ids: seq<nat>, id: nat)
    requires |p| < MAX_UNSIGN_SHORT && Threads(p, free, freeTail, ids) && id < |p| && id !in ids
    ensures freeTail == MAX_UNSIGN_SHORT <==> ids == []
    ensures freeTail != MAX_UNSIGN_SHORT ==> freeTail < |p| && freeTail != id
    ensures var q := p[id := SeqInfo(MAX_UNSIGN_SHORT, true)];
      Threads(if ids == [] then q else q[freeTail := q[freeTail].(next := id)],
        if ids == [] then id else free, id, ids + [id])
  {
    var q := p[id := SeqInfo(MAX_UNSIGN_SHORT, true)];
    assert ids != [] ==> ids[|ids| - 1] in ids;
    assert forall i :: i in ids + [id] <==> i in ids || i == id;
    if ids == [] {
      assert Chain(q, MAX_UNSIGN_SHORT, []);
      assert ids + [id] == [id];
    } else {
      ChainAppend(p, q[freeTail := q[freeTail].(next := id)], free, ids, id);
    }
  }

  class SeqManager {
    const num: nat
    const p: array<SeqInfo>
    var free: nat
    var freeTail: nat
    ghost var ids: seq<nat> // the chain from `free`

    ghost predicate Valid()
      reads this, p
    {
      && 0 < num < MAX_UNSIGN_SHORT && p.Length == num
      && Threads(p[..], free, freeTail, ids)
    }

    ghost function Abs(): Pool
      requires Valid()
      reads this, p
    {
      Pool(num, ids, set i | 0 <= i < num && i !in ids)
    }

    constructor (iNum: nat)
      requires 0 < iNum < MAX_UNSIGN_SHORT
      ensures Valid() && fresh(p) && Abs() == Fresh(iNum)
    {
      num := iNum;
      p := new SeqInfo[iNum];
      free := 0;
      freeTail := iNum - 1;
      ids := seq(iNum, i => i);
      new;
      var i := 0;
      while i < num
        modifies p
        invariant 0 <= i <= num
        invariant forall k :: 0 <= k < i ==> p[k] == SeqInfo(k + 1, true)
      {
        p[i] := SeqInfo(i + 1, true);
        i := i + 1;
      }
      p[num - 1] := p[num - 1].(next := MAX_UNSIGN_SHORT);
      CountUp(p[..], 0);
      assert seq(num, i => i)[0..] == ids;
      CountsAll(num);
      assert ids == Fresh(num).free;
    }

    /** get(): the source asserts that some id is free. */
    method Get() returns (id: nat)
      requires Valid() && Abs().free != []
      modifies this, p
      ensures Valid() && id == old(Abs()).free[0] && Abs() == Take(old(Abs()))
    {
      hide Threads, Chain;
      TakeThreads(p[..], free, freeTail, ids);
      var buf := free;
      if free == freeTail {
        assert p[buf].next == MAX_UNSIGN_SHORT;
        freeTail := MAX_UNSIGN_SHORT;
      }
      free := p[buf].next;
      p[buf] := p[buf].(free := false);
      ids := ids[1..];
      assert old(ids) == [buf] + ids;
      assert p[..] == old(p[..])[buf := old(p[..])[buf].(free := false)];
      return buf;
    }

    /** del(iSeq): the source asserts that the id exists and is in use. */
    method Del(iSeq: nat)
      requires Valid() && iSeq in Abs().held
      modifies this, p
      ensures Valid() && Abs() == Release(old(Abs()), iSeq)
    {
      hide Threads, Chain;
      DelThreads(p[..], free, freeTail, ids, iSeq);
      p[iSeq] := p[iSeq].(next := MAX_UNSIGN_SHORT);
      if freeTail == MAX_UNSIGN_SHORT {
        free := iSeq;
      } else {
        p[freeTail] := p[freeTail].(next := iSeq);
      }
      p[iSeq] := p[iSeq].(free := true);
      freeTail := iSeq;
      ids := ids + [iSeq];
      ghost var q := old(p[..])[iSeq := SeqInfo(MAX_UNSIGN_SHORT, true)];
      assert p[..] == if old(ids) == [] then q else q[old(freeTail) := q[old(freeTail)].(next := iSeq)];
    }
  }

  lemma CountsAll(num: nat)
    ensures forall i :: 0 <= i < num ==> i in Fresh(num).free
  {
    forall i | 0 <= i < num ensures i in Fresh(num).free {
      assert Fresh(num).free[i] == i;
    }
  }

  lemma {:induction false} CountUp(p: seq<SeqInfo>, from: nat)
    requires 0 < |p| < MAX_UNSIGN_SHORT && from < |p|
    requires forall k :: 0 <= k < |p| - 1 ==> p[k].next == k + 1
    requires p[|p| - 1].next == MAX_UNSIGN_SHORT
    ensures Chain(p, from, seq(|p|, i => i)[from..])
    decreases |p| - from
  {
    var all := seq(|p|, i => i);
    if from == |p| - 1 {
      assert all[from..] == [from];
      assert Chain(p, MAX_UNSIGN_SHORT, []);
    } else {
      CountUp(p, from + 1);
      assert all[from..][1..] == all[from + 1..];
    }
  }

  // ---------- any legal run ----------

  datatype Op = Get | Del(id: nat)

  /** The asserts of the source hold all along the run. */
  predicate Legal(q: Pool, ops: seq<Op>)
    decreases |ops|
  {
    ops == [] ||
    match ops[0]
    case Get => q.free != [] && Legal(Take(q), ops[1..])
    case Del(id) => id in q.held && Legal(Release(q, id), ops[1..])
  }

  function After(q: Pool, ops: seq<Op>): Pool
    requires Legal(q, ops)
    decreases |ops|
  {
    if ops == [] then q
    else
      match ops[0]
      case Get => After(Take(q), ops[1..])
      case Del(id) => After(Release(q, id), ops[1..])
  }

  /** The ids the run hands out, in order. */
  function Issued(q: Pool, ops: seq<Op>): seq<nat>
    requires Legal(q, ops)
    decreases |ops|
  {
    if ops == [] then []
    else
      match ops[0]
      case Get => [q.free[0]] + Issued(Take(q), ops[1..])
      case Del(id) => Issued(Release(q, id), ops[1..])
  }

  function Released(ops: seq<Op>): seq<nat> {
    if ops == [] then [] else (if ops[0].Del? then [ops[0].id] else []) + Released(ops[1..])
  }

  lemma {:induction false} RunOk(q: Pool, ops: seq<Op>)
    requires PoolOk(q) && Legal(q, ops)
    ensures PoolOk(After(q, ops))
    decreases |ops|
  {
    if ops != [] {
      match ops[0]
      case Get =>
        assert forall id :: id in q.free <==> id == q.free[0] || id in q.free[1..];
        RunOk(Take(q), ops[1..]);
      case Del(id) => RunOk(Release(q, id), ops[1..]);
    }
  }

  /** What was free and what came back leaves in exactly that order: first released, first reissued. */
  lemma {:induction false} FirstReleasedFirstReissued(q: Pool, ops: seq<Op>)
    requires Legal(q, ops)
    ensures q.free + Released(ops) == Issued(q, ops) + After(q, ops).free
    decreases |ops|
  {
    if ops != [] {
      match ops[0]
      case Get =>
        FirstReleasedFirstReissued(Take(q), ops[1..]);
        var rest := Issued(Take(q), ops[1..]);
        assert q.free + Released(ops) == [q.free[0]] + (q.free[1..] + Released(ops[1..]));
        assert ([q.free[0]] + rest) + After(q, ops).free == [q.free[0]] + (rest + After(q, ops).free);
      case Del(id) =>
        FirstReleasedFirstReissued(Release(q, id), ops[1..]);
        assert q.free + ([id] + Released(ops[1..])) == (q.free + [id]) + Released(ops[1..]);
    }
  }

  /** No id is ever handed out while it is in use, and every id is either free or in use. */
  lemma NeverHeldTwice(num: nat, ops: seq<Op>)
    requires Legal(Fresh(num), ops)
    ensures var q := After(Fresh(num), ops);
      PoolOk(q) && (q.free != [] ==> q.free[0] !in q.held && q.free[0] < num)
  {
    CountsAll(num);
    RunOk(Fresh(num), ops);
    AfterNum(Fresh(num), ops);
  }

  lemma {:induction false} AfterNum(q: Pool, ops: seq<Op>)
    requires Legal(q, ops)
    ensures After(q, ops).num == q.num
    decreases |ops|
  {
    if ops != [] {
      match ops[0]
      case Get => AfterNum(Take(q), ops[1..]);
      case Del(id) => AfterNum(Release(q, id), ops[1..]);
    }
  }
}
