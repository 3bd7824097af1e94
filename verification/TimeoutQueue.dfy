/**
 * TC_TimeoutQueueNew (util/include/tc_timeout_queue_new.h): a hash map, a deadline multimap and a send
 * list that hold each other's iterators, proved to be one map of entries in disguise.
 */
module TimeoutQueues {

  // ---------- the abstract object ----------

  /** `stamp` numbers the pushes, so smaller is older. */
  datatype Entry<T> = Entry(val: T, deadline: int, hasSend: bool, stamp: nat)

  /** Earlier deadline first, older first among equal ones. */
  predicate Before<T>(x: Entry<T>, y: Entry<T>) {
    x.deadline < y.deadline || (x.deadline == y.deadline && x.stamp < y.stamp)
  }

  ghost predicate IsFirst<T>(m: map<nat, Entry<T>>, id: nat) {
    id in m && forall j :: j in m && j != id ==> Before(m[id], m[j])
  }

  ghost predicate IsOldestUnsent<T>(m: map<nat, Entry<T>>, id: nat) {
    id in m && !m[id].hasSend && forall j :: j in m && j != id && !m[j].hasSend ==> m[id].stamp < m[j].stamp
  }

  /** Some entry is still to be sent. */
  ghost predicate Waiting<T>(m: map<nat, Entry<T>>) {
    exists id :: id in m && !m[id].hasSend
  }

  ghost function Alive<T>(m: map<nat, Entry<T>>, now: int): map<nat, Entry<T>> {
    map id | id in m && m[id].deadline > now :: m[id]
  }

  /**
   * `ids` is a run of pops from m: distinct entries, the earliest deadline first and the oldest among
   * ties, all of them before every entry that is left.
   */
  ghost predicate PopRun<T>(m: map<nat, Entry<T>>, ids: seq<nat>) {
    && (forall i :: 0 <= i < |ids| ==> ids[i] in m)
    && (forall i, j :: 0 <= i < j < |ids| ==> Before(m[ids[i]], m[ids[j]]))
    && (forall i, id :: 0 <= i < |ids| && id in m && id !in ids ==> Before(m[ids[i]], m[id]))
  }

  /** `ids` is a run along the send list: unsent entries in the order they were pushed, those left are younger. */
  ghost predicate SendRun<T>(m: map<nat, Entry<T>>, ids: seq<nat>) {
    && (forall i :: 0 <= i < |ids| ==> ids[i] in m && !m[ids[i]].hasSend)
    && (forall i, j :: 0 <= i < j < |ids| ==> m[ids[i]].stamp < m[ids[j]].stamp)
    && (forall i, id :: 0 <= i < |ids| && id in m && !m[id].hasSend && id !in ids ==> m[ids[i]].stamp < m[id].stamp)
  }

  ghost function Without<T>(m: map<nat, Entry<T>>, ids: seq<nat>): map<nat, Entry<T>> {
    map id | id in m && id !in ids :: m[id]
  }

  /** All of `ids` marked as sent. */
  ghost function Marked<T>(m: map<nat, Entry<T>>, ids: seq<nat>): map<nat, Entry<T>> {
    map id | id in m :: if id in ids then m[id].(hasSend := true) else m[id]
  }

  lemma OneMore(ids: seq<nat>, id: nat, k: nat)
    ensures k in ids + [id] <==> k in ids || k == id
  {
    if k == id { assert (ids + [id])[|ids|] == k; }
  }

  /** One more pop: the first of what is left is behind all that were popped. */
  lemma PopNext<T>(m: map<nat, Entry<T>>, ids: seq<nat>, id: nat)
    requires PopRun(m, ids) && IsFirst(Without(m, ids), id)
    ensures PopRun(m, ids + [id]) && id !in ids
    ensures Without(m, ids) - {id} == Without(m, ids + [id])
  {
    forall k: nat ensures k in ids + [id] <==> k in ids || k == id { OneMore(ids, id, k); }
    var more := ids + [id];
    forall i, k | 0 <= i < |more| && k in m && k !in more ensures Before(m[more[i]], m[k]) {
      if i == |ids| { assert k in Without(m, ids); }
    }
  }

  lemma OldestLeft<T>(m: map<nat, Entry<T>>, ids: seq<nat>, id: nat, del: bool)
    requires IsOldestUnsent(if del then Without(m, ids) else Marked(m, ids), id)
    ensures id in m && !m[id].hasSend && id !in ids
    ensures forall k: nat :: k in m && !m[k].hasSend && k !in ids && k != id ==> m[id].stamp < m[k].stamp
  {
    var left := if del then Without(m, ids) else Marked(m, ids);
    forall k: nat | k in m && !m[k].hasSend && k !in ids && k != id ensures m[id].stamp < m[k].stamp {
      assert k in left && left[k] == m[k];
    }
  }

  lemma SendMore<T>(m: map<nat, Entry<T>>, ids: seq<nat>, id: nat)
    requires SendRun(m, ids) && id in m && !m[id].hasSend && id !in ids
    requires forall k: nat :: k in m && !m[k].hasSend && k !in ids && k != id ==> m[id].stamp < m[k].stamp
    ensures SendRun(m, ids + [id])
  {
    forall k: nat ensures k in ids + [id] <==> k in ids || k == id { OneMore(ids, id, k); }
    var more := ids + [id];
    forall i, k | 0 <= i < |more| && k in m && !m[k].hasSend && k !in more ensures m[more[i]].stamp < m[k].stamp {
    }
  }

  /** One more along the send list, whether its entry is then deleted or marked. */
  lemma SendNext<T>(m: map<nat, Entry<T>>, ids: seq<nat>, id: nat, del: bool)
    requires SendRun(m, ids) && IsOldestUnsent(if del then Without(m, ids) else Marked(m, ids), id)
    ensures SendRun(m, ids + [id]) && id !in ids
    ensures id in m && (!del ==> id in Marked(m, ids))
    ensures del ==> Without(m, ids) - {id} == Without(m, ids + [id])
    ensures !del ==> Marked(m, ids)[id := Marked(m, ids)[id].(hasSend := true)] == Marked(m, ids + [id])
  {
    hide SendRun, IsOldestUnsent;
    OldestLeft(m, ids, id, del);
    SendMore(m, ids, id);
    forall k: nat ensures k in ids + [id] <==> k in ids || k == id { OneMore(ids, id, k); }
  }

  lemma Expired<T>(m: map<nat, Entry<T>>, id: nat, now: int)
    requires id in m && m[id].deadline <= now
    ensures Alive(m - {id}, now) == Alive(m, now)
  {
  }

  lemma AllAlive<T>(m: map<nat, Entry<T>>, now: int)
    ensures m == map[] ==> Alive(m, now) == m
    ensures forall id :: IsFirst(m, id) && m[id].deadline > now ==> Alive(m, now) == m
  {
    forall id | IsFirst(m, id) && m[id].deadline > now ensures Alive(m, now) == m {
      assert forall j :: j in m ==> m[j].deadline > now;
    }
  }

  lemma NoneYet<T>(m: map<nat, Entry<T>>)
    ensures PopRun(m, []) && SendRun(m, []) && Without(m, []) == m && Marked(m, []) == m
  {
  }

  lemma LeftOf<T>(m: map<nat, Entry<T>>, ids: seq<nat>, id: nat)
    ensures id in Without(m, ids) <==> id in m && id !in ids
    ensures id in m && id !in ids ==> Without(m, ids)[id] == m[id]
  {
  }

  lemma SentOf<T>(m: map<nat, Entry<T>>, ids: seq<nat>, id: nat)
    requires SendRun(m, ids)
    ensures id in ids ==> id in m && !m[id].hasSend
    ensures id in m && id !in ids ==> id in Without(m, ids) && Without(m, ids)[id] == m[id]
    ensures id in m && id !in ids ==> id in Marked(m, ids) && Marked(m, ids)[id] == m[id]
  {
  }

  lemma Fewer<T>(m: map<nat, Entry<T>>, id: nat)
    requires id in m
    ensures |m - {id}| < |m|
  {
    assert (m - {id}).Keys == m.Keys - {id};
    assert |m.Keys - {id}| < |m.Keys|;
  }

  // ---------- the three indexes ----------

  /** An iterator is modelled as the allocation number of the node it points to. */
  datatype PtrInfo<T> = PtrInfo(ptr: T, hasSend: bool, timeIter: nat, sendIter: nat)

  datatype TimeNode = TimeNode(deadline: int, iter: nat, dataIter: nat)

  datatype SendNode = SendNode(iter: nat, dataIter: nat)

  /** multimap::insert goes behind every node that is not later. */
  function InsertTime(ts: seq<TimeNode>, n: TimeNode): seq<TimeNode> {
    if ts == [] || n.deadline < ts[0].deadline then [n] + ts else [ts[0]] + InsertTime(ts[1..], n)
  }

  function EraseTime(ts: seq<TimeNode>, iter: nat): seq<TimeNode> {
    if ts == [] then [] else if ts[0].iter == iter then ts[1..] else [ts[0]] + EraseTime(ts[1..], iter)
  }

  function EraseSend(ss: seq<SendNode>, iter: nat): seq<SendNode> {
    if ss == [] then [] else if ss[0].iter == iter then ss[1..] else [ss[0]] + EraseSend(ss[1..], iter)
  }

  predicate Sooner(x: TimeNode, y: TimeNode) {
    x.deadline < y.deadline || (x.deadline == y.deadline && x.iter < y.iter)
  }

  ghost predicate TimeSorted(ts: seq<TimeNode>) {
    forall i, j :: 0 <= i < j < |ts| ==> Sooner(ts[i], ts[j])
  }

  /** push_front: the newest node comes first. */
  ghost predicate SendSorted(ss: seq<SendNode>) {
    forall i, j :: 0 <= i < j < |ss| ==> ss[i].iter > ss[j].iter
  }

  lemma {:induction false} InsertTimeFacts(ts: seq<TimeNode>, n: TimeNode)
    requires TimeSorted(ts) && forall x :: x in ts ==> x.iter < n.iter
    ensures TimeSorted(InsertTime(ts, n))
    ensures forall x :: x in InsertTime(ts, n) <==> x in ts || x == n
  {
    if ts == [] {
    } else if n.deadline < ts[0].deadline {
      assert forall x :: x in ts ==> x == ts[0] || Sooner(ts[0], x);
      assert forall x :: x in [n] + ts <==> x in ts || x == n;
    } else {
      var rest := ts[1..];
      assert ts == [ts[0]] + rest;
      InsertTimeFacts(rest, n);
      var r := InsertTime(rest, n);
      assert Sooner(ts[0], n) by { assert ts[0] in ts; }
      assert forall x :: x in rest ==> Sooner(ts[0], x);
      assert forall x :: x in r ==> Sooner(ts[0], x);
    }
  }

  lemma {:induction false} EraseTimeFacts(ts: seq<TimeNode>, iter: nat)
    requires forall x, y :: x in ts && y in ts && x.iter == y.iter ==> x == y
    requires TimeSorted(ts)
    ensures TimeSorted(EraseTime(ts, iter))
    ensures forall x :: x in EraseTime(ts, iter) <==> x in ts && x.iter != iter
  {
    if ts != [] {
      var rest := ts[1..];
      assert ts == [ts[0]] + rest;
      assert forall x :: x in rest ==> Sooner(ts[0], x);
      assert ts[0] !in rest;
      if ts[0].iter != iter { EraseTimeFacts(rest, iter); }
    }
  }

  lemma EraseHead(ts: seq<TimeNode>, iter: nat)
    ensures ts != [] && ts[0].iter == iter ==> EraseTime(ts, iter) == ts[1..]
  {
  }

  lemma {:induction false} EraseSendKeeps(ss: seq<SendNode>, iter: nat, x: SendNode)
    requires SendSorted(ss)
    ensures x in EraseSend(ss, iter) <==> x in ss && x.iter != iter
  {
    if ss != [] {
      assert ss == [ss[0]] + ss[1..];
      assert forall y :: y in ss[1..] ==> y.iter < ss[0].iter;
      EraseSendKeeps(ss[1..], iter, x);
    }
  }

  lemma {:induction false} EraseSendSorted(ss: seq<SendNode>, iter: nat)
    requires SendSorted(ss)
    ensures SendSorted(EraseSend(ss, iter))
  {
    if ss != [] && ss[0].iter != iter {
      var r := EraseSend(ss[1..], iter);
      EraseSendSorted(ss[1..], iter);
      forall k | 0 <= k < |r| ensures r[k].iter < ss[0].iter {
        EraseSendKeeps(ss[1..], iter, r[k]);
      }
    }
  }

  lemma EraseSendFacts(ss: seq<SendNode>, iter: nat)
    requires SendSorted(ss)
    ensures SendSorted(EraseSend(ss, iter))
    ensures forall x :: x in EraseSend(ss, iter) <==> x in ss && x.iter != iter
  {
    hide EraseSend, SendSorted;
    EraseSendSorted(ss, iter);
    forall x ensures x in EraseSend(ss, iter) <==> x in ss && x.iter != iter {
      EraseSendKeeps(ss, iter, x);
    }
  }

  ghost predicate Stamps<T>(m: map<nat, Entry<T>>, next: nat) {
    (forall id :: id in m ==> m[id].stamp < next)
    && (forall i, j :: i in m && j in m && m[i].stamp == m[j].stamp ==> i == j)
  }

  ghost predicate AgreeData<T>(m: map<nat, Entry<T>>, data: map<nat, PtrInfo<T>>) {
    (forall id :: id in m <==> id in data)
    && (forall id :: id in m ==>
          data[id].ptr == m[id].val && data[id].hasSend == m[id].hasSend
          && data[id].timeIter == m[id].stamp && (!m[id].hasSend ==> data[id].sendIter == m[id].stamp))
  }

  function TimeNodeOf<T>(id: nat, e: Entry<T>): TimeNode {
    TimeNode(e.deadline, e.stamp, id)
  }

  ghost predicate AgreeTime<T>(m: map<nat, Entry<T>>, time: seq<TimeNode>) {
    TimeSorted(time)
    && forall n: TimeNode :: n in time <==> n.dataIter in m && n == TimeNodeOf(n.dataIter, m[n.dataIter])
  }

  ghost predicate AgreeSend<T>(m: map<nat, Entry<T>>, send: seq<SendNode>) {
    SendSorted(send)
    && forall n: SendNode :: n in send <==>
         n.dataIter in m && !m[n.dataIter].hasSend && n == SendNode(m[n.dataIter].stamp, n.dataIter)
  }

  lemma PushData<T>(m: map<nat, Entry<T>>, next: nat, data: map<nat, PtrInfo<T>>, id: nat, e: Entry<T>, p: PtrInfo<T>)
    requires Stamps(m, next) && AgreeData(m, data) && id !in m && e.stamp == next
    requires p == PtrInfo(e.val, e.hasSend, next, next)
    ensures Stamps(m[id := e], next + 1) && AgreeData(m[id := e], data[id := p])
  {
  }

  lemma DropData<T>(m: map<nat, Entry<T>>, next: nat, data: map<nat, PtrInfo<T>>, id: nat)
    requires Stamps(m, next) && AgreeData(m, data) && id in m
    ensures Stamps(m - {id}, next) && AgreeData(m - {id}, data - {id})
  {
  }

  lemma MarkData<T>(m: map<nat, Entry<T>>, next: nat, data: map<nat, PtrInfo<T>>, id: nat)
    requires Stamps(m, next) && AgreeData(m, data) && id in m
    ensures id in data && AgreeData(m[id := m[id].(hasSend := true)], data[id := data[id].(hasSend := true)])
    ensures Stamps(m[id := m[id].(hasSend := true)], next)
    ensures data[id := data[id].(hasSend := true)] - {id} == data - {id}
  {
  }

  lemma SameRecord<T>(m: map<nat, Entry<T>>, data: map<nat, PtrInfo<T>>, id: nat)
    requires AgreeData(m, data)
    ensures id in m <==> id in data
    ensures id in m ==>
      data[id].ptr == m[id].val && data[id].hasSend == m[id].hasSend && data[id].timeIter == m[id].stamp
    ensures id in m && !m[id].hasSend ==> data[id].sendIter == m[id].stamp
    ensures forall next :: Stamps(m, next) && id in m ==> m[id].stamp < next
  {
  }

  lemma PushTime<T>(m: map<nat, Entry<T>>, next: nat, time: seq<TimeNode>, id: nat, e: Entry<T>)
    requires Stamps(m, next) && AgreeTime(m, time) && id !in m && e.stamp == next
    ensures AgreeTime(m[id := e], InsertTime(time, TimeNodeOf(id, e)))
  {
    hide TimeSorted, InsertTime;
    InsertTimeFacts(time, TimeNodeOf(id, e));
  }

  lemma PushSend<T>(m: map<nat, Entry<T>>, next: nat, send: seq<SendNode>, id: nat, e: Entry<T>)
    requires Stamps(m, next) && AgreeSend(m, send) && id !in m && e.stamp == next
    ensures AgreeSend(m[id := e], if e.hasSend then send else [SendNode(next, id)] + send)
  {
    if !e.hasSend {
      assert forall n :: n in send ==> n.iter < next;
      assert forall n :: n in [SendNode(next, id)] + send <==> n == SendNode(next, id) || n in send;
    }
  }

  lemma DropTime<T>(m: map<nat, Entry<T>>, next: nat, time: seq<TimeNode>, id: nat)
    requires Stamps(m, next) && AgreeTime(m, time) && id in m
    ensures AgreeTime(m - {id}, EraseTime(time, m[id].stamp))
  {
    hide TimeSorted, EraseTime;
    EraseTimeFacts(time, m[id].stamp);
  }

  lemma DropSend<T>(m: map<nat, Entry<T>>, next: nat, send: seq<SendNode>, id: nat)
    requires Stamps(m, next) && AgreeSend(m, send) && id in m
    ensures AgreeSend(m - {id}, if m[id].hasSend then send else EraseSend(send, m[id].stamp))
  {
    hide SendSorted, EraseSend;
    if !m[id].hasSend { EraseSendFacts(send, m[id].stamp); }
  }

  lemma MarkTime<T>(m: map<nat, Entry<T>>, time: seq<TimeNode>, id: nat)
    requires AgreeTime(m, time) && id in m
    ensures AgreeTime(m[id := m[id].(hasSend := true)], time)
  {
    hide TimeSorted;
  }

  /** The send list without its back, after that entry was marked as sent or removed. */
  lemma PopBack<T>(m: map<nat, Entry<T>>, next: nat, send: seq<SendNode>)
    requires Stamps(m, next) && AgreeSend(m, send) && send != []
    ensures var id := send[|send| - 1].dataIter; var rest := send[..|send| - 1];
      id in m && AgreeSend(m - {id}, rest) && AgreeSend(m[id := m[id].(hasSend := true)], rest)
  {
    var back, rest := send[|send| - 1], send[..|send| - 1];
    assert back in send;
    assert send == rest + [back];
    assert back !in rest;
  }

  /** The three indexes hold exactly the entries of `m`, and point at each other correctly. */
  ghost predicate Agree<T>(
      m: map<nat, Entry<T>>, next: nat, data: map<nat, PtrInfo<T>>, time: seq<TimeNode>, send: seq<SendNode>) {
    Stamps(m, next) && AgreeData(m, data) && AgreeTime(m, time) && AgreeSend(m, send)
  }

  class TimeoutQueue<T> {
    var data: map<nat, PtrInfo<T>>
    var time: seq<TimeNode>
    var send: seq<SendNode>
    var nextIter: nat

    // Ghost view: the entries.
    ghost var entries: map<nat, Entry<T>>

    ghost predicate Valid()
      reads this
    {
      Agree(entries, nextIter, data, time, send)
    }

    constructor ()
      ensures Valid() && entries == map[]
    {
      data, time, send, nextIter, entries := map[], [], [], 0, map[];
    }

    method Push(ptr: T, uniqId: nat, timeout: int, hasSend: bool) returns (ok: bool)
      requires Valid()
      modifies this
      ensures Valid() && ok == (uniqId !in old(entries))
      ensures entries ==
        if ok then old(entries)[uniqId := Entry(ptr, timeout, hasSend, old(nextIter))] else old(entries)
      ensures forall id :: id in old(entries) ==> old(entries)[id].stamp < old(nextIter)
    {
      hide AgreeTime, AgreeSend, AgreeData, InsertTime;
      SameRecord(entries, data, uniqId);
      if uniqId in data { return false; }
      var iter := nextIter;
      nextIter := nextIter + 1;
      PushData(entries, iter, data, uniqId, Entry(ptr, timeout, hasSend, iter), PtrInfo(ptr, hasSend, iter, iter));
      PushTime(entries, iter, time, uniqId, Entry(ptr, timeout, hasSend, iter));
      PushSend(entries, iter, send, uniqId, Entry(ptr, timeout, hasSend, iter));
      time := InsertTime(time, TimeNode(timeout, iter, uniqId));
      if !hasSend {
        send := [SendNode(iter, uniqId)] + send;
      }
      data := data[uniqId := PtrInfo(ptr, hasSend, iter, iter)];
      entries := entries[uniqId := Entry(ptr, timeout, hasSend, iter)];
      ok := true;
    }

    /** Removing an entry from all three indexes, through the iterators its record stores. */
    method Drop(id: nat)
      requires Valid() && id in data && id in entries
      modifies this
      ensures Valid() && entries == old(entries) - {id} && nextIter == old(nextIter)
      ensures time == EraseTime(old(time), old(data)[id].timeIter)
    {
      var p := data[id];
      hide AgreeTime, AgreeSend, AgreeData, Stamps, EraseTime, EraseSend;
      SameRecord(entries, data, id);
      DropData(entries, nextIter, data, id);
      DropTime(entries, nextIter, time, id);
      DropSend(entries, nextIter, send, id);
      if !p.hasSend {
        send := EraseSend(send, p.sendIter);
      }
      time := EraseTime(time, p.timeIter);
      data := data - {id};
      entries := entries - {id};
    }

    method Erase(uniqId: nat, t: T) returns (ok: bool, r: T)
      requires Valid()
      modifies this
      ensures Valid() && ok == (uniqId in old(entries))
      ensures r == if ok then old(entries)[uniqId].val else t
      ensures entries == if ok then old(entries) - {uniqId} else old(entries)
    {
      if uniqId !in data { return false, t; }
      r := data[uniqId].ptr;
      Drop(uniqId);
      ok := true;
    }

    method Get(uniqId: nat, t: T, bErase: bool) returns (ok: bool, r: T)
      requires Valid()
      modifies this
      ensures Valid() && ok == (uniqId in old(entries))
      ensures r == if ok then old(entries)[uniqId].val else t
      ensures entries == if ok && bErase then old(entries) - {uniqId} else old(entries)
    {
      if uniqId !in data { return false, t; }
      r := data[uniqId].ptr;
      if bErase { Drop(uniqId); }
      ok := true;
    }

    /** The back of the send list. */
    lemma Back()
      requires Valid()
      ensures send != [] <==> Waiting(entries)
      ensures send != [] ==> IsOldestUnsent(entries, send[|send| - 1].dataIter) && send[|send| - 1].dataIter in data
    {
      if id :| id in entries && !entries[id].hasSend {
        assert SendNode(entries[id].stamp, id) in send;
      }
      if send != [] {
        var b := send[|send| - 1];
        assert b in send;
        forall j | j in entries && j != b.dataIter && !entries[j].hasSend
          ensures entries[b.dataIter].stamp < entries[j].stamp
        {
          var n := SendNode(entries[j].stamp, j);
          assert n in send;
          var k :| 0 <= k < |send| && send[k] == n;
        }
      }
    }

    method GetSend(t: T) returns (ok: bool, r: T)
      requires Valid()
      ensures ok <==> Waiting(entries)
      ensures ok ==> exists id :: IsOldestUnsent(entries, id) && r == entries[id].val
      ensures !ok ==> r == t
    {
      Back();
      if send == [] { return false, t; }
      var back := send[|send| - 1];
      assert !data[back.dataIter].hasSend;
      r := data[back.dataIter].ptr;
      ok := true;
    }

    method PopSend(del: bool) returns (ghost id: nat)
      requires Valid() && Waiting(entries)
      modifies this
      ensures Valid() && IsOldestUnsent(old(entries), id) && |send| < |old(send)|
      ensures entries == if del then old(entries) - {id} else old(entries)[id := old(entries)[id].(hasSend := true)]
    {
      hide AgreeTime, AgreeSend, AgreeData, Stamps, EraseTime;
      Back();
      var back := send[|send| - 1];
      var key := back.dataIter;
      id := key;
      MarkData(entries, nextIter, data, key);
      DropData(entries, nextIter, data, key);
      SameRecord(entries, data, key);
      PopBack(entries, nextIter, send);
      data := data[key := data[key].(hasSend := true)];
      if del {
        DropTime(entries, nextIter, time, key);
        time := EraseTime(time, data[key].timeIter);
        data := data - {key};
        entries := entries - {key};
      } else {
        MarkTime(entries, time, key);
        entries := entries[key := entries[key].(hasSend := true)];
      }
      send := send[..|send| - 1];
    }

    /** The head of the deadline multimap. */
    lemma Head()
      requires Valid()
      ensures time == [] <==> entries == map[]
      ensures time != [] ==>
        IsFirst(entries, time[0].dataIter) && time[0].dataIter in data && time[0].dataIter in entries
      ensures time != [] ==> time[0].deadline == entries[time[0].dataIter].deadline
    {
      if id :| id in entries {
        assert TimeNode(entries[id].deadline, entries[id].stamp, id) in time;
      }
      if time != [] {
        var h := time[0];
        assert h in time;
        forall j | j in entries && j != h.dataIter ensures Before(entries[h.dataIter], entries[j]) {
          var n := TimeNode(entries[j].deadline, entries[j].stamp, j);
          assert n in time;
          var k :| 0 <= k < |time| && time[k] == n;
        }
      }
    }

    /** timeout() at time `now`: the loop from the head of the multimap. */
    method Timeout(now: int)
      requires Valid()
      modifies this
      ensures Valid() && entries == Alive(old(entries), now)
    {
      hide Agree, Alive, EraseTime;
      while time != []
        invariant Valid() && Alive(entries, now) == Alive(old(entries), now)
        decreases |time|
      {
        Head();
        var it := time[0];
        if it.deadline > now { break; }
        Expired(entries, it.dataIter, now);
        EraseHead(time, data[it.dataIter].timeIter);
        HeadIter();
        Drop(it.dataIter);
      }
      Head();
      AllAlive(entries, now);
    }

    lemma HeadIter()
      requires Valid() && time != []
      ensures time[0].dataIter in data && time[0].dataIter in entries && data[time[0].dataIter].timeIter == time[0].iter
    {
      assert time[0] in time;
    }

    /** timeout(t) at time `now`: at most one expired entry is popped. */
    method TimeoutOne(now: int, t: T) returns (ok: bool, r: T, ghost id: nat)
      requires Valid()
      modifies this
      ensures Valid()
      ensures ok <==> exists k :: k in old(entries) && old(entries)[k].deadline <= now
      ensures ok ==> IsFirst(old(entries), id) && r == old(entries)[id].val && entries == old(entries) - {id}
      ensures !ok ==> r == t && entries == old(entries)
    {
      Head();
      id := 0;
      if time == [] { return false, t, 0; }
      var it := time[0];
      if it.deadline > now { return false, t, 0; }
      assert it in time;
      r := data[it.dataIter].ptr;
      id := it.dataIter;
      Drop(it.dataIter);
      ok := true;
    }

    /** timeout(t) called at one time `now` until nothing is left that has expired. */
    method TimeoutEach(now: int, t: T) returns (rs: seq<T>, ghost ids: seq<nat>)
      requires Valid()
      modifies this
      ensures Valid() && PopRun(old(entries), ids) && |rs| == |ids|
      ensures forall i :: 0 <= i < |ids| ==> rs[i] == old(entries)[ids[i]].val
      ensures forall id :: id in ids <==> id in old(entries) && old(entries)[id].deadline <= now
      ensures entries == Without(old(entries), ids)
    {
      hide Agree, PopRun, Without;
      rs, ids := [], [];
      var more := true;
      NoneYet(entries);
      while more
        invariant Valid() && PopRun(old(entries), ids) && |rs| == |ids|
        invariant entries == Without(old(entries), ids)
        invariant forall i :: 0 <= i < |ids| ==> ids[i] in old(entries) && old(entries)[ids[i]].deadline <= now
        invariant forall i :: 0 <= i < |ids| ==> rs[i] == old(entries)[ids[i]].val
        invariant !more ==> forall id :: id in entries ==> entries[id].deadline > now
        decreases more, |entries|
      {
        ghost var left := entries;
        var ok, r: T, id := TimeoutOne(now, t);
        more := ok;
        if ok {
          PopNext(old(entries), ids, id);
          LeftOf(old(entries), ids, id);
          Fewer(left, id);
          rs, ids := rs + [r], ids + [id];
        }
      }
      forall id ensures id in ids <==> id in old(entries) && old(entries)[id].deadline <= now {
        LeftOf(old(entries), ids, id);
      }
    }

    /** popSend(del) called until the send list is empty. */
    method PopSendEach(del: bool) returns (ghost ids: seq<nat>)
      requires Valid()
      modifies this
      ensures Valid() && SendRun(old(entries), ids)
      ensures forall id :: id in ids <==> id in old(entries) && !old(entries)[id].hasSend
      ensures entries == if del then Without(old(entries), ids) else Marked(old(entries), ids)
    {
      hide Agree, SendRun, Without, Marked;
      ids := [];
      NoneYet(entries);
      while !SendListEmpty()
        invariant Valid() && SendRun(old(entries), ids)
        invariant entries == if del then Without(old(entries), ids) else Marked(old(entries), ids)
        decreases |send|
      {
        Back();
        ghost var id := PopSend(del);
        SendNext(old(entries), ids, id, del);
        ids := ids + [id];
      }
      Back();
      forall id ensures id in ids <==> id in old(entries) && !old(entries)[id].hasSend {
        SentOf(old(entries), ids, id);
      }
    }

    predicate SendListEmpty()
      reads this
    {
      send == []
    }

    function Size(): nat
      reads this
    {
      |data|
    }

    lemma SizeIs()
      requires Valid()
      ensures Size() == |entries|
    {
      assert data.Keys == entries.Keys;
      assert |data| == |data.Keys| && |entries| == |entries.Keys|;
    }
  }

  /** What sendRequest answers: everything taken, a part of it, or an error. */
  datatype Sent = Whole | Part | Failed

  /**
   * ObjectProxy::doInvoke, watched for as many rounds as there are answers: `sent` is what it handed
   * to sendRequest. It never calls popSend, so every round sends the oldest waiting request again, and
   * it returns exactly when none was waiting or an answer is not Whole.
   */
  method DoInvoke<T>(q: TimeoutQueue<T>, answers: seq<Sent>, t: T) returns (sent: seq<T>, ended: bool, ghost id: nat)
    requires q.Valid()
    ensures ended <==> !Waiting(q.entries) || exists i :: 0 <= i < |answers| && !answers[i].Whole?
    ensures Waiting(q.entries) ==> IsOldestUnsent(q.entries, id)
    ensures Waiting(q.entries) ==> forall i :: 0 <= i < |sent| ==> sent[i] == q.entries[id].val
    ensures !Waiting(q.entries) ==> sent == []
    ensures !ended ==> |sent| == |answers|
    ensures ended && sent != [] ==> |sent| <= |answers| && !answers[|sent| - 1].Whole?
    ensures forall i :: 0 <= i < |sent| - 1 && i < |answers| ==> answers[i].Whole?
  {
    sent, ended, id := [], false, 0;
    q.Back();
    if q.SendListEmpty() { return [], true, 0; }
    id := q.send[|q.send| - 1].dataIter;
    while !q.SendListEmpty() && |sent| < |answers|
      invariant |sent| <= |answers| && Waiting(q.entries) && IsOldestUnsent(q.entries, id)
      invariant forall i :: 0 <= i < |sent| ==> sent[i] == q.entries[id].val && answers[i].Whole?
      decreases |answers| - |sent|
    {
      var ok, msg := q.GetSend(t);
      var answer := answers[|sent|];
      sent := sent + [msg];
      if !answer.Whole? { return sent, true, id; }
    }
  }
}
