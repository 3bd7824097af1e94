/**
 * The sending side of TC_EpollServer::NetThread::Connection (util/src/tc_epoll_server.cpp): pending
 * slices are handed to writev in batches, and what the kernel took is trimmed off in place.
 */
module SendSlices {
  import opened Bytes
  import opened Sequences

  // ---------- payloads as values ----------

  /** The slices without their first n bytes. */
  function Skip(ss: seq<seq<byte>>, n: nat): seq<seq<byte>>
    decreases |ss|
  {
    if ss == [] then []
    else if n >= |ss[0]| then Skip(ss[1..], n - |ss[0]|)
    else [ss[0][n..]] + ss[1..]
  }

  ghost predicate NonEmpty(ss: seq<seq<byte>>) {
    forall i :: 0 <= i < |ss| ==> ss[i] != []
  }

  /** Exactly n bytes go. */
  lemma {:induction false} SkipFlatten(ss: seq<seq<byte>>, n: nat)
    ensures Flatten(Skip(ss, n)) == if n <= |Flatten(ss)| then Flatten(ss)[n..] else []
    decreases |ss|
  {
    if ss != [] {
      var rest := Flatten(ss[1..]);
      assert Flatten(ss) == ss[0] + rest;
      if n >= |ss[0]| {
        SkipFlatten(ss[1..], n - |ss[0]|);
      } else {
        assert ([ss[0][n..]] + ss[1..])[1..] == ss[1..];
        assert (ss[0] + rest)[n..] == ss[0][n..] + rest;
      }
    }
  }

  /** No empty slice is left, and every slice but the first is an old one, whole. */
  lemma {:induction false} SkipDrops(ss: seq<seq<byte>>, n: nat)
    requires NonEmpty(ss)
    ensures Flatten(Skip(ss, n)) == if n <= |Flatten(ss)| then Flatten(ss)[n..] else []
    ensures NonEmpty(Skip(ss, n)) && |Skip(ss, n)| <= |ss|
    ensures Skip(ss, n) != [] ==> Skip(ss, n)[1..] == ss[|ss| - |Skip(ss, n)| + 1..]
    decreases |ss|
  {
    hide Flatten;
    SkipFlatten(ss, n);
    if ss != [] && n >= |ss[0]| {
      SkipDrops(ss[1..], n - |ss[0]|);
    }
  }

  // ---------- slices and the connection ----------

  /** A TC_Slice: a pointer and the number of bytes still to send from its start. */
  datatype Slice = Slice(data: array<byte>, dataLen: nat)

  /** Every slice holds something, and no two share memory. */
  ghost predicate SlicesOk(ss: seq<Slice>) {
    && (forall i :: 0 <= i < |ss| ==> 0 < ss[i].dataLen <= ss[i].data.Length)
    && (forall i, j :: 0 <= i < j < |ss| ==> ss[i].data != ss[j].data)
  }

  ghost function Memory(ss: seq<Slice>): set<array<byte>> {
    set s | s in ss :: s.data
  }

  ghost function Payloads(ss: seq<Slice>): (ps: seq<seq<byte>>)
    requires SlicesOk(ss)
    reads Memory(ss)
    ensures |ps| == |ss| && NonEmpty(ps)
    ensures forall i :: 0 <= i < |ss| ==> ps[i] == ss[i].data[..ss[i].dataLen]
  {
    seq(|ss|, i requires 0 <= i < |ss| reads Memory(ss) => ss[i].data[..ss[i].dataLen])
  }

  lemma SameMemory(ss: seq<Slice>, i: nat, n: nat)
    requires i < |ss|
    ensures Memory(ss[i := Slice(ss[i].data, n)]) == Memory(ss)
  {
    var rr := ss[i := Slice(ss[i].data, n)];
    assert forall k :: 0 <= k < |ss| ==> rr[k] in rr && rr[k].data == ss[k].data;
    assert Memory(ss) <= Memory(rr);
  }

  /** What the kernel takes of one batch follows what it took of the earlier ones. */
  lemma BatchTaken(ps: seq<seq<byte>>, from: nat, to: nat, n: nat)
    requires from <= to <= |ps| && n <= |Flatten(ps[from..to])|
    ensures |Flatten(ps[..to])| == |Flatten(ps[..from])| + |Flatten(ps[from..to])| <= |Flatten(ps)|
    ensures Flatten(ps)[..|Flatten(ps[..from])| + n]
         == Flatten(ps)[..|Flatten(ps[..from])|] + Flatten(ps[from..to])[..n]
  {
    hide Flatten;
    FlattenCut(ps, to);
    FlattenCut(ps[..to], from);
    assert ps[..to][..from] == ps[..from] && ps[..to][from..] == ps[from..to];
    assert Flatten(ps) == Flatten(ps[..from]) + (Flatten(ps[from..to]) + Flatten(ps[to..]));
  }

  lemma SkipOne(ps: seq<seq<byte>>, i: nat, n: nat)
    requires i < |ps|
    ensures n >= |ps[i]| ==> Skip(ps[i..], n) == Skip(ps[i + 1..], n - |ps[i]|)
    ensures n < |ps[i]| ==> Skip(ps[i..], n) == ps[i := ps[i][n..]][i..]
    ensures n == 0 < |ps[i]| ==> Skip(ps[i..], n) == ps[i..]
  {
    assert ps[i..][1..] == ps[i + 1..];
  }

  lemma SkipNone(n: nat)
    ensures Skip([], n) == []
  {
  }

  lemma SkipAll(ss: seq<seq<byte>>, n: nat)
    requires NonEmpty(ss) && n >= |Flatten(ss)|
    ensures Skip(ss, n) == []
  {
    SkipDrops(ss, n);
    FlatEmpty(Skip(ss, n));
  }

  lemma FlatEmpty(ss: seq<seq<byte>>)
    requires NonEmpty(ss) && Flatten(ss) == []
    ensures ss == []
  {
  }

  // ---------- the calls of writev ----------

  /** `count` slices of `total` bytes were handed over; `answer` is what tcpWriteV made of it. */
  datatype WriteCall = WriteCall(count: nat, total: nat, answer: int)

  /** The bytes the calls took. */
  function Taken(log: seq<WriteCall>): int {
    if log == [] then 0 else log[0].answer + Taken(log[1..])
  }

  ghost predicate Failed(log: seq<WriteCall>) {
    log != [] && log[|log| - 1].answer == -1
  }

  function Least(x: nat, y: nat): nat {
    if x < y then x else y
  }

  /** The calls hand over ps, k slices at a time, up to the first that is not answered with all of its bytes. */
  ghost predicate Batches(log: seq<WriteCall>, ps: seq<seq<byte>>, k: nat)
    decreases |log|
  {
    if ps == [] then log == []
    else
      && log != []
      && log[0].count == Least(|ps|, k) && log[0].total == |Flatten(ps[..Least(|ps|, k)])|
      && (if log[0].answer == log[0].total then Batches(log[1..], ps[Least(|ps|, k)..], k) else |log| == 1)
  }

  /** The first i slices have been handed over and taken whole. */
  ghost predicate WholeSoFar(log: seq<WriteCall>, ps: seq<seq<byte>>, i: nat, k: nat)
    decreases |log|
  {
    if log == [] then i == 0
    else
      var n := Least(|ps|, k);
      ps != [] && n <= i && log[0].count == n && log[0].answer == log[0].total == |Flatten(ps[..n])|
      && WholeSoFar(log[1..], ps[n..], i - n, k)
  }

  lemma SliceOf(ps: seq<seq<byte>>, n: nat, i: nat, j: nat)
    requires n <= i <= j <= |ps|
    ensures ps[n..][i - n..j - n] == ps[i..j]
  {
  }

  /** One more call, whole or not. */
  lemma {:induction false} BatchesGoOn(log: seq<WriteCall>, ps: seq<seq<byte>>, i: nat, k: nat, c: WriteCall)
    requires WholeSoFar(log, ps, i, k) && i < |ps|
    requires c.count == Least(|ps| - i, k) && c.total == |Flatten(ps[i..i + c.count])|
    ensures c.answer == c.total ==> WholeSoFar(log + [c], ps, i + c.count, k)
    ensures c.answer != c.total ==> Batches(log + [c], ps, k)
    decreases |log|
  {
    hide Flatten;
    if log == [] {
      assert log + [c] == [c] && [c][1..] == [];
      assert ps[0..] == ps;
    } else {
      var n := Least(|ps|, k);
      assert (log + [c])[1..] == log[1..] + [c];
      SliceOf(ps, n, i, i + c.count);
      BatchesGoOn(log[1..], ps[n..], i - n, k, c);
    }
  }

  lemma {:induction false} BatchesDone(log: seq<WriteCall>, ps: seq<seq<byte>>, k: nat)
    requires WholeSoFar(log, ps, |ps|, k)
    ensures Batches(log, ps, k)
    decreases |log|
  {
    hide Flatten;
    if log != [] { BatchesDone(log[1..], ps[Least(|ps|, k)..], k); }
  }

  lemma {:induction false} TakenMore(log: seq<WriteCall>, c: WriteCall)
    ensures Taken(log + [c]) == Taken(log) + c.answer
  {
    if log == [] {
      assert log + [c] == [c] && [c][1..] == [];
    } else {
      assert (log + [c])[1..] == log[1..] + [c];
      TakenMore(log[1..], c);
    }
  }

  lemma NoCalls(ps: seq<seq<byte>>, k: nat)
    ensures WholeSoFar([], ps, 0, k) && Taken([]) == 0
  {
  }

  lemma {:induction false} WholeNotFailed(log: seq<WriteCall>, ps: seq<seq<byte>>, i: nat, k: nat)
    requires WholeSoFar(log, ps, i, k)
    ensures !Failed(log)
    decreases |log|
  {
    hide Flatten;
    if |log| > 1 { WholeNotFailed(log[1..], ps[Least(|ps|, k)..], i - Least(|ps|, k), k); }
  }

  lemma SomeBytes(ps: seq<seq<byte>>, i: nat, n: nat)
    requires NonEmpty(ps) && i + n <= |ps| && n > 0
    ensures |Flatten(ps[i..i + n])| > 0
  {
    assert ps[i..i + n][0] == ps[i];
  }

  /** In particular: every call but the last is taken whole, and if the last is too, nothing is left out. */
  lemma {:induction false} BatchesMean(log: seq<WriteCall>, ps: seq<seq<byte>>, k: nat)
    requires Batches(log, ps, k)
    ensures forall i :: 0 <= i < |log| - 1 ==> log[i].answer == log[i].total
    ensures ps != [] ==> log != []
    ensures (log == [] || log[|log| - 1].answer == log[|log| - 1].total) ==> Taken(log) == |Flatten(ps)|
    decreases |log|
  {
    if ps != [] && log[0].answer == log[0].total {
      var n := Least(|ps|, k);
      FlattenCut(ps, n);
      BatchesMean(log[1..], ps[n..], k);
    }
  }

  class Connection {
    var sendbuffer: seq<Slice>
    var bClose: bool
    const kIOVecCount: nat
    ghost var accepted: seq<byte> // what writev has taken so far
    ghost var calls: seq<WriteCall> // all calls of writev so far

    /** The calls since there were n of them. */
    ghost function Since(n: nat): seq<WriteCall>
      reads this
    {
      if n <= |calls| then calls[n..] else []
    }

    ghost predicate Valid()
      reads this
    {
      SlicesOk(sendbuffer) && kIOVecCount >= 16
    }

    /** The bytes still to be sent. */
    ghost function Pending(): seq<byte>
      requires Valid()
      reads this, Memory(sendbuffer)
    {
      Flatten(Payloads(sendbuffer))
    }

    /** tcpWriteV: the kernel takes any number of the bytes from the front, none (EAGAIN), or fails. */
    method TcpWriteV(vecs: seq<Slice>, total: nat) returns (bytes: int)
      requires SlicesOk(vecs) && total == |Flatten(Payloads(vecs))| && |vecs| <= kIOVecCount
      modifies this`accepted, this`calls
      ensures -1 <= bytes <= total
      ensures calls == old(calls) + [WriteCall(|vecs|, total, bytes)]
      ensures Payloads(vecs) == old(Payloads(vecs))
      ensures bytes <= 0 ==> accepted == old(accepted)
      ensures bytes >= 0 ==> accepted == old(accepted) + old(Flatten(Payloads(vecs)))[..bytes]
    {
      hide Payloads;
      bytes :| -1 <= bytes <= total;
      ghost var offered := Flatten(Payloads(vecs));
      calls := calls + [WriteCall(|vecs|, total, bytes)];
      if bytes > 0 {
        accepted := accepted + offered[..bytes];
      }
    }

    /** One batch as an iovec array, and its total length. */
    method Batch(slices: seq<Slice>, from: nat, vc: nat) returns (vecs: seq<Slice>, expectSent: nat)
      requires SlicesOk(slices) && from + vc <= |slices|
      ensures vecs == slices[from..from + vc] && SlicesOk(vecs)
      ensures Payloads(vecs) == Payloads(slices)[from..from + vc]
      ensures expectSent == |Flatten(Payloads(vecs))|
    {
      hide Payloads, Flatten;
      vecs, expectSent := [], 0;
      ghost var ps := Payloads(slices)[from..];
      EmptyFlat();
      var i := from;
      while i < from + vc
        invariant from <= i <= from + vc
        invariant vecs == slices[from..i] && expectSent == |Flatten(ps[..i - from])|
      {
        vecs := vecs + [slices[i]];
        expectSent := expectSent + slices[i].dataLen;
        FlattenFirst(ps, i - from);
        i := i + 1;
      }
      assert Payloads(vecs) == ps[..vc];
    }

    /**
     * send(slices): batches of at most kIOVecCount slices go to writev until one is not taken whole.
     * The result counts the bytes taken, and they are the first bytes of the slices.
     */
    method SendSlices(slices: seq<Slice>) returns (sent: int)
      requires SlicesOk(slices) && kIOVecCount >= 16 && |Flatten(Payloads(slices))| < 0x8000_0000
      modifies this`accepted, this`calls
      ensures old(calls) <= calls && Batches(Since(|old(calls)|), Payloads(slices), kIOVecCount)
      ensures sent == -1 <==> Failed(Since(|old(calls)|))
      ensures sent != -1 ==> sent == Taken(Since(|old(calls)|))
      ensures -1 <= sent <= |Flatten(Payloads(slices))|
      ensures sent != -1 ==> accepted == old(accepted) + Flatten(Payloads(slices))[..sent]
      ensures sent == -1 ==> old(accepted) <= accepted <= old(accepted) + Flatten(Payloads(slices))
    {
      hide Flatten, Payloads, SlicesOk, Batches, WholeSoFar, Taken;
      ghost var ps, begun := Payloads(slices), |calls|;
      EmptyFlat();
      NoCalls(ps, kIOVecCount);
      assert Since(begun) == [];
      var alreadySentVecs, alreadySentBytes := 0, 0;
      while alreadySentVecs < |slices|
        invariant alreadySentVecs <= |slices| && Payloads(slices) == ps
        invariant alreadySentBytes == |Flatten(ps[..alreadySentVecs])| <= |Flatten(ps)|
        invariant accepted == old(accepted) + Flatten(ps)[..alreadySentBytes]
        invariant old(calls) <= calls && Taken(Since(begun)) == alreadySentBytes
        invariant WholeSoFar(Since(begun), ps, alreadySentVecs, kIOVecCount)
      {
        ghost var log := Since(begun);
        var vc := if |slices| - alreadySentVecs < kIOVecCount then |slices| - alreadySentVecs else kIOVecCount;
        var vecs, expectSent := Batch(slices, alreadySentVecs, vc);
        assert Payloads(slices) == ps;
        var bytes := TcpWriteV(vecs, expectSent);
        assert Payloads(slices) == ps;
        BatchTaken(ps, alreadySentVecs, alreadySentVecs + vc, if bytes == -1 then 0 else bytes);
        ghost var c := WriteCall(vc, expectSent, bytes);
        assert Since(begun) == log + [c];
        TakenMore(log, c);
        SomeBytes(ps, alreadySentVecs, vc);
        BatchesGoOn(log, ps, alreadySentVecs, kIOVecCount, c);
        if bytes == -1 {
          return -1;
        } else if bytes == 0 {
          return alreadySentBytes;
        } else if bytes == expectSent {
          alreadySentBytes := alreadySentBytes + bytes;
          alreadySentVecs := alreadySentVecs + vc;
        } else {
          alreadySentBytes := alreadySentBytes + bytes;
          return alreadySentBytes;
        }
      }
      assert ps[..alreadySentVecs] == ps;
      BatchesDone(Since(begun), ps, kIOVecCount);
      WholeNotFailed(Since(begun), ps, |ps|, kIOVecCount);
      return alreadySentBytes;
    }

    static method Memmove(a: array<byte>, n: nat, len: nat)
      requires n <= len <= a.Length
      modifies a
      ensures a[..len - n] == old(a[..len][n..])
    {
      forall k | 0 <= k < len - n { a[k] := a[n + k]; }
    }

    /** The memmove of adjustSlices: one slice loses its first n bytes, all others keep theirs. */
    method Trim(i: nat, n: nat)
      requires Valid() && i < |sendbuffer| && n < sendbuffer[i].dataLen
      modifies this`sendbuffer, sendbuffer[i].data
      ensures Valid() && Memory(sendbuffer) == old(Memory(sendbuffer)) && |sendbuffer| == |old(sendbuffer)|
      ensures Payloads(sendbuffer) == old(Payloads(sendbuffer)[i := Payloads(sendbuffer)[i][n..]])
    {
      hide Payloads, Memory, NonEmpty;
      var s := sendbuffer[i];
      ghost var ps := Payloads(sendbuffer);
      assert forall k :: 0 <= k < |ps| && k != i ==> sendbuffer[k].data != s.data;
      Memmove(s.data, n, s.dataLen);
      sendbuffer := sendbuffer[i := Slice(s.data, s.dataLen - n)];
      SameMemory(old(sendbuffer), i, s.dataLen - n);
      forall k | 0 <= k < |ps| ensures Payloads(sendbuffer)[k] == ps[i := ps[i][n..]][k] {
        if k != i { assert sendbuffer[k] == old(sendbuffer)[k]; }
      }
    }

    /** The vector erase of adjustSlices. */
    method EraseFirst(n: nat)
      requires Valid() && n <= |sendbuffer|
      modifies this`sendbuffer
      ensures Valid() && Payloads(sendbuffer) == old(Payloads(sendbuffer))[n..]
      ensures Memory(sendbuffer) <= old(Memory(sendbuffer))
    {
      hide Payloads;
      sendbuffer := sendbuffer[n..];
    }

    /** adjustSlices: drops the slices that are done and trims the next one in its own memory. */
    method AdjustSlices(toSkip: nat)
      requires Valid()
      modifies this`sendbuffer, Memory(sendbuffer)
      ensures Valid() && Payloads(sendbuffer) == Skip(old(Payloads(sendbuffer)), toSkip)
      ensures Memory(sendbuffer) <= old(Memory(sendbuffer))
    {
      hide Payloads, Skip, SlicesOk;
      ghost var ps := Payloads(sendbuffer);
      var toSkippedBytes := toSkip;
      var skippedVecs := 0;
      SkipNone(toSkippedBytes);
      assert ps == [] ==> ps[0..] == [];
      for i := 0 to |sendbuffer|
        invariant i == |sendbuffer| ==> Skip(ps, toSkip) == []
        invariant skippedVecs == i && 0 <= toSkippedBytes && sendbuffer == old(sendbuffer)
        invariant Skip(ps, toSkip) == Skip(ps[i..], toSkippedBytes) && Payloads(sendbuffer) == ps
      {
        SkipOne(ps, i, toSkippedBytes);
        SliceAt(i);
        if toSkippedBytes >= sendbuffer[i].dataLen {
          toSkippedBytes := toSkippedBytes - sendbuffer[i].dataLen;
          skippedVecs := skippedVecs + 1;
          SkipNone(toSkippedBytes);
          assert i + 1 == |ps| ==> ps[i + 1..] == [];
        } else {
          if toSkippedBytes != 0 {
            Trim(i, toSkippedBytes);
          }
          break;
        }
      }
      assert Payloads(sendbuffer)[skippedVecs..] == Skip(ps, toSkip);
      EraseFirst(skippedVecs);
    }

    lemma SliceAt(i: nat)
      requires Valid() && i < |sendbuffer|
      ensures sendbuffer[i].data in Memory(sendbuffer)
      ensures |Payloads(sendbuffer)[i]| == sendbuffer[i].dataLen > 0
    {
    }

    /**
     * send with byEpollOut: one writable event. Nothing is lost, repeated or reordered, unless the
     * connection is given up because 8 KB or more are still pending afterwards.
     */
    method SendByEpollOut() returns (r: int)
      requires Valid() && |Pending()| < 0x8000_0000
      modifies this`sendbuffer, this`accepted, this`calls, Memory(sendbuffer)
      ensures Valid() && Memory(sendbuffer) <= old(Memory(sendbuffer)) && r in {0, -1, -2}
      ensures old(calls) <= calls && Batches(Since(|old(calls)|), old(Payloads(sendbuffer)), kIOVecCount)
      ensures r == -1 <==> Failed(Since(|old(calls)|))
      ensures r != -1 ==>
        var left := |old(Pending())| - Taken(Since(|old(calls)|));
        (r == -2 <==> left >= 8 * 1024 || (bClose && left == 0))
      ensures |sendbuffer| <= |old(sendbuffer)|
      ensures old(accepted) <= accepted <= old(accepted + Pending())
      ensures r == 0 ==> accepted + Pending() == old(accepted + Pending()) && |Pending()| < 8 * 1024
      ensures r == 0 ==> !(bClose && sendbuffer == [])
      ensures r == -1 ==> sendbuffer == old(sendbuffer) && Pending() == old(Pending())
      ensures r == -2 ==> sendbuffer == []
      ensures r == -2 ==>
        |old(accepted + Pending())| - |accepted| >= 8 * 1024 || (bClose && accepted == old(accepted + Pending()))
    {
      hide Payloads, SlicesOk, Skip, NonEmpty, Batches, Taken, Failed;
      ghost var ps := Payloads(sendbuffer);
      var bytes := SendSlices(sendbuffer);
      if bytes == -1 { return -1; }
      AdjustSlices(bytes);
      SkipDrops(ps, bytes);
      Rejoin(old(accepted), Flatten(ps), bytes);
      r := GiveUp();
    }

    /** What send decides from the bytes still pending. */
    method GiveUp() returns (r: int)
      requires Valid() && |Pending()| < 0x8000_0000
      modifies this`sendbuffer, Memory(sendbuffer)
      ensures Valid() && Memory(sendbuffer) <= old(Memory(sendbuffer)) && |sendbuffer| <= |old(sendbuffer)|
      ensures r == if |old(Pending())| >= 8 * 1024 || (bClose && old(Pending()) == []) then -2 else 0
      ensures r == 0 ==> sendbuffer == old(sendbuffer) && Pending() == old(Pending())
      ensures r == -2 ==> sendbuffer == []
    {
      hide Payloads, SlicesOk, NonEmpty;
      EmptyIff();
      var toSendBytes := ToSendBytes();
      if toSendBytes >= 8 * 1024 {
        ClearSlices();
        return -2;
      }
      if bClose && sendbuffer == [] { return -2; }
      return 0;
    }

    lemma EmptyIff()
      requires Valid()
      ensures Pending() == [] <==> sendbuffer == []
    {
      if sendbuffer != [] { assert |Payloads(sendbuffer)[0]| > 0; }
    }

    /** clearSlices: skipping the largest size_t drops everything. */
    method ClearSlices()
      requires Valid() && |Pending()| < 0x8000_0000
      modifies this`sendbuffer, Memory(sendbuffer)
      ensures Valid() && sendbuffer == []
    {
      hide Payloads, SlicesOk;
      SkipAll(Payloads(sendbuffer), 0xffff_ffff_ffff_ffff);
      AdjustSlices(0xffff_ffff_ffff_ffff);
    }

    method ToSendBytes() returns (n: nat)
      requires Valid()
      ensures n == |Pending()|
    {
      hide Payloads;
      n := 0;
      ghost var ps := Payloads(sendbuffer);
      EmptyFlat();
      var i := 0;
      while i < |sendbuffer|
        invariant i <= |sendbuffer| && n == |Flatten(ps[..i])| && Payloads(sendbuffer) == ps
      {
        FlattenFirst(ps, i);
        n := n + sendbuffer[i].dataLen;
        i := i + 1;
      }
      assert ps[..i] == ps;
    }

    /** Any number of writable events in a row, until one gives the connection up. */
    method Drain(rounds: nat) returns (r: int)
      requires Valid() && |Pending()| < 0x8000_0000
      modifies this`sendbuffer, this`accepted, this`calls, Memory(sendbuffer)
      ensures Valid() && old(accepted) <= accepted <= old(accepted + Pending())
      ensures r == 0 ==> accepted + Pending() == old(accepted + Pending())
      ensures r == 0 && sendbuffer != [] ==> |calls| >= |old(calls)| + rounds
    {
      hide Payloads, SlicesOk;
      r := 0;
      var i := 0;
      while i < rounds && r == 0
        invariant Valid() && Memory(sendbuffer) <= old(Memory(sendbuffer))
        invariant old(accepted) <= accepted <= old(accepted + Pending())
        invariant r == 0 ==> accepted + Pending() == old(accepted + Pending())
        invariant r == 0 && sendbuffer != [] ==> |calls| >= |old(calls)| + i
      {
        r := SendByEpollOut();
        i := i + 1;
      }
    }
  }

  lemma Rejoin(a: seq<byte>, p: seq<byte>, n: nat)
    requires n <= |p|
    ensures (a + p[..n]) + p[n..] == a + p && a <= a + p[..n] <= a + p
  {
  }

  lemma EmptyFlat()
    ensures Flatten<byte>([]) == []
  {
  }
}
