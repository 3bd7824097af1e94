/**
 * What the map reader makes of pairs in any order and with repeated keys (tup/Tars.h): m.insert(pr)
 * keeps the map sorted and the first value of each key.
 */
module TarsMaps {
  import opened Bytes
  import opened TarsValue
  import opened TarsSkip
  import opened TarsRead
  import opened TarsEvolution

  // ---------- operator< is a strict total order ----------

  lemma {:induction false} LexicographicTotal(s: seq<byte>, t: seq<byte>)
    ensures s == t || Lexicographic(s, t) || Lexicographic(t, s)
  {
    if s != [] && t != [] && s[0] == t[0] {
      LexicographicTotal(s[1..], t[1..]);
      assert s == [s[0]] + s[1..] && t == [t[0]] + t[1..];
    }
  }

  lemma {:induction false} LexicographicTransitive(s: seq<byte>, t: seq<byte>, u: seq<byte>)
    requires Lexicographic(s, t) && Lexicographic(t, u)
    ensures Lexicographic(s, u)
  {
    if s != [] && s[0] == t[0] == u[0] { LexicographicTransitive(s[1..], t[1..], u[1..]); }
  }

  predicate SameKind(x: Value, y: Value) {
    (x.Int? && y.Int?) || (x.Str? && y.Str?)
  }

  lemma LessTotal(x: Value, y: Value)
    requires SameKind(x, y) && !Less(x, y) && !Less(y, x)
    ensures x == y
  {
    if x.Str? { LexicographicTotal(x.s, y.s); }
  }

  lemma LessTransitive(x: Value, y: Value, z: Value)
    requires Less(x, y) && Less(y, z)
    ensures Less(x, z)
  {
    if x.Str? { LexicographicTransitive(x.s, y.s, z.s); }
  }

  // ---------- one insertion ----------

  ghost predicate HasKey(entries: seq<Entry>, k: Value) {
    exists i :: 0 <= i < |entries| && entries[i].key == k
  }

  ghost predicate KeysLike(entries: seq<Entry>, k: Value) {
    forall i :: 0 <= i < |entries| ==> SameKind(entries[i].key, k)
  }

  /** An insertion adds its entry, at its place, if and only if the key is new, and changes nothing else. */
  lemma {:induction false} InsertKeeps(entries: seq<Entry>, e: Entry)
    requires SortedEntries(entries) && KeysLike(entries, e.key) && SameKind(e.key, e.key)
    ensures SortedEntries(Insert(entries, e)) && KeysLike(Insert(entries, e), e.key)
    ensures forall x: Entry :: x in Insert(entries, e) <==> x in entries || (x == e && !HasKey(entries, e.key))
  {
    hide Less;
    if entries == [] {
    } else if Less(e.key, entries[0].key) {
      InsertFront(entries, e);
    } else if Less(entries[0].key, e.key) {
      InsertKeeps(entries[1..], e);
      InsertBehind(entries, e);
    } else {
      LessTotal(entries[0].key, e.key);
      assert HasKey(entries, e.key);
    }
  }

  lemma InsertFront(entries: seq<Entry>, e: Entry)
    requires SortedEntries(entries) && entries != [] && Less(e.key, entries[0].key)
    ensures SortedEntries([e] + entries) && !HasKey(entries, e.key)
  {
    hide Less;
    forall i | 0 <= i < |entries| ensures Less(e.key, entries[i].key) && entries[i].key != e.key {
      if i > 0 { LessTransitive(e.key, entries[0].key, entries[i].key); }
      if entries[i].key == e.key { LessAsymmetric(e.key, entries[i].key); }
    }
  }

  lemma InsertBehind(entries: seq<Entry>, e: Entry)
    requires SortedEntries(entries) && entries != [] && Less(entries[0].key, e.key)
    requires var r := Insert(entries[1..], e);
      SortedEntries(r) && forall x: Entry :: x in r <==> x in entries[1..] || (x == e && !HasKey(entries[1..], e.key))
    ensures var r := [entries[0]] + Insert(entries[1..], e);
      SortedEntries(r) && forall x: Entry :: x in r <==> x in entries || (x == e && !HasKey(entries, e.key))
  {
    hide Less, Insert;
    var h, t := entries[0], entries[1..];
    assert entries == [h] + t;
    if h.key == e.key { LessAsymmetric(h.key, e.key); }
    assert HasKey(entries, e.key) <==> HasKey(t, e.key) by { HasKeyCons(h, t, e.key); }
    var r := Insert(t, e);
    forall i | 0 <= i < |r| ensures Less(h.key, r[i].key) {
      assert r[i] in r;
      if r[i] in t { assert exists j :: 0 < j < |entries| && entries[j] == r[i]; }
    }
  }

  lemma HasKeyCons(h: Entry, t: seq<Entry>, k: Value)
    ensures HasKey([h] + t, k) <==> h.key == k || HasKey(t, k)
  {
    if HasKey(t, k) {
      var i :| 0 <= i < |t| && t[i].key == k;
      assert ([h] + t)[i + 1].key == k;
    }
    if h.key == k { assert ([h] + t)[0].key == k; }
  }

  // ---------- any pairs ----------

  function InsertAll(acc: seq<Entry>, pairs: seq<Entry>): seq<Entry>
    decreases |pairs|
  {
    if pairs == [] then acc else InsertAll(Insert(acc, pairs[0]), pairs[1..])
  }

  /** The i-th pair is the first with its key. */
  ghost predicate FirstOf(pairs: seq<Entry>, i: int) {
    0 <= i < |pairs| && forall j :: 0 <= j < i ==> pairs[j].key != pairs[i].key
  }

  /** x is among the pairs, and no earlier one has its key. */
  ghost predicate IsFirst(pairs: seq<Entry>, x: Entry) {
    exists i :: FirstOf(pairs, i) && pairs[i] == x
  }

  lemma {:induction false} InsertAllKeeps(acc: seq<Entry>, pairs: seq<Entry>, k: Value)
    requires SortedEntries(acc) && KeysLike(acc, k) && KeysLike(pairs, k) && SameKind(k, k)
    ensures SortedEntries(InsertAll(acc, pairs))
    ensures forall x: Entry :: x in InsertAll(acc, pairs) <==>
      x in acc || (!HasKey(acc, x.key) && IsFirst(pairs, x))
    decreases |pairs|
  {
    hide Less, Insert, SortedEntries;
    if pairs != [] {
      var e, rest := pairs[0], pairs[1..];
      var more := Insert(acc, e);
      InsertKeeps(acc, e);
      KeysFollow(more, e.key, k);
      InsertAllKeeps(more, rest, k);
      forall x: Entry
        ensures x in InsertAll(acc, pairs) <==>
                x in acc || (!HasKey(acc, x.key) && IsFirst(pairs, x))
      {
        HasKeyMore(acc, e, more, x.key);
        FirstsSplit(pairs, x);
        InKeys(acc, x);
      }
    }
  }

  lemma KeysFollow(entries: seq<Entry>, k: Value, l: Value)
    requires KeysLike(entries, k) && SameKind(k, l)
    ensures KeysLike(entries, l)
  {
  }

  lemma InKeys(acc: seq<Entry>, x: Entry)
    ensures x in acc ==> HasKey(acc, x.key)
  {
  }

  lemma HasKeyMore(acc: seq<Entry>, e: Entry, more: seq<Entry>, k: Value)
    requires forall x: Entry :: x in more <==> x in acc || (x == e && !HasKey(acc, e.key))
    ensures HasKey(more, k) <==> HasKey(acc, k) || k == e.key
  {
    if HasKey(acc, k) {
      var i :| 0 <= i < |acc| && acc[i].key == k;
      assert acc[i] in more;
    }
    if k == e.key && !HasKey(acc, k) { assert e in more; }
    if HasKey(more, k) {
      var i :| 0 <= i < |more| && more[i].key == k;
      assert more[i] in more;
    }
  }

  lemma FirstsSplit(pairs: seq<Entry>, x: Entry)
    requires pairs != []
    ensures IsFirst(pairs, x) <==> x == pairs[0] || (x.key != pairs[0].key && IsFirst(pairs[1..], x))
  {
    var rest := pairs[1..];
    if i :| FirstOf(pairs, i) && pairs[i] == x {
      if i > 0 {
        assert forall j :: 0 <= j < i - 1 ==> rest[j].key == pairs[j + 1].key;
        assert FirstOf(rest, i - 1) && rest[i - 1] == x;
      }
    }
    if x == pairs[0] { assert FirstOf(pairs, 0); }
    if x.key != pairs[0].key {
      if i :| FirstOf(rest, i) && rest[i] == x {
        assert forall j :: 0 < j < i + 1 ==> pairs[j].key == rest[j - 1].key;
        assert FirstOf(pairs, i + 1);
      }
    }
  }

  // ---------- the reader ----------

  datatype Pairs = AllRead(pairs: seq<Entry>, cur: nat) | Stopped(out: Out<Value>)

  /** The pairs the loop reads, one after the other, as they stand in the buffer. */
  function ReadPairs(b: seq<byte>, cur: nat, ty: Type, n: int): (r: Pairs)
    requires ty.TMap?
    ensures r.Stopped? ==> !r.out.Ok?
    decreases n
  {
    if n <= 0 then AllRead([], cur) else
    var k := Read(b, cur, ty.key, 0, true, Default(ty.key));
    if !k.Ok? then Stopped(k) else
    var v := Read(b, k.cur, ty.val, 1, true, Default(ty.val));
    if !v.Ok? then Stopped(v) else
    match ReadPairs(b, v.cur, ty, n - 1)
    case AllRead(pairs, c) => AllRead([Entry(k.value, v.value)] + pairs, c)
    case r => r
  }

  lemma {:induction false} EntriesArePairs(b: seq<byte>, cur: nat, ty: Type, n: int, acc: seq<Entry>)
    requires ty.TMap?
    ensures ReadEntries(b, cur, ty, n, acc) ==
      match ReadPairs(b, cur, ty, n) case AllRead(pairs, c) => Ok(Map(InsertAll(acc, pairs)), c) case Stopped(r) => r
    decreases n
  {
    hide Read, Insert;
    if n > 0 {
      var k := Read(b, cur, ty.key, 0, true, Default(ty.key));
      if k.Ok? {
        var v := Read(b, k.cur, ty.val, 1, true, Default(ty.val));
        if v.Ok? {
          var e := Entry(k.value, v.value);
          EntriesArePairs(b, v.cur, ty, n - 1, Insert(acc, e));
          var r := ReadPairs(b, v.cur, ty, n - 1);
          if r.AllRead? { assert ([e] + r.pairs)[1..] == r.pairs; }
        }
      }
    }
  }

  lemma {:induction false} PairKinds(b: seq<byte>, cur: nat, ty: Type, n: int)
    requires ty.TMap? && (ty.key.TInt? || ty.key.TString?)
    ensures var r := ReadPairs(b, cur, ty, n); r.AllRead? ==> KeysLike(r.pairs, Default(ty.key))
    ensures var r := ReadPairs(b, cur, ty, n); r.AllRead? ==> |r.pairs| == if n > 0 then n else 0
    decreases n
  {
    hide Read;
    if n > 0 {
      KeyKind(b, cur, ty.key);
      var k := Read(b, cur, ty.key, 0, true, Default(ty.key));
      if k.Ok? {
        var v := Read(b, k.cur, ty.val, 1, true, Default(ty.val));
        if v.Ok? { PairKinds(b, v.cur, ty, n - 1); }
      }
    }
  }

  lemma KeyKind(b: seq<byte>, cur: nat, ty: Type)
    requires ty.TInt? || ty.TString?
    ensures var k := Read(b, cur, ty, 0, true, Default(ty)); k.Ok? ==> SameKind(k.value, Default(ty))
  {
    hide SkipToTag, IntBody, StringBody;
  }

  /**
   * Whatever the bytes, in whatever order and however often the keys come: a map that is read is in key
   * order, holds exactly the keys that were read, and each with the value that came with it first.
   */
  lemma MapKeepsFirst(b: seq<byte>, cur: nat, ty: Type, n: int, r: seq<Entry>, c: nat) returns (pairs: seq<Entry>)
    requires ty.TMap? && (ty.key.TInt? || ty.key.TString?)
    requires ReadEntries(b, cur, ty, n, []) == Ok(Map(r), c)
    ensures ReadPairs(b, cur, ty, n) == AllRead(pairs, c) && |pairs| == if n > 0 then n else 0
    ensures SortedEntries(r)
    ensures forall x: Entry :: x in r <==> IsFirst(pairs, x)
  {
    hide ReadEntries, ReadPairs, InsertAll, SortedEntries, IsFirst;
    EntriesArePairs(b, cur, ty, n, []);
    PairKinds(b, cur, ty, n);
    pairs := ReadPairs(b, cur, ty, n).pairs;
    NoneSorted();
    InsertAllKeeps([], pairs, Default(ty.key));
  }

  lemma NoneSorted()
    ensures SortedEntries([])
  {
  }
}
