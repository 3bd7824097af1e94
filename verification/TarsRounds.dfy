/**
 * Skipping and searching with the jumps that negative byte-list sizes cause (tup/Tars.h): the same
 * loops as in TarsSkip, followed wherever they lead, for a bounded number of rounds.
 */
module TarsRounds {
  import opened Bytes
  import opened TarsValue
  import opened TarsSkip

  datatype Run = Done(out: Out<()>) | Running

  /** skipField(type), its loops making at most `fuel` rounds; Backward is a cursor below 0. */
  function SkipField(b: seq<byte>, cur: nat, headType: byte, fuel: nat): Run
    decreases fuel, 1
  {
    if headType == MAP then
      match CountAt(b, cur, 4)
      case Ok(n, c) => if Fits(2 * n, 4) then SkipCells(b, c, 2 * n, fuel) else Done(BadCount(n))
      case Throw(e, c) => Done(Throw(e, c))
    else if headType == LIST then
      match CountAt(b, cur, 4)
      case Ok(n, c) => SkipCells(b, c, n, fuel)
      case Throw(e, c) => Done(Throw(e, c))
    else if headType == SIMPLE_LIST then Done(SkipBytes(b, cur))
    else if headType == STRUCT_BEGIN then SkipToStructEnd(b, cur, fuel)
    else Done(TarsSkip.SkipField(b, cur, headType))
  }

  /** The byte-list case: the declared size is added to the cursor, whatever its sign. */
  function SkipBytes(b: seq<byte>, cur: nat): Out<()> {
    match PeekHead(b, cur)
    case NoHead => Throw(BufferOverflow, cur)
    case Peeked(h) =>
      if h.headType != CHAR then Throw(Mismatch, cur + h.len) else
      match CountAt(b, cur + h.len, 4)
      case Ok(n, c) => if c + n < 0 then Backward(c + n) else Ok((), c + n)
      case Throw(e, c) => Throw(e, c)
  }

  function SkipToStructEnd(b: seq<byte>, cur: nat, fuel: nat): Run
    decreases fuel, 0
  {
    if fuel == 0 then Running else
    match PeekHead(b, cur)
    case NoHead => Done(Throw(BufferOverflow, cur))
    case Peeked(h) =>
      var r := SkipField(b, cur + h.len, h.headType, fuel - 1);
      if r.Running? || !r.out.Ok? || h.headType == STRUCT_END then r else SkipToStructEnd(b, r.out.cur, fuel - 1)
  }

  function SkipCells(b: seq<byte>, cur: nat, n: int, fuel: nat): Run
    decreases fuel, 0
  {
    if n <= 0 then Done(Ok((), cur))
    else if fuel == 0 then Running else
    match PeekHead(b, cur)
    case NoHead => Done(Throw(BufferOverflow, cur))
    case Peeked(h) =>
      var r := SkipField(b, cur + h.len, h.headType, fuel - 1);
      if r.Running? || !r.out.Ok? then r else SkipCells(b, r.out.cur, n - 1, fuel - 1)
  }

  datatype SearchRun = Settled(s: Search) | Searching

  /** TarsSkipToTag after at most `fuel` rounds. */
  function SkipToTag(b: seq<byte>, cur: nat, tag: byte, fuel: nat): SearchRun
    decreases fuel
  {
    if fuel == 0 then Searching else
    match PeekHead(b, cur)
    case NoHead => Settled(Absent(cur))
    case Peeked(h) =>
      if h.headType == STRUCT_END || tag < h.tag then Settled(Absent(cur))
      else if tag == h.tag then Settled(Found(h.headType, cur + h.len))
      else
        match SkipField(b, cur + h.len, h.headType, fuel - 1)
        case Running => Searching
        case Done(Ok(_, c)) => SkipToTag(b, c, tag, fuel - 1)
        case Done(Throw(_, c)) => Settled(Absent(c))
        case Done(Backward(t)) => Settled(LostBackward(t))
        case Done(BadCount(n)) => Settled(LostCount(n))
  }

  // ---------- where no size is negative, this is TarsSkip ----------

  /** The rounds `fuel` and any more give the outcome of TarsSkip. */
  ghost predicate FieldAgrees(b: seq<byte>, cur: nat, headType: byte, fuel: nat) {
    forall f: nat :: f >= fuel ==> SkipField(b, cur, headType, f) == Done(TarsSkip.SkipField(b, cur, headType))
  }

  ghost predicate StructAgrees(b: seq<byte>, cur: nat, fuel: nat) {
    forall f: nat :: f >= fuel ==> SkipToStructEnd(b, cur, f) == Done(TarsSkip.SkipToStructEnd(b, cur))
  }

  ghost predicate CellsAgree(b: seq<byte>, cur: nat, n: int, fuel: nat) {
    forall f: nat :: f >= fuel ==> SkipCells(b, cur, n, f) == Done(TarsSkip.SkipCells(b, cur, n))
  }

  /** Unless a byte list goes back, enough rounds end with the outcome and cursor of TarsSkip. */
  lemma {:induction false} FieldEnds(b: seq<byte>, cur: nat, headType: byte) returns (fuel: nat)
    requires !TarsSkip.SkipField(b, cur, headType).Backward?
    ensures FieldAgrees(b, cur, headType, fuel)
    decreases Left(b, cur), 2, 0
  {
    hide TarsSkip.SkipCells, TarsSkip.SkipToStructEnd, SkipCells, SkipToStructEnd, CountAt;
    fuel := 0;
    if headType == MAP || headType == LIST {
      var r := CountAt(b, cur, 4);
      if r.Ok? && (headType == LIST || Fits(2 * r.value, 4)) {
        fuel := CellsEnd(b, r.cur, if headType == MAP then 2 * r.value else r.value);
      }
    } else if headType == STRUCT_BEGIN {
      fuel := StructEnds(b, cur);
    }
    forall f: nat | f >= fuel ensures SkipField(b, cur, headType, f) == Done(TarsSkip.SkipField(b, cur, headType)) {
    }
  }

  lemma {:induction false} StructEnds(b: seq<byte>, cur: nat) returns (fuel: nat)
    requires !TarsSkip.SkipToStructEnd(b, cur).Backward?
    ensures StructAgrees(b, cur, fuel)
    decreases Left(b, cur), 1, 0
  {
    hide TarsSkip.SkipField, SkipField;
    fuel := 1;
    var p := PeekHead(b, cur);
    if p.Peeked? {
      var h := p.head;
      var f1 := FieldEnds(b, cur + h.len, h.headType);
      var r := TarsSkip.SkipField(b, cur + h.len, h.headType);
      var f2 := 0;
      if r.Ok? && h.headType != STRUCT_END { f2 := StructEnds(b, r.cur); }
      fuel := f1 + f2 + 1;
      forall f: nat | f >= fuel ensures SkipToStructEnd(b, cur, f) == Done(TarsSkip.SkipToStructEnd(b, cur)) {
        assert SkipField(b, cur + h.len, h.headType, f - 1) == Done(r);
      }
    }
  }

  lemma {:induction false} CellsEnd(b: seq<byte>, cur: nat, n: int) returns (fuel: nat)
    requires !TarsSkip.SkipCells(b, cur, n).Backward?
    ensures CellsAgree(b, cur, n, fuel)
    decreases Left(b, cur), 1, n
  {
    hide TarsSkip.SkipField, SkipField;
    fuel := 1;
    var p := PeekHead(b, cur);
    if n > 0 && p.Peeked? {
      var h := p.head;
      var f1 := FieldEnds(b, cur + h.len, h.headType);
      var r := TarsSkip.SkipField(b, cur + h.len, h.headType);
      var f2 := 0;
      if r.Ok? { f2 := CellsEnd(b, r.cur, n - 1); }
      fuel := f1 + f2 + 1;
      forall f: nat | f >= fuel ensures SkipCells(b, cur, n, f) == Done(TarsSkip.SkipCells(b, cur, n)) {
        assert SkipField(b, cur + h.len, h.headType, f - 1) == Done(r);
      }
    }
  }

  /** A search that TarsSkip settles without going back ends, in the same way, after finitely many rounds. */
  lemma {:induction false} SearchEnds(b: seq<byte>, cur: nat, tag: byte) returns (fuel: nat)
    requires !TarsSkip.SkipToTag(b, cur, tag).LostBackward?
    ensures forall f: nat :: f >= fuel ==> SkipToTag(b, cur, tag, f) == Settled(TarsSkip.SkipToTag(b, cur, tag))
    decreases Left(b, cur)
  {
    hide TarsSkip.SkipField, SkipField;
    fuel := 1;
    var p := PeekHead(b, cur);
    if p.Peeked? && p.head.headType != STRUCT_END && tag > p.head.tag {
      var h := p.head;
      var f1 := FieldEnds(b, cur + h.len, h.headType);
      var r := TarsSkip.SkipField(b, cur + h.len, h.headType);
      var f2 := 0;
      if r.Ok? { f2 := SearchEnds(b, r.cur, tag); }
      fuel := f1 + f2 + 1;
    }
  }

  // ---------- where one is ----------

  /**
   * Where skipping a byte list, heads included, leaves the cursor. With a declared size n read up to
   * position c, it is at or beyond the head of the list exactly when -n <= c - cur; a search goes on there.
   */
  lemma ByteListPosition(b: seq<byte>, cur: nat, tag: byte, list: Head, elem: Head, n: int, c: nat, fuel: nat)
    requires PeekHead(b, cur) == Peeked(list) && list.headType == SIMPLE_LIST && list.tag < tag
    requires PeekHead(b, cur + list.len) == Peeked(elem) && elem.headType == CHAR
    requires CountAt(b, cur + list.len + elem.len, 4) == Ok(n, c)
    ensures var r := SkipField(b, cur + list.len, SIMPLE_LIST, fuel);
      && r.Done?
      && ((r.out.Ok? && r.out.cur >= cur) <==> -n <= c - cur)
      && (r.out.Ok? ==> SkipToTag(b, cur, tag, fuel + 1) == SkipToTag(b, r.out.cur, tag, fuel))
  {
    hide CountAt, PeekHead;
    assert SkipField(b, cur + list.len, SIMPLE_LIST, fuel) == Done(SkipBytes(b, cur + list.len));
  }

  /**
   * A byte list at a smaller tag whose size is minus the distance from its own head to the end of
   * that size: the search comes back to the head and never ends, however many rounds it is given.
   */
  lemma {:induction false} SearchNeverEnds(b: seq<byte>, cur: nat, tag: byte, list: Head, elem: Head, c: nat, fuel: nat)
    requires PeekHead(b, cur) == Peeked(list) && list.headType == SIMPLE_LIST && list.tag < tag
    requires PeekHead(b, cur + list.len) == Peeked(elem) && elem.headType == CHAR
    requires CountAt(b, cur + list.len + elem.len, 4) == Ok(cur - c, c)
    ensures SkipToTag(b, cur, tag, fuel) == Searching
    decreases fuel
  {
    hide CountAt, PeekHead;
    if fuel > 0 {
      assert SkipBytes(b, cur + list.len) == Ok((), cur);
      SearchNeverEnds(b, cur, tag, list, elem, c, fuel - 1);
    }
  }

  /** Such bytes exist, at every position: a byte list at tag 0 that declares -4 bytes. */
  lemma NegativeSizeLoops(b: seq<byte>, cur: nat, tag: byte, fuel: nat)
    requires At(b, cur, [13, 0, 0, 252]) && tag > 0
    ensures SkipToTag(b, cur, tag, fuel) == Searching
  {
    var e: seq<byte> := [13, 0, 0, 252];
    AtByte(b, cur, e, 0);
    AtByte(b, cur, e, 1);
    AtByte(b, cur, e, 2);
    AtByte(b, cur, e, 3);
    assert b[cur + 3..cur + 4] == [252];
    assert DecodeInt([252]) == -4 by { Powers(); OneByte(252); }
    assert CountAt(b, cur + 2, 4) == Ok(-4, cur + 4);
    SearchNeverEnds(b, cur, tag, Head(SIMPLE_LIST, 0, 1), Head(CHAR, 0, 1), cur + 4, fuel);
  }

  /** So the search through TarsSkip, which stops there, is the search that never settles. */
  lemma LoopIsLost(b: seq<byte>, cur: nat, tag: byte)
    ensures (forall f: nat :: SkipToTag(b, cur, tag, f) == Searching) ==> TarsSkip.SkipToTag(b, cur, tag).LostBackward?
  {
    hide TarsSkip.SkipToTag, SkipToTag;
    if !TarsSkip.SkipToTag(b, cur, tag).LostBackward? {
      var fuel := SearchEnds(b, cur, tag);
      var s := SkipToTag(b, cur, tag, fuel);
    }
  }
}
