/**
 * When searching and skipping end (tup/Tars.h), on any bytes: exactly when no loop is entered again
 * that has not ended yet, which a bounded number of rounds decides. Containers and the jumps that
 * negative byte-list sizes cause are included.
 */
module TarsCycles {
  import opened Arithmetic
  import opened Bytes
  import opened TarsValue
  import opened TarsSkip
  import R = TarsRounds

  /** A loop at one point of its run: what it does from here depends on nothing else. */
  datatype Call = Seek(cur: nat, tag: byte) | ToEnd(cur: nat) | Cells(cur: nat, n: int)

  /** The loop has not ended after `fuel` nested rounds. */
  predicate Runs(b: seq<byte>, c: Call, fuel: nat) {
    match c
    case Seek(cur, tag) => R.SkipToTag(b, cur, tag, fuel).Searching?
    case ToEnd(cur) => R.SkipToStructEnd(b, cur, fuel).Running?
    case Cells(cur, n) => R.SkipCells(b, cur, n, fuel).Running?
  }

  datatype Entered = Nothing | Enters(call: Call)

  /** The loop, if any, that skipField(type) enters. */
  function Inner(b: seq<byte>, cur: nat, headType: byte): Entered {
    if headType == MAP then
      match CountAt(b, cur, 4)
      case Ok(n, c) => if Fits(2 * n, 4) then Enters(Cells(c, 2 * n)) else Nothing
      case Throw(_, _) => Nothing
    else if headType == LIST then
      match CountAt(b, cur, 4)
      case Ok(n, c) => Enters(Cells(c, n))
      case Throw(_, _) => Nothing
    else if headType == STRUCT_BEGIN then Enters(ToEnd(cur))
    else Nothing
  }

  /** The loop reads a head here and skips the value behind it. */
  predicate Skips(b: seq<byte>, c: Call) {
    var p := PeekHead(b, c.cur);
    && p.Peeked?
    && match c
       case Seek(_, tag) => p.head.headType != STRUCT_END && p.head.tag < tag
       case ToEnd(_) => true
       case Cells(_, n) => n > 0
  }

  /** The same loop after that value, which ended at `cur`. */
  function Next(c: Call, cur: nat): Call {
    match c
    case Seek(_, tag) => Seek(cur, tag)
    case ToEnd(_) => ToEnd(cur)
    case Cells(_, n) => Cells(cur, n - 1)
  }

  /** The loop c cannot end before d has: d is inside the value c skips, or is what c does after it. */
  predicate WaitsFor(b: seq<byte>, c: Call, d: Call, fuel: nat) {
    Skips(b, c) &&
    var h := PeekHead(b, c.cur).head;
    var r := R.SkipField(b, c.cur + h.len, h.headType, fuel);
    || Inner(b, c.cur + h.len, h.headType) == Enters(d)
    || (r.Done? && r.out.Ok? && !(c.ToEnd? && h.headType == STRUCT_END) && d == Next(c, r.out.cur))
  }

  // ---------- more rounds change nothing that has ended ----------

  lemma {:induction false} FieldStays(b: seq<byte>, cur: nat, headType: byte, f: nat, g: nat)
    requires f <= g && R.SkipField(b, cur, headType, f).Done?
    ensures R.SkipField(b, cur, headType, g) == R.SkipField(b, cur, headType, f)
    decreases f, 1
  {
    hide R.SkipCells, R.SkipToStructEnd, R.SkipBytes, TarsSkip.SkipField, CountAt;
    if headType == MAP || headType == LIST {
      var r := CountAt(b, cur, 4);
      if r.Ok? && (headType == LIST || Fits(2 * r.value, 4)) {
        CellsStay(b, r.cur, if headType == MAP then 2 * r.value else r.value, f, g);
      }
    } else if headType == STRUCT_BEGIN {
      StructStays(b, cur, f, g);
    }
  }

  lemma {:induction false} StructStays(b: seq<byte>, cur: nat, f: nat, g: nat)
    requires f <= g && R.SkipToStructEnd(b, cur, f).Done?
    ensures R.SkipToStructEnd(b, cur, g) == R.SkipToStructEnd(b, cur, f)
    decreases f, 0
  {
    hide R.SkipField, PeekHead;
    var p := PeekHead(b, cur);
    if p.Peeked? {
      FieldStays(b, cur + p.head.len, p.head.headType, f - 1, g - 1);
      var r := R.SkipField(b, cur + p.head.len, p.head.headType, f - 1);
      if r.out.Ok? && p.head.headType != STRUCT_END { StructStays(b, r.out.cur, f - 1, g - 1); }
    }
  }

  lemma {:induction false} CellsStay(b: seq<byte>, cur: nat, n: int, f: nat, g: nat)
    requires f <= g && R.SkipCells(b, cur, n, f).Done?
    ensures R.SkipCells(b, cur, n, g) == R.SkipCells(b, cur, n, f)
    decreases f, 0
  {
    hide R.SkipField, PeekHead;
    var p := PeekHead(b, cur);
    if n > 0 && p.Peeked? {
      FieldStays(b, cur + p.head.len, p.head.headType, f - 1, g - 1);
      var r := R.SkipField(b, cur + p.head.len, p.head.headType, f - 1);
      if r.out.Ok? { CellsStay(b, r.out.cur, n - 1, f - 1, g - 1); }
    }
  }

  /** A search that has settled stays as it settled, however many more rounds it is given. */
  lemma {:induction false} SearchStays(b: seq<byte>, cur: nat, tag: byte, f: nat, g: nat)
    requires f <= g && R.SkipToTag(b, cur, tag, f).Settled?
    ensures R.SkipToTag(b, cur, tag, g) == R.SkipToTag(b, cur, tag, f)
    decreases f
  {
    hide R.SkipField, PeekHead;
    var p := PeekHead(b, cur);
    if p.Peeked? && p.head.headType != STRUCT_END && p.head.tag < tag {
      FieldStays(b, cur + p.head.len, p.head.headType, f - 1, g - 1);
      var r := R.SkipField(b, cur + p.head.len, p.head.headType, f - 1);
      if r.out.Ok? { SearchStays(b, r.out.cur, tag, f - 1, g - 1); }
    }
  }

  lemma MoreWaits(b: seq<byte>, c: Call, d: Call, f: nat, g: nat)
    requires WaitsFor(b, c, d, f) && f <= g
    ensures WaitsFor(b, c, d, g)
  {
    hide R.SkipField, PeekHead, Inner;
    var h := PeekHead(b, c.cur).head;
    if R.SkipField(b, c.cur + h.len, h.headType, f).Done? {
      FieldStays(b, c.cur + h.len, h.headType, f, g);
    }
  }

  // ---------- one round ----------

  lemma InnerRuns(b: seq<byte>, cur: nat, headType: byte, fuel: nat)
    ensures var i := Inner(b, cur, headType);
      R.SkipField(b, cur, headType, fuel).Running? <==> i.Enters? && Runs(b, i.call, fuel)
  {
    hide R.SkipCells, R.SkipToStructEnd, R.SkipToTag, R.SkipBytes, CountAt;
  }

  /** A loop that skips here has not ended unless what it waits for has. */
  lemma RunsIff(b: seq<byte>, c: Call, fuel: nat)
    ensures Runs(b, c, fuel) ==> Skips(b, c) || fuel == 0
    ensures Skips(b, c) && fuel == 0 ==> Runs(b, c, fuel)
    ensures Skips(b, c) && fuel > 0 ==>
      var h := PeekHead(b, c.cur).head; var r := R.SkipField(b, c.cur + h.len, h.headType, fuel - 1);
      Runs(b, c, fuel) <==>
        r.Running? || (r.out.Ok? && !(c.ToEnd? && h.headType == STRUCT_END) && Runs(b, Next(c, r.out.cur), fuel - 1))
  {
    hide R.SkipField, PeekHead;
  }

  /** Of what a running loop waits for, something is running. */
  lemma OneRuns(b: seq<byte>, c: Call, fuel: nat) returns (d: Call)
    requires Runs(b, c, fuel) && fuel > 0
    ensures WaitsFor(b, c, d, fuel - 1) && Runs(b, d, fuel - 1)
  {
    hide R.SkipField, PeekHead, Inner, Runs;
    RunsIff(b, c, fuel);
    var h := PeekHead(b, c.cur).head;
    var r := R.SkipField(b, c.cur + h.len, h.headType, fuel - 1);
    InnerRuns(b, c.cur + h.len, h.headType, fuel - 1);
    d := if r.Running? then Inner(b, c.cur + h.len, h.headType).call else Next(c, r.out.cur);
  }

  /** When a loop has ended, all that it waited for ended at least one round earlier. */
  lemma AllEnded(b: seq<byte>, c: Call, d: Call, f: nat, g: nat)
    requires WaitsFor(b, c, d, f) && !Runs(b, c, g)
    ensures g > 0 && !Runs(b, d, g - 1)
  {
    hide R.SkipField, PeekHead, Inner, Runs;
    RunsIff(b, c, g);
    var h := PeekHead(b, c.cur).head;
    InnerRuns(b, c.cur + h.len, h.headType, g - 1);
    if R.SkipField(b, c.cur + h.len, h.headType, f).Done? {
      if f <= g - 1 {
        FieldStays(b, c.cur + h.len, h.headType, f, g - 1);
      } else {
        FieldStays(b, c.cur + h.len, h.headType, g - 1, f);
      }
    }
  }

  // ---------- chains of loops that wait for each other ----------

  ghost predicate Chain(b: seq<byte>, p: seq<Call>, fuel: nat) {
    p != [] && forall i :: 0 < i < |p| ==> WaitsFor(b, p[i - 1], p[i], fuel)
  }

  /** The loop that `c` waits for at the end of p is the one at index i: it is entered again before it has ended. */
  ghost predicate ComesBack(b: seq<byte>, c: Call, p: seq<Call>, i: nat, fuel: nat) {
    Chain(b, p, fuel) && p[0] == c && i < |p| - 1 && p[i] == p[|p| - 1]
  }

  /** Where a running loop can stand: inside the buffer, with a count that was an Int32. */
  predicate Live(b: seq<byte>, c: Call) {
    c.cur < |b| && (c.Cells? ==> 0 < c.n < 0x8000_0000)
  }

  predicate Counted(c: Call) {
    c.Cells? ==> c.n < 0x8000_0000
  }

  lemma CountSmall(b: seq<byte>, cur: nat)
    ensures var r := CountAt(b, cur, 4); r.Ok? ==> r.value < 0x8000_0000
  {
    Powers();
  }

  lemma WaitsCounted(b: seq<byte>, c: Call, d: Call, fuel: nat)
    requires WaitsFor(b, c, d, fuel) && Counted(c)
    ensures Live(b, c) && Counted(d)
  {
    hide R.SkipField, CountAt;
    Powers();
    var h := PeekHead(b, c.cur).head;
    CountSmall(b, c.cur + h.len);
  }

  /** A loop still running after `fuel` rounds has a chain that long behind it. */
  lemma {:induction false} Descend(b: seq<byte>, c: Call, fuel: nat) returns (p: seq<Call>)
    requires Runs(b, c, fuel) && Counted(c)
    ensures |p| == fuel + 1 && p[0] == c && Chain(b, p, fuel)
    ensures forall i :: 0 <= i < fuel ==> Live(b, p[i])
    decreases fuel
  {
    hide WaitsFor, Runs, Live, Counted;
    if fuel == 0 {
      p := [c];
    } else {
      var d := OneRuns(b, c, fuel);
      WaitsCounted(b, c, d, fuel - 1);
      var q := Descend(b, d, fuel - 1);
      p := [c] + q;
      forall i | 0 < i < |p| ensures WaitsFor(b, p[i - 1], p[i], fuel) {
        MoreWaits(b, p[i - 1], p[i], fuel - 1, fuel);
      }
    }
  }

  /** If the first loop of a chain ends, so does the last, as many rounds earlier as the chain is long. */
  lemma {:induction false} Along(b: seq<byte>, p: seq<Call>, f: nat, g: nat)
    requires Chain(b, p, f) && !Runs(b, p[0], g)
    ensures g >= |p| - 1 && !Runs(b, p[|p| - 1], g - (|p| - 1))
    decreases |p|
  {
    hide WaitsFor, Runs;
    if |p| > 1 {
      AllEnded(b, p[0], p[1], f, g);
      Along(b, p[1..], f, g - 1);
    }
  }

  lemma {:induction false} CycleRuns(b: seq<byte>, p: seq<Call>, f: nat, g: nat)
    requires Chain(b, p, f) && |p| > 1 && p[0] == p[|p| - 1]
    ensures Runs(b, p[0], g)
    decreases g
  {
    hide Chain, Runs;
    if !Runs(b, p[0], g) {
      Along(b, p, f, g);
      CycleRuns(b, p, f, g - (|p| - 1));
    }
  }

  /** A loop that comes back to one that has not ended never ends. */
  lemma ComingBackRuns(b: seq<byte>, c: Call, p: seq<Call>, i: nat, f: nat, g: nat)
    requires ComesBack(b, c, p, i, f)
    ensures Runs(b, c, g)
  {
    hide WaitsFor, Runs;
    if !Runs(b, c, g) {
      Along(b, p[..i + 1], f, g);
      CycleRuns(b, p[i..], f, g - i);
    }
  }

  // ---------- the pigeonhole ----------

  /** Numbers the points at which a running loop can stand. */
  function Code(b: seq<byte>, c: Call): nat
    requires Live(b, c)
  {
    |b| * (match c case Seek(_, _) => 0 case ToEnd(_) => 1 case Cells(_, n) => n + 1) + c.cur
  }

  /** There are no more of them than this. */
  function Rounds(b: seq<byte>): nat {
    |b| * 0x8000_0001
  }

  lemma CodeFits(b: seq<byte>, c: Call)
    requires Live(b, c)
    ensures Code(b, c) < Rounds(b)
  {
    var k := match c case Seek(_, _) => 0 case ToEnd(_) => 1 case Cells(_, n) => n + 1;
    assert k <= 0x8000_0000;
    assert |b| * k <= |b| * 0x8000_0000;
  }

  /** The tag of a search is fixed along its chain, so the number says which point it is. */
  lemma CodeInjective(b: seq<byte>, c: Call, d: Call)
    requires Live(b, c) && Live(b, d) && Code(b, c) == Code(b, d)
    requires c.Seek? && d.Seek? ==> c.tag == d.tag
    ensures c == d
  {
    var k := match c case Seek(_, _) => 0 case ToEnd(_) => 1 case Cells(_, n) => n + 1;
    var l := match d case Seek(_, _) => 0 case ToEnd(_) => 1 case Cells(_, n) => n + 1;
    QuotientsEqual(|b|, k, c.cur, l, d.cur);
  }

  lemma {:induction false} SameTag(b: seq<byte>, p: seq<Call>, fuel: nat, i: nat)
    requires Chain(b, p, fuel) && i < |p|
    ensures p[i].Seek? ==> p[0].Seek? && p[i].tag == p[0].tag
    decreases i
  {
    hide R.SkipField, PeekHead, CountAt, Skips;
    if i > 0 { SameTag(b, p, fuel, i - 1); }
  }

  /** A loop still running after Rounds(b) rounds comes back to one that has not ended. */
  lemma LongRunsComeBack(b: seq<byte>, c: Call) returns (p: seq<Call>, i: nat, f: nat)
    requires Counted(c) && Runs(b, c, Rounds(b) + 1)
    ensures ComesBack(b, c, p, i, f)
  {
    hide WaitsFor, Runs, Live, Counted, Code, Rounds;
    f := Rounds(b) + 1;
    var q := Descend(b, c, f);
    forall k | 0 <= k < f ensures Code(b, q[k]) < Rounds(b) { CodeFits(b, q[k]); }
    var codes: seq<nat> := seq(f, k requires 0 <= k < f => Code(b, q[k]));
    var x, y := Pigeonhole(codes, Rounds(b));
    SameTag(b, q, f, x);
    SameTag(b, q, f, y);
    CodeInjective(b, q[x], q[y]);
    p, i := q[..y + 1], x;
  }

  /** A loop never ends if and only if it comes back to one that has not ended. */
  lemma NeverEndsIff(b: seq<byte>, c: Call)
    requires Counted(c)
    ensures (forall g: nat :: Runs(b, c, g)) <==> exists p, i, f :: ComesBack(b, c, p, i, f)
  {
    hide Runs, ComesBack, Counted, Rounds;
    if p, i, f :| ComesBack(b, c, p, i, f) {
      forall g: nat ensures Runs(b, c, g) { ComingBackRuns(b, c, p, i, f, g); }
    }
    if forall g: nat :: Runs(b, c, g) {
      var p, i, f := LongRunsComeBack(b, c);
    }
  }

  /** How long to watch a search: if it has not settled after this many rounds, it never will. */
  lemma SearchDecided(b: seq<byte>, cur: nat, tag: byte, g: nat)
    ensures var r := R.SkipToTag(b, cur, tag, Rounds(b) + 1);
      && (r.Searching? ==> R.SkipToTag(b, cur, tag, g).Searching?)
      && (r.Settled? && g > Rounds(b) ==> R.SkipToTag(b, cur, tag, g) == r)
  {
    hide R.SkipToTag, Rounds, ComesBack;
    var r := R.SkipToTag(b, cur, tag, Rounds(b) + 1);
    if r.Searching? {
      var p, i, f := LongRunsComeBack(b, Seek(cur, tag));
      ComingBackRuns(b, Seek(cur, tag), p, i, f, g);
    } else if g > Rounds(b) {
      SearchStays(b, cur, tag, Rounds(b) + 1, g);
    }
  }

  // ---------- what that adds to TarsSkip ----------

  /** A value, container or not, ends at or behind its start unless TarsSkip stopped in it at a jump back. */
  lemma FieldPosition(b: seq<byte>, cur: nat, headType: byte, fuel: nat)
    ensures var r := R.SkipField(b, cur, headType, fuel);
      r.Done? && (r.out.Ok? || r.out.Throw?) && r.out.cur < cur ==> TarsSkip.SkipField(b, cur, headType).Backward?
  {
    hide R.SkipField, TarsSkip.SkipField;
    if R.SkipField(b, cur, headType, fuel).Done? && !TarsSkip.SkipField(b, cur, headType).Backward? {
      var f := R.FieldEnds(b, cur, headType);
      FieldStays(b, cur, headType, fuel, fuel + f);
    }
  }

  /**
   * A jump back need not be a loop. From position 1 the byte list at tag 0 declares -5 bytes, so the
   * search for tag 1 goes on at position 0, and finds it there.
   */
  lemma JumpThatEnds(fuel: nat)
    requires fuel > 1
    ensures TarsSkip.SkipToTag([16, 13, 0, 0, 251], 1, 1).LostBackward?
    ensures R.SkipToTag([16, 13, 0, 0, 251], 1, 1, fuel) == R.Settled(Found(CHAR, 1))
  {
    var b: seq<byte> := [16, 13, 0, 0, 251];
    assert b[4..5] == [251];
    assert DecodeInt([251]) == -5 by { Powers(); OneByte(251); }
    assert CountAt(b, 3, 4) == Ok(-5, 5);
    assert PeekHead(b, 1) == Peeked(Head(SIMPLE_LIST, 0, 1));
    assert PeekHead(b, 2) == Peeked(Head(CHAR, 0, 1));
    assert PeekHead(b, 0) == Peeked(Head(CHAR, 1, 1));
    R.ByteListPosition(b, 1, 1, Head(SIMPLE_LIST, 0, 1), Head(CHAR, 0, 1), -5, 5, fuel - 1);
    assert R.SkipBytes(b, 2) == Ok((), 0);
  }
}
