/**
 * The reader's cursor arithmetic: peeking heads, skipping unknown values and searching for a tag
 * (tup/Tars.h). The functions say, for any bytes, where the cursor ends and whether an exception was
 * thrown; the reader class in TarsInput is proved against them.
 */
module TarsSkip {
  import opened Bytes
  import opened TarsValue

  /** The subclasses of TarsDecodeException. */
  datatype Error = BufferOverflow | Mismatch | RequireNotExist | InvalidValue

  /**
   * Normal return, exception, or where these functions stop: a SimpleList with a negative declared
   * size moves the cursor to `target`, behind the size just read (Backward; TarsRounds goes on from
   * there), and a map size whose double is no Int32 overflows (BadCount).
   */
  datatype Out<+T> =
    | Ok(value: T, cur: nat)
    | Throw(error: Error, cur: nat)
    | Backward(target: int)
    | BadCount(count: int)

  datatype Head = Head(headType: byte, tag: byte, len: nat)

  datatype Peek = NoHead | Peeked(head: Head)

  /** TarsPeekFromHead; NoHead is the exception it throws at the end of the buffer. */
  function PeekHead(b: seq<byte>, cur: nat): (p: Peek)
    ensures p.Peeked? ==> cur + p.head.len <= |b| && 1 <= p.head.len <= 2 && p.head.headType < 16
  {
    if cur >= |b| then NoHead
    else if b[cur] / 16 < 15 then Peeked(Head(b[cur] % 16, b[cur] / 16, 1))
    else if cur + 1 >= |b| then NoHead
    else Peeked(Head(b[cur] % 16, b[cur + 1], 2))
  }

  /** What is left of the buffer; the cursor may stand beyond its end. */
  function Left(b: seq<byte>, cur: nat): nat {
    if cur <= |b| then |b| - cur else 0
  }

  // ---------- integers ----------

  function FixedInt(b: seq<byte>, cur: nat, width: nat): (r: Out<int>)
  {
    if cur + width > |b| then Throw(BufferOverflow, cur)
    else Ok(DecodeInt(b[cur..cur + width]), cur + width)
  }

  /** The switch inside read(Char/Short/Int32/Int64&): heads no wider than `width` are accepted. */
  function IntBody(b: seq<byte>, cur: nat, headType: byte, width: nat): (r: Out<int>)
    ensures r.Ok? || r.Throw?
    ensures r.Ok? ==> cur <= r.cur
    ensures r.Throw? ==> r.cur == cur
  {
    if headType == ZERO_TAG then Ok(0, cur)
    else if headType == CHAR then FixedInt(b, cur, 1)
    else if headType == SHORT && width >= 2 then FixedInt(b, cur, 2)
    else if headType == INT32 && width >= 4 then FixedInt(b, cur, 4)
    else if headType == INT64 && width >= 8 then FixedInt(b, cur, 8)
    else Throw(Mismatch, cur)
  }

  /** read(n, 0): a required integer at tag 0. No field can have to be skipped before tag 0. */
  function CountAt(b: seq<byte>, cur: nat, width: nat): (r: Out<int>)
    ensures r.Ok? || r.Throw?
    ensures r.Ok? ==> cur < r.cur && cur < |b|
    ensures r.Throw? ==> cur <= r.cur
  {
    match PeekHead(b, cur)
    case NoHead => Throw(RequireNotExist, cur)
    case Peeked(h) =>
      if h.headType == STRUCT_END || 0 < h.tag then Throw(RequireNotExist, cur)
      else IntBody(b, cur + h.len, h.headType, width)
  }

  // ---------- skipping ----------

  /** skipField(type): the cursor stands behind the head. */
  function SkipField(b: seq<byte>, cur: nat, headType: byte): (r: Out<()>)
    ensures r.Ok? || r.Throw? ==> cur <= r.cur
    decreases Left(b, cur), 2, 0
  {
    if headType == CHAR then Ok((), cur + 1)
    else if headType == SHORT then Ok((), cur + 2)
    else if headType == INT32 then Ok((), cur + 4)
    else if headType == INT64 then Ok((), cur + 8)
    else if headType == FLOAT then Ok((), cur + 4)
    else if headType == DOUBLE then Ok((), cur + 8)
    else if headType == STRING1 then
      if cur + 1 > |b| then Throw(BufferOverflow, cur) else Ok((), cur + 1 + b[cur])
    else if headType == STRING4 then
      if cur + 4 > |b| then Throw(BufferOverflow, cur) else Ok((), cur + 4 + FromBigEndian(b[cur..cur + 4]))
    else if headType == MAP then
      match CountAt(b, cur, 4)
      case Ok(n, c) => if Fits(2 * n, 4) then SkipCells(b, c, 2 * n) else BadCount(n)
      case Throw(e, c) => Throw(e, c)
    else if headType == LIST then
      match CountAt(b, cur, 4)
      case Ok(n, c) => SkipCells(b, c, n)
      case Throw(e, c) => Throw(e, c)
    else if headType == SIMPLE_LIST then
      match PeekHead(b, cur)
      case NoHead => Throw(BufferOverflow, cur)
      case Peeked(h) =>
        if h.headType != CHAR then Throw(Mismatch, cur + h.len) else
        match CountAt(b, cur + h.len, 4)
        case Ok(n, c) => if n < 0 then Backward(c + n) else Ok((), c + n)
        case Throw(e, c) => Throw(e, c)
    else if headType == STRUCT_BEGIN then SkipToStructEnd(b, cur)
    else if headType == STRUCT_END || headType == ZERO_TAG then Ok((), cur)
    else Throw(Mismatch, cur)
  }

  /** skipToStructEnd. */
  function SkipToStructEnd(b: seq<byte>, cur: nat): (r: Out<()>)
    ensures r.Ok? ==> cur < r.cur
    ensures r.Throw? ==> cur <= r.cur
    decreases Left(b, cur), 1, 0
  {
    match PeekHead(b, cur)
    case NoHead => Throw(BufferOverflow, cur)
    case Peeked(h) =>
      var r := SkipField(b, cur + h.len, h.headType);
      if !r.Ok? || h.headType == STRUCT_END then r else SkipToStructEnd(b, r.cur)
  }

  /** The loop `for (i = 0; i < n; ++i) skipField()` over heads and bodies. */
  function SkipCells(b: seq<byte>, cur: nat, n: int): (r: Out<()>)
    ensures r.Ok? ==> cur <= r.cur && (n > 0 ==> cur < r.cur)
    ensures r.Throw? ==> cur <= r.cur
    decreases Left(b, cur), 1, n
  {
    if n <= 0 then Ok((), cur) else
    match PeekHead(b, cur)
    case NoHead => Throw(BufferOverflow, cur)
    case Peeked(h) =>
      var r := SkipField(b, cur + h.len, h.headType);
      if r.Ok? then SkipCells(b, r.cur, n - 1) else r
  }

  /** TarsSkipToTag: where the search for `tag` ends, and the type of the head it consumed. */
  datatype Search =
    | Found(headType: byte, cur: nat)
    | Absent(cur: nat)
    | LostBackward(target: int)
    | LostCount(count: int)

  /** Exceptions thrown while skipping are swallowed; the cursor stays where they left it. */
  function SkipToTag(b: seq<byte>, cur: nat, tag: byte): (s: Search)
    ensures s.Found? ==> cur < s.cur <= |b| && s.headType < 16
    ensures s.Absent? ==> cur <= s.cur
    decreases Left(b, cur)
  {
    match PeekHead(b, cur)
    case NoHead => Absent(cur)
    case Peeked(h) =>
      if h.headType == STRUCT_END || tag < h.tag then Absent(cur)
      else if tag == h.tag then Found(h.headType, cur + h.len)
      else
        match SkipField(b, cur + h.len, h.headType)
        case Ok(_, c) => SkipToTag(b, c, tag)
        case Throw(_, c) => Absent(c)
        case Backward(t) => LostBackward(t)
        case BadCount(n) => LostCount(n)
  }
}
