/** Length-prefixed framing and the frame parsers of tup/AppProtocal.h and tup/AppProtocal.cpp. */
module AppProtocol {
  import opened Bytes
  import opened Sequences

  /** The limit parse() passes to parseLen. */
  const MAX_LENGTH := 10000000

  /** htonl(sizeof(Int32) + length), then the body. */
  function Frame(body: seq<byte>): seq<byte> {
    EncodeInt(4 + |body|, 4) + body
  }

  function Frames(bodies: seq<seq<byte>>): seq<byte> {
    if bodies == [] then [] else Frame(bodies[0]) + Frames(bodies[1..])
  }

  // ---------- parseLen ----------

  datatype Parsed = Incomplete | Invalid | Packet(out: seq<byte>, rest: seq<byte>)

  /** parseLen<max>: the header is a signed Int32 and the buffer length is cast to int. */
  function ParseLen(b: seq<byte>, max: int): Parsed {
    if |b| < 4 then Incomplete else
    var h := DecodeInt(b[..4]);
    if h < 4 || h > max then Invalid
    else if ToInt32(|b|) < h then Incomplete
    else
      CastShrinks(|b|);
      Packet(b[4..h], b[h..])
  }

  lemma CastShrinks(n: nat)
    ensures ToInt32(n) <= n
  {
    Powers();
    assert n % Pow256(4) <= n;
  }

  /** Rejected, kept for later or cut off: which of them, by the first four bytes and the limit of ten million. */
  lemma ParseLenMeans(b: seq<byte>)
    ensures var r := ParseLen(b, MAX_LENGTH); var h := if |b| >= 4 then DecodeInt(b[..4]) else 0;
      && (r.Invalid? <==> |b| >= 4 && (h < 4 || h > 10000000))
      && (r.Incomplete? <==> |b| < 4 || (4 <= h <= 10000000 && ToInt32(|b|) < h))
      && (r.Packet? ==> 4 <= h <= |b| && r.out == b[4..h] && r.rest == b[h..])
  {
    hide DecodeInt;
    if |b| >= 4 { CastShrinks(|b|); }
  }

  /** One call of parse: `in` and `out` are rewritten only when a packet is returned. */
  method Parse(inBuf: seq<byte>, outBuf: seq<byte>) returns (code: int, inRest: seq<byte>, out: seq<byte>)
    ensures match ParseLen(inBuf, MAX_LENGTH)
            case Incomplete => code == 0 && inRest == inBuf && out == outBuf
            case Invalid => code == -1 && inRest == inBuf && out == outBuf
            case Packet(o, r) => code == 1 && inRest == r && out == o
  {
    code, inRest, out := 0, inBuf, outBuf;
    if |inBuf| < 4 { return; }
    var headerLen := DecodeInt(inBuf[..4]);
    if headerLen < 4 || headerLen > MAX_LENGTH {
      code := -1;
      return;
    }
    if ToInt32(|inBuf|) < headerLen { return; }
    CastShrinks(|inBuf|);
    out := inBuf[4..headerLen];
    inRest := inBuf[headerLen..];
    code := 1;
  }

  /** parseLen without the cast of the buffer length: the framing it is meant to implement. */
  function Split(b: seq<byte>, max: int): Parsed {
    if |b| < 4 then Incomplete else
    var h := DecodeInt(b[..4]);
    if h < 4 || h > max then Invalid
    else if |b| < h then Incomplete
    else Packet(b[4..h], b[h..])
  }

  lemma ParseIsSplit(b: seq<byte>, max: int)
    requires |b| < 0x8000_0000
    ensures ParseLen(b, max) == Split(b, max)
  {
    Powers();
    ToInt32Small(|b|);
  }

  // ---------- draining ----------

  datatype Drained = Drained(bodies: seq<seq<byte>>, rest: seq<byte>)

  /** Calling parseLen until it stops returning packets. */
  function Drain(b: seq<byte>, max: int): Drained
    decreases |b|
  {
    match ParseLen(b, max)
    case Packet(o, r) =>
      (assert |r| < |b| by { PacketShrinks(b, max); }
       var d := Drain(r, max); Drained([o] + d.bodies, d.rest))
    case _ => Drained([], b)
  }

  function SplitAll(b: seq<byte>, max: int): Drained
    decreases |b|
  {
    match Split(b, max)
    case Packet(o, r) => var d := SplitAll(r, max); Drained([o] + d.bodies, d.rest)
    case _ => Drained([], b)
  }

  lemma PacketShrinks(b: seq<byte>, max: int)
    requires ParseLen(b, max).Packet?
    ensures |ParseLen(b, max).rest| < |b|
  {
    CastShrinks(|b|);
  }

  /** The receive loop: each chunk is appended to what was left over, and the buffer drained. */
  function Feed(carry: seq<byte>, chunks: seq<seq<byte>>, max: int): Drained
    decreases |chunks|
  {
    if chunks == [] then Drained([], carry)
    else
      var d := Drain(carry + chunks[0], max);
      var e := Feed(d.rest, chunks[1..], max);
      Drained(d.bodies + e.bodies, e.rest)
  }

  /** No buffer the receive loop hands to parseLen reaches 2^31 bytes. */
  ghost predicate BuffersFit(carry: seq<byte>, chunks: seq<seq<byte>>, max: int)
    decreases |chunks|
  {
    chunks == [] ||
    (|carry + chunks[0]| < 0x8000_0000 && BuffersFit(Drain(carry + chunks[0], max).rest, chunks[1..], max))
  }

  lemma {:induction false} DrainIsSplitAll(b: seq<byte>, max: int)
    requires |b| < 0x8000_0000
    ensures Drain(b, max) == SplitAll(b, max)
    decreases |b|
  {
    hide DecodeInt, ToInt32;
    ParseIsSplit(b, max);
    match Split(b, max)
    case Packet(o, r) => DrainIsSplitAll(r, max);
    case _ =>
  }

  lemma SplitMore(b: seq<byte>, c: seq<byte>, max: int)
    ensures Split(b, max).Packet? ==> Split(b + c, max) == Packet(Split(b, max).out, Split(b, max).rest + c)
    ensures Split(b, max).Invalid? ==> Split(b + c, max).Invalid?
  {
    hide DecodeInt;
    if |b| >= 4 {
      assert (b + c)[..4] == b[..4];
      var h := DecodeInt(b[..4]);
      if 4 <= h <= |b| {
        assert (b + c)[4..h] == b[4..h];
        assert (b + c)[h..] == b[h..] + c;
      }
    }
  }

  /** Splitting what arrived so far and going on with the rest is splitting it all: for any bytes. */
  lemma {:induction false} SplitAllMore(b: seq<byte>, c: seq<byte>, max: int)
    ensures var d := SplitAll(b, max); var e := SplitAll(d.rest + c, max);
      SplitAll(b + c, max) == Drained(d.bodies + e.bodies, e.rest)
    decreases |b|
  {
    hide Split;
    SplitMore(b, c, max);
    match Split(b, max)
    case Packet(o, r) =>
      SplitShrinks(b, max);
      SplitAllMore(r, c, max);
      var d := SplitAll(r, max);
      var e := SplitAll(d.rest + c, max);
      assert [o] + (d.bodies + e.bodies) == ([o] + d.bodies) + e.bodies;
    case _ =>
      var e := SplitAll(b + c, max);
      assert [] + e.bodies == e.bodies;
  }

  lemma SplitShrinks(b: seq<byte>, max: int)
    ensures Split(b, max).Packet? ==> |Split(b, max).rest| < |b|
  {
  }

  /** However the bytes are cut into chunks, the receive loop delivers what one whole buffer would. */
  lemma {:induction false} FeedIsSplitAll(carry: seq<byte>, chunks: seq<seq<byte>>, max: int)
    requires BuffersFit(carry, chunks, max)
    requires SplitAll(carry, max) == Drained([], carry)
    ensures Feed(carry, chunks, max) == SplitAll(carry + Flatten(chunks), max)
    decreases |chunks|
  {
    hide SplitAll, Drain;
    if chunks == [] {
      assert carry + [] == carry;
    } else {
      var b := carry + chunks[0];
      DrainIsSplitAll(b, max);
      var d := SplitAll(b, max);
      SplitRest(b, max);
      FeedIsSplitAll(d.rest, chunks[1..], max);
      SplitAllMore(b, Flatten(chunks[1..]), max);
      assert b + Flatten(chunks[1..]) == carry + Flatten(chunks);
    }
  }

  lemma {:induction false} SplitRest(b: seq<byte>, max: int)
    ensures SplitAll(SplitAll(b, max).rest, max) == Drained([], SplitAll(b, max).rest)
    ensures |SplitAll(b, max).rest| <= |b|
    ensures !Split(SplitAll(b, max).rest, max).Packet?
    decreases |b|
  {
    hide Split;
    SplitShrinks(b, max);
    match Split(b, max)
    case Packet(o, r) => SplitRest(r, max);
    case _ =>
  }

  // ---------- well-formed streams ----------

  ghost predicate FrameSize(body: seq<byte>, max: int) {
    4 + |body| <= max
  }

  lemma SplitFrame(body: seq<byte>, more: seq<byte>, max: int)
    requires FrameSize(body, max) && max < 0x8000_0000
    ensures Split(Frame(body) + more, max) == Packet(body, more)
  {
    Powers();
    var h := 4 + |body|;
    IntInverse(h, 4);
    var b := Frame(body) + more;
    assert b[..4] == EncodeInt(h, 4);
    hide EncodeInt, DecodeInt;
    assert b[4..h] == body;
    assert b[h..] == more;
  }

  lemma {:induction false} SplitFrames(bodies: seq<seq<byte>>, tail: seq<byte>, max: int)
    requires max < 0x8000_0000
    requires forall i :: 0 <= i < |bodies| ==> FrameSize(bodies[i], max)
    requires Split(tail, max).Incomplete?
    ensures SplitAll(Frames(bodies) + tail, max) == Drained(bodies, tail)
    decreases |bodies|
  {
    hide Split, Frame;
    if bodies == [] {
      assert Frames([]) + tail == tail;
    } else {
      var more := Frames(bodies[1..]) + tail;
      assert Frames(bodies) + tail == Frame(bodies[0]) + more;
      SplitFrame(bodies[0], more, max);
      SplitFrames(bodies[1..], tail, max);
      assert [bodies[0]] + bodies[1..] == bodies;
    }
  }

  /** Once a header is invalid no later byte repairs it. */
  lemma InvalidStays(b: seq<byte>, c: seq<byte>, max: int)
    requires Split(SplitAll(b, max).rest, max).Invalid?
    ensures Split(SplitAll(b + c, max).rest, max).Invalid?
  {
    hide Split;
    SplitAllMore(b, c, max);
    SplitMore(SplitAll(b, max).rest, c, max);
  }

  /** On a well-formed stream the carry is a partial frame, so the buffers stay small. */
  lemma {:induction false} StreamFits(carry: seq<byte>, chunks: seq<seq<byte>>, max: int)
    requires 4 <= max < 0x4000_0000
    requires forall i :: 0 <= i < |chunks| ==> |chunks[i]| < 0x4000_0000
    requires |carry| < max && SplitAll(carry, max) == Drained([], carry)
    requires Split(SplitAll(carry + Flatten(chunks), max).rest, max).Incomplete?
    ensures BuffersFit(carry, chunks, max)
    decreases |chunks|
  {
    hide SplitAll, Drain, Split;
    if chunks != [] {
      var b, more := carry + chunks[0], Flatten(chunks[1..]);
      DrainIsSplitAll(b, max);
      SplitRest(b, max);
      assert b + more == carry + Flatten(chunks);
      if Split(SplitAll(b, max).rest, max).Invalid? { InvalidStays(b, more, max); }
      PartialShort(SplitAll(b, max).rest, max);
      SplitAllMore(b, more, max);
      StreamFits(SplitAll(b, max).rest, chunks[1..], max);
    }
  }

  lemma PartialShort(b: seq<byte>, max: int)
    requires 4 <= max && Split(b, max).Incomplete?
    ensures |b| < max
  {
    hide DecodeInt;
  }

  /**
   * Chunk-independent framing: a stream of frames, plus a partial one, cut anywhere, yields exactly
   * the original bodies in order and the unconsumed tail.
   */
  lemma ChunkIndependent(bodies: seq<seq<byte>>, tail: seq<byte>, chunks: seq<seq<byte>>, max: int)
    requires 4 <= max < 0x4000_0000
    requires forall i :: 0 <= i < |bodies| ==> FrameSize(bodies[i], max)
    requires Split(tail, max).Incomplete?
    requires forall i :: 0 <= i < |chunks| ==> |chunks[i]| < 0x4000_0000
    requires Flatten(chunks) == Frames(bodies) + tail
    ensures Feed([], chunks, max) == Drained(bodies, tail)
  {
    hide Split, Feed;
    var all := Frames(bodies) + tail;
    SplitFrames(bodies, tail, max);
    assert [] + Flatten(chunks) == all;
    assert Split([], max).Incomplete? by { SplitEmpty(max); }
    StreamFits([], chunks, max);
    FeedIsSplitAll([], chunks, max);
  }

  lemma SplitEmpty(max: int)
    ensures Split([], max) == Incomplete
  {
  }
}
