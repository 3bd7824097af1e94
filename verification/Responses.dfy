/** tarsRequest and tarsResponseLen (tup/AppProtocal.h, tup/AppProtocal.cpp): packets inside frames. */
module Responses {
  import opened Bytes
  import opened TarsValue
  import opened TarsSkip
  import TarsRounds
  import opened TarsRead
  import opened TarsStream
  import opened TarsInput
  import opened RequestF
  import opened Packets
  import opened AppProtocol

  // ---------- tarsRequest ----------

  /** The request frame a client sends; false is the exception for an over-long string. */
  method TarsRequest(request: RequestPacket) returns (ok: bool, buff: seq<byte>)
    requires RequestTyped(request.View())
    ensures ok <==> RequestSendable(request.View())
    ensures ok ==> buff == Frame(Fields(RequestFields(request.View())))
  {
    hide RequestFields, Fields, Frame, OutputStream.Contents;
    var os := new OutputStream();
    ok := request.WriteTo(os);
    buff := [];
    if ok {
      var body := os.buf[..os.len];
      BodyIs(os);
      var headerLen := EncodeInt(4 + |body|, 4);
      buff := headerLen + body;
      FrameIs(body);
      assert [] + Fields(RequestFields(request.View())) == Fields(RequestFields(request.View()));
    }
  }

  lemma BodyIs(os: OutputStream)
    requires os.Valid()
    ensures os.buf[..os.len] == os.Contents()
  {
  }

  lemma FrameIs(body: seq<byte>)
    ensures EncodeInt(4 + |body|, 4) + body == Frame(body)
  {
  }

  /** Client to server: the server's parse and readFrom recover the request from the client's frame. */
  lemma RequestOverTheWire(p: Request, more: seq<byte>, was: Value)
    requires RequestOk(p) && FrameSize(Fields(RequestFields(p)), MAX_LENGTH)
    requires |Frame(Fields(RequestFields(p))) + more| < 0x8000_0000
    ensures var body := Fields(RequestFields(p));
      ParseLen(Frame(body) + more, MAX_LENGTH) == Packet(body, more)
      && ReadFields(body, 0, REQUEST_SCHEMA, 0, [], was) == Ok(Struct(RequestFields(p)), |body|)
  {
    hide RequestFields, Fields, RequestOk, ReadFields, ParseLen, Frame;
    var body := Fields(RequestFields(p));
    ParseIsSplit(Frame(body) + more, MAX_LENGTH);
    SplitFrame(body, more, MAX_LENGTH);
    assert At(body, 0, body);
    RequestRoundTrip(body, 0, p, was);
  }

  // ---------- tarsResponseLen ----------

  /**
   * What tarsResponseLen returns: the bytes consumed and the packets pushed to `done`; an exception
   * out of readFrom or out of the look at a partial frame, with the packets pushed before it; a
   * negative byte-list size or an overflowing map count met on the way, where the reader goes astray
   * (TarsRounds); or a header below 4, which the source does not reject (its throw is commented out)
   * and the model does not follow.
   */
  datatype Received =
    | Received(pos: nat, done: seq<Response>)
    | Raised(done: seq<Response>)
    | Astray(done: seq<Response>)
    | ShortHeader(pos: nat)

  const FRESH := Response(0, 0, 0, 0, 0, [], [], [], [])

  function IntOf(v: Value): int {
    if v.Int? then v.n else 0
  }

  function TextOf(v: Value): seq<byte> {
    if v.Str? then v.s else []
  }

  function BlobOf(v: Value): seq<byte> {
    if v.Blob? then v.bytes else []
  }

  function StrMapOf(v: Value): StrMap {
    if TypedAs(v, STRING_MAP) then MapOf(v) else []
  }

  function ToResponse(v: Value): Response {
    if v.Struct? && |v.fields| == 9 then
      var f := v.fields;
      Response(IntOf(f[0].value), IntOf(f[1].value), IntOf(f[2].value), IntOf(f[3].value), IntOf(f[4].value),
               BlobOf(f[5].value), StrMapOf(f[6].value), TextOf(f[7].value), StrMapOf(f[8].value))
    else FRESH
  }

  lemma ToResponseInverse(p: Response)
    ensures ToResponse(Struct(ResponseMembers(p))) == p
  {
    hide MapValue, MapOf;
    MapInverse(p.status, Int(0));
    MapInverse(p.context, Int(0));
  }

  function Header(b: seq<byte>, pos: nat): nat
    requires pos + 4 <= |b|
  {
    FromBigEndian(b[pos..pos + 4])
  }

  /** `uint32_t len = length - pos`. */
  function Remaining(b: seq<byte>, pos: nat): nat
    requires pos <= |b|
  {
    (|b| - pos) % 0x1_0000_0000
  }

  /** A frame stands complete at `pos`. */
  predicate Complete(b: seq<byte>, pos: nat)
    requires pos <= |b|
  {
    pos < |b| && Remaining(b, pos) >= 4 && Remaining(b, pos) >= Header(b, pos)
  }

  function ReadResponse(body: seq<byte>): Out<Value> {
    ReadFields(body, 0, RESPONSE_SCHEMA, 0, [], Struct(ResponseMembers(FRESH)))
  }

  // ---------- the look at a partial frame ----------

  /** `head`: how many bytes have to be there, and how long a window behind the length is looked at. */
  const HEAD := 20

  /** is.read(rsp.iVersion, 1, false) to is.read(rsp.iRet, 5, false), into a new packet. */
  const PEEK_SCHEMA: seq<FieldType> :=
    [ FieldType(1, TInt(Short), false, Keep), FieldType(2, TInt(Char), false, Keep),
      FieldType(3, TInt(Int32), false, Keep),
      FieldType(4, TInt(Int32), false, Keep), FieldType(5, TInt(Int32), false, Keep) ]

  function PeekTarget(): Value {
    Struct([Field(1, Int(0)), Field(2, Int(0)), Field(3, Int(0)), Field(4, Int(0)), Field(5, Int(0))])
  }

  function PeekRead(w: seq<byte>): Out<Value> {
    ReadFields(w, 0, PEEK_SCHEMA, 0, [], PeekTarget())
  }

  /**
   * The window of a partial frame. With 20 to 23 bytes left it reaches past the end of the buffer,
   * into `beyond`, the memory that happens to stand there.
   */
  function Window(b: seq<byte>, beyond: seq<byte>, pos: nat): seq<byte>
    requires pos + HEAD <= |b| && |beyond| >= 4
  {
    (b + beyond)[pos + 4..pos + 4 + HEAD]
  }

  /** A partial frame is looked at, unless fewer than 20 bytes of it are there. */
  function Look(b: seq<byte>, beyond: seq<byte>, pos: nat): (r: Out<()>)
    requires pos <= |b| && |beyond| >= 4
  {
    if Remaining(b, pos) < HEAD then Ok((), pos)
    else
      var r := PeekRead(Window(b, beyond, pos));
      if r.Ok? then Ok((), pos) else Abort(r)
  }

  function Failed<T>(r: Out<T>, done: seq<Response>): Received {
    if r.Throw? then Raised(done) else Astray(done)
  }

  /** How the run ends at a position where no frame stands complete. */
  function AtPartial(b: seq<byte>, beyond: seq<byte>, pos: nat, done: seq<Response>): Received
    requires pos <= |b| && |beyond| >= 4
  {
    if Look(b, beyond, pos).Ok? then Received(pos, done) else Failed(Look(b, beyond, pos), done)
  }

  function Receive(b: seq<byte>, beyond: seq<byte>, pos: nat, done: seq<Response>): Received
    requires pos <= |b| && |beyond| >= 4
    decreases |b| - pos
  {
    if !Complete(b, pos) then AtPartial(b, beyond, pos, done)
    else
      var h := Header(b, pos);
      if h < 4 then ShortHeader(pos) else
      var r := ReadResponse(b[pos + 4..pos + h]);
      if r.Ok? then Receive(b, beyond, pos + h, done + [ToResponse(r.value)]) else Failed(r, done)
  }

  /** The five optional reads, whose results are dropped. */
  method PeekHeader(w: seq<byte>) returns (r: Out<()>)
    ensures if PeekRead(w).Ok? then r.Ok? else r == Abort(PeekRead(w))
  {
    hide Progress, ReadFields, Member;
    var ins := new InputStream();
    ins.SetBuffer(w);
    ghost var total, was, acc := PeekRead(w), PeekTarget(), [];
    PeekMembers();
    Begin(w, 0, PEEK_SCHEMA, was);
    var iVersion := ReadNumber(ins, Short, 1, false, 0, total, PEEK_SCHEMA, acc, was);
    if !iVersion.Ok? { return Abort(iVersion); }
    acc := acc + [Field(1, Int(iVersion.value))];
    var cPacketType := ReadNumber(ins, Char, 2, false, 0, total, PEEK_SCHEMA, acc, was);
    if !cPacketType.Ok? { return Abort(cPacketType); }
    acc := acc + [Field(2, Int(cPacketType.value))];
    var iRequestId := ReadNumber(ins, Int32, 3, false, 0, total, PEEK_SCHEMA, acc, was);
    if !iRequestId.Ok? { return Abort(iRequestId); }
    acc := acc + [Field(3, Int(iRequestId.value))];
    var iMessageType := ReadNumber(ins, Int32, 4, false, 0, total, PEEK_SCHEMA, acc, was);
    if !iMessageType.Ok? { return Abort(iMessageType); }
    acc := acc + [Field(4, Int(iMessageType.value))];
    var iRet := ReadNumber(ins, Int32, 5, false, 0, total, PEEK_SCHEMA, acc, was);
    if !iRet.Ok? { return Abort(iRet); }
    Done(total, ins.buf, ins.cur, PEEK_SCHEMA, acc + [Field(5, Int(iRet.value))], was);
    r := Ok((), ins.cur);
  }

  lemma PeekMembers()
    ensures |PEEK_SCHEMA| == 5
    ensures Member(PEEK_SCHEMA, 0, PeekTarget(), TInt(Short), false, Int(0))
    ensures Member(PEEK_SCHEMA, 1, PeekTarget(), TInt(Char), false, Int(0))
    ensures Member(PEEK_SCHEMA, 2, PeekTarget(), TInt(Int32), false, Int(0))
    ensures Member(PEEK_SCHEMA, 3, PeekTarget(), TInt(Int32), false, Int(0))
    ensures Member(PEEK_SCHEMA, 4, PeekTarget(), TInt(Int32), false, Int(0))
  {
    hide Find;
    var f := PeekTarget().fields;
    FindAt(f, 0);
    FindAt(f, 1);
    FindAt(f, 2);
    FindAt(f, 3);
    FindAt(f, 4);
  }

  /** tarsResponseLen, frame by frame, each packet read into a new ResponsePacket. */
  method TarsResponseLen(b: seq<byte>, beyond: seq<byte>) returns (r: Received)
    requires |beyond| >= 4
    ensures r == Receive(b, beyond, 0, [])
  {
    hide ReadFields, ToResponse, ResponseMembers, Header, RESPONSE_SCHEMA, PEEK_SCHEMA;
    var pos: nat := 0;
    var done: seq<Response> := [];
    while pos < |b|
      invariant pos <= |b|
      invariant Receive(b, beyond, pos, done) == Receive(b, beyond, 0, [])
    {
      var len := (|b| - pos) % 0x1_0000_0000;
      if len < 4 { break; }
      var headerLen := Header(b, pos);
      if len < headerLen {
        if len >= HEAD {
          var look := PeekHeader(Window(b, beyond, pos));
          if !look.Ok? { return Failed(look, done); }
        }
        break;
      }
      if headerLen < 4 { return ShortHeader(pos); }
      var ins := new InputStream();
      ins.SetBuffer(b[pos + 4..pos + headerLen]);
      pos := pos + headerLen;
      var rsp := new ResponsePacket();
      var out := rsp.ReadFrom(ins);
      if !out.Ok? { return Failed(out, done); }
      ToResponseInverse(rsp.View());
      done := done + [rsp.View()];
    }
    r := Received(pos, done);
  }

  // ---------- exactness ----------

  function ResponseFrame(p: Response): seq<byte> {
    Frame(Fields(ResponseFields(p)))
  }

  function ResponseFrames(ps: seq<Response>): seq<byte> {
    if ps == [] then [] else ResponseFrame(ps[0]) + ResponseFrames(ps[1..])
  }

  ghost predicate Sent(p: Response) {
    ResponseOk(p) && 4 + |Fields(ResponseFields(p))| < 0x8000_0000
  }

  lemma ReadResponseExact(p: Response)
    requires ResponseOk(p)
    ensures var r := ReadResponse(Fields(ResponseFields(p)));
      r.Ok? && ToResponse(r.value) == p && r.cur == |Fields(ResponseFields(p))|
  {
    hide ResponseFields, Fields, ResponseOk, ReadFields, ToResponse, ResponseMembers;
    var body := Fields(ResponseFields(p));
    assert At(body, 0, body);
    ResponseRoundTrip(body, 0, p, FRESH);
    MergedFresh(p);
    ToResponseInverse(p);
  }

  lemma MergedFresh(p: Response)
    ensures Merged(p, FRESH) == p
  {
  }

  lemma HeaderExact(b: seq<byte>, pos: nat, body: seq<byte>)
    requires At(b, pos, Frame(body)) && 4 + |body| < 0x8000_0000
    ensures Header(b, pos) == 4 + |body| && At(b, pos + 4, body)
  {
    Powers();
    var h := 4 + |body|;
    AtSplit(b, pos, EncodeInt(h, 4), body);
    SmallMod(h, Pow256(4));
    BigEndianInverse(h, 4);
  }

  lemma ReceiveOne(b: seq<byte>, beyond: seq<byte>, pos: nat, p: Response, done: seq<Response>)
    requires Sent(p) && |b| < 0x1_0000_0000 && At(b, pos, ResponseFrame(p)) && |beyond| >= 4
    ensures pos + |ResponseFrame(p)| <= |b|
    ensures Receive(b, beyond, pos, done) == Receive(b, beyond, pos + |ResponseFrame(p)|, done + [p])
  {
    hide ReadResponse, ToResponse, ResponseFields, Fields, Header, ResponseOk, Look;
    var body := Fields(ResponseFields(p));
    HeaderExact(b, pos, body);
    ReadResponseExact(p);
    FrameLength(body);
    assert b[pos + 4..pos + (4 + |body|)] == body;
  }

  lemma FrameLength(body: seq<byte>)
    ensures |Frame(body)| == 4 + |body|
  {
  }

  /** Complete frames are consumed one after the other, and the run goes on behind them. */
  lemma {:induction false} ReceiveFrames(
      b: seq<byte>, beyond: seq<byte>, pos: nat, ps: seq<Response>, done: seq<Response>)
    requires forall i :: 0 <= i < |ps| ==> Sent(ps[i])
    requires |b| < 0x1_0000_0000 && At(b, pos, ResponseFrames(ps)) && |beyond| >= 4
    ensures Receive(b, beyond, pos, done) == Receive(b, beyond, pos + |ResponseFrames(ps)|, done + ps)
    decreases |ps|
  {
    hide Complete, Receive, ResponseFrame, ResponseFrames, Sent, AtPartial;
    FramesCons(ps);
    if ps == [] {
      assert done + [] == done;
    } else {
      AtSplit(b, pos, ResponseFrame(ps[0]), ResponseFrames(ps[1..]));
      ReceiveOne(b, beyond, pos, ps[0], done);
      ReceiveFrames(b, beyond, pos + |ResponseFrame(ps[0])|, ps[1..], done + [ps[0]]);
      assert done + [ps[0]] + ps[1..] == done + ps;
    }
  }

  lemma ReceiveExact(b: seq<byte>, beyond: seq<byte>, pos: nat, ps: seq<Response>, done: seq<Response>)
    requires forall i :: 0 <= i < |ps| ==> Sent(ps[i])
    requires |b| < 0x1_0000_0000 && At(b, pos, ResponseFrames(ps)) && |beyond| >= 4
    requires !Complete(b, pos + |ResponseFrames(ps)|)
    ensures Receive(b, beyond, pos, done) == AtPartial(b, beyond, pos + |ResponseFrames(ps)|, done + ps)
  {
    hide Complete, Receive, ResponseFrames, Sent, AtPartial;
    ReceiveFrames(b, beyond, pos, ps, done);
    ReceiveNone(b, beyond, pos + |ResponseFrames(ps)|, done + ps);
  }

  /**
   * A complete frame whose body does not decode ends the run with its exception, whatever follows: what
   * was delivered are the packets in front of it.
   */
  lemma BadFrameRaises(ps: seq<Response>, body: seq<byte>, more: seq<byte>, beyond: seq<byte>)
    requires forall i :: 0 <= i < |ps| ==> Sent(ps[i])
    requires 4 + |body| < 0x8000_0000 && ReadResponse(body).Throw? && |beyond| >= 4
    requires |ResponseFrames(ps) + (Frame(body) + more)| < 0x1_0000_0000
    ensures Receive(ResponseFrames(ps) + (Frame(body) + more), beyond, 0, []) == Raised(ps)
  {
    hide ReadResponse, ResponseFrames, Sent, Header, Frame, ToResponse, AtPartial;
    var b, n := ResponseFrames(ps) + (Frame(body) + more), |ResponseFrames(ps)|;
    assert At(b, 0, ResponseFrames(ps));
    ReceiveFrames(b, beyond, 0, ps, []);
    assert [] + ps == ps;
    FrameLength(body);
    assert b[n..n + |Frame(body)|] == Frame(body);
    HeaderExact(b, n, body);
    assert b[n + 4..n + (4 + |body|)] == body;
  }

  lemma ReceiveNone(b: seq<byte>, beyond: seq<byte>, pos: nat, done: seq<Response>)
    requires pos <= |b| && !Complete(b, pos) && |beyond| >= 4
    ensures Receive(b, beyond, pos, done) == AtPartial(b, beyond, pos, done)
  {
    hide Complete, Look;
  }

  lemma FramesCons(ps: seq<Response>)
    ensures ps == [] ==> ResponseFrames(ps) == []
    ensures ps != [] ==> ResponseFrames(ps) == ResponseFrame(ps[0]) + ResponseFrames(ps[1..])
  {
    hide ResponseFrame;
  }

  /** A partial frame: fewer than 4 bytes, or fewer than its header announces. */
  ghost predicate Partial(tail: seq<byte>) {
    |tail| < 4 || |tail| < FromBigEndian(tail[..4])
  }

  /**
   * On complete frames plus a partial one, tarsResponseLen consumes exactly the complete frames and
   * delivers exactly their packets, unless looking at the first 20 bytes of the partial one throws.
   */
  lemma ResponsesDelivered(ps: seq<Response>, tail: seq<byte>, beyond: seq<byte>)
    requires forall i :: 0 <= i < |ps| ==> Sent(ps[i])
    requires |ResponseFrames(ps) + tail| < 0x1_0000_0000 && Partial(tail) && |beyond| >= 4
    ensures Receive(ResponseFrames(ps) + tail, beyond, 0, [])
         == if Look(tail, beyond, 0).Ok? then Received(|ResponseFrames(ps)|, ps) else Failed(Look(tail, beyond, 0), ps)
  {
    hide Receive, Sent, ResponseFrames, FromBigEndian, Look;
    var b, n := ResponseFrames(ps) + tail, |ResponseFrames(ps)|;
    assert At(b, 0, ResponseFrames(ps));
    if |tail| >= 4 { assert b[n..n + 4] == tail[..4]; }
    ReceiveExact(b, beyond, 0, ps, []);
    assert [] + ps == ps;
    assert b[n..] == tail;
    LookShift(b, beyond, n, n);
  }

  /** Looking only sees what lies behind the position. */
  lemma LookShift(b: seq<byte>, beyond: seq<byte>, from: nat, pos: nat)
    requires from <= pos <= |b| && |b| < 0x1_0000_0000 && |beyond| >= 4
    ensures Look(b, beyond, pos).Ok? <==> Look(b[from..], beyond, pos - from).Ok?
    ensures Look(b, beyond, pos).Throw? <==> Look(b[from..], beyond, pos - from).Throw?
  {
    hide PeekRead;
    if |b| - pos >= HEAD {
      assert Window(b, beyond, pos) == Window(b[from..], beyond, pos - from);
    }
  }

  // ---------- the look never disturbs a genuine frame ----------

  /** The first five members of a response are integers. */
  function LeadInt(p: Response, i: nat): int
    requires i < 5
  {
    IntOf(ResponseMembers(p)[i].value)
  }

  /** Where member i of a response stands in its encoding, for the five leading integers and their end. */
  function MemberAt(p: Response, i: nat): nat
    requires i <= 5
  {
    if i == 0 then 0 else MemberAt(p, i - 1) + 1 + IntWidth(LeadInt(p, i - 1))
  }

  lemma MembersFit(p: Response)
    requires ResponseOk(p)
    ensures forall i :: 0 <= i <= 4 ==> MemberAt(p, i) <= 15
    ensures MemberAt(p, 5) <= 20
    ensures forall i :: 0 <= i < 5 ==> MemberAt(p, i + 1) == MemberAt(p, i) + 1 + IntWidth(LeadInt(p, i))
  {
    hide MapValue;
    Powers();
    var m := ResponseMembers(p);
    assert MemberAt(p, 1) == 1 + IntWidth(p.iVersion) <= 3;
    assert MemberAt(p, 2) == MemberAt(p, 1) + 1 + IntWidth(p.cPacketType) <= 5;
    assert MemberAt(p, 3) == MemberAt(p, 2) + 1 + IntWidth(p.iRequestId) <= 10;
    assert MemberAt(p, 4) == MemberAt(p, 3) + 1 + IntWidth(p.iMessageType) <= 15;
    assert MemberAt(p, 5) == MemberAt(p, 4) + 1 + IntWidth(p.iRet) <= 20;
  }

  /** The head byte of each of the five. */
  lemma {:induction false} MemberHead(p: Response, i: nat)
    requires ResponseOk(p) && i < 5
    ensures var body := Fields(ResponseFields(p)); var f := ResponseFields(p);
      && i < |f| && At(body, MemberAt(p, i), Fields(f[i..]))
      && MemberAt(p, i) < |body|
      && body[MemberAt(p, i)] == IntHead(LeadInt(p, i)) + 16 * (i + 1)
    decreases i
  {
    hide Fields, ResponseFields, ResponseMembers, ResponseOk, Write;
    var body, f := Fields(ResponseFields(p)), ResponseFields(p);
    ResponseIndex(p);
    ResponseInts(p);
    if i == 0 {
      assert f[0..] == f;
      assert At(body, 0, Fields(f[0..]));
    } else {
      MemberHead(p, i - 1);
      var n := LeadInt(p, i - 1);
      FieldsCons(f[i - 1..]);
      assert f[i - 1..][1..] == f[i..] && f[i - 1..][0] == f[i - 1];
      AtSplit(body, MemberAt(p, i - 1), Write(f[i - 1].tag, f[i - 1].value), Fields(f[i..]));
      IntLength(f[i - 1].tag, n);
    }
    FieldsCons(f[i..]);
    FirstByte(body, MemberAt(p, i), f[i].tag, LeadInt(p, i), Fields(f[i..][1..]));
  }

  lemma FirstByte(b: seq<byte>, cur: nat, tag: byte, n: int, rest: seq<byte>)
    requires tag < 15 && At(b, cur, Write(tag, Int(n)) + rest)
    ensures cur < |b| && b[cur] == IntHead(n) + 16 * tag
  {
    hide Write;
    IntLength(tag, n);
    AtSplit(b, cur, Write(tag, Int(n)), rest);
    AtByte(b, cur, Write(tag, Int(n)), 0);
  }

  lemma ResponseInts(p: Response)
    ensures |ResponseMembers(p)| == 9
    ensures forall i :: 0 <= i < 5 ==> ResponseMembers(p)[i] == Field(i + 1, Int(LeadInt(p, i)))
  {
    hide MapValue;
  }

  lemma IntLength(tag: byte, n: int)
    requires tag < 15
    ensures |Write(tag, Int(n))| == 1 + IntWidth(n) && Write(tag, Int(n))[0] == IntHead(n) + 16 * tag
  {
  }

  /** One optional read at a head that matches: it succeeds, whatever the payload bytes are. */
  lemma PeekOne(w: seq<byte>, cur: nat, i: nat, n: int)
    requires i < 5 && Fits(n, CarrierWidth(PEEK_SCHEMA[i].ty.kind))
    requires cur + 1 + IntWidth(n) <= |w| && w[cur] == IntHead(n) + 16 * (i + 1)
    ensures var r := ReadField(w, cur, PEEK_SCHEMA[i], PeekTarget()); r.Ok? && r.cur == cur + 1 + IntWidth(n)
  {
    hide Prior, TarsSkip.SkipField, DecodeInt;
    Powers();
    assert PeekHead(w, cur) == Peeked(TarsSkip.Head(IntHead(n), i + 1, 1));
    assert TarsSkip.SkipToTag(w, cur, i + 1) == Found(IntHead(n), cur + 1);
  }

  lemma {:induction false} PeekFrom(w: seq<byte>, p: Response, i: nat, acc: seq<Field>)
    requires ResponseOk(p) && i <= 5 && |w| == HEAD
    requires forall k :: 0 <= k < 5 ==>
      MemberAt(p, k) < |w| && w[MemberAt(p, k)] == IntHead(LeadInt(p, k)) + 16 * (k + 1)
    ensures ReadFields(w, MemberAt(p, i), PEEK_SCHEMA, i, acc, PeekTarget()).Ok?
    decreases 5 - i
  {
    hide ReadField, PEEK_SCHEMA, ResponseMembers, ResponseOk;
    MembersFit(p);
    PeekKinds(p);
    if i < 5 {
      var n := LeadInt(p, i);
      PeekOne(w, MemberAt(p, i), i, n);
      var r := ReadField(w, MemberAt(p, i), PEEK_SCHEMA[i], PeekTarget());
      FieldsStep(w, MemberAt(p, i), PEEK_SCHEMA, i, acc, PeekTarget());
      PeekFrom(w, p, i + 1, acc + [Field(PEEK_SCHEMA[i].tag, r.value)]);
    }
  }

  lemma PeekKinds(p: Response)
    requires ResponseOk(p)
    ensures |PEEK_SCHEMA| == 5
    ensures forall i :: 0 <= i < 5 ==> PEEK_SCHEMA[i].ty.TInt?
    ensures forall i :: 0 <= i < 5 ==> Fits(LeadInt(p, i), CarrierWidth(PEEK_SCHEMA[i].ty.kind))
  {
    hide MapValue;
  }

  /** A response frame that has arrived in part, however little or much of it, never makes the look throw. */
  lemma GenuineFrameIsQuiet(p: Response, tail: seq<byte>, beyond: seq<byte>)
    requires Sent(p) && tail <= ResponseFrame(p) && |beyond| >= 4
    ensures Look(tail, beyond, 0).Ok?
  {
    hide PeekRead, ResponseFields, ResponseMembers, Fields, EncodeInt;
    var body := Fields(ResponseFields(p));
    FrameLength(body);
    if |tail| >= HEAD && |tail| < 0x1_0000_0000 {
      var w := Window(tail, beyond, 0);
      MembersFit(p);
      forall k | 0 <= k < 5
        ensures MemberAt(p, k) < |w| && w[MemberAt(p, k)] == IntHead(LeadInt(p, k)) + 16 * (k + 1)
      {
        MemberHead(p, k);
        assert w[MemberAt(p, k)] == tail[4 + MemberAt(p, k)] == ResponseFrame(p)[4 + MemberAt(p, k)];
      }
      PeekFrom(w, p, 0, []);
      PeekReads(w);
    }
  }

  lemma PeekReads(w: seq<byte>)
    ensures PeekRead(w) == ReadFields(w, 0, PEEK_SCHEMA, 0, [], PeekTarget())
  {
  }

  /** So a stream of responses cut anywhere delivers exactly the complete ones. */
  lemma CutStreamDelivered(ps: seq<Response>, p: Response, tail: seq<byte>, beyond: seq<byte>)
    requires (forall i :: 0 <= i < |ps| ==> Sent(ps[i])) && Sent(p)
    requires tail < ResponseFrame(p) && |ResponseFrames(ps) + tail| < 0x1_0000_0000 && |beyond| >= 4
    ensures Receive(ResponseFrames(ps) + tail, beyond, 0, []) == Received(|ResponseFrames(ps)|, ps)
  {
    hide Receive, Sent, ResponseFrames, FromBigEndian, Look, ResponseFields, Fields, Frame;
    var body := Fields(ResponseFields(p));
    if |tail| >= 4 {
      assert At(ResponseFrame(p), 0, Frame(body));
      SentLength(p);
      HeaderExact(ResponseFrame(p), 0, body);
      FrameLength(body);
      assert tail[..4] == ResponseFrame(p)[0..4];
    }
    GenuineFrameIsQuiet(p, tail, beyond);
    ResponsesDelivered(ps, tail, beyond);
  }

  lemma SentLength(p: Response)
    requires Sent(p)
    ensures 4 + |Fields(ResponseFields(p))| < 0x8000_0000
  {
  }

  /** There are partial frames that do: a string at tag 1, where the version belongs. */
  lemma OddPartialRaises(more: seq<byte>, beyond: seq<byte>)
    requires |more| == 19 && |beyond| >= 4
    ensures var tail := [0, 0, 0, 100, 22] + more; Partial(tail) && Receive(tail, beyond, 0, []) == Raised([])
  {
    hide PeekRead, Receive, FromBigEndian;
    var tail: seq<byte> := [0, 0, 0, 100, 22] + more;
    assert tail[0..4] == tail[..4] == [0, 0, 0, 100];
    HundredIs();
    ReceiveNone(tail, beyond, 0, []);
    OddPeek(Window(tail, beyond, 0));
  }

  lemma OddPeek(w: seq<byte>)
    requires |w| > 0 && w[0] == 22
    ensures PeekRead(w) == Throw(Mismatch, 1)
  {
    hide ReadFields, Prior;
    FieldsStep(w, 0, PEEK_SCHEMA, 0, [], PeekTarget());
    assert TarsSkip.PeekHead(w, 0) == Peeked(TarsSkip.Head(STRING1, 1, 1));
    assert TarsSkip.SkipToTag(w, 0, 1) == Found(STRING1, 1);
    assert ReadField(w, 0, PEEK_SCHEMA[0], PeekTarget()) == Throw(Mismatch, 1);
  }

  /**
   * And there are complete ones on which the source never returns: a body that declares a byte list of
   * -4 bytes, which the search for the version skips back to its own head.
   */
  lemma LoopingFrame(beyond: seq<byte>, fuel: nat)
    requires |beyond| >= 4
    ensures Receive([0, 0, 0, 8, 13, 0, 0, 252], beyond, 0, []) == Astray([])
    ensures TarsRounds.SkipToTag([13, 0, 0, 252], 0, 1, fuel) == TarsRounds.Searching
  {
    hide TarsSkip.SkipToTag, TarsRounds.SkipToTag, ReadBody;
    var b: seq<byte> := [0, 0, 0, 8, 13, 0, 0, 252];
    var body: seq<byte> := [13, 0, 0, 252];
    assert b[0..4] == [0, 0, 0, 8] && b[4..8] == body;
    EightIs();
    assert At(body, 0, body);
    TarsRounds.NegativeSizeLoops(body, 0, 1, fuel);
    forall f: nat ensures TarsRounds.SkipToTag(body, 0, 1, f) == TarsRounds.Searching {
      TarsRounds.NegativeSizeLoops(body, 0, 1, f);
    }
    TarsRounds.LoopIsLost(body, 0, 1);
    FieldsStep(body, 0, RESPONSE_SCHEMA, 0, [], Struct(ResponseMembers(FRESH)));
  }

  lemma EightIs()
    ensures FromBigEndian([0, 0, 0, 8]) == 8
  {
    Powers();
    assert BigEndian(8, 4) == [0, 0, 0, 8];
    BigEndianInverse(8, 4);
  }

  lemma HundredIs()
    ensures FromBigEndian([0, 0, 0, 100]) == 100
  {
    Powers();
    assert BigEndian(100, 4) == [0, 0, 0, 100];
    BigEndianInverse(100, 4);
  }

  // ---------- resuming ----------

  lemma CompleteMore(b: seq<byte>, c: seq<byte>, pos: nat)
    requires pos <= |b| && |b + c| < 0x1_0000_0000
    ensures Complete(b, pos) ==> Complete(b + c, pos) && Header(b + c, pos) == Header(b, pos)
    ensures Complete(b, pos) ==> (b + c)[pos..pos + Header(b, pos)] == b[pos..pos + Header(b, pos)]
  {
    hide FromBigEndian;
    if Complete(b, pos) {
      assert (b + c)[pos..pos + 4] == b[pos..pos + 4];
    }
  }

  lemma CompleteShift(b: seq<byte>, from: nat, pos: nat)
    requires from <= pos <= |b| && |b| < 0x1_0000_0000
    ensures Complete(b[from..], pos - from) == Complete(b, pos)
    ensures Complete(b, pos) ==> Header(b[from..], pos - from) == Header(b, pos)
    ensures Complete(b, pos) ==>
      b[from..][pos - from..pos - from + Header(b, pos)] == b[pos..pos + Header(b, pos)]
  {
    hide FromBigEndian;
    if pos + 4 <= |b| {
      assert b[from..][pos - from..pos - from + 4] == b[pos..pos + 4];
    }
  }

  function Shifted(r: Received, from: nat, before: seq<Response>): Received {
    match r
    case Received(pos, done) => Received(from + pos, before + done)
    case Raised(done) => Raised(before + done)
    case Astray(done) => Astray(before + done)
    case ShortHeader(pos) => ShortHeader(from + pos)
  }

  lemma {:induction false} ReceiveShift(
      b: seq<byte>, beyond: seq<byte>, from: nat, pos: nat, before: seq<Response>, done: seq<Response>)
    requires from <= pos <= |b| && |b| < 0x1_0000_0000 && |beyond| >= 4
    ensures Receive(b, beyond, pos, before + done)
         == Shifted(Receive(b[from..], beyond, pos - from, done), from, before)
    decreases |b| - pos
  {
    hide ReadResponse, ToResponse, Complete, Header, Look;
    CompleteShift(b, from, pos);
    if !Complete(b, pos) {
      LookShift(b, beyond, from, pos);
    } else {
      CompleteFits(b, pos);
      CompleteFits(b[from..], pos - from);
      var h := Header(b, pos);
      if h >= 4 {
        var body := b[pos + 4..pos + h];
        assert body == b[pos..pos + h][4..];
        assert b[from..][pos - from + 4..pos - from + h] == b[from..][pos - from..pos - from + h][4..];
        var r := ReadResponse(body);
        if r.Ok? {
          ReceiveShift(b, beyond, from, pos + h, before, done + [ToResponse(r.value)]);
          assert before + (done + [ToResponse(r.value)]) == before + done + [ToResponse(r.value)];
        }
      }
    }
  }

  lemma CompleteFits(b: seq<byte>, pos: nat)
    requires pos <= |b| && Complete(b, pos)
    ensures pos + 4 <= |b| && pos + Header(b, pos) <= |b|
  {
    hide FromBigEndian;
  }

  /**
   * Resuming: a run over what has arrived that returned, followed by a run over its unconsumed tail
   * and whatever arrives later, is one run over everything. This holds for any bytes, whatever stands
   * in memory behind the buffer in either run.
   */
  lemma {:induction false} ReceiveResumes(
      b: seq<byte>, c: seq<byte>, beyond: seq<byte>, later: seq<byte>, pos: nat, done: seq<Response>)
    requires pos <= |b| && |b + c| < 0x1_0000_0000 && |beyond| >= 4 && |later| >= 4
    requires Receive(b, beyond, pos, done).Received?
    ensures var r := Receive(b, beyond, pos, done); r.pos <= |b|
    ensures var r := Receive(b, beyond, pos, done);
      Receive(b + c, later, pos, done) == Shifted(Receive((b + c)[r.pos..], later, 0, []), r.pos, r.done)
    decreases |b| - pos
  {
    hide ReadResponse, ToResponse, Complete, Header, Look;
    CompleteMore(b, c, pos);
    if !Complete(b, pos) {
      assert done + [] == done;
      ReceiveShift(b + c, later, pos, pos, done, []);
    } else {
      CompleteFits(b, pos);
      CompleteFits(b + c, pos);
      var h := Header(b, pos);
      assert (b + c)[pos + 4..pos + h] == (b + c)[pos..pos + h][4..];
      assert b[pos + 4..pos + h] == b[pos..pos + h][4..];
      var r := ReadResponse(b[pos + 4..pos + h]);
      ReceiveResumes(b, c, beyond, later, pos + h, done + [ToResponse(r.value)]);
    }
  }
}
