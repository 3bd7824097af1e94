/** The generated packet classes of tup/RequestF.h, proved against the schemas of RequestF. */
module Packets {
  import opened Bytes
  import opened TarsValue
  import opened TarsSkip
  import opened TarsRead
  import opened TarsStream
  import opened TarsInput
  import opened RequestF

  // ---------- reading member by member ----------

  function Abort<T>(r: Out<T>): Out<()>
    requires !r.Ok?
  {
    match r
    case Throw(e, c) => Throw(e, c)
    case Backward(t) => Backward(t)
    case BadCount(n) => BadCount(n)
  }

  function AbortWith<T>(r: Out<T>): Out<Value>
    requires !r.Ok?
  {
    match r
    case Throw(e, c) => Throw(e, c)
    case Backward(t) => Backward(t)
    case BadCount(n) => BadCount(n)
  }

  /** Member i of the schema: its tag is i + 1, and `prior` is what its member holds before the read. */
  ghost predicate Member(schema: seq<FieldType>, i: nat, target: Value, ty: Type, required: bool, prior: Value) {
    i < |schema| && schema[i].tag == i + 1 && schema[i].ty == ty && schema[i].required == required
    && Prior(schema[i], target) == prior
  }

  /** The outcome `total` of readFrom is still to be had from here, with `acc` read so far. */
  ghost predicate Progress(
      total: Out<Value>, b: seq<byte>, cur: nat, schema: seq<FieldType>, i: nat, acc: seq<Field>, target: Value) {
    i <= |schema| && total == ReadFields(b, cur, schema, i, acc, target)
  }

  lemma Begin(b: seq<byte>, cur: nat, schema: seq<FieldType>, target: Value)
    ensures Progress(ReadFields(b, cur, schema, 0, [], target), b, cur, schema, 0, [], target)
  {
    hide ReadFields;
  }

  lemma Advance(
      total: Out<Value>, b: seq<byte>, cur: nat, schema: seq<FieldType>, tag: byte, acc: seq<Field>, target: Value,
      ty: Type, required: bool, prior: Value)
    requires tag > 0 && Member(schema, tag - 1, target, ty, required, prior)
    requires Progress(total, b, cur, schema, tag - 1, acc, target)
    ensures match Read(b, cur, ty, tag, required, prior)
            case Ok(v, c) => Progress(total, b, c, schema, tag, acc + [Field(tag, v)], target)
            case r => total == r
  {
    hide Read, ReadFields, Prior;
    FieldsStep(b, cur, schema, tag - 1, acc, target);
  }

  lemma Done(total: Out<Value>, b: seq<byte>, cur: nat, schema: seq<FieldType>, acc: seq<Field>, target: Value)
    requires Progress(total, b, cur, schema, |schema|, acc, target)
    ensures total == Ok(Struct(acc), cur)
  {
  }

  method ReadNumber(ins: InputStream, k: IntKind, tag: byte, required: bool, was: int,
      ghost total: Out<Value>, ghost schema: seq<FieldType>, ghost acc: seq<Field>, ghost target: Value)
      returns (r: Out<int>)
    requires tag > 0 && Member(schema, tag - 1, target, TInt(k), required, Int(was))
    requires Progress(total, ins.buf, ins.cur, schema, tag - 1, acc, target)
    modifies ins`cur
    ensures r.Ok? ==> Progress(total, ins.buf, ins.cur, schema, tag, acc + [Field(tag, Int(r.value))], target)
    ensures !r.Ok? ==> total == AbortWith(r)
    ensures r.Ok? || r.Throw? ==> ins.cur == r.cur
  {
    hide SkipToTag, IntBody, ReadFields, Member, Progress;
    Advance(total, ins.buf, ins.cur, schema, tag, acc, target, TInt(k), required, Int(was));
    r := ins.ReadInteger(k, tag, required, was);
  }

  method ReadText(ins: InputStream, tag: byte, required: bool, was: seq<byte>,
      ghost total: Out<Value>, ghost schema: seq<FieldType>, ghost acc: seq<Field>, ghost target: Value)
      returns (r: Out<seq<byte>>)
    requires tag > 0 && Member(schema, tag - 1, target, TString, required, Str(was))
    requires Progress(total, ins.buf, ins.cur, schema, tag - 1, acc, target)
    modifies ins`cur
    ensures r.Ok? ==> Progress(total, ins.buf, ins.cur, schema, tag, acc + [Field(tag, Str(r.value))], target)
    ensures !r.Ok? ==> total == AbortWith(r)
    ensures r.Ok? || r.Throw? ==> ins.cur == r.cur
  {
    hide Read, ReadFields, Member, Progress;
    Advance(total, ins.buf, ins.cur, schema, tag, acc, target, TString, required, Str(was));
    ReadTyped(ins.buf, ins.cur, TString, tag, required, Str(was));
    var v := ins.ReadValue(TString, tag, required, Str(was));
    match v
    case Ok(x, c) => r := Ok(x.s, c);
    case Throw(e, c) => r := Throw(e, c);
    case Backward(t) => r := Backward(t);
    case BadCount(n) => r := BadCount(n);
  }

  method ReadCharVec(ins: InputStream, tag: byte, required: bool, was: seq<byte>,
      ghost total: Out<Value>, ghost schema: seq<FieldType>, ghost acc: seq<Field>, ghost target: Value)
      returns (r: Out<seq<byte>>)
    requires tag > 0 && Member(schema, tag - 1, target, TBlob, required, Blob(was))
    requires Progress(total, ins.buf, ins.cur, schema, tag - 1, acc, target)
    modifies ins`cur
    ensures r.Ok? ==> Progress(total, ins.buf, ins.cur, schema, tag, acc + [Field(tag, Blob(r.value))], target)
    ensures !r.Ok? ==> total == AbortWith(r)
    ensures r.Ok? || r.Throw? ==> ins.cur == r.cur
  {
    hide Read, ReadFields, Member, Progress;
    Advance(total, ins.buf, ins.cur, schema, tag, acc, target, TBlob, required, Blob(was));
    ReadTyped(ins.buf, ins.cur, TBlob, tag, required, Blob(was));
    var v := ins.ReadValue(TBlob, tag, required, Blob(was));
    match v
    case Ok(x, c) => r := Ok(x.bytes, c);
    case Throw(e, c) => r := Throw(e, c);
    case Backward(t) => r := Backward(t);
    case BadCount(n) => r := BadCount(n);
  }

  method ReadStrMap(ins: InputStream, tag: byte, required: bool, was: StrMap,
      ghost total: Out<Value>, ghost schema: seq<FieldType>, ghost acc: seq<Field>, ghost target: Value)
      returns (r: Out<StrMap>)
    requires tag > 0 && Member(schema, tag - 1, target, STRING_MAP, required, MapValue(was))
    requires Progress(total, ins.buf, ins.cur, schema, tag - 1, acc, target)
    modifies ins`cur
    ensures r.Ok? ==> Progress(total, ins.buf, ins.cur, schema, tag, acc + [Field(tag, MapValue(r.value))], target)
    ensures !r.Ok? ==> total == AbortWith(r)
    ensures r.Ok? || r.Throw? ==> ins.cur == r.cur
  {
    hide Read, ReadFields, Member, Progress, MapValue, MapOf;
    MapInverse(was, Int(0));
    Advance(total, ins.buf, ins.cur, schema, tag, acc, target, STRING_MAP, required, MapValue(was));
    ReadTyped(ins.buf, ins.cur, STRING_MAP, tag, required, MapValue(was));
    var v := ins.ReadValue(STRING_MAP, tag, required, MapValue(was));
    match v
    case Ok(x, c) => MapInverse([], x); r := Ok(MapOf(x), c);
    case Throw(e, c) => r := Throw(e, c);
    case Backward(t) => r := Backward(t);
    case BadCount(n) => r := BadCount(n);
  }

  // ---------- writing member by member ----------

  ghost predicate TextsOk(m: StrMap) {
    forall i :: 0 <= i < |m| ==> TextOk(m[i].key) && TextOk(m[i].val)
  }

  lemma MapSendable(m: StrMap)
    ensures Encodable64(MapValue(m))
    ensures Sendable(MapValue(m)) <==> TextsOk(m)
  {
    var e := MapValue(m).entries;
    assert forall i :: 0 <= i < |m| ==> e[i] == TarsValue.Entry(Str(m[i].key), Str(m[i].val));
    FlatMapTyped(e);
  }

  method WriteStrMap(os: OutputStream, m: StrMap, tag: byte) returns (ok: bool)
    requires os.Valid()
    modifies os, os.buf
    ensures os.Valid() && (os.buf == old(os.buf) || fresh(os.buf))
    ensures ok <==> TextsOk(m)
    ensures ok ==> os.Contents() == old(os.Contents()) + Write(tag, MapValue(m))
  {
    hide Write, MapValue, Sendable, Encodable64, TextsOk;
    MapSendable(m);
    ok := os.WriteValue(MapValue(m), tag);
  }

  method WriteText(os: OutputStream, s: seq<byte>, tag: byte) returns (ok: bool)
    requires os.Valid()
    modifies os, os.buf
    ensures os.Valid() && (os.buf == old(os.buf) || fresh(os.buf))
    ensures ok <==> TextOk(s)
    ensures ok ==> os.Contents() == old(os.Contents()) + Write(tag, Str(s))
  {
    hide Write;
    ok := os.WriteStr(s, tag);
  }

  /** Fields 0 to i of `f` have been appended to `start`. */
  ghost predicate Sent(start: seq<byte>, now: seq<byte>, f: seq<Field>, i: nat) {
    i <= |f| && now == start + Fields(f[..i])
  }

  lemma NoneSent(start: seq<byte>, f: seq<Field>)
    ensures Sent(start, start, f, 0)
  {
    assert Fields([]) == [];
  }

  lemma OneMore(start: seq<byte>, now: seq<byte>, f: seq<Field>, i: nat)
    requires i < |f| && Sent(start, now, f, i)
    ensures Sent(start, now + Write(f[i].tag, f[i].value), f, i + 1)
    ensures f[i].value.Int? ==> Sent(start, now + WriteInt(f[i].tag, f[i].value.n), f, i + 1)
  {
    hide Write, WriteInt;
    if f[i].value.Int? { IntWritten(f[i].tag, f[i].value.n); }
    assert f[..i + 1] == f[..i] + [f[i]];
    FieldsConcat(f[..i], [f[i]]);
    FieldsCons([f[i]]);
    assert [f[i]][1..] == [];
    assert Fields([]) == [];
  }

  lemma AllSent(start: seq<byte>, now: seq<byte>, f: seq<Field>)
    requires Sent(start, now, f, |f|)
    ensures now == start + Fields(f)
  {
    hide Fields;
    assert f[..|f|] == f;
  }

  // ---------- RequestPacket ----------

  /** What the C++ member types guarantee. */
  ghost predicate RequestTyped(p: Request) {
    Fits(p.iVersion, 2) && Fits(p.cPacketType, 1) && Fits(p.iMessageType, 4) && Fits(p.iRequestId, 4)
    && Fits(p.iTimeout, 4)
  }

  ghost predicate RequestSendable(p: Request) {
    TextOk(p.sServantName) && TextOk(p.sFuncName) && TextsOk(p.context) && TextsOk(p.status)
  }

  /** The members in schema order: type, whether required, and the value each holds when it is read. */
  lemma RequestEntries(p: Request)
    ensures |REQUEST_SCHEMA| == |RequestFields(p)| == 10
    ensures Member(REQUEST_SCHEMA, 0, Struct(RequestFields(p)), TInt(Short), true, Int(0))
    ensures Member(REQUEST_SCHEMA, 1, Struct(RequestFields(p)), TInt(Char), true, Int(0))
    ensures Member(REQUEST_SCHEMA, 2, Struct(RequestFields(p)), TInt(Int32), true, Int(0))
    ensures Member(REQUEST_SCHEMA, 3, Struct(RequestFields(p)), TInt(Int32), true, Int(0))
    ensures Member(REQUEST_SCHEMA, 4, Struct(RequestFields(p)), TString, true, Str([]))
    ensures Member(REQUEST_SCHEMA, 5, Struct(RequestFields(p)), TString, true, Str([]))
    ensures Member(REQUEST_SCHEMA, 6, Struct(RequestFields(p)), TBlob, true, Blob(p.sBuffer))
    ensures Member(REQUEST_SCHEMA, 7, Struct(RequestFields(p)), TInt(Int32), true, Int(0))
    ensures Member(REQUEST_SCHEMA, 8, Struct(RequestFields(p)), STRING_MAP, true, MapValue(p.context))
    ensures Member(REQUEST_SCHEMA, 9, Struct(RequestFields(p)), STRING_MAP, true, MapValue(p.status))
  {
    hide Member;
    RequestEntriesFirst(p);
    RequestEntriesRest(p);
  }

  lemma RequestEntriesFirst(p: Request)
    ensures |REQUEST_SCHEMA| == |RequestFields(p)| == 10
    ensures Member(REQUEST_SCHEMA, 0, Struct(RequestFields(p)), TInt(Short), true, Int(0))
    ensures Member(REQUEST_SCHEMA, 1, Struct(RequestFields(p)), TInt(Char), true, Int(0))
    ensures Member(REQUEST_SCHEMA, 2, Struct(RequestFields(p)), TInt(Int32), true, Int(0))
    ensures Member(REQUEST_SCHEMA, 3, Struct(RequestFields(p)), TInt(Int32), true, Int(0))
    ensures Member(REQUEST_SCHEMA, 4, Struct(RequestFields(p)), TString, true, Str([]))
  {
    hide Find, MapValue;
  }

  lemma RequestEntriesRest(p: Request)
    ensures |REQUEST_SCHEMA| == |RequestFields(p)| == 10
    ensures Member(REQUEST_SCHEMA, 5, Struct(RequestFields(p)), TString, true, Str([]))
    ensures Member(REQUEST_SCHEMA, 6, Struct(RequestFields(p)), TBlob, true, Blob(p.sBuffer))
    ensures Member(REQUEST_SCHEMA, 7, Struct(RequestFields(p)), TInt(Int32), true, Int(0))
    ensures Member(REQUEST_SCHEMA, 8, Struct(RequestFields(p)), STRING_MAP, true, MapValue(p.context))
    ensures Member(REQUEST_SCHEMA, 9, Struct(RequestFields(p)), STRING_MAP, true, MapValue(p.status))
  {
    hide Find, MapValue;
    assert forall i :: 0 <= i < 10 ==> RequestFields(p)[i].tag == i + 1;
    FindAt(RequestFields(p), 6);
    FindAt(RequestFields(p), 8);
    FindAt(RequestFields(p), 9);
  }

  lemma RequestValues(p: Request)
    ensures |RequestFields(p)| == 10
    ensures RequestFields(p)[0] == Field(1, Int(p.iVersion))
    ensures RequestFields(p)[1] == Field(2, Int(p.cPacketType))
    ensures RequestFields(p)[2] == Field(3, Int(p.iMessageType))
    ensures RequestFields(p)[3] == Field(4, Int(p.iRequestId))
    ensures RequestFields(p)[4] == Field(5, Str(p.sServantName))
    ensures RequestFields(p)[5] == Field(6, Str(p.sFuncName))
    ensures RequestFields(p)[6] == Field(7, Blob(p.sBuffer))
    ensures RequestFields(p)[7] == Field(8, Int(p.iTimeout))
    ensures RequestFields(p)[8] == Field(9, MapValue(p.context))
    ensures RequestFields(p)[9] == Field(10, MapValue(p.status))
  {
    hide MapValue;
  }

  lemma RequestChain(p: Request)
    ensures RequestFields(p) ==
      ([] + [Field(1, Int(p.iVersion))] + [Field(2, Int(p.cPacketType))] + [Field(3, Int(p.iMessageType))]
        + [Field(4, Int(p.iRequestId))] + [Field(5, Str(p.sServantName))])
      + [Field(6, Str(p.sFuncName))] + [Field(7, Blob(p.sBuffer))] + [Field(8, Int(p.iTimeout))]
      + [Field(9, MapValue(p.context))] + [Field(10, MapValue(p.status))]
  {
    hide MapValue;
  }

  class RequestPacket {
    var iVersion: int
    var cPacketType: int
    var iMessageType: int
    var iRequestId: int
    var sServantName: seq<byte>
    var sFuncName: seq<byte>
    var sBuffer: seq<byte>
    var iTimeout: int
    var context: StrMap
    var status: StrMap

    function View(): Request
      reads this
    {
      Request(iVersion, cPacketType, iMessageType, iRequestId, sServantName, sFuncName, sBuffer, iTimeout,
        context, status)
    }

    constructor ()
      ensures View() == Request(0, 0, 0, 0, [], [], [], 0, [], [])
    {
      iVersion := 0;
      cPacketType := 0;
      iMessageType := 0;
      iRequestId := 0;
      sServantName := [];
      sFuncName := [];
      sBuffer := [];
      iTimeout := 0;
      context := [];
      status := [];
    }

    /** resetDefautlt: the containers keep what they hold. */
    method ResetDefault()
      modifies this
      ensures View() == old(View()).(iVersion := 0, cPacketType := 0, iMessageType := 0, iRequestId := 0,
        sServantName := [], sFuncName := [], iTimeout := 0)
    {
      iVersion := 0;
      cPacketType := 0;
      iMessageType := 0;
      iRequestId := 0;
      sServantName := [];
      sFuncName := [];
      iTimeout := 0;
    }

    /** writeTo; false is the exception for an over-long string. */
    method WriteTo(os: OutputStream) returns (ok: bool)
      requires os.Valid() && RequestTyped(View())
      modifies os, os.buf
      ensures os.Valid() && (os.buf == old(os.buf) || fresh(os.buf))
      ensures ok <==> RequestSendable(View())
      ensures ok ==> os.Contents() == old(os.Contents()) + Fields(RequestFields(View()))
    {
      hide Sent, MapValue, Fits, TextOk, TextsOk, RequestFields, Fields, OutputStream.Contents;
      ghost var f, start := RequestFields(View()), os.Contents();
      NoneSent(start, f);
      ok := WriteFirst(os, start);
      if ok {
        ok := WriteRest(os, start);
        if ok { AllSent(start, os.Contents(), f); }
      }
    }

    method WriteFirst(os: OutputStream, ghost start: seq<byte>) returns (ok: bool)
      requires os.Valid() && RequestTyped(View())
      requires Sent(start, os.Contents(), RequestFields(View()), 0)
      modifies os, os.buf
      ensures os.Valid() && (os.buf == old(os.buf) || fresh(os.buf))
      ensures ok <==> TextOk(sServantName)
      ensures ok ==> Sent(start, os.Contents(), RequestFields(View()), 5)
    {
      hide Sent, Write, WriteInt, MapValue, Fits, RequestFields, Fields, OutputStream.Contents;
      ghost var f := RequestFields(View());
      RequestValues(View());
      OneMore(start, os.Contents(), f, 0);
      os.WriteShort(iVersion, 1);
      OneMore(start, os.Contents(), f, 1);
      os.WriteChar(cPacketType, 2);
      OneMore(start, os.Contents(), f, 2);
      os.WriteInt32(iMessageType, 3);
      OneMore(start, os.Contents(), f, 3);
      os.WriteInt32(iRequestId, 4);
      OneMore(start, os.Contents(), f, 4);
      ok := WriteText(os, sServantName, 5);
      if !ok { return; }
      ok := true;
    }

    method WriteRest(os: OutputStream, ghost start: seq<byte>) returns (ok: bool)
      requires os.Valid() && RequestTyped(View())
      requires Sent(start, os.Contents(), RequestFields(View()), 5)
      modifies os, os.buf
      ensures os.Valid() && (os.buf == old(os.buf) || fresh(os.buf))
      ensures ok <==> TextOk(sFuncName) && TextsOk(context) && TextsOk(status)
      ensures ok ==> Sent(start, os.Contents(), RequestFields(View()), |RequestFields(View())|)
    {
      hide Sent, Write, WriteInt, MapValue, Fits, RequestFields, Fields, OutputStream.Contents;
      ghost var f := RequestFields(View());
      RequestValues(View());
      OneMore(start, os.Contents(), f, 5);
      ok := WriteText(os, sFuncName, 6);
      if !ok { return; }
      OneMore(start, os.Contents(), f, 6);
      os.WriteCharVector(sBuffer, 7);
      OneMore(start, os.Contents(), f, 7);
      os.WriteInt32(iTimeout, 8);
      OneMore(start, os.Contents(), f, 8);
      ok := WriteStrMap(os, context, 9);
      if !ok { return; }
      OneMore(start, os.Contents(), f, 9);
      ok := WriteStrMap(os, status, 10);
      if !ok { return; }
      ok := true;
    }

    /** readFrom. */
    method ReadFrom(ins: InputStream) returns (r: Out<()>)
      modifies this, ins`cur
      ensures var s := ReadFields(ins.buf, old(ins.cur), REQUEST_SCHEMA, 0, [], Struct(RequestFields(old(View()))));
        if s.Ok? then r == Ok((), s.cur) && ins.cur == s.cur && Struct(RequestFields(View())) == s.value
        else r == Abort(s) && (s.Throw? ==> ins.cur == s.cur)
    {
      hide Progress, ReadFields, MapValue, RequestFields, Member, REQUEST_SCHEMA;
      ghost var p, acc := View(), [];
      ghost var was := Struct(RequestFields(p));
      ghost var total := ReadFields(ins.buf, ins.cur, REQUEST_SCHEMA, 0, [], was);
      RequestEntries(p);
      Begin(ins.buf, ins.cur, REQUEST_SCHEMA, was);
      ResetDefault();
      r, acc := ReadFirst(ins, total, p);
      if r.Ok? {
        r, acc := ReadRest(ins, total, p, acc);
        if r.Ok? {
          Done(total, ins.buf, ins.cur, REQUEST_SCHEMA, acc, was);
          RequestChain(View());
        }
      }
    }

    method ReadFirst(ins: InputStream, ghost total: Out<Value>, ghost p: Request)
        returns (r: Out<()>, ghost acc: seq<Field>)
      requires iVersion == 0 && cPacketType == 0 && iMessageType == 0 && iRequestId == 0 && sServantName == []
      requires Progress(total, ins.buf, ins.cur, REQUEST_SCHEMA, 0, [], Struct(RequestFields(p)))
      modifies `iVersion, `cPacketType, `iMessageType, `iRequestId, `sServantName, ins`cur
      ensures r.Ok? ==> Progress(total, ins.buf, ins.cur, REQUEST_SCHEMA, 5, acc, Struct(RequestFields(p)))
      ensures r.Ok? ==>
        acc == [] + [Field(1, Int(iVersion))] + [Field(2, Int(cPacketType))] + [Field(3, Int(iMessageType))]
        + [Field(4, Int(iRequestId))] + [Field(5, Str(sServantName))]
      ensures r.Ok? ==> r == Ok((), ins.cur)
      ensures !r.Ok? ==> total == AbortWith(r) && (r.Throw? ==> ins.cur == r.cur)
    {
      hide Progress, MapValue, RequestFields, Member, REQUEST_SCHEMA;
      ghost var was := Struct(RequestFields(p));
      acc := [];
      RequestEntries(p);
      var v0 := ReadNumber(ins, Short, 1, true, iVersion, total, REQUEST_SCHEMA, acc, was);
      if !v0.Ok? { return Abort(v0), acc; }
      iVersion, acc := v0.value, acc + [Field(1, Int(v0.value))];
      var v1 := ReadNumber(ins, Char, 2, true, cPacketType, total, REQUEST_SCHEMA, acc, was);
      if !v1.Ok? { return Abort(v1), acc; }
      cPacketType, acc := v1.value, acc + [Field(2, Int(v1.value))];
      var v2 := ReadNumber(ins, Int32, 3, true, iMessageType, total, REQUEST_SCHEMA, acc, was);
      if !v2.Ok? { return Abort(v2), acc; }
      iMessageType, acc := v2.value, acc + [Field(3, Int(v2.value))];
      var v3 := ReadNumber(ins, Int32, 4, true, iRequestId, total, REQUEST_SCHEMA, acc, was);
      if !v3.Ok? { return Abort(v3), acc; }
      iRequestId, acc := v3.value, acc + [Field(4, Int(v3.value))];
      var v4 := ReadText(ins, 5, true, sServantName, total, REQUEST_SCHEMA, acc, was);
      if !v4.Ok? { return Abort(v4), acc; }
      sServantName, acc := v4.value, acc + [Field(5, Str(v4.value))];
      r := Ok((), ins.cur);
    }

    method ReadRest(ins: InputStream, ghost total: Out<Value>, ghost p: Request, ghost acc0: seq<Field>)
        returns (r: Out<()>, ghost acc: seq<Field>)
      requires sFuncName == [] && sBuffer == p.sBuffer && iTimeout == 0 && context == p.context && status == p.status
      requires Progress(total, ins.buf, ins.cur, REQUEST_SCHEMA, 5, acc0, Struct(RequestFields(p)))
      modifies `sFuncName, `sBuffer, `iTimeout, `context, `status, ins`cur
      ensures r.Ok? ==> Progress(total, ins.buf, ins.cur, REQUEST_SCHEMA, 10, acc, Struct(RequestFields(p)))
      ensures r.Ok? ==>
        acc == acc0 + [Field(6, Str(sFuncName))] + [Field(7, Blob(sBuffer))] + [Field(8, Int(iTimeout))]
        + [Field(9, MapValue(context))] + [Field(10, MapValue(status))]
      ensures r.Ok? ==> r == Ok((), ins.cur)
      ensures !r.Ok? ==> total == AbortWith(r) && (r.Throw? ==> ins.cur == r.cur)
    {
      hide Progress, MapValue, RequestFields, Member, REQUEST_SCHEMA;
      ghost var was := Struct(RequestFields(p));
      acc := acc0;
      RequestEntries(p);
      var v5 := ReadText(ins, 6, true, sFuncName, total, REQUEST_SCHEMA, acc, was);
      if !v5.Ok? { return Abort(v5), acc; }
      sFuncName, acc := v5.value, acc + [Field(6, Str(v5.value))];
      var v6 := ReadCharVec(ins, 7, true, sBuffer, total, REQUEST_SCHEMA, acc, was);
      if !v6.Ok? { return Abort(v6), acc; }
      sBuffer, acc := v6.value, acc + [Field(7, Blob(v6.value))];
      var v7 := ReadNumber(ins, Int32, 8, true, iTimeout, total, REQUEST_SCHEMA, acc, was);
      if !v7.Ok? { return Abort(v7), acc; }
      iTimeout, acc := v7.value, acc + [Field(8, Int(v7.value))];
      var v8 := ReadStrMap(ins, 9, true, context, total, REQUEST_SCHEMA, acc, was);
      if !v8.Ok? { return Abort(v8), acc; }
      context, acc := v8.value, acc + [Field(9, MapValue(v8.value))];
      var v9 := ReadStrMap(ins, 10, true, status, total, REQUEST_SCHEMA, acc, was);
      if !v9.Ok? { return Abort(v9), acc; }
      status, acc := v9.value, acc + [Field(10, MapValue(v9.value))];
      r := Ok((), ins.cur);
    }
  }

  // ---------- ResponsePacket ----------

  ghost predicate ResponseTyped(p: Response) {
    Fits(p.iVersion, 2) && Fits(p.cPacketType, 1) && Fits(p.iRequestId, 4) && Fits(p.iMessageType, 4)
    && Fits(p.iRet, 4)
  }

  ghost predicate ResponseSendable(p: Response) {
    TextsOk(p.status) && TextOk(p.sResultDesc) && TextsOk(p.context)
  }

  /** The members in schema order: type, whether required, and the value each holds when it is read. */
  lemma ResponseEntries(p: Response)
    ensures |RESPONSE_SCHEMA| == |ResponseMembers(p)| == 9
    ensures Member(RESPONSE_SCHEMA, 0, Struct(ResponseMembers(p)), TInt(Short), true, Int(0))
    ensures Member(RESPONSE_SCHEMA, 1, Struct(ResponseMembers(p)), TInt(Char), true, Int(0))
    ensures Member(RESPONSE_SCHEMA, 2, Struct(ResponseMembers(p)), TInt(Int32), true, Int(0))
    ensures Member(RESPONSE_SCHEMA, 3, Struct(ResponseMembers(p)), TInt(Int32), true, Int(0))
    ensures Member(RESPONSE_SCHEMA, 4, Struct(ResponseMembers(p)), TInt(Int32), true, Int(0))
    ensures Member(RESPONSE_SCHEMA, 5, Struct(ResponseMembers(p)), TBlob, true, Blob(p.sBuffer))
    ensures Member(RESPONSE_SCHEMA, 6, Struct(ResponseMembers(p)), STRING_MAP, true, MapValue(p.status))
    ensures Member(RESPONSE_SCHEMA, 7, Struct(ResponseMembers(p)), TString, false, Str([]))
    ensures Member(RESPONSE_SCHEMA, 8, Struct(ResponseMembers(p)), STRING_MAP, false, MapValue(p.context))
  {
    hide Member;
    ResponseEntriesFirst(p);
    ResponseEntriesRest(p);
  }

  lemma ResponseEntriesFirst(p: Response)
    ensures |RESPONSE_SCHEMA| == |ResponseMembers(p)| == 9
    ensures Member(RESPONSE_SCHEMA, 0, Struct(ResponseMembers(p)), TInt(Short), true, Int(0))
    ensures Member(RESPONSE_SCHEMA, 1, Struct(ResponseMembers(p)), TInt(Char), true, Int(0))
    ensures Member(RESPONSE_SCHEMA, 2, Struct(ResponseMembers(p)), TInt(Int32), true, Int(0))
    ensures Member(RESPONSE_SCHEMA, 3, Struct(ResponseMembers(p)), TInt(Int32), true, Int(0))
    ensures Member(RESPONSE_SCHEMA, 4, Struct(ResponseMembers(p)), TInt(Int32), true, Int(0))
  {
    hide Find, MapValue;
  }

  lemma ResponseEntriesRest(p: Response)
    ensures |RESPONSE_SCHEMA| == |ResponseMembers(p)| == 9
    ensures Member(RESPONSE_SCHEMA, 5, Struct(ResponseMembers(p)), TBlob, true, Blob(p.sBuffer))
    ensures Member(RESPONSE_SCHEMA, 6, Struct(ResponseMembers(p)), STRING_MAP, true, MapValue(p.status))
    ensures Member(RESPONSE_SCHEMA, 7, Struct(ResponseMembers(p)), TString, false, Str([]))
    ensures Member(RESPONSE_SCHEMA, 8, Struct(ResponseMembers(p)), STRING_MAP, false, MapValue(p.context))
  {
    hide Find, MapValue;
    assert forall i :: 0 <= i < 9 ==> ResponseMembers(p)[i].tag == i + 1;
    FindAt(ResponseMembers(p), 5);
    FindAt(ResponseMembers(p), 6);
    FindAt(ResponseMembers(p), 8);
  }

  lemma ResponseValues(p: Response)
    ensures |ResponseMembers(p)| == 9
    ensures ResponseMembers(p)[0] == Field(1, Int(p.iVersion))
    ensures ResponseMembers(p)[1] == Field(2, Int(p.cPacketType))
    ensures ResponseMembers(p)[2] == Field(3, Int(p.iRequestId))
    ensures ResponseMembers(p)[3] == Field(4, Int(p.iMessageType))
    ensures ResponseMembers(p)[4] == Field(5, Int(p.iRet))
    ensures ResponseMembers(p)[5] == Field(6, Blob(p.sBuffer))
    ensures ResponseMembers(p)[6] == Field(7, MapValue(p.status))
    ensures ResponseMembers(p)[7] == Field(8, Str(p.sResultDesc))
    ensures ResponseMembers(p)[8] == Field(9, MapValue(p.context))
  {
    hide MapValue;
  }

  lemma ResponseChain(p: Response)
    ensures ResponseMembers(p) ==
      ([] + [Field(1, Int(p.iVersion))] + [Field(2, Int(p.cPacketType))] + [Field(3, Int(p.iRequestId))]
        + [Field(4, Int(p.iMessageType))] + [Field(5, Int(p.iRet))])
      + [Field(6, Blob(p.sBuffer))] + [Field(7, MapValue(p.status))] + [Field(8, Str(p.sResultDesc))]
      + [Field(9, MapValue(p.context))]
  {
    hide MapValue;
  }

  class ResponsePacket {
    var iVersion: int
    var cPacketType: int
    var iRequestId: int
    var iMessageType: int
    var iRet: int
    var sBuffer: seq<byte>
    var status: StrMap
    var sResultDesc: seq<byte>
    var context: StrMap

    function View(): Response
      reads this
    {
      Response(iVersion, cPacketType, iRequestId, iMessageType, iRet, sBuffer, status, sResultDesc, context)
    }

    constructor ()
      ensures View() == Response(0, 0, 0, 0, 0, [], [], [], [])
    {
      iVersion := 0;
      cPacketType := 0;
      iRequestId := 0;
      iMessageType := 0;
      iRet := 0;
      sBuffer := [];
      status := [];
      sResultDesc := [];
      context := [];
    }

    /** resetDefautlt: the containers keep what they hold. */
    method ResetDefault()
      modifies this
      ensures View() == old(View()).(iVersion := 0, cPacketType := 0, iRequestId := 0, iMessageType := 0, iRet := 0,
        sResultDesc := [])
    {
      iVersion := 0;
      cPacketType := 0;
      iRequestId := 0;
      iMessageType := 0;
      iRet := 0;
      sResultDesc := [];
    }

    /** writeTo; false is the exception for an over-long string. */
    method WriteTo(os: OutputStream) returns (ok: bool)
      requires os.Valid() && ResponseTyped(View())
      modifies os, os.buf
      ensures os.Valid() && (os.buf == old(os.buf) || fresh(os.buf))
      ensures ok <==> ResponseSendable(View())
      ensures ok ==> os.Contents() == old(os.Contents()) + Fields(ResponseFields(View()))
    {
      hide Sent, MapValue, Fits, TextOk, TextsOk, ResponseFields, Fields, OutputStream.Contents;
      ghost var f, start := ResponseFields(View()), os.Contents();
      NoneSent(start, f);
      WriteFirst(os, start);
      ok := WriteRest(os, start);
      if ok { AllSent(start, os.Contents(), f); }
    }

    method WriteFirst(os: OutputStream, ghost start: seq<byte>)
      requires os.Valid() && ResponseTyped(View())
      requires Sent(start, os.Contents(), ResponseFields(View()), 0)
      modifies os, os.buf
      ensures os.Valid() && (os.buf == old(os.buf) || fresh(os.buf))
      ensures Sent(start, os.Contents(), ResponseFields(View()), 5)
    {
      hide Sent, Write, WriteInt, MapValue, Fits, ResponseFields, Fields, OutputStream.Contents;
      ghost var f := ResponseFields(View());
      ResponseValues(View());
      ResponseIndex(View());
      OneMore(start, os.Contents(), f, 0);
      os.WriteShort(iVersion, 1);
      OneMore(start, os.Contents(), f, 1);
      os.WriteChar(cPacketType, 2);
      OneMore(start, os.Contents(), f, 2);
      os.WriteInt32(iRequestId, 3);
      OneMore(start, os.Contents(), f, 3);
      os.WriteInt32(iMessageType, 4);
      OneMore(start, os.Contents(), f, 4);
      os.WriteInt32(iRet, 5);
    }

    method WriteRest(os: OutputStream, ghost start: seq<byte>) returns (ok: bool)
      requires os.Valid() && ResponseTyped(View())
      requires Sent(start, os.Contents(), ResponseFields(View()), 5)
      modifies os, os.buf
      ensures os.Valid() && (os.buf == old(os.buf) || fresh(os.buf))
      ensures ok <==> TextsOk(status) && TextOk(sResultDesc) && TextsOk(context)
      ensures ok ==> Sent(start, os.Contents(), ResponseFields(View()), |ResponseFields(View())|)
    {
      hide Sent, Write, WriteInt, MapValue, Fits, ResponseFields, Fields, OutputStream.Contents;
      ghost var f := ResponseFields(View());
      ResponseValues(View());
      ResponseIndex(View());
      OneMore(start, os.Contents(), f, 5);
      os.WriteCharVector(sBuffer, 6);
      OneMore(start, os.Contents(), f, 6);
      ok := WriteStrMap(os, status, 7);
      if !ok { return; }
      if sResultDesc != [] {
        OneMore(start, os.Contents(), f, 7);
        ok := WriteText(os, sResultDesc, 8);
        if !ok { return; }
      }
      if |context| > 0 {
        OneMore(start, os.Contents(), f, |f| - 1);
        ok := WriteStrMap(os, context, 9);
        if !ok { return; }
      }
      ok := true;
    }

    /** readFrom. */
    method ReadFrom(ins: InputStream) returns (r: Out<()>)
      modifies this, ins`cur
      ensures var s := ReadFields(ins.buf, old(ins.cur), RESPONSE_SCHEMA, 0, [], Struct(ResponseMembers(old(View()))));
        if s.Ok? then r == Ok((), s.cur) && ins.cur == s.cur && Struct(ResponseMembers(View())) == s.value
        else r == Abort(s) && (s.Throw? ==> ins.cur == s.cur)
    {
      hide Progress, ReadFields, MapValue, ResponseMembers, Member, RESPONSE_SCHEMA;
      ghost var p, acc := View(), [];
      ghost var was := Struct(ResponseMembers(p));
      ghost var total := ReadFields(ins.buf, ins.cur, RESPONSE_SCHEMA, 0, [], was);
      ResponseEntries(p);
      Begin(ins.buf, ins.cur, RESPONSE_SCHEMA, was);
      ResetDefault();
      r, acc := ReadFirst(ins, total, p);
      if r.Ok? {
        r, acc := ReadRest(ins, total, p, acc);
        if r.Ok? {
          Done(total, ins.buf, ins.cur, RESPONSE_SCHEMA, acc, was);
          ResponseChain(View());
        }
      }
    }

    method ReadFirst(ins: InputStream, ghost total: Out<Value>, ghost p: Response)
        returns (r: Out<()>, ghost acc: seq<Field>)
      requires iVersion == 0 && cPacketType == 0 && iRequestId == 0 && iMessageType == 0 && iRet == 0
      requires Progress(total, ins.buf, ins.cur, RESPONSE_SCHEMA, 0, [], Struct(ResponseMembers(p)))
      modifies `iVersion, `cPacketType, `iRequestId, `iMessageType, `iRet, ins`cur
      ensures r.Ok? ==> Progress(total, ins.buf, ins.cur, RESPONSE_SCHEMA, 5, acc, Struct(ResponseMembers(p)))
      ensures r.Ok? ==>
        acc == [] + [Field(1, Int(iVersion))] + [Field(2, Int(cPacketType))] + [Field(3, Int(iRequestId))]
        + [Field(4, Int(iMessageType))] + [Field(5, Int(iRet))]
      ensures r.Ok? ==> r == Ok((), ins.cur)
      ensures !r.Ok? ==> total == AbortWith(r) && (r.Throw? ==> ins.cur == r.cur)
    {
      hide Progress, MapValue, ResponseMembers, Member, RESPONSE_SCHEMA;
      ghost var was := Struct(ResponseMembers(p));
      acc := [];
      ResponseEntries(p);
      var v0 := ReadNumber(ins, Short, 1, true, iVersion, total, RESPONSE_SCHEMA, acc, was);
      if !v0.Ok? { return Abort(v0), acc; }
      iVersion, acc := v0.value, acc + [Field(1, Int(v0.value))];
      var v1 := ReadNumber(ins, Char, 2, true, cPacketType, total, RESPONSE_SCHEMA, acc, was);
      if !v1.Ok? { return Abort(v1), acc; }
      cPacketType, acc := v1.value, acc + [Field(2, Int(v1.value))];
      var v2 := ReadNumber(ins, Int32, 3, true, iRequestId, total, RESPONSE_SCHEMA, acc, was);
      if !v2.Ok? { return Abort(v2), acc; }
      iRequestId, acc := v2.value, acc + [Field(3, Int(v2.value))];
      var v3 := ReadNumber(ins, Int32, 4, true, iMessageType, total, RESPONSE_SCHEMA, acc, was);
      if !v3.Ok? { return Abort(v3), acc; }
      iMessageType, acc := v3.value, acc + [Field(4, Int(v3.value))];
      var v4 := ReadNumber(ins, Int32, 5, true, iRet, total, RESPONSE_SCHEMA, acc, was);
      if !v4.Ok? { return Abort(v4), acc; }
      iRet, acc := v4.value, acc + [Field(5, Int(v4.value))];
      r := Ok((), ins.cur);
    }

    method ReadRest(ins: InputStream, ghost total: Out<Value>, ghost p: Response, ghost acc0: seq<Field>)
        returns (r: Out<()>, ghost acc: seq<Field>)
      requires sBuffer == p.sBuffer && status == p.status && sResultDesc == [] && context == p.context
      requires Progress(total, ins.buf, ins.cur, RESPONSE_SCHEMA, 5, acc0, Struct(ResponseMembers(p)))
      modifies `sBuffer, `status, `sResultDesc, `context, ins`cur
      ensures r.Ok? ==> Progress(total, ins.buf, ins.cur, RESPONSE_SCHEMA, 9, acc, Struct(ResponseMembers(p)))
      ensures r.Ok? ==>
        acc == acc0 + [Field(6, Blob(sBuffer))] + [Field(7, MapValue(status))] + [Field(8, Str(sResultDesc))]
        + [Field(9, MapValue(context))]
      ensures r.Ok? ==> r == Ok((), ins.cur)
      ensures !r.Ok? ==> total == AbortWith(r) && (r.Throw? ==> ins.cur == r.cur)
    {
      hide Progress, MapValue, ResponseMembers, Member, RESPONSE_SCHEMA;
      ghost var was := Struct(ResponseMembers(p));
      acc := acc0;
      ResponseEntries(p);
      var v5 := ReadCharVec(ins, 6, true, sBuffer, total, RESPONSE_SCHEMA, acc, was);
      if !v5.Ok? { return Abort(v5), acc; }
      sBuffer, acc := v5.value, acc + [Field(6, Blob(v5.value))];
      var v6 := ReadStrMap(ins, 7, true, status, total, RESPONSE_SCHEMA, acc, was);
      if !v6.Ok? { return Abort(v6), acc; }
      status, acc := v6.value, acc + [Field(7, MapValue(v6.value))];
      var v7 := ReadText(ins, 8, false, sResultDesc, total, RESPONSE_SCHEMA, acc, was);
      if !v7.Ok? { return Abort(v7), acc; }
      sResultDesc, acc := v7.value, acc + [Field(8, Str(v7.value))];
      var v8 := ReadStrMap(ins, 9, false, context, total, RESPONSE_SCHEMA, acc, was);
      if !v8.Ok? { return Abort(v8), acc; }
      context, acc := v8.value, acc + [Field(9, MapValue(v8.value))];
      r := Ok((), ins.cur);
    }
  }
}
