/** RequestPacket and ResponsePacket (tup/RequestF.h): schemas, classes and whole-packet round trips. */
module RequestF {
  import opened Bytes
  import opened TarsValue
  import opened TarsSkip
  import opened TarsRead
  import opened TarsEvolution

  datatype Pair = Pair(key: seq<byte>, val: seq<byte>)

  /** map<string, string>, as its entries in iteration order. */
  type StrMap = seq<Pair>

  ghost predicate Sorted(m: StrMap) {
    forall i, j :: 0 <= i < j < |m| ==> Lexicographic(m[i].key, m[j].key)
  }

  function MapValue(m: StrMap): Value {
    Map(seq(|m|, i requires 0 <= i < |m| => Entry(Str(m[i].key), Str(m[i].val))))
  }

  function MapOf(v: Value): StrMap
    requires TypedAs(v, STRING_MAP)
  {
    seq(|v.entries|, i requires 0 <= i < |v.entries| => Pair(v.entries[i].key.s, v.entries[i].val.s))
  }

  const STRING_MAP := TMap(TString, TString)

  /** The four kinds of packet members. */
  predicate TypedAs(v: Value, ty: Type) {
    match ty
    case TInt(_) => v.Int?
    case TString => v.Str?
    case TBlob => v.Blob?
    case TMap(_, _) => v.Map? && forall i :: 0 <= i < |v.entries| ==> v.entries[i].key.Str? && v.entries[i].val.Str?
    case _ => false
  }

  predicate PacketType(ty: Type) {
    ty.TInt? || ty == TString || ty == TBlob || ty == STRING_MAP
  }

  lemma MapInverse(m: StrMap, v: Value)
    ensures TypedAs(MapValue(m), STRING_MAP) && MapOf(MapValue(m)) == m
    ensures TypedAs(v, STRING_MAP) ==> MapValue(MapOf(v)) == v
  {
  }

  /** What is read into a packet member is a value of its type. */
  lemma ReadTyped(b: seq<byte>, cur: nat, ty: Type, tag: byte, required: bool, was: Value)
    requires PacketType(ty) && TypedAs(was, ty)
    ensures Read(b, cur, ty, tag, required, was).Ok? ==> TypedAs(Read(b, cur, ty, tag, required, was).value, ty)
  {
    hide TarsSkip.SkipToTag, IntBody, StringBody, BlobBody, CharsBody, SizeAt, ReadEntries;
    if ty.TMap? {
      var s := TarsSkip.SkipToTag(b, cur, tag);
      if s.Found? && SizeAt(b, s.cur).Ok? {
        EntriesTyped(b, SizeAt(b, s.cur).cur, SizeAt(b, s.cur).value, []);
      }
    }
  }

  lemma {:induction false} InsertTyped(acc: seq<Entry>, e: Entry)
    requires TypedAs(Map(acc), STRING_MAP) && e.key.Str? && e.val.Str?
    ensures TypedAs(Map(Insert(acc, e)), STRING_MAP)
  {
    hide Less;
    if acc != [] {
      assert TypedAs(Map(acc[1..]), STRING_MAP);
      InsertTyped(acc[1..], e);
    }
  }

  lemma StringRead(b: seq<byte>, cur: nat, tag: byte)
    ensures Read(b, cur, TString, tag, true, Default(TString)).Ok? ==>
      Read(b, cur, TString, tag, true, Default(TString)).value.Str?
  {
    hide TarsSkip.SkipToTag, StringBody;
  }

  lemma {:induction false} EntriesTyped(b: seq<byte>, cur: nat, n: int, acc: seq<Entry>)
    requires TypedAs(Map(acc), STRING_MAP)
    ensures ReadEntries(b, cur, STRING_MAP, n, acc).Ok? ==>
      TypedAs(ReadEntries(b, cur, STRING_MAP, n, acc).value, STRING_MAP)
    decreases n
  {
    hide Read, Insert;
    if n > 0 {
      StringRead(b, cur, 0);
      var k := Read(b, cur, TString, 0, true, Default(TString));
      if k.Ok? {
        StringRead(b, k.cur, 1);
        var v := Read(b, k.cur, TString, 1, true, Default(TString));
        if v.Ok? {
          InsertTyped(acc, Entry(k.value, v.value));
          EntriesTyped(b, v.cur, n - 1, Insert(acc, Entry(k.value, v.value)));
        }
      }
    }
  }

  // ---------- generic steps over a schema ----------

  lemma FieldsStep(b: seq<byte>, cur: nat, schema: seq<FieldType>, i: nat, acc: seq<Field>, was: Value)
    requires i < |schema|
    ensures match ReadField(b, cur, schema[i], was)
            case Ok(v, c) => ReadFields(b, cur, schema, i, acc, was)
                          == ReadFields(b, c, schema, i + 1, acc + [Field(schema[i].tag, v)], was)
            case r => ReadFields(b, cur, schema, i, acc, was) == r
  {
    hide ReadField;
  }

  lemma {:induction false} FindAt(fields: seq<Field>, i: nat)
    requires Increasing(fields) && i < |fields|
    ensures Find(fields, fields[i].tag) == Present(fields[i].value)
    decreases i
  {
    if i > 0 { FindAt(fields[1..], i - 1); }
  }

  lemma {:induction false} FindNot(fields: seq<Field>, tag: byte)
    requires forall i :: 0 <= i < |fields| ==> fields[i].tag != tag
    ensures Find(fields, tag) == Missing
  {
    if fields != [] { FindNot(fields[1..], tag); }
  }

  lemma NoneBehind(fields: seq<Field>, tag: int, rest: seq<Field>)
    requires RestFrom(fields, tag, rest) && (fields != [] ==> fields[|fields| - 1].tag < tag)
    ensures rest == []
  {
    assert forall i :: 0 <= i < |rest| ==> rest[i] == fields[|fields| - |rest| + i];
  }

  /** A top-level packet that the buffer holds exactly is read to its end. */
  lemma WholePacket(b: seq<byte>, cur: nat, schema: seq<FieldType>, fields: seq<Field>, was: Value)
    requires IncreasingSchema(schema) && Increasing(fields) && EncodableFields(fields)
    requires At(b, cur, Fields(fields)) && cur + |Fields(fields)| == |b|
    requires forall k :: 0 <= k < |schema| ==> CompatibleField(fields, schema[k])
    requires schema != [] && (fields != [] ==> fields[|fields| - 1].tag <= schema[|schema| - 1].tag)
    ensures ReadFields(b, cur, schema, 0, [], was) == Ok(Struct(ProjectFields(fields, schema, was)), |b|)
  {
    hide Fields, ReadFields, CompatibleField, ProjectFields, EncodableFields;
    assert RestFrom(fields, 0, fields);
    assert ProjectFields(fields, schema, was)[..0] == [];
    var next, rest := FieldsExact(b, cur, schema, 0, fields, fields, was, |b|);
    NoneBehind(fields, schema[|schema| - 1].tag + 1, rest);
    BoundaryEnd(b, next, |b|, 0);
  }

  /** A member of the packet's own types is projected to itself. */
  lemma OwnValue(v: Value, ty: Type, was: Value)
    requires PacketType(ty) && TypedAs(v, ty)
    ensures Project(v, ty, was) == v
  {
    if ty.TMap? {
      assert forall i :: 0 <= i < |v.entries| ==>
        Entry(v.entries[i].key, Project(v.entries[i].val, ty.val, Default(ty.val))) == v.entries[i];
      assert Project(v, ty, was).entries == v.entries;
    }
  }

  lemma MapCompatible(m: StrMap)
    requires Sorted(m) && |m| < 0x4000_0000
    requires forall i :: 0 <= i < |m| ==> |m[i].key| <= MAX_STRING_LENGTH && |m[i].val| <= MAX_STRING_LENGTH
    ensures Compatible(MapValue(m), STRING_MAP) && Encodable(MapValue(m))
  {
    var entries := MapValue(m).entries;
    forall i | 0 <= i < |entries| ensures Encodable(entries[i].key) && Encodable(entries[i].val) {
      assert entries[i] == Entry(Str(m[i].key), Str(m[i].val));
    }
  }

  // ---------- RequestPacket ----------

  datatype Request = Request(
    iVersion: int, cPacketType: int, iMessageType: int, iRequestId: int,
    sServantName: seq<byte>, sFuncName: seq<byte>, sBuffer: seq<byte>, iTimeout: int,
    context: StrMap, status: StrMap)

  /** What the C++ member types and the size limits of the format guarantee. */
  ghost predicate RequestOk(p: Request) {
    Fits(p.iVersion, 2) && Fits(p.cPacketType, 1) && Fits(p.iMessageType, 4) && Fits(p.iRequestId, 4)
    && Fits(p.iTimeout, 4) && TextOk(p.sServantName) && TextOk(p.sFuncName)
    && |p.sBuffer| < 0x8000_0000 && MapOk(p.context) && MapOk(p.status)
  }

  ghost predicate TextOk(s: seq<byte>) {
    |s| <= MAX_STRING_LENGTH
  }

  ghost predicate MapOk(m: StrMap) {
    Sorted(m) && |m| < 0x4000_0000
    && forall i :: 0 <= i < |m| ==> |m[i].key| <= MAX_STRING_LENGTH && |m[i].val| <= MAX_STRING_LENGTH
  }

  /** writeTo: ten fields with tags 1 to 10. */
  function RequestFields(p: Request): seq<Field> {
    [ Field(1, Int(p.iVersion)), Field(2, Int(p.cPacketType)), Field(3, Int(p.iMessageType)),
      Field(4, Int(p.iRequestId)), Field(5, Str(p.sServantName)), Field(6, Str(p.sFuncName)),
      Field(7, Blob(p.sBuffer)), Field(8, Int(p.iTimeout)), Field(9, MapValue(p.context)),
      Field(10, MapValue(p.status)) ]
  }

  /** readFrom; resetDefautlt leaves sBuffer, context and status alone. */
  const REQUEST_SCHEMA: seq<FieldType> :=
    [ FieldType(1, TInt(Short), true, ResetTo(Int(0))), FieldType(2, TInt(Char), true, ResetTo(Int(0))),
      FieldType(3, TInt(Int32), true, ResetTo(Int(0))), FieldType(4, TInt(Int32), true, ResetTo(Int(0))),
      FieldType(5, TString, true, ResetTo(Str([]))), FieldType(6, TString, true, ResetTo(Str([]))),
      FieldType(7, TBlob, true, Keep), FieldType(8, TInt(Int32), true, ResetTo(Int(0))),
      FieldType(9, STRING_MAP, true, Keep), FieldType(10, STRING_MAP, true, Keep) ]

  lemma RequestMember(p: Request, i: nat)
    requires RequestOk(p) && i < 10
    ensures REQUEST_SCHEMA[i].tag == RequestFields(p)[i].tag == i + 1
    ensures PacketType(REQUEST_SCHEMA[i].ty) && TypedAs(RequestFields(p)[i].value, REQUEST_SCHEMA[i].ty)
    ensures Compatible(RequestFields(p)[i].value, REQUEST_SCHEMA[i].ty)
    ensures Encodable(RequestFields(p)[i].value)
  {
    hide Sorted;
    Powers();
    MapCompatible(p.context);
    MapCompatible(p.status);
  }

  lemma RequestShape(p: Request)
    requires RequestOk(p)
    ensures |RequestFields(p)| == |REQUEST_SCHEMA| == 10
    ensures Increasing(RequestFields(p)) && IncreasingSchema(REQUEST_SCHEMA) && EncodableFields(RequestFields(p))
    ensures forall k :: 0 <= k < 10 ==> CompatibleField(RequestFields(p), REQUEST_SCHEMA[k])
    ensures forall was: Value :: ProjectFields(RequestFields(p), REQUEST_SCHEMA, was) == RequestFields(p)
  {
    hide RequestOk, Compatible, Encodable, Project, Find;
    var fields := RequestFields(p);
    forall i | 0 <= i < 10
      ensures REQUEST_SCHEMA[i].tag == fields[i].tag == i + 1 && Encodable(fields[i].value)
    {
      RequestMember(p, i);
    }
    forall k | 0 <= k < 10 ensures CompatibleField(fields, REQUEST_SCHEMA[k]) {
      RequestMember(p, k);
      FindAt(fields, k);
    }
    forall was: Value ensures ProjectFields(fields, REQUEST_SCHEMA, was) == fields {
      forall k | 0 <= k < 10
        ensures Field(REQUEST_SCHEMA[k].tag, ProjectField(fields, REQUEST_SCHEMA[k], was)) == fields[k]
      {
        RequestMember(p, k);
        FindAt(fields, k);
        OwnValue(fields[k].value, REQUEST_SCHEMA[k].ty, Prior(REQUEST_SCHEMA[k], was));
      }
    }
  }

  /** Decoding an encoded request, into whatever target, gives the request and consumes the encoding. */
  lemma RequestRoundTrip(b: seq<byte>, cur: nat, p: Request, was: Value)
    requires RequestOk(p)
    requires At(b, cur, Fields(RequestFields(p))) && cur + |Fields(RequestFields(p))| == |b|
    ensures ReadFields(b, cur, REQUEST_SCHEMA, 0, [], was) == Ok(Struct(RequestFields(p)), |b|)
  {
    hide RequestOk, Fields, ReadFields, CompatibleField, EncodableFields, ProjectFields;
    RequestShape(p);
    WholePacket(b, cur, REQUEST_SCHEMA, RequestFields(p), was);
  }

  // ---------- ResponsePacket ----------

  datatype Response = Response(
    iVersion: int, cPacketType: int, iRequestId: int, iMessageType: int, iRet: int,
    sBuffer: seq<byte>, status: StrMap, sResultDesc: seq<byte>, context: StrMap)

  ghost predicate ResponseOk(p: Response) {
    Fits(p.iVersion, 2) && Fits(p.cPacketType, 1) && Fits(p.iRequestId, 4) && Fits(p.iMessageType, 4)
    && Fits(p.iRet, 4) && |p.sBuffer| < 0x8000_0000 && MapOk(p.status) && TextOk(p.sResultDesc) && MapOk(p.context)
  }

  function ResponseMembers(p: Response): seq<Field> {
    [ Field(1, Int(p.iVersion)), Field(2, Int(p.cPacketType)), Field(3, Int(p.iRequestId)),
      Field(4, Int(p.iMessageType)), Field(5, Int(p.iRet)), Field(6, Blob(p.sBuffer)),
      Field(7, MapValue(p.status)), Field(8, Str(p.sResultDesc)), Field(9, MapValue(p.context)) ]
  }

  /** writeTo: an empty description and an empty context are not sent. */
  function ResponseFields(p: Response): seq<Field> {
    var m := ResponseMembers(p);
    m[..7] + (if p.sResultDesc != [] then [m[7]] else []) + (if |p.context| > 0 then [m[8]] else [])
  }

  /** What of a response is sent, by tag: an empty description and an empty context are not. */
  lemma ResponseSends(p: Response)
    ensures Find(ResponseFields(p), 1) == Present(Int(p.iVersion))
    ensures Find(ResponseFields(p), 2) == Present(Int(p.cPacketType))
    ensures Find(ResponseFields(p), 3) == Present(Int(p.iRequestId))
    ensures Find(ResponseFields(p), 4) == Present(Int(p.iMessageType))
    ensures Find(ResponseFields(p), 5) == Present(Int(p.iRet))
    ensures Find(ResponseFields(p), 6) == Present(Blob(p.sBuffer))
    ensures Find(ResponseFields(p), 7) == Present(MapValue(p.status))
    ensures Find(ResponseFields(p), 8) == if p.sResultDesc == [] then Missing else Present(Str(p.sResultDesc))
    ensures Find(ResponseFields(p), 9) == if |p.context| == 0 then Missing else Present(MapValue(p.context))
    ensures |ResponseFields(p)| == 7 + (if p.sResultDesc == [] then 0 else 1) + (if |p.context| == 0 then 0 else 1)
  {
    hide MapValue, Find;
    var f := ResponseFields(p);
    FindTag(f, 0);
    FindTag(f, 1);
    FindTag(f, 2);
    FindTag(f, 3);
    FindTag(f, 4);
    FindTag(f, 5);
    FindTag(f, 6);
    if |f| > 7 { FindTag(f, 7); }
    if |f| > 8 { FindTag(f, 8); }
    if p.sResultDesc == [] { NoTag(f, 8); }
    if |p.context| == 0 { NoTag(f, 9); }
  }

  lemma {:induction false} FindTag(f: seq<Field>, i: nat)
    requires i < |f| && Increasing(f)
    ensures Find(f, f[i].tag) == Present(f[i].value)
    decreases |f|
  {
    if i > 0 { FindTag(f[1..], i - 1); }
  }

  lemma {:induction false} NoTag(f: seq<Field>, tag: byte)
    requires forall i :: 0 <= i < |f| ==> f[i].tag != tag
    ensures Find(f, tag) == Missing
    decreases |f|
  {
    if f != [] { NoTag(f[1..], tag); }
  }

  /** readFrom; sBuffer, status and context are not reset, description and context are optional. */
  const RESPONSE_SCHEMA: seq<FieldType> :=
    [ FieldType(1, TInt(Short), true, ResetTo(Int(0))), FieldType(2, TInt(Char), true, ResetTo(Int(0))),
      FieldType(3, TInt(Int32), true, ResetTo(Int(0))), FieldType(4, TInt(Int32), true, ResetTo(Int(0))),
      FieldType(5, TInt(Int32), true, ResetTo(Int(0))), FieldType(6, TBlob, true, Keep),
      FieldType(7, STRING_MAP, true, Keep), FieldType(8, TString, false, ResetTo(Str([]))),
      FieldType(9, STRING_MAP, false, Keep) ]

  lemma ResponseMember(p: Response, i: nat)
    requires ResponseOk(p) && i < 9
    ensures RESPONSE_SCHEMA[i].tag == ResponseMembers(p)[i].tag == i + 1
    ensures PacketType(RESPONSE_SCHEMA[i].ty) && TypedAs(ResponseMembers(p)[i].value, RESPONSE_SCHEMA[i].ty)
    ensures Compatible(ResponseMembers(p)[i].value, RESPONSE_SCHEMA[i].ty)
    ensures Encodable(ResponseMembers(p)[i].value)
  {
    hide Sorted;
    Powers();
    MapCompatible(p.status);
    MapCompatible(p.context);
  }

  /** The packet found in the target: the one sent, except that an omitted context keeps the target's. */
  function Merged(p: Response, was: Response): Response {
    p.(context := if |p.context| == 0 then was.context else p.context)
  }

  lemma ResponseIndex(p: Response)
    ensures var f := ResponseFields(p); var m := ResponseMembers(p);
      && |m| == 9 && |f| >= 7 && |f| <= 9
      && (forall i :: 0 <= i < 7 ==> f[i] == m[i])
      && (forall i :: 7 <= i < |f| ==> f[i] == m[7] || f[i] == m[8])
      && (p.sResultDesc != [] ==> |f| >= 8 && f[7] == m[7])
      && (p.sResultDesc == [] ==> m[7] !in f[7..])
      && (|p.context| > 0 ==> f[|f| - 1] == m[8] && |f| >= 8)
      && (|p.context| == 0 ==> |f| <= 8 && (|f| == 8 ==> f[7] == m[7]))
      && (|f| == 9 ==> f[7] == m[7] && f[8] == m[8])
      && (forall i :: 0 <= i < 9 ==> m[i].tag == i + 1)
  {
  }

  lemma ResponseShape(p: Response)
    requires ResponseOk(p)
    ensures Increasing(ResponseFields(p)) && EncodableFields(ResponseFields(p))
    ensures forall i :: 0 <= i < |ResponseFields(p)| ==> ResponseFields(p)[i].tag <= 9
  {
    hide ResponseOk, Encodable, ResponseFields, ResponseMembers;
    ResponseIndex(p);
    var f, m := ResponseFields(p), ResponseMembers(p);
    forall i | 0 <= i < |f| ensures Encodable(f[i].value) {
      if i < 7 { ResponseMember(p, i); } else { ResponseMember(p, 7); ResponseMember(p, 8); }
    }
  }

  /** Every schema entry finds its member, or nothing when the writer left it out. */
  lemma ResponseFind(p: Response, k: nat)
    requires ResponseOk(p) && k < 9
    ensures RESPONSE_SCHEMA[k].tag == k + 1
    ensures Find(ResponseFields(p), RESPONSE_SCHEMA[k].tag)
         == if (k == 7 && p.sResultDesc == []) || (k == 8 && |p.context| == 0) then Missing
            else Present(ResponseMembers(p)[k].value)
  {
    hide ResponseOk, Find, ResponseFields, ResponseMembers;
    ResponseMember(p, k);
    ResponseShape(p);
    ResponseIndex(p);
    var f := ResponseFields(p);
    if k < 7 {
      FindAt(f, k);
    } else if k == 7 {
      if p.sResultDesc != [] { FindAt(f, 7); } else { FindNot(f, 8); }
    } else {
      if |p.context| > 0 { FindAt(f, |f| - 1); } else { FindNot(f, 9); }
    }
  }

  lemma ResponseField(p: Response, t: Response, k: nat)
    requires ResponseOk(p) && k < 9
    ensures CompatibleField(ResponseFields(p), RESPONSE_SCHEMA[k])
    ensures Field(RESPONSE_SCHEMA[k].tag, ProjectField(ResponseFields(p), RESPONSE_SCHEMA[k], Struct(ResponseMembers(t))))
         == ResponseMembers(Merged(p, t))[k]
  {
    hide ResponseOk, Compatible, Project, Find, ResponseFields;
    var was := Struct(ResponseMembers(t));
    ResponseMember(p, k);
    ResponseFind(p, k);
    if Find(ResponseFields(p), RESPONSE_SCHEMA[k].tag).Present? {
      OwnValue(ResponseMembers(p)[k].value, RESPONSE_SCHEMA[k].ty, Prior(RESPONSE_SCHEMA[k], was));
    } else if k == 8 {
      assert Increasing(ResponseMembers(t));
      FindAt(ResponseMembers(t), 8);
    }
  }

  /** Decoding an encoded response gives the response, but an omitted context keeps the target's. */
  lemma ResponseRoundTrip(b: seq<byte>, cur: nat, p: Response, t: Response)
    requires ResponseOk(p)
    requires At(b, cur, Fields(ResponseFields(p))) && cur + |Fields(ResponseFields(p))| == |b|
    ensures ReadFields(b, cur, RESPONSE_SCHEMA, 0, [], Struct(ResponseMembers(t)))
         == Ok(Struct(ResponseMembers(Merged(p, t))), |b|)
  {
    hide ResponseOk, Fields, ReadFields, CompatibleField, EncodableFields, ProjectField;
    hide ResponseFields, ResponseMembers;
    var was := Struct(ResponseMembers(t));
    ResponseShape(p);
    ResponseIndex(p);
    ResponseIndex(Merged(p, t));
    forall k | 0 <= k < 9
      ensures CompatibleField(ResponseFields(p), RESPONSE_SCHEMA[k]) && RESPONSE_SCHEMA[k].tag == k + 1
      ensures Field(RESPONSE_SCHEMA[k].tag, ProjectField(ResponseFields(p), RESPONSE_SCHEMA[k], was))
           == ResponseMembers(Merged(p, t))[k]
    {
      ResponseMember(p, k);
      ResponseField(p, t, k);
    }
    assert |RESPONSE_SCHEMA| == 9;
    WholePacket(b, cur, RESPONSE_SCHEMA, ResponseFields(p), was);
    assert ProjectFields(ResponseFields(p), RESPONSE_SCHEMA, was) == ResponseMembers(Merged(p, t));
  }

  /** The round trip is exact if and only if no stale context of the target can survive. */
  lemma ResponseExactIff(p: Response, t: Response)
    ensures Merged(p, t) == p <==> |p.context| > 0 || t.context == []
    ensures ResponseMembers(Merged(p, t)) == ResponseMembers(p) <==> |p.context| > 0 || t.context == []
  {
    if ResponseMembers(Merged(p, t)) == ResponseMembers(p) {
      assert ResponseMembers(Merged(p, t))[8] == ResponseMembers(p)[8];
      assert |MapValue(Merged(p, t).context).entries| == |MapValue(p.context).entries|;
    }
  }

  /** So decoding a response into `t` gives back what was sent under exactly that condition. */
  lemma ResponseDecodedIff(b: seq<byte>, cur: nat, p: Response, t: Response)
    requires ResponseOk(p)
    requires At(b, cur, Fields(ResponseFields(p))) && cur + |Fields(ResponseFields(p))| == |b|
    ensures ReadFields(b, cur, RESPONSE_SCHEMA, 0, [], Struct(ResponseMembers(t))) == Ok(Struct(ResponseMembers(p)), |b|)
      <==> |p.context| > 0 || t.context == []
  {
    hide ResponseOk, Fields, ReadFields, ResponseFields, ResponseMembers, Merged;
    ResponseRoundTrip(b, cur, p, t);
    ResponseExactIff(p, t);
  }
}
