/** UniAttribute and UniPacket (tup/tup.h): attributes encoded inside the sBuffer of a request packet. */
module Tup {
  import opened Bytes
  import opened TarsValue
  import opened TarsSkip
  import opened TarsRead
  import opened TarsEvolution
  import opened TarsMaps
  import opened TarsStream
  import opened TarsInput
  import opened RequestF
  import opened Packets
  import AppProtocol

  datatype Attr = Attr(name: seq<byte>, bytes: seq<byte>)

  /** map<string, vector<char>>, in key order. */
  type Attrs = seq<Attr>

  ghost predicate SortedAttrs(d: Attrs) {
    forall i, j :: 0 <= i < j < |d| ==> Lexicographic(d[i].name, d[j].name)
  }

  datatype Slot = NoSlot | Holding(bytes: seq<byte>)

  /** _data.find(name). */
  function FindAttr(d: Attrs, name: seq<byte>): Slot {
    if d == [] then NoSlot else if d[0].name == name then Holding(d[0].bytes) else FindAttr(d[1..], name)
  }

  /** _data[name] = bytes. */
  function PutAttr(d: Attrs, name: seq<byte>, bytes: seq<byte>): Attrs {
    if d == [] then [Attr(name, bytes)]
    else if d[0].name == name then [Attr(name, bytes)] + d[1..]
    else if Lexicographic(name, d[0].name) then [Attr(name, bytes)] + d
    else [d[0]] + PutAttr(d[1..], name, bytes)
  }

  const ATTR_MAP := TMap(TString, TBlob)

  function AttrsValue(d: Attrs): Value {
    Map(seq(|d|, i requires 0 <= i < |d| => Entry(Str(d[i].name), Blob(d[i].bytes))))
  }

  function ToAttrs(v: Value): Attrs {
    if v.Map? then
      seq(|v.entries|, i requires 0 <= i < |v.entries| =>
        Attr(if v.entries[i].key.Str? then v.entries[i].key.s else [],
             if v.entries[i].val.Blob? then v.entries[i].val.bytes else []))
    else []
  }

  // ---------- the attribute map ----------

  /** Every key of the result is the new one or an old one. */
  lemma {:induction false} PutNames(d: Attrs, name: seq<byte>, bytes: seq<byte>, i: nat)
    requires i < |PutAttr(d, name, bytes)|
    ensures PutAttr(d, name, bytes)[i].name == name || exists k :: 0 <= k < |d| && d[k] == PutAttr(d, name, bytes)[i]
  {
    hide Lexicographic;
    if d != [] && d[0].name != name && !Lexicographic(name, d[0].name) {
      if i == 0 {
        assert d[0] == PutAttr(d, name, bytes)[0];
      } else {
        PutNames(d[1..], name, bytes, i - 1);
        var x := PutAttr(d[1..], name, bytes)[i - 1];
        if x.name != name {
          var k :| 0 <= k < |d[1..]| && d[1..][k] == x;
          assert d[k + 1] == x;
        }
      }
    } else if i > 0 {
      var k := if d[0].name == name then i else i - 1;
      assert d[k] == PutAttr(d, name, bytes)[i];
    }
  }

  lemma {:induction false} PutSorted(d: Attrs, name: seq<byte>, bytes: seq<byte>)
    requires SortedAttrs(d)
    ensures SortedAttrs(PutAttr(d, name, bytes))
  {
    hide Lexicographic;
    if d == [] {
    } else if d[0].name == name {
      assert PutAttr(d, name, bytes)[1..] == d[1..];
    } else {
      LexicographicTotal(name, d[0].name);
      if Lexicographic(name, d[0].name) {
        assert PutAttr(d, name, bytes)[1..] == d;
        forall j | 0 <= j < |d| ensures Lexicographic(name, d[j].name) {
          if j > 0 { LexicographicTransitive(name, d[0].name, d[j].name); }
        }
      } else {
        PutSorted(d[1..], name, bytes);
        var p := PutAttr(d[1..], name, bytes);
        assert PutAttr(d, name, bytes) == [d[0]] + p;
        forall j | 0 <= j < |p| ensures Lexicographic(d[0].name, p[j].name) {
          PutNames(d[1..], name, bytes, j);
          if p[j].name != name {
            var k :| 0 <= k < |d[1..]| && d[1..][k] == p[j];
            assert d[k + 1] == p[j];
          }
        }
      }
    }
  }

  /** Assigning an attribute changes that attribute only and keeps the map in key order. */
  lemma {:induction false} PutFind(d: Attrs, name: seq<byte>, bytes: seq<byte>, other: seq<byte>)
    requires SortedAttrs(d)
    ensures FindAttr(PutAttr(d, name, bytes), other) == if other == name then Holding(bytes) else FindAttr(d, other)
    ensures SortedAttrs(PutAttr(d, name, bytes))
  {
    hide Lexicographic;
    PutSorted(d, name, bytes);
    if d == [] {
    } else if d[0].name == name {
      assert PutAttr(d, name, bytes)[1..] == d[1..];
    } else if Lexicographic(name, d[0].name) {
      assert PutAttr(d, name, bytes)[1..] == d;
    } else {
      PutFind(d[1..], name, bytes, other);
      assert PutAttr(d, name, bytes)[1..] == PutAttr(d[1..], name, bytes);
    }
  }

  /** get after put: the value, as the type it is read at sees it. */
  lemma GetAfterPut(d: Attrs, name: seq<byte>, v: Value, ty: Type, was: Value)
    requires SortedAttrs(d) && Encodable(v) && Compatible(v, ty)
    ensures FindAttr(PutAttr(d, name, Write(0, v)), name) == Holding(Write(0, v))
    ensures Read(Write(0, v), 0, ty, 0, true, was) == Ok(Project(v, ty, was), |Write(0, v)|)
  {
    hide Write, Read, Project, Compatible, Encodable, PutAttr, FindAttr;
    PutFind(d, name, Write(0, v), name);
    assert At(Write(0, v), 0, Write(0, v));
    ReadExact(Write(0, v), 0, 0, v, ty, true, was);
  }

  // ---------- the packet ----------

  ghost predicate AttrsOk(d: Attrs) {
    SortedAttrs(d) && |d| < 0x4000_0000
    && forall i :: 0 <= i < |d| ==> |d[i].name| <= MAX_STRING_LENGTH && |d[i].bytes| < 0x8000_0000
  }

  /** The bytes encode() returns for a packet whose sBuffer holds the encoded attributes. */
  function PacketBytes(p: Request): seq<byte> {
    AppProtocol.Frame(Fields(RequestFields(p)))
  }

  lemma AttrsEncodable(d: Attrs)
    requires AttrsOk(d)
    ensures Encodable(AttrsValue(d))
  {
    hide Lexicographic, SortedAttrs;
    var e := AttrsValue(d).entries;
    forall i | 0 <= i < |e| ensures Encodable(e[i].key) && Encodable(e[i].val) {
      assert e[i] == Entry(Str(d[i].name), Blob(d[i].bytes));
    }
  }

  lemma AttrsCompatible(d: Attrs)
    requires AttrsOk(d)
    ensures Compatible(AttrsValue(d), ATTR_MAP)
  {
    hide Lexicographic;
    var e := AttrsValue(d).entries;
    assert forall i :: 0 <= i < |e| ==> e[i] == Entry(Str(d[i].name), Blob(d[i].bytes));
    assert SortedEntries(e);
  }

  lemma AttrsInverse(d: Attrs, was: Value)
    ensures Project(AttrsValue(d), ATTR_MAP, was) == AttrsValue(d)
    ensures ToAttrs(AttrsValue(d)) == d
  {
    var v := AttrsValue(d);
    assert forall i :: 0 <= i < |d| ==> v.entries[i] == Entry(Str(d[i].name), Blob(d[i].bytes));
    assert Project(v, ATTR_MAP, was).entries == v.entries;
  }

  /** Two levels: the outer packet gives back every header field, its sBuffer every attribute. */
  lemma TwoLevelRoundTrip(p: Request, d: Attrs, was: Value)
    requires AttrsOk(d)
    ensures ToAttrs(AttrsValue(d)) == d
    ensures var s := Write(0, AttrsValue(d)); Read(s, 0, ATTR_MAP, 0, true, Map([])) == Ok(AttrsValue(d), |s|)
    ensures var q := p.(sBuffer := Write(0, AttrsValue(d))); var b := PacketBytes(q);
      RequestOk(q) ==>
        |b| >= 4 && ReadFields(b[4..], 0, REQUEST_SCHEMA, 0, [], was) == Ok(Struct(RequestFields(q)), |b| - 4)
  {
    hide RequestFields, RequestOk, Fields, ReadFields, Read, Write, AttrsValue, AttrsOk, ToAttrs, EncodeInt;
    var s := Write(0, AttrsValue(d));
    var q := p.(sBuffer := s);
    var body := Fields(RequestFields(q));
    assert PacketBytes(q)[4..] == body;
    assert At(body, 0, body);
    if RequestOk(q) { RequestRoundTrip(body, 0, q, was); }
    AttrsEncodable(d);
    AttrsCompatible(d);
    AttrsInverse(d, Map([]));
    assert At(s, 0, s);
    ReadExact(s, 0, 0, AttrsValue(d), ATTR_MAP, true, Map([]));
  }

  lemma {:induction false} RequestInjective(p: Request, q: Request)
    requires RequestFields(p) == RequestFields(q)
    ensures p == q
  {
    hide MapValue, MapOf;
    RequestValues(p);
    RequestValues(q);
    MapInverse(p.context, Int(0));
    MapInverse(q.context, Int(0));
    MapInverse(p.status, Int(0));
    MapInverse(q.status, Int(0));
  }

  /** get: no such attribute, or the outcome of reading it. */
  datatype Got = NoKey | Got(out: Out<Value>)

  datatype Decoded = TooShort | Decoded(out: Out<()>)

  class UniPacket {
    const packet: RequestPacket
    const os: OutputStream
    const ins: InputStream
    var data: Attrs

    constructor ()
      ensures data == [] && fresh(packet) && fresh(os) && fresh(ins) && os.Valid() && fresh(os.buf)
      ensures packet.View() == Request(3, 0, 0, 0, [], [], [], 0, [], [])
    {
      packet := new RequestPacket();
      os := new OutputStream();
      ins := new InputStream();
      data := [];
      new;
      packet.iVersion := 3;
    }

    method Put(name: seq<byte>, v: Value) returns (ok: bool)
      requires os.Valid() && Encodable64(v)
      modifies this, os, os.buf
      ensures os.Valid() && (os.buf == old(os.buf) || fresh(os.buf))
      ensures ok <==> Sendable(v)
      ensures data == if ok then PutAttr(old(data), name, Write(0, v)) else old(data)
    {
      hide Write, PutAttr, Sendable, Encodable64;
      os.Reset();
      ok := os.WriteValue(v, 0);
      if ok {
        assert [] + Write(0, v) == Write(0, v);
        data := PutAttr(data, name, os.buf[..os.len]);
      }
    }

    method Get(name: seq<byte>, ty: Type, was: Value) returns (g: Got)
      modifies ins
      ensures match FindAttr(data, name)
              case NoSlot => g == NoKey
              case Holding(bytes) => g == Got(Read(bytes, 0, ty, 0, true, was))
    {
      hide FindAttr, Read;
      match FindAttr(data, name)
      case NoSlot => g := NoKey;
      case Holding(bytes) =>
        ins.SetBuffer(bytes);
        var r := ins.ReadValue(ty, 0, true, was);
        g := Got(r);
    }

    /** doEncode: false is one of its exceptions; attributes first, then the packet around them. */
    method DoEncode() returns (ok: bool)
      requires os.Valid() && RequestTyped(packet.View())
      modifies packet, os, os.buf
      ensures os.Valid() && (os.buf == old(os.buf) || fresh(os.buf))
      ensures ok <==>
        packet.sServantName != [] && packet.sFuncName != []
        && Sendable(AttrsValue(data)) && RequestSendable(packet.View())
      ensures packet.View() == old(packet.View()).(sBuffer := packet.sBuffer)
      ensures ok ==> packet.sBuffer == Write(0, AttrsValue(data))
      ensures ok ==> os.Contents() == Fields(RequestFields(packet.View()))
    {
      hide Write, AttrsValue, Sendable, Encodable64, Fields, RequestFields, TextOk, TextsOk, Fits;
      if packet.sServantName == [] { return false; }
      if packet.sFuncName == [] { return false; }
      os.Reset();
      AttrsTyped(data);
      ok := os.WriteValue(AttrsValue(data), 0);
      if ok {
        assert [] + Write(0, AttrsValue(data)) == Write(0, AttrsValue(data));
        packet.sBuffer := os.buf[..os.len];
        os.Reset();
        ok := packet.WriteTo(os);
        ghost var f := Fields(RequestFields(packet.View()));
        assert [] + f == f;
      }
    }

    method Encode() returns (ok: bool, buff: seq<byte>)
      requires os.Valid() && RequestTyped(packet.View())
      modifies packet, os, os.buf
      ensures os.Valid() && (os.buf == old(os.buf) || fresh(os.buf))
      ensures ok <==>
        packet.sServantName != [] && packet.sFuncName != []
        && Sendable(AttrsValue(data)) && RequestSendable(packet.View())
      ensures packet.View() == old(packet.View()).(sBuffer := packet.sBuffer)
      ensures ok ==> packet.sBuffer == Write(0, AttrsValue(data)) && buff == PacketBytes(packet.View())
    {
      hide Write, AttrsValue, Sendable, Fields, RequestFields, TextOk, TextsOk, EncodeInt;
      ok := DoEncode();
      buff := [];
      if ok {
        var headerLen := EncodeInt(4 + os.len, 4);
        buff := headerLen + os.buf[..os.len];
      }
    }

    method Decode(buff: seq<byte>) returns (r: Decoded)
      modifies this, packet, ins
      ensures |buff| < 4 ==> r == TooShort && data == old(data) && packet.View() == old(packet.View())
      ensures |buff| >= 4 ==>
        var s := ReadFields(buff[4..], 0, REQUEST_SCHEMA, 0, [], Struct(RequestFields(old(packet.View()))));
        if !s.Ok? then r == Decoded(Abort(s))
        else
          Struct(RequestFields(packet.View())) == s.value &&
          var a := Read(packet.sBuffer, 0, ATTR_MAP, 0, true, Map([]));
          if a.Ok? then r.Decoded? && r.out.Ok? && data == ToAttrs(a.value) else r == Decoded(Abort(a))
    {
      hide ReadFields, Read, RequestFields, ToAttrs;
      if |buff| < 4 { return TooShort; }
      ins.SetBuffer(buff[4..]);
      var h := packet.ReadFrom(ins);
      if !h.Ok? { return Decoded(h); }
      ins.SetBuffer(packet.sBuffer);
      data := [];
      var a := ins.ReadValue(ATTR_MAP, 0, true, Map([]));
      if !a.Ok? { return Decoded(Abort(a)); }
      data := ToAttrs(a.value);
      r := Decoded(Ok((), a.cur));
    }
  }

  lemma AttrsTyped(d: Attrs)
    ensures Encodable64(AttrsValue(d))
    ensures Sendable(AttrsValue(d)) <==> forall i :: 0 <= i < |d| ==> TextOk(d[i].name)
  {
    var e := AttrsValue(d).entries;
    assert forall i :: 0 <= i < |d| ==> e[i] == Entry(Str(d[i].name), Blob(d[i].bytes));
    FlatMapTyped(e);
  }

  /** Encoding with one UniPacket and decoding with another copies the header and the attributes. */
  method Transfer(src: UniPacket, dst: UniPacket) returns (ok: bool)
    requires src.os.Valid() && src != dst
    requires src.packet != dst.packet
    requires RequestOk(src.packet.View())
    modifies src.packet, src.os, src.os.buf, dst, dst.packet, dst.ins
    ensures AttrsOk(old(src.data)) && |Write(0, AttrsValue(old(src.data)))| < 0x8000_0000 ==>
      && (ok <==> src.packet.sServantName != [] && src.packet.sFuncName != [])
      && (ok ==> dst.packet.View() == src.packet.View() && dst.data == src.data == old(src.data))
  {
    hide Write, AttrsValue, Sendable, Fields, RequestFields, ReadFields, Read, ToAttrs, MapOk, Fits, PacketBytes;
    AttrsTyped(src.data);
    OkSendable(src.packet.View());
    ghost var fits := AttrsOk(src.data) && |Write(0, AttrsValue(src.data))| < 0x8000_0000;
    var buff;
    ok, buff := src.Encode();
    if ok {
      if fits { TwoLevelRoundTrip(src.packet.View(), src.data, Struct(RequestFields(dst.packet.View()))); }
      var r := dst.Decode(buff);
      if fits { RequestInjective(dst.packet.View(), src.packet.View()); }
    }
  }

  lemma OkSendable(p: Request)
    requires RequestOk(p)
    ensures RequestSendable(p) && RequestTyped(p)
  {
  }
}
