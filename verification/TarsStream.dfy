/** The stream classes of tup/Tars.h: a growing write buffer and a reader with a moving cursor. */
module TarsStream {
  import opened Bytes
  import opened TarsValue

  /** No string in the value is too long for the writer, which throws TarsDecodeInvalidValue otherwise. */
  ghost predicate Sendable(v: Value)
    decreases v
  {
    match v
    case Str(s) => |s| <= MAX_STRING_LENGTH
    case List(items) => forall i :: 0 <= i < |items| ==> Sendable(items[i])
    case Map(entries) => forall i :: 0 <= i < |entries| ==> Sendable(entries[i].key) && Sendable(entries[i].val)
    case Struct(fields) => forall i :: 0 <= i < |fields| ==> Sendable(fields[i].value)
    case _ => true
  }

  /** TarsOutputStream<BufferWriter>. */
  class OutputStream {
    var buf: array<byte>
    var len: nat

    ghost predicate Valid()
      reads this
    {
      len <= buf.Length
    }

    ghost function Contents(): seq<byte>
      requires Valid()
      reads this, buf
    {
      buf[..len]
    }

    constructor ()
      ensures Valid() && fresh(buf) && Contents() == []
    {
      buf := new byte[0];
      len := 0;
    }

    method Reset()
      requires Valid()
      modifies this
      ensures Valid() && buf == old(buf) && Contents() == []
    {
      len := 0;
    }

    /** TarsReserveBuf: a buffer too short for `need` bytes is replaced by one of twice that size. */
    method ReserveBuf(need: nat)
      requires Valid()
      modifies this
      ensures Valid() && Contents() == old(Contents()) && len == old(len)
      ensures if old(buf.Length) >= need then buf == old(buf) else fresh(buf) && buf.Length == 2 * need
    {
      if buf.Length < need {
        var p := new byte[2 * need];
        forall i | 0 <= i < len {
          p[i] := buf[i];
        }
        assert p[..len] == buf[..len];
        buf := p;
      }
    }

    method WriteBytes(s: seq<byte>)
      requires Valid()
      modifies this, buf
      ensures Valid() && (buf == old(buf) || fresh(buf))
      ensures Contents() == old(Contents()) + s
    {
      ReserveBuf(len + |s|);
      Append(s);
    }

    /** memcpy to the end of what is written, where there is room. */
    method Append(s: seq<byte>)
      requires Valid() && len + |s| <= buf.Length
      modifies this`len, buf
      ensures Valid() && Contents() == old(Contents()) + s
    {
      forall i | len <= i < len + |s| {
        buf[i] := s[i - len];
      }
      assert buf[..len + |s|] == old(buf[..len]) + s;
      len := len + |s|;
    }

    method WriteHead(headType: byte, tag: byte)
      requires Valid() && headType < 16
      modifies this, buf
      ensures Valid() && (buf == old(buf) || fresh(buf))
      ensures Contents() == old(Contents()) + HeadBytes(headType, tag)
    {
      if tag < 15 {
        WriteBytes([headType + 16 * tag]);
      } else {
        WriteBytes([headType + 240]);
        WriteBytes([tag]);
      }
    }

    method WriteChar(n: int, tag: byte)
      requires Valid() && Fits(n, 1)
      modifies this, buf
      ensures Valid() && (buf == old(buf) || fresh(buf))
      ensures Contents() == old(Contents()) + WriteInt(tag, n)
    {
      if n == 0 {
        WriteHead(ZERO_TAG, tag);
      } else {
        WriteHead(CHAR, tag);
        WriteBytes(EncodeInt(n, 1));
      }
    }

    method WriteShort(n: int, tag: byte)
      requires Valid() && Fits(n, 2)
      modifies this, buf
      ensures Valid() && (buf == old(buf) || fresh(buf))
      ensures Contents() == old(Contents()) + WriteInt(tag, n)
    {
      Powers();
      if -128 <= n <= 127 {
        WriteChar(n, tag);
      } else {
        WriteHead(SHORT, tag);
        WriteBytes(EncodeInt(n, 2));
      }
    }

    method WriteInt32(n: int, tag: byte)
      requires Valid() && Fits(n, 4)
      modifies this, buf
      ensures Valid() && (buf == old(buf) || fresh(buf))
      ensures Contents() == old(Contents()) + WriteInt(tag, n)
    {
      Powers();
      if -32768 <= n <= 32767 {
        WriteShort(n, tag);
      } else {
        WriteHead(INT32, tag);
        WriteBytes(EncodeInt(n, 4));
      }
    }

    /** The eight bytes stored are the memory image of tars_htonll(n) on a little-endian host. */
    method WriteInt64(n: int, tag: byte)
      requires Valid() && Fits(n, 8)
      modifies this, buf
      ensures Valid() && (buf == old(buf) || fresh(buf))
      ensures Contents() == old(Contents()) + WriteInt(tag, n)
    {
      hide BigEndian, LittleEndian, Htonll, HeadBytes;
      Powers();
      if -2147483648 <= n <= 2147483647 {
        WriteInt32(n, tag);
      } else {
        HtonllIsBigEndian(ToUnsigned(n, 8));
        WriteHead(INT64, tag);
        WriteBytes(Htonll(LittleEndian(ToUnsigned(n, 8), 8)));
      }
    }

    method WriteStr(s: seq<byte>, tag: byte) returns (ok: bool)
      requires Valid()
      modifies this, buf
      ensures Valid() && (buf == old(buf) || fresh(buf))
      ensures ok == (|s| <= MAX_STRING_LENGTH)
      ensures Contents() == if ok then old(Contents()) + Write(tag, Str(s)) else old(Contents())
    {
      if |s| > 255 {
        if |s| > MAX_STRING_LENGTH {
          return false;
        }
        WriteHead(STRING4, tag);
        WriteBytes(BigEndian(|s|, 4));
        WriteBytes(s);
      } else {
        WriteHead(STRING1, tag);
        OneByte(|s|);
        WriteBytes([|s|]);
        WriteBytes(s);
      }
      ok := true;
      ghost var w := if |s| > 255 then 4 else 1;
      assert Write(tag, Str(s)) == HeadBytes(StringHead(s), tag) + (BigEndian(|s|, w) + s);
    }

    method WriteCharVector(p: seq<byte>, tag: byte)
      requires Valid()
      modifies this, buf
      ensures Valid() && (buf == old(buf) || fresh(buf))
      ensures Contents() == old(Contents()) + Write(tag, Blob(p))
    {
      hide WriteInt, HeadBytes, ToInt32;
      Int32Fits(|p|);
      WriteHead(SIMPLE_LIST, tag);
      WriteHead(CHAR, 0);
      WriteInt32(ToInt32(|p|), 0);
      WriteBytes(p);
      assert Write(tag, Blob(p))
          == HeadBytes(SIMPLE_LIST, tag) + (HeadBytes(CHAR, 0) + (WriteInt(0, ToInt32(|p|)) + p));
    }

    /** A head, and the bytes of a Float or Double behind it. */
    method WriteRaw(headType: byte, payload: seq<byte>, tag: byte)
      requires Valid() && headType < 16
      modifies this, buf
      ensures Valid() && (buf == old(buf) || fresh(buf))
      ensures Contents() == old(Contents()) + (HeadBytes(headType, tag) + payload)
    {
      hide HeadBytes;
      WriteHead(headType, tag);
      WriteBytes(payload);
    }

    /** write(v, tag) for every overload; false is the exception for an over-long string. */
    method WriteValue(v: Value, tag: byte) returns (ok: bool)
      requires Valid() && Encodable64(v)
      modifies this, buf
      ensures Valid() && (buf == old(buf) || fresh(buf))
      ensures ok <==> Sendable(v)
      ensures ok ==> Contents() == old(Contents()) + Write(tag, v)
      decreases v, 1
    {
      hide WriteInt, Items, Entries, Fields, HeadBytes, ToInt32;
      ok := true;
      match v
      case Int(n) => WriteInt64(n, tag); IntWritten(tag, n);
      case Float(p) => WriteRaw(FLOAT, p, tag);
      case Double(p) => WriteRaw(DOUBLE, p, tag);
      case Str(s) => ok := WriteStr(s, tag);
      case Blob(p) => WriteCharVector(p, tag);
      case List(items) => ok := WriteList(items, tag);
      case Map(entries) => ok := WriteMap(entries, tag);
      case Struct(fields) => ok := WriteStruct(fields, tag);
    }

    method WriteList(items: seq<Value>, tag: byte) returns (ok: bool)
      requires Valid() && forall k :: 0 <= k < |items| ==> Encodable64(items[k])
      modifies this, buf
      ensures Valid() && (buf == old(buf) || fresh(buf))
      ensures ok <==> forall k :: 0 <= k < |items| ==> Sendable(items[k])
      ensures ok ==>
        Contents() == old(Contents()) + (HeadBytes(LIST, tag) + (WriteInt(0, ToInt32(|items|)) + Items(items)))
      decreases items, 1
    {
      hide WriteInt, Items, HeadBytes, ToInt32, Encodable64, Sendable;
      Int32Fits(|items|);
      WriteHead(LIST, tag);
      WriteInt32(ToInt32(|items|), 0);
      ok := WriteItems(items);
    }

    method WriteMap(entries: seq<Entry>, tag: byte) returns (ok: bool)
      requires Valid() && forall k :: 0 <= k < |entries| ==> Encodable64(entries[k].key) && Encodable64(entries[k].val)
      modifies this, buf
      ensures Valid() && (buf == old(buf) || fresh(buf))
      ensures ok <==> forall k :: 0 <= k < |entries| ==> Sendable(entries[k].key) && Sendable(entries[k].val)
      ensures ok ==>
        Contents() == old(Contents()) + (HeadBytes(MAP, tag) + (WriteInt(0, ToInt32(|entries|)) + Entries(entries)))
      decreases entries, 1
    {
      hide WriteInt, Entries, HeadBytes, ToInt32, Encodable64, Sendable;
      Int32Fits(|entries|);
      WriteHead(MAP, tag);
      WriteInt32(ToInt32(|entries|), 0);
      ok := WriteEntries(entries);
    }

    method WriteStruct(fields: seq<Field>, tag: byte) returns (ok: bool)
      requires Valid() && forall k :: 0 <= k < |fields| ==> Encodable64(fields[k].value)
      modifies this, buf
      ensures Valid() && (buf == old(buf) || fresh(buf))
      ensures ok <==> forall k :: 0 <= k < |fields| ==> Sendable(fields[k].value)
      ensures ok ==>
        Contents() == old(Contents()) + (HeadBytes(STRUCT_BEGIN, tag) + (Fields(fields) + HeadBytes(STRUCT_END, 0)))
      decreases fields, 1
    {
      hide WriteInt, Fields, HeadBytes, ToInt32, Encodable64, Sendable;
      WriteHead(STRUCT_BEGIN, tag);
      ok := WriteFields(fields);
      if ok {
        WriteHead(STRUCT_END, 0);
      }
    }

    method WriteItems(items: seq<Value>) returns (ok: bool)
      requires Valid() && forall k :: 0 <= k < |items| ==> Encodable64(items[k])
      modifies this, buf
      ensures Valid() && (buf == old(buf) || fresh(buf))
      ensures ok <==> forall k :: 0 <= k < |items| ==> Sendable(items[k])
      ensures ok ==> Contents() == old(Contents()) + Items(items)
      decreases items, 0
    {
      hide Write, Encodable64, Sendable;
      var i := 0;
      assert items[0..] == items;
      while i < |items|
        invariant 0 <= i <= |items|
        invariant Valid() && (buf == old(buf) || fresh(buf))
        invariant forall k :: 0 <= k < i ==> Sendable(items[k])
        invariant Contents() + Items(items[i..]) == old(Contents()) + Items(items)
      {
        ItemsCons(items[i..]);
        assert items[i..][1..] == items[i + 1..];
        ghost var before := Contents();
        ok := WriteValue(items[i], 0);
        if !ok {
          return;
        }
        assert before + (Write(0, items[i]) + Items(items[i + 1..])) == Contents() + Items(items[i + 1..]);
        i := i + 1;
      }
      assert items[i..] == [];
      ok := true;
    }

    method WriteEntries(entries: seq<Entry>) returns (ok: bool)
      requires Valid() && forall k :: 0 <= k < |entries| ==> Encodable64(entries[k].key) && Encodable64(entries[k].val)
      modifies this, buf
      ensures Valid() && (buf == old(buf) || fresh(buf))
      ensures ok <==> forall k :: 0 <= k < |entries| ==> Sendable(entries[k].key) && Sendable(entries[k].val)
      ensures ok ==> Contents() == old(Contents()) + Entries(entries)
      decreases entries, 0
    {
      hide Write, Encodable64, Sendable;
      var i := 0;
      assert entries[0..] == entries;
      while i < |entries|
        invariant 0 <= i <= |entries|
        invariant Valid() && (buf == old(buf) || fresh(buf))
        invariant forall k :: 0 <= k < i ==> Sendable(entries[k].key) && Sendable(entries[k].val)
        invariant Contents() + Entries(entries[i..]) == old(Contents()) + Entries(entries)
      {
        EntriesCons(entries[i..]);
        assert entries[i..][1..] == entries[i + 1..];
        ghost var before := Contents();
        ok := WritePair(entries[i]);
        if !ok {
          return;
        }
        ghost var e := entries[i];
        assert before + (Write(0, e.key) + Write(1, e.val) + Entries(entries[i + 1..]))
            == Contents() + Entries(entries[i + 1..]);
        i := i + 1;
      }
      assert entries[i..] == [];
      ok := true;
    }

    method WritePair(e: Entry) returns (ok: bool)
      requires Valid() && Encodable64(e.key) && Encodable64(e.val)
      modifies this, buf
      ensures Valid() && (buf == old(buf) || fresh(buf))
      ensures ok <==> Sendable(e.key) && Sendable(e.val)
      ensures ok ==> Contents() == old(Contents()) + (Write(0, e.key) + Write(1, e.val))
      decreases e, 2
    {
      hide Write, Encodable64, Sendable;
      ok := WriteValue(e.key, 0);
      if ok {
        ok := WriteValue(e.val, 1);
      }
    }

    method WriteFields(fields: seq<Field>) returns (ok: bool)
      requires Valid() && forall k :: 0 <= k < |fields| ==> Encodable64(fields[k].value)
      modifies this, buf
      ensures Valid() && (buf == old(buf) || fresh(buf))
      ensures ok <==> forall k :: 0 <= k < |fields| ==> Sendable(fields[k].value)
      ensures ok ==> Contents() == old(Contents()) + Fields(fields)
      decreases fields, 0
    {
      hide Write, Encodable64, Sendable;
      var i := 0;
      assert fields[0..] == fields;
      while i < |fields|
        invariant 0 <= i <= |fields|
        invariant Valid() && (buf == old(buf) || fresh(buf))
        invariant forall k :: 0 <= k < i ==> Sendable(fields[k].value)
        invariant Contents() + Fields(fields[i..]) == old(Contents()) + Fields(fields)
      {
        FieldsCons(fields[i..]);
        assert fields[i..][1..] == fields[i + 1..];
        ghost var before := Contents();
        ok := WriteOneField(fields[i]);
        if !ok {
          return;
        }
        ghost var f := fields[i];
        assert before + (Write(f.tag, f.value) + Fields(fields[i + 1..])) == Contents() + Fields(fields[i + 1..]);
        i := i + 1;
      }
      assert fields[i..] == [];
      ok := true;
    }

    method WriteOneField(f: Field) returns (ok: bool)
      requires Valid() && Encodable64(f.value)
      modifies this, buf
      ensures Valid() && (buf == old(buf) || fresh(buf))
      ensures ok <==> Sendable(f.value)
      ensures ok ==> Contents() == old(Contents()) + Write(f.tag, f.value)
      decreases f, 2
    {
      hide Write, Encodable64, Sendable;
      ok := WriteValue(f.value, f.tag);
    }
  }

  /** What C++ types guarantee of a value handed to write: integers fit their 64-bit carrier. */
  ghost predicate Encodable64(v: Value)
    decreases v
  {
    match v
    case Int(n) => Fits(n, 8)
    case List(items) => forall i :: 0 <= i < |items| ==> Encodable64(items[i])
    case Map(entries) => forall i :: 0 <= i < |entries| ==> Encodable64(entries[i].key) && Encodable64(entries[i].val)
    case Struct(fields) => forall i :: 0 <= i < |fields| ==> Encodable64(fields[i].value)
    case _ => true
  }

  /** A map of texts or byte lists holds no integer at all. */
  lemma FlatMapTyped(entries: seq<Entry>)
    requires forall i :: 0 <= i < |entries| ==>
      entries[i].key.Str? && (entries[i].val.Str? || entries[i].val.Blob?)
    ensures Encodable64(Map(entries))
  {
    forall i | 0 <= i < |entries|
      ensures Encodable64(entries[i].key) && Encodable64(entries[i].val)
    {
    }
  }

  lemma IntWritten(tag: byte, n: int)
    ensures Write(tag, Int(n)) == WriteInt(tag, n)
  {
  }

  lemma Int32Fits(n: int)
    ensures Fits(ToInt32(n), 4)
  {
  }
}
