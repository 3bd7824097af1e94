/** TarsInputStream<BufferReader> (tup/Tars.h): the reader's methods, with a cursor they advance. */
module TarsInput {
  import opened Bytes
  import opened TarsValue
  import opened TarsSkip
  import opened TarsRead

  /** read(size, 0) is the ordinary integer read: before tag 0 nothing is ever skipped. */
  lemma CountIsRead(b: seq<byte>, cur: nat)
    ensures ReadInt(b, cur, Int32, 0, true, 0) == CountAt(b, cur, 4)
    ensures match ReadInt(b, cur, UInt32, 0, true, 0)
            case Ok(n, c) =>
              var r := CountAt(b, cur, 8); r.Ok? && n == Cast(UInt32, r.value) && c == r.cur
            case r => CountAt(b, cur, 8) == r
  {
    hide SkipField, IntBody;
  }

  class InputStream {
    var buf: seq<byte>
    var cur: nat

    constructor ()
      ensures buf == [] && cur == 0
    {
      buf, cur := [], 0;
    }

    method SetBuffer(b: seq<byte>)
      modifies this
      ensures buf == b && cur == 0
    {
      buf, cur := b, 0;
    }

    /** skipField(type), the head being consumed already. */
    method SkipField(headType: byte) returns (r: Out<()>)
      modifies `cur
      ensures r == TarsSkip.SkipField(buf, old(cur), headType)
      ensures r.Ok? || r.Throw? ==> cur == r.cur
      decreases Left(buf, cur), 5, 0
    {
      hide IntBody, ReadInt, TarsSkip.SkipToStructEnd, SkipCells, PeekHead, FromBigEndian;
      if headType == CHAR { cur := cur + 1; r := Ok((), cur); }
      else if headType == SHORT { cur := cur + 2; r := Ok((), cur); }
      else if headType == INT32 { cur := cur + 4; r := Ok((), cur); }
      else if headType == INT64 { cur := cur + 8; r := Ok((), cur); }
      else if headType == FLOAT { cur := cur + 4; r := Ok((), cur); }
      else if headType == DOUBLE { cur := cur + 8; r := Ok((), cur); }
      else if headType == STRING1 {
        if cur + 1 > |buf| { return Throw(BufferOverflow, cur); }
        var len := buf[cur];
        cur := cur + 1;
        cur := cur + len;
        r := Ok((), cur);
      }
      else if headType == STRING4 {
        if cur + 4 > |buf| { return Throw(BufferOverflow, cur); }
        var len := FromBigEndian(buf[cur..cur + 4]);
        cur := cur + 4;
        cur := cur + len;
        r := Ok((), cur);
      }
      else if headType == MAP { r := SkipMap(); }
      else if headType == LIST { r := SkipList(); }
      else if headType == SIMPLE_LIST { r := SkipSimpleList(); }
      else if headType == STRUCT_BEGIN { r := SkipToStructEnd(); }
      else if headType == STRUCT_END || headType == ZERO_TAG { r := Ok((), cur); }
      else { r := Throw(Mismatch, cur); }
    }

    method SkipMap() returns (r: Out<()>)
      modifies `cur
      ensures r == TarsSkip.SkipField(buf, old(cur), MAP)
      ensures r.Ok? || r.Throw? ==> cur == r.cur
      decreases Left(buf, cur), 4, 0
    {
      hide IntBody, ReadInt, TarsSkip.SkipToStructEnd, SkipCells, PeekHead, FromBigEndian;
      CountIsRead(buf, cur);
      var size := ReadInteger(Int32, 0, true, 0);
      if size.Throw? { return Throw(size.error, cur); }
      if !Fits(2 * size.value, 4) { return BadCount(size.value); }
      r := SkipFields(2 * size.value);
    }

    method SkipList() returns (r: Out<()>)
      modifies `cur
      ensures r == TarsSkip.SkipField(buf, old(cur), LIST)
      ensures r.Ok? || r.Throw? ==> cur == r.cur
      decreases Left(buf, cur), 4, 0
    {
      hide IntBody, ReadInt, TarsSkip.SkipToStructEnd, SkipCells, PeekHead, FromBigEndian;
      CountIsRead(buf, cur);
      var size := ReadInteger(Int32, 0, true, 0);
      if size.Throw? { return Throw(size.error, cur); }
      r := SkipFields(size.value);
    }

    method SkipSimpleList() returns (r: Out<()>)
      modifies `cur
      ensures r == TarsSkip.SkipField(buf, old(cur), SIMPLE_LIST)
      ensures r.Ok? || r.Throw? ==> cur == r.cur
      decreases Left(buf, cur), 4, 0
    {
      hide IntBody, ReadInt, TarsSkip.SkipToStructEnd, SkipCells, FromBigEndian;
      var p := PeekHead(buf, cur);
      if p.NoHead? { return Throw(BufferOverflow, cur); }
      cur := cur + p.head.len;
      if p.head.headType != CHAR { return Throw(Mismatch, cur); }
      CountIsRead(buf, cur);
      var size := ReadInteger(Int32, 0, true, 0);
      if size.Throw? { return Throw(size.error, cur); }
      if size.value < 0 { return Backward(cur + size.value); }
      cur := cur + size.value;
      r := Ok((), cur);
    }

    /** The loop of the map and list cases: `n` calls of skipField(). */
    method SkipFields(n: int) returns (r: Out<()>)
      modifies `cur
      ensures r == SkipCells(buf, old(cur), n)
      ensures r.Ok? || r.Throw? ==> cur == r.cur
      decreases Left(buf, cur), 6, 0
    {
      hide TarsSkip.SkipField, TarsSkip.SkipToStructEnd;
      var i := 0;
      while i < n
        invariant 0 <= i && (i <= n || n < 0)
        invariant old(cur) <= cur && (i > 0 ==> old(cur) < cur)
        invariant SkipCells(buf, cur, n - i) == SkipCells(buf, old(cur), n)
      {
        var p := PeekHead(buf, cur);
        if p.NoHead? { return Throw(BufferOverflow, cur); }
        cur := cur + p.head.len;
        var s := SkipField(p.head.headType);
        if !s.Ok? { return s; }
        i := i + 1;
      }
      r := Ok((), cur);
    }

    method SkipToStructEnd() returns (r: Out<()>)
      modifies `cur
      ensures r == TarsSkip.SkipToStructEnd(buf, old(cur))
      ensures r.Ok? || r.Throw? ==> cur == r.cur
      decreases Left(buf, cur), 4, 0
    {
      hide TarsSkip.SkipField, SkipCells;
      while true
        invariant old(cur) <= cur
        invariant TarsSkip.SkipToStructEnd(buf, cur) == TarsSkip.SkipToStructEnd(buf, old(cur))
        decreases Left(buf, cur)
      {
        var p := PeekHead(buf, cur);
        if p.NoHead? { return Throw(BufferOverflow, cur); }
        cur := cur + p.head.len;
        var s := SkipField(p.head.headType);
        if !s.Ok? || p.head.headType == STRUCT_END { return s; }
      }
    }

    /** TarsSkipToTag; a decode exception thrown on the way is swallowed. */
    method SkipToTag(tag: byte) returns (s: Search)
      modifies `cur
      ensures s == TarsSkip.SkipToTag(buf, old(cur), tag)
      ensures s.Found? || s.Absent? ==> cur == s.cur
      decreases Left(buf, cur), 2, 0
    {
      hide TarsSkip.SkipField;
      while cur < |buf|
        invariant old(cur) <= cur
        invariant TarsSkip.SkipToTag(buf, cur, tag) == TarsSkip.SkipToTag(buf, old(cur), tag)
        decreases Left(buf, cur)
      {
        var p := PeekHead(buf, cur);
        if p.NoHead? { return Absent(cur); }
        if p.head.headType == STRUCT_END || tag < p.head.tag { return Absent(cur); }
        if tag == p.head.tag {
          cur := cur + p.head.len;
          return Found(p.head.headType, cur);
        }
        cur := cur + p.head.len;
        var r := SkipField(p.head.headType);
        match r
        case Ok(_, _) =>
        case Throw(_, _) => return Absent(cur);
        case Backward(t) => return LostBackward(t);
        case BadCount(k) => return LostCount(k);
      }
      s := Absent(cur);
    }

    /** TarsReadTypeBuf for an integer of the given width. */
    method ReadFixed(width: nat) returns (r: Out<int>)
      modifies `cur
      ensures r == FixedInt(buf, old(cur), width)
      ensures r.Ok? || r.Throw? ==> cur == r.cur
    {
      if cur + width > |buf| { return Throw(BufferOverflow, cur); }
      var n := DecodeInt(buf[cur..cur + width]);
      cur := cur + width;
      r := Ok(n, cur);
    }

    method ReadIntBody(headType: byte, width: nat) returns (r: Out<int>)
      modifies `cur
      ensures r == IntBody(buf, old(cur), headType, width)
      ensures r.Ok? || r.Throw? ==> cur == r.cur
    {
      hide FixedInt;
      if headType == ZERO_TAG { r := Ok(0, cur); }
      else if headType == CHAR { r := ReadFixed(1); }
      else if headType == SHORT && width >= 2 { r := ReadFixed(2); }
      else if headType == INT32 && width >= 4 { r := ReadFixed(4); }
      else if headType == INT64 && width >= 8 { r := ReadFixed(8); }
      else { r := Throw(Mismatch, cur); }
    }

    /** read(Bool/Char/Short/Int32/Int64/UInt8/UInt16/UInt32& n, tag, isRequire). */
    method ReadInteger(k: IntKind, tag: byte, required: bool, was: int) returns (r: Out<int>)
      modifies `cur
      ensures r == ReadInt(buf, old(cur), k, tag, required, was)
      ensures r.Ok? || r.Throw? ==> cur == r.cur
      decreases Left(buf, cur), 3, 0
    {
      hide TarsSkip.SkipToTag, IntBody;
      var s := SkipToTag(tag);
      match s
      case Found(t, _) =>
        var n := ReadIntBody(t, CarrierWidth(k));
        r := if n.Ok? then Ok(Cast(k, n.value), cur) else Throw(n.error, cur);
      case Absent(_) => r := if required then Throw(RequireNotExist, cur) else Ok(was, cur);
      case LostBackward(t) => r := Backward(t);
      case LostCount(n) => r := BadCount(n);
    }

    /** read(size, 0) into a UInt32, and the guard against sizes beyond the buffer. */
    method ReadSize() returns (r: Out<int>)
      modifies `cur
      ensures r == SizeAt(buf, old(cur))
      ensures r.Ok? || r.Throw? ==> cur == r.cur
    {
      hide CountAt, ReadInt;
      CountIsRead(buf, cur);
      r := ReadInteger(UInt32, 0, true, 0);
      if r.Ok? && r.value > |buf| { r := Throw(InvalidValue, cur); }
    }

    method ReadBytes(len: nat) returns (r: Out<seq<byte>>)
      modifies `cur
      ensures r == Take(buf, old(cur), len)
      ensures r.Ok? || r.Throw? ==> cur == r.cur
    {
      if cur + len > |buf| { return Throw(BufferOverflow, cur); }
      var p := buf[cur..cur + len];
      cur := cur + len;
      r := Ok(p, cur);
    }

    method ReadStringBody(headType: byte) returns (r: Out<seq<byte>>)
      modifies `cur
      ensures r == StringBody(buf, old(cur), headType)
      ensures r.Ok? || r.Throw? ==> cur == r.cur
    {
      hide Take, FromBigEndian;
      var len := 0;
      if headType == STRING1 {
        if cur + 1 > |buf| { return Throw(BufferOverflow, cur); }
        len := buf[cur];
        cur := cur + 1;
      } else if headType == STRING4 {
        if cur + 4 > |buf| { return Throw(BufferOverflow, cur); }
        len := FromBigEndian(buf[cur..cur + 4]);
        cur := cur + 4;
        if len > MAX_STRING_LENGTH { return Throw(InvalidValue, cur); }
      } else {
        return Throw(Mismatch, cur);
      }
      r := ReadBytes(len);
    }

    method ReadBlobBody() returns (r: Out<seq<byte>>)
      modifies `cur
      ensures r == BlobBody(buf, old(cur))
      ensures r.Ok? || r.Throw? ==> cur == r.cur
    {
      hide SizeAt, Take;
      var p := PeekHead(buf, cur);
      if p.NoHead? { return Throw(BufferOverflow, cur); }
      cur := cur + p.head.len;
      if p.head.headType != CHAR { return Throw(Mismatch, cur); }
      var size := ReadSize();
      if size.Throw? { return Throw(size.error, cur); }
      r := ReadBytes(size.value);
    }

    method ReadFloatBody(headType: byte) returns (r: Out<Value>)
      modifies `cur
      ensures r == FloatBody(buf, old(cur), headType)
      ensures r.Ok? || r.Throw? ==> cur == r.cur
    {
      hide Take;
      if headType == ZERO_TAG { return Ok(Float([0, 0, 0, 0]), cur); }
      if headType != FLOAT { return Throw(Mismatch, cur); }
      var p := ReadBytes(4);
      r := if p.Ok? then Ok(Float(p.value), cur) else Throw(p.error, cur);
    }

    method ReadDoubleBody(headType: byte) returns (r: Out<Value>)
      modifies `cur
      ensures r == DoubleBody(buf, old(cur), headType)
      ensures r.Ok? || r.Throw? ==> cur == r.cur
    {
      hide Take;
      if headType == ZERO_TAG { return Ok(Double([0, 0, 0, 0, 0, 0, 0, 0]), cur); }
      if headType == FLOAT {
        var p := ReadBytes(4);
        r := if p.Ok? then Ok(Float(p.value), cur) else Throw(p.error, cur);
      } else if headType == DOUBLE {
        var p := ReadBytes(8);
        r := if p.Ok? then Ok(Double(p.value), cur) else Throw(p.error, cur);
      } else {
        r := Throw(Mismatch, cur);
      }
    }

    /** The List case of read(vector<Char>&). */
    method ReadChars(n: int) returns (r: Out<seq<byte>>)
      modifies `cur
      ensures r == CharsBody(buf, old(cur), n, [])
      ensures r.Ok? || r.Throw? ==> cur == r.cur
    {
      hide ReadInt;
      var acc: seq<byte> := [];
      while |acc| < n
        invariant CharsBody(buf, cur, n, acc) == CharsBody(buf, old(cur), n, [])
        decreases n - |acc|
      {
        var c := ReadInteger(Char, 0, true, 0);
        match c
        case Ok(v, _) => acc := acc + [v % 256];
        case Throw(e, _) => return Throw(e, cur);
        case Backward(t) => return Backward(t);
        case BadCount(k) => return BadCount(k);
      }
      r := Ok(acc, cur);
    }

    /** read(T& v, tag, isRequire) for every target type. */
    method ReadValue(ty: Type, tag: byte, required: bool, was: Value) returns (r: Out<Value>)
      modifies `cur
      ensures r == Read(buf, old(cur), ty, tag, required, was)
      ensures r.Ok? || r.Throw? ==> cur == r.cur
      decreases ty, 4, 0
    {
      hide TarsSkip.SkipToTag, ReadBody;
      var s := SkipToTag(tag);
      match s
      case Found(t, _) => r := ReadValueBody(t, ty, was);
      case Absent(_) => r := if required then Throw(RequireNotExist, cur) else Ok(was, cur);
      case LostBackward(t) => r := Backward(t);
      case LostCount(n) => r := BadCount(n);
    }

    method ReadValueBody(headType: byte, ty: Type, was: Value) returns (r: Out<Value>)
      modifies `cur
      ensures r == ReadBody(buf, old(cur), headType, ty, was)
      ensures r.Ok? || r.Throw? ==> cur == r.cur
      decreases ty, 3, 0
    {
      hide IntBody, FloatBody, DoubleBody, StringBody, BlobBody, CharsBody, SizeAt, ReadItems, ReadEntries;
      hide TarsRead.ReadFields, TarsSkip.SkipToStructEnd;
      match ty
      case TInt(k) =>
        var n := ReadIntBody(headType, CarrierWidth(k));
        r := if n.Ok? then Ok(Int(Cast(k, n.value)), cur) else Throw(n.error, cur);
      case TFloat => r := ReadFloatBody(headType);
      case TDouble => r := ReadDoubleBody(headType);
      case TString =>
        var s := ReadStringBody(headType);
        r := if s.Ok? then Ok(Str(s.value), cur) else Throw(s.error, cur);
      case TBlob => r := ReadCharVector(headType, was);
      case TList(_) => r := ReadVector(headType, ty, was);
      case TMap(_, _) => r := ReadMap(headType, ty, was);
      case TStruct(_) => r := ReadStruct(headType, ty, was);
    }

    method ReadCharVector(headType: byte, was: Value) returns (r: Out<Value>)
      modifies `cur
      ensures r == ReadBody(buf, old(cur), headType, TBlob, was)
      ensures r.Ok? || r.Throw? ==> cur == r.cur
    {
      hide BlobBody, CharsBody, SizeAt;
      if headType == SIMPLE_LIST {
        var p := ReadBlobBody();
        r := if p.Ok? then Ok(Blob(p.value), cur) else Throw(p.error, cur);
      } else if headType == LIST {
        var size := ReadSize();
        if size.Throw? { return Throw(size.error, cur); }
        var p := ReadChars(size.value);
        match p
        case Ok(s, _) => r := Ok(Blob(s), cur);
        case Throw(e, _) => r := Throw(e, cur);
        case Backward(t) => r := Backward(t);
        case BadCount(k) => r := BadCount(k);
      } else {
        r := Throw(Mismatch, cur);
      }
    }

    method ReadVector(headType: byte, ty: Type, was: Value) returns (r: Out<Value>)
      requires ty.TList?
      modifies `cur
      ensures r == ReadBody(buf, old(cur), headType, ty, was)
      ensures r.Ok? || r.Throw? ==> cur == r.cur
      decreases ty, 2, 0
    {
      hide SizeAt, Read;
      if headType != LIST { return Throw(Mismatch, cur); }
      var size := ReadSize();
      if size.Throw? { return Throw(size.error, cur); }
      ghost var start := cur;
      var acc: seq<Value> := [];
      while |acc| < size.value
        invariant ReadItems(buf, cur, ty, size.value, acc, was) == ReadItems(buf, start, ty, size.value, [], was)
        decreases size.value - |acc|
      {
        var v := ReadValue(ty.elem, 0, true, PriorItem(ty.elem, was, |acc|));
        if !v.Ok? { return v; }
        acc := acc + [v.value];
      }
      r := Ok(List(acc), cur);
    }

    method ReadMap(headType: byte, ty: Type, was: Value) returns (r: Out<Value>)
      requires ty.TMap?
      modifies `cur
      ensures r == ReadBody(buf, old(cur), headType, ty, was)
      ensures r.Ok? || r.Throw? ==> cur == r.cur
      decreases ty, 2, 0
    {
      hide SizeAt, Read, Insert, Default;
      if headType != MAP { return Throw(Mismatch, cur); }
      var size := ReadSize();
      if size.Throw? { return Throw(size.error, cur); }
      ghost var start := cur;
      var acc: seq<Entry> := [];
      var i := 0;
      while i < size.value
        invariant ReadEntries(buf, cur, ty, size.value - i, acc) == ReadEntries(buf, start, ty, size.value, [])
      {
        var k := ReadValue(ty.key, 0, true, Default(ty.key));
        if !k.Ok? { return k; }
        var v := ReadValue(ty.val, 1, true, Default(ty.val));
        if !v.Ok? { return v; }
        acc := Insert(acc, Entry(k.value, v.value));
        i := i + 1;
      }
      r := Ok(Map(acc), cur);
    }

    method ReadStruct(headType: byte, ty: Type, was: Value) returns (r: Out<Value>)
      requires ty.TStruct?
      modifies `cur
      ensures r == ReadBody(buf, old(cur), headType, ty, was)
      ensures r.Ok? || r.Throw? ==> cur == r.cur
      decreases ty, 2, 0
    {
      hide TarsRead.ReadFields, TarsSkip.SkipToStructEnd;
      if headType != STRUCT_BEGIN { return Throw(Mismatch, cur); }
      var v := ReadFields(ty.schema, was);
      if !v.Ok? { return v; }
      var e := SkipToStructEnd();
      match e
      case Ok(_, _) => r := Ok(v.value, cur);
      case Throw(x, _) => r := Throw(x, cur);
      case Backward(t) => r := Backward(t);
      case BadCount(k) => r := BadCount(k);
    }

    /** readFrom of a generated struct. */
    method ReadFields(schema: seq<FieldType>, was: Value) returns (r: Out<Value>)
      modifies `cur
      ensures r == TarsRead.ReadFields(buf, old(cur), schema, 0, [], was)
      ensures r.Ok? || r.Throw? ==> cur == r.cur
      decreases schema, 6, 0
    {
      hide Read, Prior;
      var acc: seq<Field> := [];
      var i := 0;
      while i < |schema|
        invariant 0 <= i <= |schema|
        invariant TarsRead.ReadFields(buf, cur, schema, i, acc, was)
               == TarsRead.ReadFields(buf, old(cur), schema, 0, [], was)
      {
        var v := ReadOneField(schema[i], was);
        if !v.Ok? { return v; }
        acc := acc + [Field(schema[i].tag, v.value)];
        i := i + 1;
      }
      r := Ok(Struct(acc), cur);
    }

    method ReadOneField(f: FieldType, was: Value) returns (r: Out<Value>)
      modifies `cur
      ensures r == ReadField(buf, old(cur), f, was)
      ensures r.Ok? || r.Throw? ==> cur == r.cur
      decreases f, 5, 0
    {
      hide Read;
      r := ReadValue(f.ty, f.tag, f.required, Prior(f, was));
    }
  }
}
