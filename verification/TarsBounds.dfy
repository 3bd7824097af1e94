/**
 * What the readers refuse (tup/Tars.h): a value of another type, and sizes that the buffer cannot hold.
 * So on any bytes at all, what is read is no larger than the buffer allows.
 */
module TarsBounds {
  import opened Bytes
  import opened TarsValue
  import opened TarsSkip
  import opened TarsExact
  import opened TarsRead
  import opened TarsEvolution

  // ---------- another type ----------

  /** The kinds of written values a target of this type looks into. */
  predicate Accepts(ty: Type, v: Value) {
    match ty
    case TInt(k) => v.Int? && Fits(v.n, CarrierWidth(k))
    case TFloat => v.Float? || v == Int(0)
    case TDouble => v.Float? || v.Double? || v == Int(0)
    case TString => v.Str?
    case TBlob => v.Blob? || v.List?
    case TList(_) => v.List?
    case TMap(_, _) => v.Map?
    case TStruct(_) => v.Struct?
  }

  /** A field whose value is of another kind is refused behind its head, whatever the target held. */
  lemma OtherTypeRefused(b: seq<byte>, cur: nat, tag: byte, v: Value, ty: Type, required: bool, was: Value)
    requires Encodable(v) && At(b, cur, Write(tag, v)) && !Accepts(ty, v)
    ensures Read(b, cur, ty, tag, required, was) == Throw(Mismatch, cur + HeadLength(tag))
  {
    hide SkipToTag, Write, PeekHead, SkipField, Encodable, ReadBody;
    WrittenHead(b, cur, tag, v);
    SkipExact(b, cur, tag, v);
    WriteSplit(b, cur, tag, v);
    SeekStep(b, cur, tag, TypeOf(v), tag, cur + |Write(tag, v)|);
    BodyRefused(b, cur + HeadLength(tag), v, ty, was);
  }

  lemma BodyRefused(b: seq<byte>, cur: nat, v: Value, ty: Type, was: Value)
    requires Encodable(v) && !Accepts(ty, v)
    ensures ReadBody(b, cur, TypeOf(v), ty, was) == Throw(Mismatch, cur)
  {
    hide SizeAt, BlobBody, CharsBody, ReadItems, ReadEntries, ReadFields, SkipToStructEnd, Take, FixedInt;
    if v.Int? { Powers(); }
  }

  // ---------- malformed fields ----------

  /** Values of a fixed size are skipped without a look at them, even past the end of the buffer. */
  lemma FixedSkips(b: seq<byte>, cur: nat, t: byte)
    requires t < 6 || t == 11 || t == 12
    ensures TarsSkip.SkipField(b, cur, t) ==
      Ok((), cur + if t == 0 then 1 else if t == 1 then 2 else if t == 2 || t == 4 then 4 else if t < 6 then 8 else 0)
  {
  }

  /** What skipField refuses, with which exception, and where the cursor then stands. */
  lemma SkipRefuses(b: seq<byte>, cur: nat, t: byte)
    ensures t > 13 ==> TarsSkip.SkipField(b, cur, t) == Throw(Mismatch, cur)
    ensures t == 6 && cur >= |b| ==> TarsSkip.SkipField(b, cur, t) == Throw(BufferOverflow, cur)
    ensures t == 7 && cur + 4 > |b| ==> TarsSkip.SkipField(b, cur, t) == Throw(BufferOverflow, cur)
    ensures t == 13 && PeekHead(b, cur).NoHead? ==> TarsSkip.SkipField(b, cur, t) == Throw(BufferOverflow, cur)
    ensures var p := PeekHead(b, cur);
      t == 13 && p.Peeked? && p.head.headType != 0 ==>
        TarsSkip.SkipField(b, cur, t) == Throw(Mismatch, cur + p.head.len)
    ensures var p := PeekHead(b, cur);
      (t == 8 || t == 9) && (p.NoHead? || p.head.headType == 11 || p.head.tag > 0) ==>
        TarsSkip.SkipField(b, cur, t) == Throw(RequireNotExist, cur)
  {
    hide SkipCells, SkipToStructEnd;
  }

  /** A search does not pass the exception on: it reports the tag absent, where the exception left the cursor. */
  lemma SearchSwallows(b: seq<byte>, cur: nat, tag: byte, h: Head, c: nat, e: Error)
    requires PeekHead(b, cur) == Peeked(h) && h.headType != 11 && h.tag < tag
    requires TarsSkip.SkipField(b, cur + h.len, h.headType) == Throw(e, c)
    ensures SkipToTag(b, cur, tag) == Absent(c)
  {
    hide TarsSkip.SkipField, PeekHead;
  }

  // ---------- sizes ----------

  /** Nothing in v is larger than n elements, or 100 MB for a string. */
  ghost predicate Bounded(v: Value, n: nat)
    decreases v
  {
    match v
    case Str(s) => |s| <= 104857600
    case Blob(p) => |p| <= n
    case List(items) => |items| <= n && forall i :: 0 <= i < |items| ==> Bounded(items[i], n)
    case Map(entries) =>
      |entries| <= n && forall i :: 0 <= i < |entries| ==> Bounded(entries[i].key, n) && Bounded(entries[i].val, n)
    case Struct(fields) => forall i :: 0 <= i < |fields| ==> Bounded(fields[i].value, n)
    case _ => true
  }

  /** The reset values in a schema are within the bounds too. */
  ghost predicate BoundedType(ty: Type, n: nat)
    decreases ty, 1
  {
    match ty
    case TList(elem) => BoundedType(elem, n)
    case TMap(key, val) => BoundedType(key, n) && BoundedType(val, n)
    case TStruct(schema) => forall i :: 0 <= i < |schema| ==> BoundedField(schema[i], n)
    case _ => true
  }

  ghost predicate BoundedField(f: FieldType, n: nat)
    decreases f, 0
  {
    (f.reset.ResetTo? ==> Bounded(f.reset.value, n)) && BoundedType(f.ty, n)
  }

  ghost predicate BoundedOut(r: Out<Value>, n: nat) {
    r.Ok? ==> Bounded(r.value, n)
  }

  lemma {:induction false} DefaultBounded(ty: Type, n: nat)
    requires BoundedType(ty, n)
    ensures Bounded(Default(ty), n)
    decreases ty, 1
  {
    if ty.TStruct? { DefaultFieldsBounded(ty.schema, n); }
  }

  lemma {:induction false} DefaultFieldsBounded(schema: seq<FieldType>, n: nat)
    requires forall i :: 0 <= i < |schema| ==> BoundedField(schema[i], n)
    ensures |DefaultFields(schema)| == |schema|
    ensures forall i :: 0 <= i < |schema| ==> Bounded(DefaultFields(schema)[i].value, n)
    decreases schema, 0
  {
    if schema != [] {
      DefaultFieldBounded(schema[0], n);
      DefaultFieldsBounded(schema[1..], n);
    }
  }

  lemma {:induction false} DefaultFieldBounded(f: FieldType, n: nat)
    requires BoundedField(f, n)
    ensures Bounded(DefaultField(f).value, n)
    decreases f, 0
  {
    if !f.reset.ResetTo? { DefaultBounded(f.ty, n); }
  }

  lemma {:induction false} FindBounded(fields: seq<Field>, tag: byte, n: nat)
    requires forall i :: 0 <= i < |fields| ==> Bounded(fields[i].value, n)
    ensures Find(fields, tag).Present? ==> Bounded(Find(fields, tag).value, n)
  {
    if fields != [] { FindBounded(fields[1..], tag, n); }
  }

  lemma PriorBounded(f: FieldType, was: Value, n: nat)
    requires BoundedField(f, n) && Bounded(was, n)
    ensures Bounded(Prior(f, was), n)
  {
    hide Find, Default;
    DefaultBounded(f.ty, n);
    if was.Struct? { FindBounded(was.fields, f.tag, n); }
  }

  lemma {:induction false} CharsBounded(b: seq<byte>, cur: nat, n: int, acc: seq<byte>)
    ensures var r := CharsBody(b, cur, n, acc); r.Ok? ==> |r.value| <= n || |r.value| <= |acc|
    decreases n - |acc|
  {
    hide ReadInt;
    if |acc| < n {
      var r := ReadInt(b, cur, Char, 0, true, 0);
      if r.Ok? { CharsBounded(b, r.cur, n, acc + [r.value % 256]); }
    }
  }

  /**
   * On any bytes, a value that is read holds no string above 100 MB, and no byte list, list or map with
   * more elements than the buffer has bytes, at any depth; what it did not read it had before.
   */
  lemma {:induction false} ReadBounded(
      b: seq<byte>, cur: nat, ty: Type, tag: byte, required: bool, was: Value)
    requires Bounded(was, |b|) && BoundedType(ty, |b|)
    ensures BoundedOut(Read(b, cur, ty, tag, required, was), |b|)
    decreases ty, 4, 0
  {
    hide SkipToTag, ReadBody, Bounded, BoundedType;
    var s := SkipToTag(b, cur, tag);
    if s.Found? { BodyBounded(b, s.cur, s.headType, ty, was); }
  }

  lemma {:induction false} BodyBounded(b: seq<byte>, cur: nat, headType: byte, ty: Type, was: Value)
    requires Bounded(was, |b|) && BoundedType(ty, |b|)
    ensures BoundedOut(ReadBody(b, cur, headType, ty, was), |b|)
    decreases ty, 3, 0
  {
    hide SizeAt, CharsBody, ReadItems, ReadEntries, ReadFields, SkipToStructEnd, IntBody;
    match ty
    case TBlob =>
      var s := SizeAt(b, cur);
      if headType == LIST && s.Ok? { CharsBounded(b, s.cur, s.value, []); }
    case TList(elem) =>
      var s := SizeAt(b, cur);
      if s.Ok? { ItemsBounded(b, s.cur, ty, s.value, [], was); }
    case TMap(key, val) =>
      var s := SizeAt(b, cur);
      if s.Ok? { EntriesBounded(b, s.cur, ty, s.value, []); }
    case TStruct(schema) => FieldsBounded(b, cur, schema, 0, [], was);
    case _ =>
  }

  lemma {:induction false} ItemsBounded(b: seq<byte>, cur: nat, ty: Type, n: int, acc: seq<Value>, was: Value)
    requires ty.TList? && BoundedType(ty, |b|) && Bounded(was, |b|)
    requires |acc| <= n <= |b| && forall i :: 0 <= i < |acc| ==> Bounded(acc[i], |b|)
    ensures BoundedOut(ReadItems(b, cur, ty, n, acc, was), |b|)
    decreases ty, 0, n - |acc|
  {
    hide Read, Default;
    if |acc| < n {
      DefaultBounded(ty.elem, |b|);
      var p := PriorItem(ty.elem, was, |acc|);
      ReadBounded(b, cur, ty.elem, 0, true, p);
      var r := Read(b, cur, ty.elem, 0, true, p);
      if r.Ok? { ItemsBounded(b, r.cur, ty, n, acc + [r.value], was); }
    }
  }

  lemma {:induction false} InsertBounded(entries: seq<Entry>, e: Entry)
    ensures |Insert(entries, e)| <= |entries| + 1
    ensures forall x: Entry :: x in Insert(entries, e) ==> x in entries || x == e
  {
    hide Less;
    if entries != [] { InsertBounded(entries[1..], e); }
  }

  lemma {:induction false} EntriesBounded(b: seq<byte>, cur: nat, ty: Type, n: int, acc: seq<Entry>)
    requires ty.TMap? && BoundedType(ty, |b|) && 0 <= n && |acc| + n <= |b|
    requires forall x: Entry :: x in acc ==> Bounded(x.key, |b|) && Bounded(x.val, |b|)
    ensures BoundedOut(ReadEntries(b, cur, ty, n, acc), |b|)
    decreases ty, 0, n
  {
    hide Read, Default, Insert;
    if n > 0 {
      DefaultBounded(ty.key, |b|);
      DefaultBounded(ty.val, |b|);
      ReadBounded(b, cur, ty.key, 0, true, Default(ty.key));
      var k := Read(b, cur, ty.key, 0, true, Default(ty.key));
      if k.Ok? {
        ReadBounded(b, k.cur, ty.val, 1, true, Default(ty.val));
        var v := Read(b, k.cur, ty.val, 1, true, Default(ty.val));
        if v.Ok? {
          InsertBounded(acc, Entry(k.value, v.value));
          EntriesBounded(b, v.cur, ty, n - 1, Insert(acc, Entry(k.value, v.value)));
        }
      }
    }
  }

  lemma {:induction false} FieldsBounded(
      b: seq<byte>, cur: nat, schema: seq<FieldType>, i: nat, acc: seq<Field>, was: Value)
    requires i <= |schema| && Bounded(was, |b|)
    requires forall k :: 0 <= k < |schema| ==> BoundedField(schema[k], |b|)
    requires forall k :: 0 <= k < |acc| ==> Bounded(acc[k].value, |b|)
    ensures BoundedOut(ReadFields(b, cur, schema, i, acc, was), |b|)
    decreases schema, 5, |schema| - i
  {
    hide Read, Prior;
    if i < |schema| {
      var f := schema[i];
      PriorBounded(f, was, |b|);
      FieldBounded(b, cur, f, was);
      var r := ReadField(b, cur, f, was);
      if r.Ok? { FieldsBounded(b, r.cur, schema, i + 1, acc + [Field(f.tag, r.value)], was); }
    }
  }

  lemma {:induction false} FieldBounded(b: seq<byte>, cur: nat, f: FieldType, was: Value)
    requires BoundedField(f, |b|) && Bounded(Prior(f, was), |b|)
    ensures BoundedOut(ReadField(b, cur, f, was), |b|)
    decreases f, 5, 0
  {
    hide Read, Prior;
    ReadBounded(b, cur, f.ty, f.tag, f.required, Prior(f, was));
  }
}
