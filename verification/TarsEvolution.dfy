/**
 * Schema evolution (tup/Tars.h): whatever a newer or older writer put into a struct, a reader with
 * its own schema gets exactly the values it knows, and ends where the value ends.
 */
module TarsEvolution {
  import opened Bytes
  import opened TarsValue
  import opened TarsSkip
  import opened TarsCounts
  import opened TarsExact
  import opened TarsRead

  /** A schema is read in increasing tag order. */
  ghost predicate IncreasingSchema(schema: seq<FieldType>) {
    forall i, j :: 0 <= i < j < |schema| ==> schema[i].tag < schema[j].tag
  }

  /** `v`, written by anyone, is acceptable where a value of type `ty` is read. */
  ghost predicate Compatible(v: Value, ty: Type)
    decreases ty, 0
  {
    match ty
    case TInt(k) => v.Int? && Holds(k, v.n)
    case TFloat => v.Float?
    case TDouble => v.Float? || v.Double?
    case TString => v.Str?
    case TBlob =>
      v.Blob? || (v.List? && forall i :: 0 <= i < |v.items| ==> v.items[i].Int? && Holds(Char, v.items[i].n))
    case TList(elem) => v.List? && forall i :: 0 <= i < |v.items| ==> Compatible(v.items[i], elem)
    case TMap(key, val) =>
      v.Map? && (key.TInt? || key.TString?) && SortedEntries(v.entries)
      && forall i :: 0 <= i < |v.entries| ==>
           Compatible(v.entries[i].key, key) && Compatible(v.entries[i].val, val)
    case TStruct(schema) =>
      v.Struct? && Increasing(v.fields) && IncreasingSchema(schema)
      && forall i :: 0 <= i < |schema| ==> CompatibleField(v.fields, schema[i])
  }

  /** A field that was written has an acceptable value; one that was not is optional. */
  ghost predicate CompatibleField(fields: seq<Field>, f: FieldType)
    decreases f, 1
  {
    match Find(fields, f.tag)
    case Present(v) => Compatible(v, f.ty)
    case Missing => !f.required
  }

  /**
   * What the reader is meant to get: its own fields, each with the written value, or with the value
   * it had before if the writer did not send it; unknown fields do not matter.
   */
  ghost function Project(v: Value, ty: Type, was: Value): Value
    decreases ty, 0
  {
    match (ty, v)
    case (TList(elem), List(items)) =>
      List(seq(|items|, i requires 0 <= i < |items| => Project(items[i], elem, PriorItem(elem, was, i))))
    case (TMap(key, val), Map(entries)) =>
      Map(seq(|entries|, i requires 0 <= i < |entries| =>
        Entry(entries[i].key, Project(entries[i].val, val, Default(val)))))
    case (TStruct(schema), Struct(fields)) => Struct(ProjectFields(fields, schema, was))
    case (TBlob, List(items)) =>
      Blob(seq(|items|, i requires 0 <= i < |items| => if items[i].Int? then items[i].n % 256 else 0))
    case _ => v
  }

  ghost function ProjectFields(fields: seq<Field>, schema: seq<FieldType>, was: Value): (p: seq<Field>)
    ensures |p| == |schema|
    decreases schema, 0
  {
    seq(|schema|, i requires 0 <= i < |schema| => Field(schema[i].tag, ProjectField(fields, schema[i], was)))
  }

  ghost function ProjectField(fields: seq<Field>, f: FieldType, was: Value): Value
    decreases f, 1
  {
    match Find(fields, f.tag)
    case Present(v) => Project(v, f.ty, Prior(f, was))
    case Missing => Prior(f, was)
  }

  /**
   * resize() keeps the elements a vector already has: an optional member that the writer left out of an
   * element keeps the value the element at that place had before.
   */
  lemma ElementKeeps(items: seq<Value>, schema: seq<FieldType>, before: seq<Value>, i: nat, j: nat)
    requires i < |items| && i < |before| && j < |schema| && schema[j].reset.Keep?
    requires items[i].Struct? && Find(items[i].fields, schema[j].tag) == Missing
    requires before[i].Struct? && Find(before[i].fields, schema[j].tag).Present?
    ensures var r := Project(List(items), TList(TStruct(schema)), List(before));
      && r.List? && |r.items| == |items| && r.items[i].Struct? && j < |r.items[i].fields|
      && r.items[i].fields[j] == Field(schema[j].tag, Find(before[i].fields, schema[j].tag).value)
  {
    hide Project, ProjectField, Find;
    ItemProject(items, TStruct(schema), before, i);
    StructProject(items[i], schema, before[i], j);
    MissingProject(items[i].fields, schema[j], before[i]);
  }

  lemma ItemProject(items: seq<Value>, elem: Type, before: seq<Value>, i: nat)
    requires i < |items| && i < |before|
    ensures var r := Project(List(items), TList(elem), List(before));
      r.List? && |r.items| == |items| && r.items[i] == Project(items[i], elem, before[i])
  {
    assert PriorItem(elem, List(before), i) == before[i];
  }

  lemma StructProject(v: Value, schema: seq<FieldType>, was: Value, j: nat)
    requires v.Struct? && j < |schema|
    ensures var r := Project(v, TStruct(schema), was);
      r.Struct? && |r.fields| == |schema| && r.fields[j] == Field(schema[j].tag, ProjectField(v.fields, schema[j], was))
  {
    hide ProjectField;
  }

  lemma MissingProject(fields: seq<Field>, f: FieldType, was: Value)
    requires Find(fields, f.tag) == Missing && f.reset.Keep? && was.Struct? && Find(was.fields, f.tag).Present?
    ensures ProjectField(fields, f, was) == Find(was.fields, f.tag).value
  {
    hide Find;
  }

  // ---------- positions between fields ----------

  /** The cursor stands before `fields`, the rest of a struct that ends at `end`. */
  ghost predicate Boundary(b: seq<byte>, cur: nat, fields: seq<Field>, end: nat) {
    EncodableFields(fields) && Increasing(fields)
    && At(b, cur, Fields(fields)) && cur + |Fields(fields)| == end
    && (end == |b| || (end < |b| && b[end] == STRUCT_END))
  }

  lemma BoundaryStep(b: seq<byte>, cur: nat, fields: seq<Field>, end: nat)
    requires Boundary(b, cur, fields, end) && fields != []
    ensures Encodable(fields[0].value) && At(b, cur, Write(fields[0].tag, fields[0].value))
    ensures Boundary(b, cur + |Write(fields[0].tag, fields[0].value)|, fields[1..], end)
  {
    hide Write, Encodable, Fields;
    FieldsCons(fields);
    AtSplit(b, cur, Write(fields[0].tag, fields[0].value), Fields(fields[1..]));
  }

  lemma BoundaryEnd(b: seq<byte>, cur: nat, end: nat, tag: byte)
    requires Boundary(b, cur, [], end)
    ensures cur == end && SkipToTag(b, cur, tag) == Absent(cur)
  {
    hide SkipField;
    assert Fields([]) == [];
    if end < |b| {
      assert PeekHead(b, cur) == Peeked(Head(STRUCT_END, 0, 1));
    }
  }

  lemma SeekStep(b: seq<byte>, cur: nat, tag: byte, headType: byte, headTag: byte, next: nat)
    requires PeekHead(b, cur) == Peeked(Head(headType, headTag, HeadLength(headTag))) && headType != STRUCT_END
    requires SkipField(b, cur + HeadLength(headTag), headType) == Ok((), next)
    ensures headTag < tag ==> SkipToTag(b, cur, tag) == SkipToTag(b, next, tag)
    ensures headTag == tag ==> SkipToTag(b, cur, tag) == Found(headType, cur + HeadLength(tag))
    ensures headTag > tag ==> SkipToTag(b, cur, tag) == Absent(cur)
  {
    hide SkipField, PeekHead;
  }

  /** `rest` is what remains of `fields` once every tag below `tag` has been passed. */
  ghost predicate RestFrom(fields: seq<Field>, tag: int, rest: seq<Field>) {
    |rest| <= |fields| && rest == fields[|fields| - |rest|..]
    && (forall i :: 0 <= i < |fields| - |rest| ==> fields[i].tag < tag)
    && (forall i :: 0 <= i < |rest| ==> rest[i].tag >= tag)
  }

  /** The search stops at the wanted field, or before the first field behind it, or at the end. */
  lemma {:induction false} Seek(b: seq<byte>, cur: nat, tag: byte, fields: seq<Field>, end: nat)
      returns (next: nat, rest: seq<Field>)
    requires Boundary(b, cur, fields, end)
    ensures cur <= next && Boundary(b, next, rest, end) && RestFrom(fields, tag, rest)
    ensures SkipToTag(b, cur, tag) == SkipToTag(b, next, tag)
    ensures rest != [] && rest[0].tag == tag ==>
      SkipToTag(b, next, tag) == Found(TypeOf(rest[0].value), next + HeadLength(tag))
    ensures !(rest != [] && rest[0].tag == tag) ==> SkipToTag(b, next, tag) == Absent(next)
    decreases |fields|
  {
    hide Boundary, SkipToTag, SkipField, PeekHead, Write, Encodable, TypeOf, HeadLength;
    if fields == [] {
      BoundaryEnd(b, cur, end, tag);
      return cur, [];
    }
    var f := fields[0];
    BoundaryStep(b, cur, fields, end);
    WrittenHead(b, cur, f.tag, f.value);
    SkipExact(b, cur, f.tag, f.value);
    var after := cur + |Write(f.tag, f.value)|;
    SeekStep(b, cur, tag, TypeOf(f.value), f.tag, after);
    if f.tag < tag {
      next, rest := Seek(b, after, tag, fields[1..], end);
    } else {
      BoundaryIncreasing(b, cur, fields, end);
      return cur, fields;
    }
  }

  lemma BoundaryIncreasing(b: seq<byte>, cur: nat, fields: seq<Field>, end: nat)
    requires Boundary(b, cur, fields, end)
    ensures Increasing(fields)
  {
    hide Fields, EncodableFields;
  }

  /** Fields behind the ones already passed are still found. */
  lemma {:induction false} FindRest(fields: seq<Field>, tag: int, rest: seq<Field>, t: byte)
    requires RestFrom(fields, tag, rest) && t >= tag
    ensures Find(fields, t) == Find(rest, t)
    decreases |fields|
  {
    if |rest| < |fields| {
      assert RestFrom(fields[1..], tag, rest);
      FindRest(fields[1..], tag, rest, t);
    } else {
      assert rest == fields;
    }
  }

  lemma {:induction false} FindBehind(fields: seq<Field>, t: byte)
    requires forall i :: 0 <= i < |fields| ==> fields[i].tag > t
    ensures Find(fields, t) == Missing
  {
    if fields != [] { FindBehind(fields[1..], t); }
  }

  // ---------- exact reading ----------

  /** read(v, tag) on the encoding of a compatible value: the projected value, and all of it consumed. */
  lemma {:induction false} ReadExact(
      b: seq<byte>, cur: nat, tag: byte, v: Value, ty: Type, required: bool, was: Value)
    requires Encodable(v) && Compatible(v, ty)
    requires At(b, cur, Write(tag, v))
    ensures Read(b, cur, ty, tag, required, was) == Ok(Project(v, ty, was), cur + |Write(tag, v)|)
    decreases ty, 4, 0
  {
    hide *;
    WrittenHead(b, cur, tag, v);
    SkipExact(b, cur, tag, v);
    WriteSplit(b, cur, tag, v);
    SeekStep(b, cur, tag, TypeOf(v), tag, cur + |Write(tag, v)|);
    BodyExact(b, cur + HeadLength(tag), v, ty, was);
    WriteLength(tag, v);
    ReadFound(b, cur, ty, tag, required, was, TypeOf(v), cur + HeadLength(tag));
  }

  lemma WriteLength(tag: byte, v: Value)
    ensures |Write(tag, v)| == HeadLength(tag) + |Body(v)|
  {
    hide Body, TypeOf;
  }

  lemma ReadFound(b: seq<byte>, cur: nat, ty: Type, tag: byte, required: bool, was: Value, headType: byte, c: nat)
    requires SkipToTag(b, cur, tag) == Found(headType, c)
    ensures Read(b, cur, ty, tag, required, was) == ReadBody(b, c, headType, ty, was)
  {
    hide ReadBody, SkipToTag;
  }

  lemma ReadAbsent(b: seq<byte>, cur: nat, ty: Type, tag: byte, was: Value, c: nat)
    requires SkipToTag(b, cur, tag) == Absent(c)
    ensures Read(b, cur, ty, tag, false, was) == Ok(was, c)
  {
    hide ReadBody, SkipToTag;
  }

  lemma {:induction false} BodyExact(b: seq<byte>, cur: nat, v: Value, ty: Type, was: Value)
    requires Encodable(v) && Compatible(v, ty)
    requires At(b, cur, Body(v))
    ensures ReadBody(b, cur, TypeOf(v), ty, was) == Ok(Project(v, ty, was), cur + |Body(v)|)
    decreases ty, 3, 0
  {
    hide ReadBody, Body, Encodable, At, TypeOf, SortedEntries, Holds, CompatibleField, ProjectFields;
    match ty
    case TInt(_) => IntBodyExact(b, cur, v, ty, was);
    case TFloat => FloatBodyExact(b, cur, v, ty, was);
    case TDouble => FloatBodyExact(b, cur, v, ty, was);
    case TString => StringBodyExact(b, cur, v, was);
    case TBlob =>
      if v.Blob? { BlobBodyExact(b, cur, v, was); } else { CharListExact(b, cur, v, ty, was); }
    case TList(_) => ListExact(b, cur, v, ty, was);
    case TMap(_, _) => MapExact(b, cur, v, ty, was);
    case TStruct(_) => StructExact(b, cur, v, ty, was);
  }

  lemma IntBodyExact(b: seq<byte>, cur: nat, v: Value, ty: Type, was: Value)
    requires ty.TInt? && Compatible(v, ty) && At(b, cur, Body(v))
    ensures ReadBody(b, cur, TypeOf(v), ty, was) == Ok(Project(v, ty, was), cur + |Body(v)|)
  {
    hide ReadBody, IntBody, Body, EncodeInt, At;
    IntParts(v, ty, was);
    IntExact(b, cur, v.n, CarrierWidth(ty.kind));
    ReadIntBody(b, cur, TypeOf(v), ty.kind, was);
  }

  lemma IntParts(v: Value, ty: Type, was: Value)
    requires ty.TInt? && Compatible(v, ty)
    ensures v.Int? && TypeOf(v) == IntHead(v.n) && Body(v) == EncodeInt(v.n, IntWidth(v.n)) && Project(v, ty, was) == v
    ensures |Body(v)| == IntWidth(v.n)
    ensures Fits(v.n, CarrierWidth(ty.kind)) && Cast(ty.kind, v.n) == v.n
  {
    Powers();
  }

  lemma ReadIntBody(b: seq<byte>, cur: nat, headType: byte, kind: IntKind, was: Value)
    requires IntBody(b, cur, headType, CarrierWidth(kind)).Ok?
    ensures var r := IntBody(b, cur, headType, CarrierWidth(kind));
      ReadBody(b, cur, headType, TInt(kind), was) == Ok(Int(Cast(kind, r.value)), r.cur)
  {
    hide IntBody;
  }

  lemma FloatBodyExact(b: seq<byte>, cur: nat, v: Value, ty: Type, was: Value)
    requires (ty.TFloat? || ty.TDouble?) && Encodable(v) && Compatible(v, ty) && At(b, cur, Body(v))
    ensures ReadBody(b, cur, TypeOf(v), ty, was) == Ok(Project(v, ty, was), cur + |Body(v)|)
  {
  }

  lemma StringBodyExact(b: seq<byte>, cur: nat, v: Value, was: Value)
    requires Encodable(v) && v.Str? && At(b, cur, Body(v))
    ensures ReadBody(b, cur, TypeOf(v), TString, was) == Ok(v, cur + |Body(v)|)
  {
    hide ReadItems, ReadEntries, ReadFields, SizeAt, BlobBody, CharsBody, IntBody, BigEndian, FromBigEndian, Pow256;
    Powers();
    var s := v.s;
    var w := if |s| > 255 then 4 else 1;
    AtSplit(b, cur, BigEndian(|s|, w), s);
    if w == 1 {
      OneByte(|s|);
      AtByte(b, cur, BigEndian(|s|, 1), 0);
    } else {
      BigEndianInverse(|s|, w);
    }
  }

  /** The guard `size > this->size()` never trips on a written length. */
  lemma SizeExact(b: seq<byte>, cur: nat, n: nat, e: seq<byte>)
    requires n < 0x8000_0000 && n <= |e|
    requires At(b, cur, WriteInt(0, ToInt32(n)) + e)
    ensures SizeAt(b, cur) == Ok(n, cur + |WriteInt(0, ToInt32(n))|)
  {
    hide CountAt, WriteInt;
    AtSplit(b, cur, WriteInt(0, ToInt32(n)), e);
    LengthIs(n);
    CountExact(b, cur, n, 8);
  }

  lemma BlobBodyExact(b: seq<byte>, cur: nat, v: Value, was: Value)
    requires Encodable(v) && At(b, cur, Body(v))
    ensures v.Blob? ==> ReadBody(b, cur, TypeOf(v), TBlob, was) == Ok(v, cur + |Body(v)|)
  {
    hide SizeAt, WriteInt;
    if v.Blob? {
      var p := v.bytes;
      AtSplit(b, cur, HeadBytes(CHAR, 0), WriteInt(0, ToInt32(|p|)) + p);
      HeadExact(b, cur, CHAR, 0);
      AtSplit(b, cur + 1, WriteInt(0, ToInt32(|p|)), p);
      SizeExact(b, cur + 1, |p|, p);
    }
  }

  // ---------- lists ----------

  lemma {:induction false} ListExact(b: seq<byte>, cur: nat, v: Value, ty: Type, was: Value)
    requires Encodable(v) && Compatible(v, ty) && At(b, cur, Body(v))
    ensures ty.TList? ==> ReadBody(b, cur, TypeOf(v), ty, was) == Ok(Project(v, ty, was), cur + |Body(v)|)
    decreases ty, 2, 0
  {
    hide SizeAt, WriteInt, Items, ReadItems;
    if ty.TList? {
      var c := cur + |WriteInt(0, ToInt32(|v.items|))|;
      ItemsLength(v.items);
      AtSplit(b, cur, WriteInt(0, ToInt32(|v.items|)), Items(v.items));
      SizeExact(b, cur, |v.items|, Items(v.items));
      assert v.items[0..] == v.items;
      ItemsExact(b, c, v.items, 0, ty, [], was);
    }
  }

  lemma ListProjection(items: seq<Value>, ty: Type, was: Value)
    requires ty.TList?
    ensures Project(List(items), ty, was).List?
    ensures var p := Project(List(items), ty, was).items;
      |p| == |items| && forall i :: 0 <= i < |p| ==> p[i] == Project(items[i], ty.elem, PriorItem(ty.elem, was, i))
  {
  }

  lemma {:induction false} ItemsExact(
      b: seq<byte>, cur: nat, items: seq<Value>, i: nat, ty: Type, acc: seq<Value>, was: Value)
    requires ty.TList? && i <= |items|
    requires forall k :: 0 <= k < |items| ==> Encodable(items[k]) && Compatible(items[k], ty.elem)
    requires At(b, cur, Items(items[i..]))
    requires acc == Project(List(items), ty, was).items[..i]
    ensures ReadItems(b, cur, ty, |items|, acc, was)
         == Ok(Project(List(items), ty, was), cur + |Items(items[i..])|)
    decreases ty, 1, |items| - i
  {
    hide Read, Write, Encodable, Compatible, Project, Items, PriorItem;
    ListProjection(items, ty, was);
    SkipNothing(b, cur);
    var p := Project(List(items), ty, was).items;
    if i == |items| {
      assert acc == p;
      assert items[i..] == [];
    } else {
      ItemsCons(items[i..]);
      assert items[i..][1..] == items[i + 1..];
      var w := Write(0, items[i]);
      AtSplit(b, cur, w, Items(items[i + 1..]));
      ReadExact(b, cur, 0, items[i], ty.elem, true, PriorItem(ty.elem, was, i));
      assert acc + [p[i]] == p[..i + 1];
      ItemsExact(b, cur + |w|, items, i + 1, ty, acc + [p[i]], was);
    }
  }

  lemma {:induction false} CharListExact(b: seq<byte>, cur: nat, v: Value, ty: Type, was: Value)
    requires Encodable(v) && Compatible(v, ty) && At(b, cur, Body(v))
    ensures ty.TBlob? && v.List? ==> ReadBody(b, cur, TypeOf(v), ty, was) == Ok(Project(v, ty, was), cur + |Body(v)|)
  {
    hide SizeAt, WriteInt, Items, CharsBody, BlobBody;
    if ty.TBlob? && v.List? {
      ItemsLength(v.items);
      AtSplit(b, cur, WriteInt(0, ToInt32(|v.items|)), Items(v.items));
      SizeExact(b, cur, |v.items|, Items(v.items));
      assert v.items[0..] == v.items;
      CharsExact(b, cur + |WriteInt(0, ToInt32(|v.items|))|, v.items, 0, []);
    }
  }

  lemma {:induction false} CharsExact(b: seq<byte>, cur: nat, items: seq<Value>, i: nat, acc: seq<byte>)
    requires i <= |items|
    requires forall k :: 0 <= k < |items| ==> items[k].Int? && Holds(Char, items[k].n)
    requires At(b, cur, Items(items[i..]))
    requires acc == Project(List(items), TBlob, Blob([])).bytes[..i]
    ensures CharsBody(b, cur, |items|, acc)
         == Ok(Project(List(items), TBlob, Blob([])).bytes, cur + |Items(items[i..])|)
    decreases |items| - i
  {
    hide ReadInt, Write;
    var p := Project(List(items), TBlob, Blob([])).bytes;
    if i == |items| {
      assert acc == p;
      assert items[i..] == [];
    } else {
      ItemsCons(items[i..]);
      assert items[i..][1..] == items[i + 1..];
      var w := Write(0, items[i]);
      AtSplit(b, cur, w, Items(items[i + 1..]));
      ReadIntExact(b, cur, 0, items[i].n, Char, true, 0);
      assert acc + [p[i]] == p[..i + 1];
      CharsExact(b, cur + |w|, items, i + 1, acc + [p[i]]);
    }
  }

  lemma HoldsFits(k: IntKind, n: int)
    requires Holds(k, n)
    ensures Fits(n, CarrierWidth(k)) && Fits(n, 8) && Cast(k, n) == n
  {
    Powers();
  }

  lemma CarrierFits(k: IntKind, n: int)
    requires Fits(n, CarrierWidth(k))
    ensures CarrierWidth(k) in {1, 2, 4, 8} && Fits(n, 8)
    ensures Cast(k, n) == n <==> Holds(k, n)
  {
    Powers();
  }

  /** An integer that fits the carrier an overload reads is read, and cast to the overload's target. */
  lemma CarriedExact(b: seq<byte>, cur: nat, tag: byte, n: int, k: IntKind, required: bool, was: int)
    requires Fits(n, CarrierWidth(k)) && At(b, cur, Write(tag, Int(n)))
    ensures ReadInt(b, cur, k, tag, required, was) == Ok(Cast(k, n), cur + |Write(tag, Int(n))|)
  {
    hide SkipToTag, SkipField, PeekHead, IntBody, Write, Holds, Cast, Fits, HeadBytes, EncodeInt;
    CarrierFits(k, n);
    WrittenHead(b, cur, tag, Int(n));
    SkipExact(b, cur, tag, Int(n));
    WriteSplit(b, cur, tag, Int(n));
    SeekStep(b, cur, tag, TypeOf(Int(n)), tag, cur + |Write(tag, Int(n))|);
    WriteLength(tag, Int(n));
    IntExact(b, cur + HeadLength(tag), n, CarrierWidth(k));
  }

  /** An integer is read back by every overload that can hold it. */
  lemma ReadIntExact(b: seq<byte>, cur: nat, tag: byte, n: int, k: IntKind, required: bool, was: int)
    requires Holds(k, n) && At(b, cur, Write(tag, Int(n)))
    ensures ReadInt(b, cur, k, tag, required, was) == Ok(n, cur + |Write(tag, Int(n))|)
  {
    hide Write, Holds, Cast, Fits, ReadInt;
    HoldsFits(k, n);
    CarriedExact(b, cur, tag, n, k, required, was);
  }

  // ---------- maps ----------

  lemma {:induction false} LexicographicAsymmetric(s: seq<byte>, t: seq<byte>)
    requires Lexicographic(s, t)
    ensures !Lexicographic(t, s)
  {
    if s != [] && s[0] == t[0] { LexicographicAsymmetric(s[1..], t[1..]); }
  }

  lemma LessAsymmetric(x: Value, y: Value)
    requires Less(x, y)
    ensures !Less(y, x)
  {
    if x.Str? { LexicographicAsymmetric(x.s, y.s); }
  }

  /** Inserting entries in key order rebuilds the map they came from. */
  lemma {:induction false} InsertLast(entries: seq<Entry>, e: Entry)
    requires forall i :: 0 <= i < |entries| ==> Less(entries[i].key, e.key)
    ensures Insert(entries, e) == entries + [e]
  {
    if entries != [] {
      LessAsymmetric(entries[0].key, e.key);
      InsertLast(entries[1..], e);
    }
  }

  lemma {:induction false} MapExact(b: seq<byte>, cur: nat, v: Value, ty: Type, was: Value)
    requires Encodable(v) && Compatible(v, ty) && At(b, cur, Body(v))
    ensures ty.TMap? ==> ReadBody(b, cur, TypeOf(v), ty, was) == Ok(Project(v, ty, was), cur + |Body(v)|)
    decreases ty, 2, 0
  {
    hide SizeAt, WriteInt, Entries, ReadEntries;
    if ty.TMap? {
      EntriesLength(v.entries);
      AtSplit(b, cur, WriteInt(0, ToInt32(|v.entries|)), Entries(v.entries));
      SizeExact(b, cur, |v.entries|, Entries(v.entries));
      assert v.entries[0..] == v.entries;
      EntriesExact(b, cur + |WriteInt(0, ToInt32(|v.entries|))|, v.entries, 0, ty, []);
    }
  }

  ghost predicate GoodEntries(entries: seq<Entry>, ty: Type)
    requires ty.TMap?
  {
    (ty.key.TInt? || ty.key.TString?) && SortedEntries(entries)
    && forall k :: 0 <= k < |entries| ==>
         Encodable(entries[k].key) && Compatible(entries[k].key, ty.key)
         && Encodable(entries[k].val) && Compatible(entries[k].val, ty.val)
  }

  lemma MapProjection(entries: seq<Entry>, ty: Type)
    requires ty.TMap?
    ensures Project(Map(entries), ty, Map([])).Map?
    ensures var p := Project(Map(entries), ty, Map([])).entries;
      && |p| == |entries|
      && forall i :: 0 <= i < |p| ==> p[i] == Entry(entries[i].key, Project(entries[i].val, ty.val, Default(ty.val)))
  {
  }

  lemma {:induction false} EntriesExact(
      b: seq<byte>, cur: nat, entries: seq<Entry>, i: nat, ty: Type, acc: seq<Entry>)
    requires ty.TMap? && i <= |entries| && GoodEntries(entries, ty)
    requires At(b, cur, Entries(entries[i..]))
    requires acc == Project(Map(entries), ty, Map([])).entries[..i]
    ensures ReadEntries(b, cur, ty, |entries| - i, acc)
         == Ok(Project(Map(entries), ty, Map([])), cur + |Entries(entries[i..])|)
    decreases ty, 1, |entries| - i
  {
    hide Read, Write, Encodable, Compatible, Insert, Less, Project;
    MapProjection(entries, ty);
    var p := Project(Map(entries), ty, Map([])).entries;
    if i == |entries| {
      assert acc == p;
      assert entries[i..] == [];
    } else {
      EntriesCons(entries[i..]);
      assert entries[i..][1..] == entries[i + 1..];
      var w := Write(0, entries[i].key) + Write(1, entries[i].val);
      AtSplit(b, cur, w, Entries(entries[i + 1..]));
      EntryExact(b, cur, entries[i], ty);
      InsertLast(acc, p[i]);
      assert acc + [p[i]] == p[..i + 1];
      EntriesExact(b, cur + |w|, entries, i + 1, ty, acc + [p[i]]);
    }
  }

  lemma {:induction false} EntryExact(b: seq<byte>, cur: nat, e: Entry, ty: Type)
    requires ty.TMap? && (ty.key.TInt? || ty.key.TString?)
    requires Encodable(e.key) && Compatible(e.key, ty.key) && Encodable(e.val) && Compatible(e.val, ty.val)
    requires At(b, cur, Write(0, e.key) + Write(1, e.val))
    ensures Read(b, cur, ty.key, 0, true, Default(ty.key)) == Ok(e.key, cur + |Write(0, e.key)|)
    ensures Read(b, cur + |Write(0, e.key)|, ty.val, 1, true, Default(ty.val))
         == Ok(Project(e.val, ty.val, Default(ty.val)), cur + |Write(0, e.key) + Write(1, e.val)|)
    decreases ty, 0, 0
  {
    hide Read, Write, Encodable, Compatible;
    AtSplit(b, cur, Write(0, e.key), Write(1, e.val));
    ReadExact(b, cur, 0, e.key, ty.key, true, Default(ty.key));
    assert Project(e.key, ty.key, Default(ty.key)) == e.key;
    ReadExact(b, cur + |Write(0, e.key)|, 1, e.val, ty.val, true, Default(ty.val));
  }

  // ---------- structs ----------

  /** Reading one field of the schema from any boundary before it. */
  lemma {:induction false} FieldExact(
      b: seq<byte>, cur: nat, f: FieldType, fields: seq<Field>, was: Value, end: nat)
      returns (next: nat, rest: seq<Field>)
    requires Boundary(b, cur, fields, end) && CompatibleField(fields, f)
    ensures ReadField(b, cur, f, was) == Ok(ProjectField(fields, f, was), next)
    ensures Boundary(b, next, rest, end) && RestFrom(fields, f.tag + 1, rest)
    decreases f, 4, 0
  {
    hide Boundary, SkipToTag, SkipField, PeekHead, Write, Encodable, Read, Compatible, Project, TypeOf, HeadLength;
    next, rest := Seek(b, cur, f.tag, fields, end);
    FindRest(fields, f.tag, rest, f.tag);
    BoundaryIncreasing(b, next, rest, end);
    if rest != [] && rest[0].tag == f.tag {
      BoundaryStep(b, next, rest, end);
      var v := rest[0].value;
      assert Find(rest, f.tag) == Present(v);
      ReadExact(b, next, f.tag, v, f.ty, f.required, Prior(f, was));
      ReadFrom(b, cur, next, f, was);
      next := next + |Write(f.tag, v)|;
      rest := rest[1..];
    } else {
      FindBehind(rest, f.tag);
      ReadAbsent(b, cur, f.ty, f.tag, Prior(f, was), next);
    }
  }

  lemma ReadFrom(b: seq<byte>, cur: nat, next: nat, f: FieldType, was: Value)
    requires SkipToTag(b, cur, f.tag) == SkipToTag(b, next, f.tag)
    ensures ReadField(b, cur, f, was) == Read(b, next, f.ty, f.tag, f.required, Prior(f, was))
  {
    hide SkipToTag, ReadBody;
  }

  /** readFrom over the rest of a struct: the projected fields; only fields behind the schema remain. */
  lemma {:induction false} FieldsExact(
      b: seq<byte>, cur: nat, schema: seq<FieldType>, i: nat, all: seq<Field>, fields: seq<Field>, was: Value, end: nat)
      returns (next: nat, rest: seq<Field>)
    requires i <= |schema| && IncreasingSchema(schema)
    requires Boundary(b, cur, fields, end)
    requires forall k :: i <= k < |schema| ==> CompatibleField(all, schema[k])
    requires RestFrom(all, if i == 0 then 0 else schema[i - 1].tag + 1, fields)
    ensures ReadFields(b, cur, schema, i, ProjectFields(all, schema, was)[..i], was)
         == Ok(Struct(ProjectFields(all, schema, was)), next)
    ensures Boundary(b, next, rest, end)
    ensures RestFrom(all, if schema == [] then 0 else schema[|schema| - 1].tag + 1, rest)
    decreases schema, 5, |schema| - i
  {
    hide Boundary, CompatibleField, ReadField, ProjectField;
    var p := ProjectFields(all, schema, was);
    if i == |schema| {
      assert p[..i] == p;
      return cur, fields;
    }
    var f := schema[i];
    SameField(all, if i == 0 then 0 else schema[i - 1].tag + 1, fields, f, was);
    next, rest := FieldExact(b, cur, f, fields, was, end);
    assert p[..i] + [p[i]] == p[..i + 1];
    RestTrans(all, if i == 0 then 0 else schema[i - 1].tag + 1, fields, f.tag + 1, rest);
    next, rest := FieldsExact(b, next, schema, i + 1, all, rest, was, end);
  }

  lemma SameField(all: seq<Field>, tag: int, fields: seq<Field>, f: FieldType, was: Value)
    requires RestFrom(all, tag, fields) && tag <= f.tag
    ensures CompatibleField(all, f) == CompatibleField(fields, f)
    ensures ProjectField(all, f, was) == ProjectField(fields, f, was)
  {
    hide Compatible, Project, Find;
    FindRest(all, tag, fields, f.tag);
  }

  lemma RestTrans(all: seq<Field>, s: int, fields: seq<Field>, t: int, rest: seq<Field>)
    requires RestFrom(all, s, fields) && RestFrom(fields, t, rest) && s <= t
    ensures RestFrom(all, t, rest)
  {
    assert rest == all[|all| - |rest|..];
    forall k | 0 <= k < |all| - |rest| ensures all[k].tag < t {
      if k >= |all| - |fields| {
        assert all[k] == fields[k - (|all| - |fields|)];
      }
    }
  }

  lemma {:induction false} StructExact(b: seq<byte>, cur: nat, v: Value, ty: Type, was: Value)
    requires ty.TStruct? && Encodable(v) && Compatible(v, ty) && At(b, cur, Body(v))
    ensures ReadBody(b, cur, TypeOf(v), ty, was) == Ok(Project(v, ty, was), cur + |Body(v)|)
    decreases ty, 2, 0
  {
    hide Fields, ReadFields, SkipToStructEnd, ProjectFields, CompatibleField, Encodable;
    StructBoundary(b, cur, v);
    var end := cur + |Fields(v.fields)|;
    assert RestFrom(v.fields, 0, v.fields);
    var next, rest := FieldsExact(b, cur, ty.schema, 0, v.fields, v.fields, was, end);
    assert ProjectFields(v.fields, ty.schema, was)[..0] == [];
    SkipFieldsExact(b, next, rest);
  }

  lemma StructBoundary(b: seq<byte>, cur: nat, v: Value)
    requires v.Struct? && Encodable(v) && Increasing(v.fields) && At(b, cur, Body(v))
    ensures Boundary(b, cur, v.fields, cur + |Fields(v.fields)|)
    ensures cur + |Fields(v.fields)| < |b| && b[cur + |Fields(v.fields)|] == STRUCT_END
    ensures |Body(v)| == |Fields(v.fields)| + 1
  {
    hide Fields;
    AtSplit(b, cur, Fields(v.fields), HeadBytes(STRUCT_END, 0));
    AtByte(b, cur + |Fields(v.fields)|, HeadBytes(STRUCT_END, 0), 0);
  }

  // ---------- what is refused ----------

  /** A required field that was not written: the exception, and the cursor before the first field behind it. */
  lemma {:induction false} MissingThrows(
      b: seq<byte>, cur: nat, f: FieldType, fields: seq<Field>, was: Value, end: nat)
      returns (next: nat, rest: seq<Field>)
    requires Boundary(b, cur, fields, end) && f.required && Find(fields, f.tag) == Missing
    ensures ReadField(b, cur, f, was) == Throw(RequireNotExist, next)
    ensures Boundary(b, next, rest, end) && RestFrom(fields, f.tag + 1, rest)
  {
    hide Boundary, SkipToTag, SkipField, PeekHead, Write, Encodable, Read, TypeOf, HeadLength;
    next, rest := Seek(b, cur, f.tag, fields, end);
    FindRest(fields, f.tag, rest, f.tag);
    BoundaryIncreasing(b, next, rest, end);
    assert rest != [] ==> rest[0].tag != f.tag;
    ReadFrom(b, cur, next, f, was);
    ReadMissing(b, next, f.ty, f.tag, Prior(f, was), next);
  }

  lemma ReadMissing(b: seq<byte>, cur: nat, ty: Type, tag: byte, was: Value, c: nat)
    requires SkipToTag(b, cur, tag) == Absent(c)
    ensures Read(b, cur, ty, tag, true, was) == Throw(RequireNotExist, c)
  {
    hide ReadBody, SkipToTag;
  }

  /** readFrom fails at the first required field of its schema that the writer left out, and nowhere before. */
  lemma {:induction false} FieldsMissing(
      b: seq<byte>, cur: nat, schema: seq<FieldType>, i: nat, j: nat, all: seq<Field>, fields: seq<Field>,
      was: Value, end: nat)
      returns (next: nat, rest: seq<Field>)
    requires i <= j < |schema| && IncreasingSchema(schema)
    requires Boundary(b, cur, fields, end)
    requires forall k :: i <= k < j ==> CompatibleField(all, schema[k])
    requires schema[j].required && Find(all, schema[j].tag) == Missing
    requires RestFrom(all, if i == 0 then 0 else schema[i - 1].tag + 1, fields)
    ensures ReadFields(b, cur, schema, i, ProjectFields(all, schema, was)[..i], was) == Throw(RequireNotExist, next)
    ensures Boundary(b, next, rest, end) && RestFrom(all, schema[j].tag + 1, rest)
    decreases j - i
  {
    hide Boundary, CompatibleField, ReadField, ProjectField, Find, RestFrom;
    var p := ProjectFields(all, schema, was);
    var f := schema[i];
    var from := if i == 0 then 0 else schema[i - 1].tag + 1;
    if i == j {
      FindRest(all, from, fields, f.tag);
      next, rest := MissingThrows(b, cur, f, fields, was, end);
      RestTrans(all, from, fields, f.tag + 1, rest);
    } else {
      SameField(all, from, fields, f, was);
      next, rest := FieldExact(b, cur, f, fields, was, end);
      assert p[..i] + [p[i]] == p[..i + 1];
      RestTrans(all, from, fields, f.tag + 1, rest);
      next, rest := FieldsMissing(b, next, schema, i + 1, j, all, rest, was, end);
    }
  }

  /**
   * What an overload makes of any written integer: it refuses the head if the integer does not fit
   * the signed carrier the overload reads, and otherwise casts it to the target. The cast wraps
   * silently exactly when the target cannot hold the integer, which happens for the unsigned and bool
   * targets only.
   */
  lemma ReadIntIff(b: seq<byte>, cur: nat, tag: byte, n: int, k: IntKind, required: bool, was: int)
    requires Fits(n, 8) && At(b, cur, Write(tag, Int(n)))
    ensures var r := ReadInt(b, cur, k, tag, required, was);
      && (r.Ok? <==> Fits(n, CarrierWidth(k)))
      && (r.Ok? ==> r == Ok(Cast(k, n), cur + |Write(tag, Int(n))|) && (r.value == n <==> Holds(k, n)))
      && (!r.Ok? ==> r == Throw(Mismatch, cur + HeadLength(tag)) && !Holds(k, n))
    ensures Fits(n, CarrierWidth(k)) && !Holds(k, n) ==> k in {Bool, UInt8, UInt16, UInt32}
  {
    hide SkipToTag, Write, PeekHead, SkipField;
    if Fits(n, CarrierWidth(k)) {
      CarriedExact(b, cur, tag, n, k, required, was);
      CarrierFits(k, n);
    } else {
      Powers();
      WrittenHead(b, cur, tag, Int(n));
      SkipExact(b, cur, tag, Int(n));
      WriteSplit(b, cur, tag, Int(n));
      SeekStep(b, cur, tag, IntHead(n), tag, cur + |Write(tag, Int(n))|);
    }
  }
}
