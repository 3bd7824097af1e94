/** Exact skipping (tup/Tars.h): whatever the writer produced, the reader skips that and no more. */
module TarsExact {
  import opened Bytes
  import opened TarsValue
  import opened TarsSkip
  import opened TarsCounts

  /** A written count is read back, and what was written after it follows. */
  lemma CountedAt(b: seq<byte>, cur: nat, n: nat, rest: seq<byte>)
    requires n < 0x8000_0000 && At(b, cur, WriteInt(0, ToInt32(n)) + rest)
    ensures CountAt(b, cur, 4) == Ok(n, cur + |WriteInt(0, ToInt32(n))|)
    ensures At(b, cur + |WriteInt(0, ToInt32(n))|, rest)
  {
    hide WriteInt, CountAt, ToInt32, Fits;
    LengthIs(n);
    AtSplit(b, cur, WriteInt(0, ToInt32(n)), rest);
    CountExact(b, cur, n, 4);
  }

  /** skipField consumes exactly the body of any value the writer can produce, whatever follows it. */
  lemma {:induction false} SkipBodyExact(b: seq<byte>, cur: nat, v: Value)
    requires Encodable(v)
    requires At(b, cur, Body(v))
    ensures SkipField(b, cur, TypeOf(v)) == Ok((), cur + |Body(v)|)
    decreases v, 0
  {
    hide SkipField, CountAt, PeekHead, WriteInt, Items, Entries, Fields, BigEndian, Write, ToInt32, IntHead;
    hide EncodeInt, HeadBytes;
    match v
    case Int(n) => SkipFixedExact(b, cur, v);
    case Float(_) => SkipFixedExact(b, cur, v);
    case Double(_) => SkipFixedExact(b, cur, v);
    case Str(s) => SkipStringExact(b, cur, s);
    case Blob(p) =>
      AtSplit(b, cur, HeadBytes(CHAR, 0), WriteInt(0, ToInt32(|p|)) + p);
      HeadExact(b, cur, CHAR, 0);
      CountedAt(b, cur + 1, |p|, p);
      SkipBytesAt(b, cur, |p|, cur + 1 + |WriteInt(0, ToInt32(|p|))|);
    case List(items) =>
      CountedAt(b, cur, |items|, Items(items));
      SkipCountAt(b, cur, LIST, |items|, cur + |WriteInt(0, ToInt32(|items|))|);
      SkipItemsExact(b, cur + |WriteInt(0, ToInt32(|items|))|, items);
    case Map(entries) =>
      CountedAt(b, cur, |entries|, Entries(entries));
      SkipCountAt(b, cur, MAP, |entries|, cur + |WriteInt(0, ToInt32(|entries|))|);
      SkipEntriesExact(b, cur + |WriteInt(0, ToInt32(|entries|))|, entries);
    case Struct(fields) => SkipStructExact(b, cur, fields);
  }

  lemma SkipFixedExact(b: seq<byte>, cur: nat, v: Value)
    requires Encodable(v) && (v.Int? || v.Float? || v.Double?)
    ensures SkipField(b, cur, TypeOf(v)) == Ok((), cur + |Body(v)|)
  {
    hide CountAt, SkipCells, SkipToStructEnd, PeekHead;
    Powers();
  }

  /** A container skips its count and is left with its cells. */
  lemma SkipCountAt(b: seq<byte>, cur: nat, headType: byte, n: nat, c: nat)
    requires headType in {LIST, MAP} && CountAt(b, cur, 4) == Ok(n, c)
    requires headType == MAP ==> n < 0x4000_0000
    ensures SkipField(b, cur, headType) == SkipCells(b, c, if headType == MAP then 2 * n else n)
  {
    hide CountAt, SkipCells, SkipToStructEnd, PeekHead;
    Powers();
  }

  lemma SkipBytesAt(b: seq<byte>, cur: nat, n: nat, c: nat)
    requires PeekHead(b, cur) == Peeked(Head(CHAR, 0, 1)) && CountAt(b, cur + 1, 4) == Ok(n, c)
    ensures SkipField(b, cur, SIMPLE_LIST) == Ok((), c + n)
  {
    hide CountAt, SkipCells, SkipToStructEnd, PeekHead;
  }

  lemma {:induction false} SkipStructExact(b: seq<byte>, cur: nat, fields: seq<Field>)
    requires EncodableFields(fields)
    requires At(b, cur, Fields(fields) + HeadBytes(STRUCT_END, 0))
    ensures SkipField(b, cur, STRUCT_BEGIN) == Ok((), cur + |Fields(fields)| + 1)
    decreases fields, 1
  {
    hide SkipToStructEnd, SkipCells, CountAt, PeekHead, Fields;
    AtSplit(b, cur, Fields(fields), HeadBytes(STRUCT_END, 0));
    AtByte(b, cur + |Fields(fields)|, HeadBytes(STRUCT_END, 0), 0);
    SkipFieldsExact(b, cur, fields);
  }

  lemma SkipStringExact(b: seq<byte>, cur: nat, s: seq<byte>)
    requires |s| <= MAX_STRING_LENGTH
    requires At(b, cur, Body(Str(s)))
    ensures SkipField(b, cur, StringHead(s)) == Ok((), cur + |Body(Str(s))|)
  {
    Powers();
    var w := if |s| > 255 then 4 else 1;
    AtSplit(b, cur, BigEndian(|s|, w), s);
    BigEndianInverse(|s|, w);
    if w == 1 {
      AtByte(b, cur, BigEndian(|s|, 1), 0);
    }
  }

  lemma WriteSplit(b: seq<byte>, cur: nat, tag: byte, v: Value)
    requires At(b, cur, Write(tag, v))
    ensures At(b, cur, HeadBytes(TypeOf(v), tag))
    ensures At(b, cur + HeadLength(tag), Body(v))
  {
    hide Body, HeadBytes;
    AtSplit(b, cur, HeadBytes(TypeOf(v), tag), Body(v));
  }

  lemma WrittenHead(b: seq<byte>, cur: nat, tag: byte, v: Value)
    requires At(b, cur, Write(tag, v))
    ensures PeekHead(b, cur) == Peeked(Head(TypeOf(v), tag, HeadLength(tag)))
  {
    hide Body, PeekHead, HeadBytes;
    WriteSplit(b, cur, tag, v);
    HeadExact(b, cur, TypeOf(v), tag);
  }

  /** Head and body: one call of skipField() or one round of a skip loop. */
  lemma {:induction false} SkipExact(b: seq<byte>, cur: nat, tag: byte, v: Value)
    requires Encodable(v)
    requires At(b, cur, Write(tag, v))
    ensures SkipField(b, cur + HeadLength(tag), TypeOf(v)) == Ok((), cur + |Write(tag, v)|)
    decreases v, 1
  {
    hide SkipField, Body, HeadBytes;
    WriteSplit(b, cur, tag, v);
    SkipBodyExact(b, cur + HeadLength(tag), v);
  }

  /** One round of a skip loop over a cell that is skipped exactly. */
  lemma SkipCellsStep(b: seq<byte>, cur: nat, headType: byte, tag: byte, next: nat, n: nat)
    requires PeekHead(b, cur) == Peeked(Head(headType, tag, HeadLength(tag)))
    requires SkipField(b, cur + HeadLength(tag), headType) == Ok((), next)
    ensures SkipCells(b, cur, n + 1) == SkipCells(b, next, n)
  {
    hide SkipField, SkipToStructEnd;
  }

  lemma SkipNothing(b: seq<byte>, cur: nat)
    ensures SkipCells(b, cur, 0) == Ok((), cur)
    ensures Items([]) == [] && Entries([]) == [] && Fields([]) == []
  {
  }

  lemma SkipCellExact(b: seq<byte>, cur: nat, tag: byte, v: Value, n: nat)
    requires Encodable(v)
    requires At(b, cur, Write(tag, v))
    ensures SkipCells(b, cur, n + 1) == SkipCells(b, cur + |Write(tag, v)|, n)
    decreases v, 2
  {
    hide *;
    WrittenHead(b, cur, tag, v);
    SkipExact(b, cur, tag, v);
    SkipCellsStep(b, cur, TypeOf(v), tag, cur + |Write(tag, v)|, n);
  }

  lemma {:induction false} SkipItemsExact(b: seq<byte>, cur: nat, items: seq<Value>)
    requires EncodableItems(items) && At(b, cur, Items(items))
    ensures SkipCells(b, cur, |items|) == Ok((), cur + |Items(items)|)
    decreases items, 0
  {
    hide *;
    if items == [] {
      SkipNothing(b, cur);
    } else {
      var w := Write(0, items[0]);
      EncodableRest(items);
      ItemsCons(items);
      AtSplit(b, cur, w, Items(items[1..]));
      SkipCellExact(b, cur, 0, items[0], |items| - 1);
      SkipItemsExact(b, cur + |w|, items[1..]);
    }
  }

  lemma EncodableRest(items: seq<Value>)
    requires EncodableItems(items) && items != []
    ensures Encodable(items[0]) && EncodableItems(items[1..])
  {
    hide Encodable;
  }

  lemma {:induction false} SkipEntriesExact(b: seq<byte>, cur: nat, entries: seq<Entry>)
    requires EncodableEntries(entries) && At(b, cur, Entries(entries))
    ensures SkipCells(b, cur, 2 * |entries|) == Ok((), cur + |Entries(entries)|)
    decreases entries, 0
  {
    hide *;
    if entries == [] {
      SkipNothing(b, cur);
    } else {
      var e, rest := entries[0], entries[1..];
      var w := Write(0, e.key) + Write(1, e.val);
      EncodablePairs(entries);
      EntriesCons(entries);
      AtSplit(b, cur, w, Entries(rest));
      AtSplit(b, cur, Write(0, e.key), Write(1, e.val));
      assert e.key < e && e.val < e;
      SkipCellExact(b, cur, 0, e.key, 2 * |rest| + 1);
      SkipCellExact(b, cur + |Write(0, e.key)|, 1, e.val, 2 * |rest|);
      SkipEntriesExact(b, cur + |w|, rest);
    }
  }

  lemma EncodablePairs(entries: seq<Entry>)
    requires EncodableEntries(entries) && entries != []
    ensures Encodable(entries[0].key) && Encodable(entries[0].val) && EncodableEntries(entries[1..])
  {
    hide Encodable;
  }

  /** From any field boundary, skipToStructEnd ends just past the StructEnd of this struct. */
  lemma {:induction false} SkipFieldsExact(b: seq<byte>, cur: nat, fields: seq<Field>)
    requires EncodableFields(fields)
    requires At(b, cur, Fields(fields))
    requires cur + |Fields(fields)| < |b| && b[cur + |Fields(fields)|] == STRUCT_END
    ensures SkipToStructEnd(b, cur) == Ok((), cur + |Fields(fields)| + 1)
    decreases fields, 0
  {
    hide *;
    if fields == [] {
      SkipNothing(b, cur);
      StructEndStep(b, cur);
    } else {
      EncodableTail(fields);
      var f, rest := fields[0], fields[1..];
      var w := Write(f.tag, f.value);
      FieldsCons(fields);
      AtSplit(b, cur, w, Fields(rest));
      SkipFieldExact(b, cur, f);
      SkipStructStep(b, cur, TypeOf(f.value), f.tag, cur + |w|);
      SkipFieldsExact(b, cur + |w|, rest);
    }
  }

  lemma EncodableTail(fields: seq<Field>)
    requires EncodableFields(fields) && fields != []
    ensures Encodable(fields[0].value) && EncodableFields(fields[1..])
  {
    hide Encodable;
  }

  lemma StructEndStep(b: seq<byte>, cur: nat)
    requires cur < |b| && b[cur] == STRUCT_END
    ensures SkipToStructEnd(b, cur) == Ok((), cur + 1)
  {
    assert PeekHead(b, cur) == Peeked(Head(STRUCT_END, 0, 1));
    assert SkipField(b, cur + 1, STRUCT_END) == Ok((), cur + 1);
  }

  lemma SkipStructStep(b: seq<byte>, cur: nat, headType: byte, tag: byte, next: nat)
    requires PeekHead(b, cur) == Peeked(Head(headType, tag, HeadLength(tag)))
    requires SkipField(b, cur + HeadLength(tag), headType) == Ok((), next)
    requires headType != STRUCT_END
    ensures SkipToStructEnd(b, cur) == SkipToStructEnd(b, next)
  {
    hide SkipField, SkipCells;
  }

  lemma {:induction false} SkipFieldExact(b: seq<byte>, cur: nat, f: Field)
    requires Encodable(f.value)
    requires At(b, cur, Write(f.tag, f.value))
    ensures PeekHead(b, cur) == Peeked(Head(TypeOf(f.value), f.tag, HeadLength(f.tag)))
    ensures SkipField(b, cur + HeadLength(f.tag), TypeOf(f.value)) == Ok((), cur + |Write(f.tag, f.value)|)
    decreases f, 2
  {
    hide *;
    WrittenHead(b, cur, f.tag, f.value);
    SkipExact(b, cur, f.tag, f.value);
  }
}
