/** Everything the TARS writer can put on the wire, and the bytes it writes for it (tup/Tars.h). */
module TarsValue {
  import opened Bytes

  const CHAR := 0
  const SHORT := 1
  const INT32 := 2
  const INT64 := 3
  const FLOAT := 4
  const DOUBLE := 5
  const STRING1 := 6
  const STRING4 := 7
  const MAP := 8
  const LIST := 9
  const STRUCT_BEGIN := 10
  const STRUCT_END := 11
  const ZERO_TAG := 12
  const SIMPLE_LIST := 13

  const MAX_STRING_LENGTH := 100 * 1024 * 1024

  /**
   * Written values. Floats are opaque payloads of 4 and 8 bytes; a map is the in-order entry list of
   * a std::map; a struct is the run of tagged fields its writeTo emits.
   */
  datatype Value =
    | Int(n: int)
    | Float(payload: seq<byte>)
    | Double(payload: seq<byte>)
    | Str(s: seq<byte>)
    | Blob(bytes: seq<byte>)
    | List(items: seq<Value>)
    | Map(entries: seq<Entry>)
    | Struct(fields: seq<Field>)

  datatype Entry = Entry(key: Value, val: Value)

  datatype Field = Field(tag: byte, value: Value)

  // ---------- the writer ----------

  /** TarsWriteToHead: one byte for tags below 15, two otherwise. */
  function HeadBytes(headType: byte, tag: byte): (s: seq<byte>)
    requires headType < 16
    ensures |s| == HeadLength(tag)
  {
    if tag < 15 then [headType + 16 * tag] else [headType + 240, tag]
  }

  function HeadLength(tag: byte): nat {
    if tag < 15 then 1 else 2
  }

  /** The head type chosen for an integer: Int64 narrows to Int32, Short, Char and ZeroTag. */
  function IntHead(n: int): byte {
    if n == 0 then ZERO_TAG
    else if Fits(n, 1) then CHAR
    else if Fits(n, 2) then SHORT
    else if Fits(n, 4) then INT32
    else INT64
  }

  function IntWidth(n: int): nat {
    if n == 0 then 0 else if Fits(n, 1) then 1 else if Fits(n, 2) then 2 else if Fits(n, 4) then 4 else 8
  }

  function WriteInt(tag: byte, n: int): seq<byte> {
    HeadBytes(IntHead(n), tag) + EncodeInt(n, IntWidth(n))
  }

  function StringHead(s: seq<byte>): byte {
    if |s| > 255 then STRING4 else STRING1
  }

  function TypeOf(v: Value): (t: byte)
    ensures t < 16 && t != STRUCT_END
  {
    match v
    case Int(n) => IntHead(n)
    case Float(_) => FLOAT
    case Double(_) => DOUBLE
    case Str(s) => StringHead(s)
    case Blob(_) => SIMPLE_LIST
    case List(_) => LIST
    case Map(_) => MAP
    case Struct(_) => STRUCT_BEGIN
  }

  /** What follows the head of a value. */
  function Body(v: Value): seq<byte>
    decreases v, 0
  {
    match v
    case Int(n) => EncodeInt(n, IntWidth(n))
    case Float(p) => p
    case Double(p) => p
    case Str(s) => BigEndian(|s|, if |s| > 255 then 4 else 1) + s
    case Blob(p) => HeadBytes(CHAR, 0) + (WriteInt(0, ToInt32(|p|)) + p)
    case List(items) => WriteInt(0, ToInt32(|items|)) + Items(items)
    case Map(entries) => WriteInt(0, ToInt32(|entries|)) + Entries(entries)
    case Struct(fields) => Fields(fields) + HeadBytes(STRUCT_END, 0)
  }

  function Write(tag: byte, v: Value): seq<byte>
    decreases v, 1
  {
    HeadBytes(TypeOf(v), tag) + Body(v)
  }

  function Items(items: seq<Value>): seq<byte>
    decreases items, 0
  {
    if items == [] then [] else Write(0, items[0]) + Items(items[1..])
  }

  function Entries(entries: seq<Entry>): seq<byte>
    decreases entries, 0
  {
    if entries == [] then []
    else WriteEntry(entries[0]) + Entries(entries[1..])
  }

  function WriteEntry(e: Entry): seq<byte>
    decreases e, 2
  {
    Write(0, e.key) + Write(1, e.val)
  }

  function Fields(fields: seq<Field>): seq<byte>
    decreases fields, 0
  {
    if fields == [] then []
    else WriteField(fields[0]) + Fields(fields[1..])
  }

  function WriteField(f: Field): seq<byte>
    decreases f, 2
  {
    Write(f.tag, f.value)
  }

  // ---------- the limits of the format ----------

  /** The sizes and ranges within which the writer's output says what it was given. */
  ghost predicate Encodable(v: Value)
    decreases v
  {
    match v
    case Int(n) => Fits(n, 8)
    case Float(p) => |p| == 4
    case Double(p) => |p| == 8
    case Str(s) => |s| <= MAX_STRING_LENGTH
    case Blob(p) => |p| < 0x8000_0000
    case List(items) => |items| < 0x8000_0000 && forall i :: 0 <= i < |items| ==> Encodable(items[i])
    case Map(entries) =>
      |entries| < 0x4000_0000
      && forall i :: 0 <= i < |entries| ==> Encodable(entries[i].key) && Encodable(entries[i].val)
    case Struct(fields) => forall i :: 0 <= i < |fields| ==> Encodable(fields[i].value)
  }

  ghost predicate EncodableItems(items: seq<Value>) {
    forall i :: 0 <= i < |items| ==> Encodable(items[i])
  }

  ghost predicate EncodableEntries(entries: seq<Entry>) {
    forall i :: 0 <= i < |entries| ==> Encodable(entries[i].key) && Encodable(entries[i].val)
  }

  ghost predicate EncodableFields(fields: seq<Field>) {
    forall i :: 0 <= i < |fields| ==> Encodable(fields[i].value)
  }

  /** Fields in the order every generated writeTo emits them. */
  ghost predicate Increasing(fields: seq<Field>) {
    forall i, j :: 0 <= i < j < |fields| ==> fields[i].tag < fields[j].tag
  }

  // ---------- unfolding ----------

  lemma ItemsCons(items: seq<Value>)
    requires items != []
    ensures Items(items) == Write(0, items[0]) + Items(items[1..])
  {
    hide Write;
  }

  lemma EntriesCons(entries: seq<Entry>)
    requires entries != []
    ensures Entries(entries)
         == Write(0, entries[0].key) + Write(1, entries[0].val) + Entries(entries[1..])
  {
    hide Write;
  }

  lemma FieldsCons(fields: seq<Field>)
    requires fields != []
    ensures Fields(fields) == Write(fields[0].tag, fields[0].value) + Fields(fields[1..])
  {
    hide Write;
  }

  // ---------- sizes ----------

  lemma {:induction false} ItemsLength(items: seq<Value>)
    ensures |items| <= |Items(items)|
    decreases items
  {
    if items != [] { ItemsLength(items[1..]); }
  }

  lemma {:induction false} EntriesLength(entries: seq<Entry>)
    ensures 2 * |entries| <= |Entries(entries)|
    decreases entries
  {
    if entries != [] {
      EntriesLength(entries[1..]);
      var e := entries[0];
      assert WriteEntry(e) == Write(0, e.key) + Write(1, e.val);
      assert Entries(entries) == WriteEntry(e) + Entries(entries[1..]);
    }
  }

  lemma {:induction false} FieldsConcat(x: seq<Field>, y: seq<Field>)
    ensures Fields(x + y) == Fields(x) + Fields(y)
    decreases x
  {
    if x == [] {
      assert x + y == y;
    } else {
      assert (x + y)[1..] == x[1..] + y;
      FieldsConcat(x[1..], y);
    }
  }
}
