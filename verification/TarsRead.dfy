/**
 * The typed readers of tup/Tars.h: what read(target, tag, isRequire) returns and where it leaves the
 * cursor, for every instantiation of the templates and any bytes.
 */
module TarsRead {
  import opened Bytes
  import opened TarsValue
  import opened TarsSkip

  /** Integer targets; the unsigned ones are read through the next wider signed type, Bool through Char, and cast. */
  datatype IntKind = Bool | Char | Short | Int32 | Int64 | UInt8 | UInt16 | UInt32

  function CarrierWidth(k: IntKind): nat {
    match k
    case Bool => 1
    case Char => 1
    case Short => 2
    case Int32 => 4
    case Int64 => 8
    case UInt8 => 2
    case UInt16 => 4
    case UInt32 => 8
  }

  function Cast(k: IntKind, n: int): int {
    match k
    case Bool => if n == 0 then 0 else 1
    case UInt8 => n % 0x100
    case UInt16 => n % 0x1_0000
    case UInt32 => n % 0x1_0000_0000
    case _ => n
  }

  /** The values an integer target can hold. */
  predicate Holds(k: IntKind, n: int) {
    match k
    case Bool => n == 0 || n == 1
    case UInt8 => 0 <= n < 0x100
    case UInt16 => 0 <= n < 0x1_0000
    case UInt32 => 0 <= n < 0x1_0000_0000
    case _ => Fits(n, CarrierWidth(k))
  }

  /**
   * Static types of read targets. A struct lists its fields in the order its readFrom reads them;
   * `reset` is the value its resetDefautlt assigns, if it assigns one.
   */
  datatype Type =
    | TInt(kind: IntKind)
    | TFloat
    | TDouble
    | TString
    | TBlob
    | TList(elem: Type)
    | TMap(key: Type, val: Type)
    | TStruct(schema: seq<FieldType>)

  datatype FieldType = FieldType(tag: byte, ty: Type, required: bool, reset: Reset)

  datatype Reset = Keep | ResetTo(value: Value)

  /** The value of a default-constructed target. */
  function Default(ty: Type): Value
    decreases ty, 0
  {
    match ty
    case TInt(_) => Int(0)
    case TFloat => Float([0, 0, 0, 0])
    case TDouble => Double([0, 0, 0, 0, 0, 0, 0, 0])
    case TString => Str([])
    case TBlob => Blob([])
    case TList(_) => List([])
    case TMap(_, _) => Map([])
    case TStruct(schema) => Struct(DefaultFields(schema))
  }

  function DefaultFields(schema: seq<FieldType>): seq<Field>
    decreases schema, 0
  {
    if schema == [] then [] else [DefaultField(schema[0])] + DefaultFields(schema[1..])
  }

  function DefaultField(f: FieldType): Field
    decreases f, 0
  {
    Field(f.tag, if f.reset.ResetTo? then f.reset.value else Default(f.ty))
  }

  datatype Lookup = Missing | Present(value: Value)

  function Find(fields: seq<Field>, tag: byte): Lookup {
    if fields == [] then Missing
    else if fields[0].tag == tag then Present(fields[0].value)
    else Find(fields[1..], tag)
  }

  /** The value a struct's field holds when readFrom reaches it: reset, kept, or as constructed. */
  function Prior(f: FieldType, was: Value): Value {
    if f.reset.ResetTo? then f.reset.value
    else if !was.Struct? then Default(f.ty)
    else match Find(was.fields, f.tag)
         case Present(v) => v
         case Missing => Default(f.ty)
  }

  /** resize(n) keeps the elements a vector already has. */
  function PriorItem(elem: Type, was: Value, i: nat): Value {
    if was.List? && i < |was.items| then was.items[i] else Default(elem)
  }

  // ---------- std::map insertion ----------

  /** operator< on the key types: integers, and strings compared by unsigned bytes. */
  predicate Less(x: Value, y: Value) {
    match (x, y)
    case (Int(m), Int(n)) => m < n
    case (Str(s), Str(t)) => Lexicographic(s, t)
    case _ => false
  }

  predicate Lexicographic(s: seq<byte>, t: seq<byte>) {
    if t == [] then false
    else if s == [] then true
    else s[0] < t[0] || (s[0] == t[0] && Lexicographic(s[1..], t[1..]))
  }

  /** m.insert(pr): ordered insertion that never replaces an entry. */
  function Insert(entries: seq<Entry>, e: Entry): seq<Entry> {
    if entries == [] then [e]
    else if Less(e.key, entries[0].key) then [e] + entries
    else if !Less(entries[0].key, e.key) then entries
    else [entries[0]] + Insert(entries[1..], e)
  }

  ghost predicate SortedEntries(entries: seq<Entry>) {
    forall i, j :: 0 <= i < j < |entries| ==> Less(entries[i].key, entries[j].key)
  }

  // ---------- the readers ----------

  function ReadInt(b: seq<byte>, cur: nat, k: IntKind, tag: byte, required: bool, was: int): Out<int> {
    match SkipToTag(b, cur, tag)
    case Found(t, c) =>
      (match IntBody(b, c, t, CarrierWidth(k))
       case Ok(n, c2) => Ok(Cast(k, n), c2)
       case Throw(e, c2) => Throw(e, c2))
    case Absent(c) => if required then Throw(RequireNotExist, c) else Ok(was, c)
    case LostBackward(t) => Backward(t)
    case LostCount(n) => BadCount(n)
  }

  /** read(size, 0) for a UInt32 and the test `size > this->size()`. */
  function SizeAt(b: seq<byte>, cur: nat): (r: Out<int>)
    ensures r.Ok? || r.Throw?
    ensures r.Ok? ==> cur <= r.cur && 0 <= r.value <= |b|
  {
    match CountAt(b, cur, 8)
    case Ok(n, c) =>
      if Cast(UInt32, n) > |b| then Throw(InvalidValue, c) else Ok(Cast(UInt32, n), c)
    case Throw(e, c) => Throw(e, c)
  }

  function Take(b: seq<byte>, cur: nat, len: nat): (r: Out<seq<byte>>)
    ensures r.Ok? || r.Throw?
    ensures r.Ok? ==> r.cur == cur + len && |r.value| == len
  {
    if cur + len > |b| then Throw(BufferOverflow, cur) else Ok(b[cur..cur + len], cur + len)
  }

  function StringBody(b: seq<byte>, cur: nat, headType: byte): (r: Out<seq<byte>>)
    ensures r.Ok? || r.Throw?
  {
    if headType == STRING1 then
      if cur + 1 > |b| then Throw(BufferOverflow, cur) else Take(b, cur + 1, b[cur])
    else if headType == STRING4 then
      if cur + 4 > |b| then Throw(BufferOverflow, cur)
      else if FromBigEndian(b[cur..cur + 4]) > MAX_STRING_LENGTH then Throw(InvalidValue, cur + 4)
      else Take(b, cur + 4, FromBigEndian(b[cur..cur + 4]))
    else Throw(Mismatch, cur)
  }

  function BlobBody(b: seq<byte>, cur: nat): (r: Out<seq<byte>>)
    ensures r.Ok? || r.Throw?
  {
    match PeekHead(b, cur)
    case NoHead => Throw(BufferOverflow, cur)
    case Peeked(h) =>
      if h.headType != CHAR then Throw(Mismatch, cur + h.len) else
      match SizeAt(b, cur + h.len)
      case Ok(n, c) => Take(b, c, n)
      case Throw(e, c) => Throw(e, c)
  }

  function FloatBody(b: seq<byte>, cur: nat, headType: byte): (r: Out<Value>)
    ensures r.Ok? || r.Throw?
  {
    if headType == ZERO_TAG then Ok(Float([0, 0, 0, 0]), cur)
    else if headType == FLOAT then
      (match Take(b, cur, 4) case Ok(p, c) => Ok(Float(p), c) case Throw(e, c) => Throw(e, c))
    else Throw(Mismatch, cur)
  }

  /** A double target also takes a Float head; the payload read is the float's. */
  function DoubleBody(b: seq<byte>, cur: nat, headType: byte): (r: Out<Value>)
    ensures r.Ok? || r.Throw?
  {
    if headType == ZERO_TAG then Ok(Double([0, 0, 0, 0, 0, 0, 0, 0]), cur)
    else if headType == FLOAT then
      (match Take(b, cur, 4) case Ok(p, c) => Ok(Float(p), c) case Throw(e, c) => Throw(e, c))
    else if headType == DOUBLE then
      (match Take(b, cur, 8) case Ok(p, c) => Ok(Double(p), c) case Throw(e, c) => Throw(e, c))
    else Throw(Mismatch, cur)
  }

  /** vector<Char> sent as a List: one required Char per element. */
  function CharsBody(b: seq<byte>, cur: nat, n: int, acc: seq<byte>): Out<seq<byte>>
    decreases n - |acc|
  {
    if |acc| >= n then Ok(acc, cur) else
    match ReadInt(b, cur, Char, 0, true, 0)
    case Ok(c, next) => CharsBody(b, next, n, acc + [c % 256])
    case Throw(e, c) => Throw(e, c)
    case Backward(t) => Backward(t)
    case BadCount(k) => BadCount(k)
  }

  /** read(T& v, tag, isRequire). */
  function Read(b: seq<byte>, cur: nat, ty: Type, tag: byte, required: bool, was: Value): Out<Value>
    decreases ty, 2, 0
  {
    match SkipToTag(b, cur, tag)
    case Found(t, c) => ReadBody(b, c, t, ty, was)
    case Absent(c) => if required then Throw(RequireNotExist, c) else Ok(was, c)
    case LostBackward(t) => Backward(t)
    case LostCount(n) => BadCount(n)
  }

  /** The switch on the head type, behind the head. */
  function ReadBody(b: seq<byte>, cur: nat, headType: byte, ty: Type, was: Value): Out<Value>
    decreases ty, 1, 0
  {
    match ty
    case TInt(k) =>
      (match IntBody(b, cur, headType, CarrierWidth(k))
       case Ok(n, c) => Ok(Int(Cast(k, n)), c)
       case Throw(e, c) => Throw(e, c))
    case TFloat => FloatBody(b, cur, headType)
    case TDouble => DoubleBody(b, cur, headType)
    case TString =>
      (match StringBody(b, cur, headType)
       case Ok(s, c) => Ok(Str(s), c)
       case Throw(e, c) => Throw(e, c))
    case TBlob =>
      if headType == SIMPLE_LIST then
        (match BlobBody(b, cur)
         case Ok(p, c) => Ok(Blob(p), c)
         case Throw(e, c) => Throw(e, c))
      else if headType == LIST then
        (match SizeAt(b, cur)
         case Ok(n, c) =>
           (match CharsBody(b, c, n, [])
            case Ok(p, c2) => Ok(Blob(p), c2)
            case Throw(e, c2) => Throw(e, c2)
            case Backward(t) => Backward(t)
            case BadCount(k) => BadCount(k))
         case Throw(e, c) => Throw(e, c))
      else Throw(Mismatch, cur)
    case TList(_) =>
      if headType != LIST then Throw(Mismatch, cur) else
      (match SizeAt(b, cur)
       case Ok(n, c) => ReadItems(b, c, ty, n, [], was)
       case Throw(e, c) => Throw(e, c))
    case TMap(_, _) =>
      if headType != MAP then Throw(Mismatch, cur) else
      (match SizeAt(b, cur)
       case Ok(n, c) => ReadEntries(b, c, ty, n, [])
       case Throw(e, c) => Throw(e, c))
    case TStruct(schema) =>
      if headType != STRUCT_BEGIN then Throw(Mismatch, cur) else
      match ReadFields(b, cur, schema, 0, [], was)
      case Ok(v, c) =>
        (match SkipToStructEnd(b, c)
         case Ok(_, c2) => Ok(v, c2)
         case Throw(e, c2) => Throw(e, c2)
         case Backward(t) => Backward(t)
         case BadCount(k) => BadCount(k))
      case r => r
  }

  /** The element loop of read(vector<T>&); `acc` holds the elements read so far. */
  function ReadItems(b: seq<byte>, cur: nat, ty: Type, n: int, acc: seq<Value>, was: Value): Out<Value>
    requires ty.TList?
    decreases ty, 0, n - |acc|
  {
    if |acc| >= n then Ok(List(acc), cur) else
    match Read(b, cur, ty.elem, 0, true, PriorItem(ty.elem, was, |acc|))
    case Ok(v, c) => ReadItems(b, c, ty, n, acc + [v], was)
    case r => r
  }

  /** The pair loop of read(map<K, V>&), `n` pairs to go. */
  function ReadEntries(b: seq<byte>, cur: nat, ty: Type, n: int, acc: seq<Entry>): Out<Value>
    requires ty.TMap?
    decreases ty, 0, n
  {
    if n <= 0 then Ok(Map(acc), cur) else
    match Read(b, cur, ty.key, 0, true, Default(ty.key))
    case Ok(k, c) =>
      (match Read(b, c, ty.val, 1, true, Default(ty.val))
       case Ok(v, c2) => ReadEntries(b, c2, ty, n - 1, Insert(acc, Entry(k, v)))
       case r => r)
    case r => r
  }

  /** readFrom: the reads of fields i, i + 1, ... in schema order. */
  function ReadFields(b: seq<byte>, cur: nat, schema: seq<FieldType>, i: nat, acc: seq<Field>, was: Value): Out<Value>
    requires i <= |schema|
    decreases schema, 3, |schema| - i
  {
    if i == |schema| then Ok(Struct(acc), cur) else
    match ReadField(b, cur, schema[i], was)
    case Ok(v, c) => ReadFields(b, c, schema, i + 1, acc + [Field(schema[i].tag, v)], was)
    case r => r
  }

  function ReadField(b: seq<byte>, cur: nat, f: FieldType, was: Value): Out<Value>
    decreases f, 3, 0
  {
    Read(b, cur, f.ty, f.tag, f.required, Prior(f, was))
  }
}
