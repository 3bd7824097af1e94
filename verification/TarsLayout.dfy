/**
 * The wire format in plain numbers (tup/Tars.h), beside the functions of TarsValue: type codes, head
 * bytes, digits, prefixes, and that no shorter form of an integer exists.
 */
module TarsLayout {
  import opened Bytes
  import opened TarsValue
  import opened TarsSkip

  /** The numerals of the head types, as the table of tup/Tars.h gives them for each kind of value. */
  function Numeral(v: Value): (t: byte)
    ensures t < 16
  {
    match v
    case Int(n) =>
      if n == 0 then 12
      else if -128 <= n < 128 then 0
      else if -32768 <= n < 32768 then 1
      else if -2147483648 <= n < 2147483648 then 2
      else 3
    case Float(_) => 4
    case Double(_) => 5
    case Str(s) => if |s| <= 255 then 6 else 7
    case Map(_) => 8
    case List(_) => 9
    case Struct(_) => 10
    case Blob(_) => 13
  }

  lemma Widths(n: int)
    ensures Fits(n, 1) <==> -128 <= n < 128
    ensures Fits(n, 2) <==> -32768 <= n < 32768
    ensures Fits(n, 4) <==> -2147483648 <= n < 2147483648
    ensures Fits(n, 8) <==> -9223372036854775808 <= n < 9223372036854775808
  {
    Powers();
  }

  /** Type in the low and tag in the high half of one byte, or 15 in the high half and the tag in a second. */
  lemma HeadLayout(tag: byte, v: Value)
    ensures Write(tag, v) == (if tag < 15 then [16 * tag + Numeral(v)] else [240 + Numeral(v), tag]) + Body(v)
  {
    hide Body;
    if v.Int? { Widths(v.n); }
  }

  // ---------- digits ----------

  function Pair(s: seq<byte>): nat
    requires |s| >= 2
  {
    0x100 * (s[0] as int) + s[1] as int
  }

  function Quad(s: seq<byte>): nat
    requires |s| >= 4
  {
    0x100_0000 * (s[0] as int) + 0x1_0000 * (s[1] as int) + 0x100 * (s[2] as int) + s[3] as int
  }

  lemma {:induction false} DigitsDown(s: seq<byte>)
    requires s != []
    ensures FromBigEndian(s) == 256 * FromBigEndian(s[..|s| - 1]) + s[|s| - 1]
  {
  }

  lemma Two(s: seq<byte>)
    requires |s| == 2
    ensures FromBigEndian(s) == Pair(s)
  {
    DigitsDown(s);
    DigitsDown(s[..1]);
    assert s[..1][..0] == [];
  }

  lemma Four(s: seq<byte>)
    requires |s| == 4
    ensures FromBigEndian(s) == Quad(s)
  {
    DigitsDown(s);
    DigitsDown(s[..3]);
    Two(s[..2]);
    assert s[..3][..2] == s[..2];
  }

  lemma Eight(s: seq<byte>)
    requires |s| == 8
    ensures FromBigEndian(s) == 0x1_0000_0000 * Quad(s) + Quad(s[4..])
  {
    hide FromBigEndian;
    DigitsDown(s);
    DigitsDown(s[..7]);
    DigitsDown(s[..6]);
    DigitsDown(s[..5]);
    Four(s[..4]);
    assert s[..7][..6] == s[..6] && s[..6][..5] == s[..5] && s[..5][..4] == s[..4];
  }

  /** The digits of an encoded integer are those of n, or of n + 256^k for a negative one. */
  lemma EncodedDigits(n: int, k: nat)
    requires Fits(n, k)
    ensures FromBigEndian(EncodeInt(n, k)) == if n < 0 then n + Pow256(k) else n
  {
    var p := Pow256(k);
    if n >= 0 { SmallMod(n, p); } else { NegativeMod(n, p); }
    BigEndianInverse(ToUnsigned(n, k), k);
  }

  /** What follows the head of an integer: the fewest of 0, 1, 2, 4 and 8 bytes, most significant first. */
  lemma IntLayout(n: int)
    requires Fits(n, 8)
    ensures var w := Body(Int(n));
      if n == 0 then w == []
      else if -128 <= n < 128 then |w| == 1 && w[0] == if n < 0 then n + 0x100 else n
      else if -32768 <= n < 32768 then
        |w| == 2 && Pair(w) == if n < 0 then n + 0x1_0000 else n
      else if -2147483648 <= n < 2147483648 then
        |w| == 4 && Quad(w)
          == if n < 0 then n + 0x1_0000_0000 else n
      else
        |w| == 8
        && 0x1_0000_0000 * Quad(w) + Quad(w[4..])
          == if n < 0 then n + 0x1_0000_0000_0000_0000 else n
  {
    hide EncodeInt, FromBigEndian, Pow256, Fits;
    Widths(n);
    Powers();
    var w := Body(Int(n));
    if n != 0 { EncodedDigits(n, IntWidth(n)); }
    if |w| == 1 { One(w); }
    if |w| == 2 { Two(w); }
    if |w| == 4 { Four(w); }
    if |w| == 8 { Eight(w); }
  }

  lemma One(s: seq<byte>)
    requires |s| == 1
    ensures FromBigEndian(s) == s[0]
  {
    assert s[..0] == [];
  }

  /** The prefixes and ends of the other values; counts are integers at tag 0. */
  lemma BodyLayout(v: Value)
    requires Encodable(v)
    ensures v.Float? ==> Body(v) == v.payload
    ensures v.Double? ==> Body(v) == v.payload
    ensures v.Str? && |v.s| <= 255 ==> Body(v) == [|v.s|] + v.s
    ensures v.Str? && |v.s| > 255 ==>
      var w := Body(v);
      && |w| == 4 + |v.s| && w[4..] == v.s
      && Quad(w) == |v.s|
    ensures v.Blob? ==> Body(v) == [0] + (Write(0, Int(|v.bytes|)) + v.bytes)
    ensures v.List? ==> Body(v) == Write(0, Int(|v.items|)) + Items(v.items)
    ensures v.Map? ==> Body(v) == Write(0, Int(|v.entries|)) + Entries(v.entries)
    ensures v.Struct? ==> Body(v) == Fields(v.fields) + [11]
  {
    hide Items, Entries, Fields, EncodeInt, IntHead, IntWidth;
    match v
    case Str(s) =>
      if |s| <= 255 { OneByte(|s|); } else { StringPrefix(s); }
    case Blob(p) => Count(|p|);
    case List(items) => Count(|items|);
    case Map(entries) => Count(|entries|);
    case _ =>
  }

  lemma Count(n: nat)
    requires n < 0x8000_0000
    ensures WriteInt(0, ToInt32(n)) == Write(0, Int(n))
  {
    hide EncodeInt, IntHead, IntWidth;
    Powers();
    ToInt32Small(n);
  }

  lemma StringPrefix(s: seq<byte>)
    requires 255 < |s| <= MAX_STRING_LENGTH
    ensures var w := BigEndian(|s|, 4);
      Quad(w) == |s|
  {
    Powers();
    BigEndianInverse(|s|, 4);
    Four(BigEndian(|s|, 4));
  }

  lemma MaxString()
    ensures MAX_STRING_LENGTH == 104857600
  {
  }

  // ---------- the shortest form ----------

  lemma DecodedFits(s: seq<byte>)
    ensures Fits(DecodeInt(s), |s|)
  {
  }

  lemma Narrowed(n: int, k: nat)
    requires k in {1, 2, 4, 8} && Fits(n, k)
    ensures IntWidth(n) <= k
  {
    Widths(n);
  }

  /** Whatever form of an integer the reader accepts, the writer's form of it is no longer. */
  lemma IntNarrowest(b: seq<byte>, cur: nat, t: byte, n: int, c: nat, tag: byte)
    requires IntBody(b, cur, t, 8) == Ok(n, c)
    ensures |Write(tag, Int(n))| <= HeadLength(tag) + (c - cur)
  {
    hide EncodeInt, Fits, IntWidth, HeadBytes, DecodeInt;
    if t == ZERO_TAG {
      ZeroWidth();
    } else {
      DecodedFits(b[cur..c]);
      Narrowed(n, c - cur);
    }
  }

  lemma ZeroWidth()
    ensures IntWidth(0) == 0
  {
  }
}
