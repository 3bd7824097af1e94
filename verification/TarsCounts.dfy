/** Written heads, integers and element counts are read back (tup/Tars.h). */
module TarsCounts {
  import opened Bytes
  import opened TarsValue
  import opened TarsSkip

  /** A written head is read back: type, tag and length. */
  lemma HeadExact(b: seq<byte>, cur: nat, headType: byte, tag: byte)
    requires headType < 16
    requires At(b, cur, HeadBytes(headType, tag))
    ensures PeekHead(b, cur) == Peeked(Head(headType, tag, HeadLength(tag)))
  {
    AtByte(b, cur, HeadBytes(headType, tag), 0);
    if tag < 15 {
      assert b[cur] == headType + 16 * tag;
    } else {
      AtByte(b, cur, HeadBytes(headType, tag), 1);
    }
  }

  /** An integer is read back at every width that holds it, whatever width the writer chose. */
  lemma IntExact(b: seq<byte>, cur: nat, n: int, width: nat)
    requires width in {1, 2, 4, 8} && Fits(n, width)
    requires At(b, cur, EncodeInt(n, IntWidth(n)))
    ensures IntBody(b, cur, IntHead(n), width) == Ok(n, cur + IntWidth(n))
  {
    Powers();
    if n != 0 { IntInverse(n, IntWidth(n)); }
  }

  /** The head of an integer is none that ends a search, and fits its four bits; tag 0 takes one byte. */
  lemma IntHeadFits(n: int)
    ensures IntHead(n) != STRUCT_END && IntHead(n) < 16 && HeadLength(0) == 1
  {
  }

  /** read(n, 0) gives back an integer written at tag 0. */
  lemma CountExact(b: seq<byte>, cur: nat, n: int, width: nat)
    requires width in {4, 8} && Fits(n, width)
    requires At(b, cur, WriteInt(0, n))
    ensures CountAt(b, cur, width) == Ok(n, cur + |WriteInt(0, n)|)
  {
    hide PeekHead, IntBody, IntHead, IntWidth, EncodeInt, HeadBytes, Fits;
    IntHeadFits(n);
    AtSplit(b, cur, HeadBytes(IntHead(n), 0), EncodeInt(n, IntWidth(n)));
    HeadExact(b, cur, IntHead(n), 0);
    IntExact(b, cur + 1, n, width);
  }

  /** A container of fewer than 2^31 elements is preceded by their true number. */
  lemma LengthIs(n: nat)
    requires n < 0x8000_0000
    ensures ToInt32(n) == n && Fits(n, 4) && Fits(n, 8)
  {
    Powers();
    ToInt32Small(n);
  }
}
