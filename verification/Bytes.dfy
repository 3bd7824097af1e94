/** Bytes, big-endian integers and positions inside a byte buffer. */
module Bytes {

  type byte = x: int | 0 <= x < 256

  /** The encoding `e` stands in `b` at offset `cur`. */
  ghost predicate At(b: seq<byte>, cur: nat, e: seq<byte>) {
    cur + |e| <= |b| && b[cur..cur + |e|] == e
  }

  lemma AtSplit(b: seq<byte>, cur: nat, x: seq<byte>, y: seq<byte>)
    requires At(b, cur, x + y)
    ensures At(b, cur, x) && At(b, cur + |x|, y)
  {
    var e := x + y;
    assert b[cur..cur + |e|] == e;
    assert b[cur..cur + |x|] == e[..|x|] == x;
    assert b[cur + |x|..cur + |e|] == e[|x|..] == y;
  }

  lemma AtByte(b: seq<byte>, cur: nat, e: seq<byte>, i: nat)
    requires At(b, cur, e) && i < |e|
    ensures cur + i < |b| && b[cur + i] == e[i]
  {
    assert b[cur..cur + |e|][i] == e[i];
  }

  function Pow256(k: nat): (p: nat)
    ensures p > 0
  {
    if k == 0 then 1 else 256 * Pow256(k - 1)
  }

  /** The low `k` bytes of `n`, most significant first: the image of htons/htonl on the wire. */
  function BigEndian(n: nat, k: nat): (s: seq<byte>)
    ensures |s| == k
  {
    if k == 0 then [] else BigEndian(n / 256, k - 1) + [n % 256]
  }

  function FromBigEndian(s: seq<byte>): (n: nat)
    ensures n < Pow256(|s|)
  {
    if s == [] then 0 else 256 * FromBigEndian(s[..|s| - 1]) + s[|s| - 1]
  }

  lemma {:induction false} BigEndianInverse(n: nat, k: nat)
    requires n < Pow256(k)
    ensures FromBigEndian(BigEndian(n, k)) == n
  {
    if k > 0 {
      BigEndianInverse(n / 256, k - 1);
      var s := BigEndian(n, k);
      assert s[..|s| - 1] == BigEndian(n / 256, k - 1);
    }
  }

  lemma OneByte(n: nat)
    requires n < 256
    ensures BigEndian(n, 1) == [n]
  {
  }

  /** Two's complement at a width of `k` bytes. */
  function ToUnsigned(n: int, k: nat): (u: nat)
    ensures u < Pow256(k)
  {
    n % Pow256(k)
  }

  function ToSigned(u: nat, k: nat): int {
    if 2 * u >= Pow256(k) then u - Pow256(k) else u
  }

  predicate Fits(n: int, k: nat) {
    0 <= 2 * n + Pow256(k) < 2 * Pow256(k)
  }

  function EncodeInt(n: int, k: nat): (s: seq<byte>)
    ensures |s| == k
  {
    BigEndian(ToUnsigned(n, k), k)
  }

  function DecodeInt(s: seq<byte>): int {
    ToSigned(FromBigEndian(s), |s|)
  }

  lemma IntInverse(n: int, k: nat)
    requires Fits(n, k)
    ensures DecodeInt(EncodeInt(n, k)) == n
  {
    var p := Pow256(k);
    if n >= 0 {
      assert ToUnsigned(n, k) == n by { SmallMod(n, p); }
    } else {
      assert ToUnsigned(n, k) == n + p by { NegativeMod(n, p); }
    }
    BigEndianInverse(ToUnsigned(n, k), k);
  }

  lemma SmallMod(n: nat, p: nat)
    requires n < p
    ensures n % p == n
  {
  }

  lemma NegativeMod(n: int, p: nat)
    requires 0 <= n + p < p
    ensures n % p == n + p
  {
    assert (n + p) % p == n + p;
    assert n == (-1) * p + (n + p);
  }

  /** The C++ narrowing conversion to a signed 32-bit integer. */
  function ToInt32(n: int): int {
    var u := n % 0x1_0000_0000;
    if u >= 0x8000_0000 then u - 0x1_0000_0000 else u
  }

  lemma ToInt32Small(n: int)
    requires Fits(n, 4)
    ensures ToInt32(n) == n
  {
    Powers();
  }

  lemma Powers()
    ensures Pow256(1) == 0x100 && Pow256(2) == 0x1_0000
    ensures Pow256(4) == 0x1_0000_0000 && Pow256(8) == 0x1_0000_0000_0000_0000
  {
    assert Pow256(3) == 0x100_0000;
    assert Pow256(5) == 0x100_0000_0000;
    assert Pow256(6) == 0x1_0000_0000_0000;
    assert Pow256(7) == 0x100_0000_0000_0000;
  }

  /** The memory image of a register on a little-endian host. */
  function LittleEndian(n: nat, k: nat): (s: seq<byte>)
    ensures |s| == k
  {
    if k == 0 then [] else [n % 256] + LittleEndian(n / 256, k - 1)
  }

  function Htonl(s: seq<byte>): (r: seq<byte>)
    requires |s| == 4
  {
    [s[3], s[2], s[1], s[0]]
  }

  /** tars_htonll swaps the two 32-bit halves and byte-swaps each of them. */
  function Htonll(s: seq<byte>): (r: seq<byte>)
    requires |s| == 8
  {
    Htonl(s[4..8]) + Htonl(s[0..4])
  }

  lemma HtonllIsBigEndian(n: nat)
    ensures Htonll(LittleEndian(n, 8)) == BigEndian(n, 8)
    ensures Htonll(BigEndian(n, 8)) == LittleEndian(n, 8)
  {
    var l, g := LittleEndian(n, 8), BigEndian(n, 8);
    forall i | 0 <= i < 8 ensures l[i] == g[7 - i] { DigitsMirror(n, 8, i); }
    assert |Htonll(l)| == 8;
    assert Htonll(l) == g;
    assert Htonll(g) == l;
  }

  lemma {:induction false} DigitsMirror(n: nat, k: nat, i: nat)
    requires i < k
    ensures LittleEndian(n, k)[i] == BigEndian(n, k)[k - 1 - i]
  {
    if i > 0 { DigitsMirror(n / 256, k - 1, i - 1); }
  }
}
