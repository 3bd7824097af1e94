/** TC_Buffer (util/include/tc_buffer.h, util/src/tc_buffer.cpp): a byte queue in one block of power-of-two size. */
module Buffers {
  import opened Bytes
  import opened Sequences

  const K_DEFAULT_SIZE := 128
  const K_MAX_BUFFER_SIZE := 0x7fff_ffff_ffff_ffff

  // ---------- powers of two ----------

  predicate IsPow2(n: nat) {
    n == 1 || (n > 1 && n % 2 == 0 && IsPow2(n / 2))
  }

  /** Two different powers of two are at least a factor of two apart. */
  lemma {:induction false} Pow2Gap(a: nat, b: nat)
    requires IsPow2(a) && IsPow2(b) && a < b
    ensures 2 * a <= b
  {
    if a > 1 {
      Pow2Gap(a / 2, b / 2);
    }
  }

  function RoundUpFrom(r: nat, size: nat): (p: nat)
    requires IsPow2(r) && (r == 1 || r < 2 * size)
    ensures IsPow2(p) && size <= p && (p == 1 || p < 2 * size)
    decreases size - r
  {
    if r >= size then r else RoundUpFrom(2 * r, size)
  }

  /** The least power of two that is not below `size`; 0 for 0. */
  function RoundUp(size: nat): nat {
    if size == 0 then 0 else RoundUpFrom(1, size)
  }

  lemma RoundUpIsLeast(size: nat, p: nat)
    requires size > 0 && IsPow2(p) && size <= p
    ensures IsPow2(RoundUp(size)) && size <= RoundUp(size) <= p
  {
    if p < RoundUp(size) {
      Pow2Gap(p, RoundUp(size));
    }
  }

  lemma One()
    ensures IsPow2(1)
  {
  }

  lemma Double(n: nat)
    requires IsPow2(n)
    ensures IsPow2(2 * n)
  {
  }

  lemma Shift4(n: nat)
    requires IsPow2(n)
    ensures IsPow2(0x10 * n)
  {
    hide IsPow2;
    Double(n);
    Double(2 * n);
    Double(4 * n);
    Double(8 * n);
  }

  lemma Shift16(n: nat)
    requires IsPow2(n)
    ensures IsPow2(0x1_0000 * n)
  {
    hide IsPow2;
    Shift4(n);
    Shift4(0x10 * n);
    Shift4(0x100 * n);
    Shift4(0x1000 * n);
  }

  lemma TwoTo63()
    ensures IsPow2(K_MAX_BUFFER_SIZE + 1)
  {
    assert IsPow2(0x8000) by {
      Shift4(8);
      Shift4(0x80);
      Shift4(0x800);
    }
    hide IsPow2;
    Shift16(0x8000);
    Shift16(0x8000_0000);
    Shift16(0x8000_0000_0000);
  }

  /** In a size_t the loop would never end for a size above 2^63. */
  method RoundUp2Power(size: nat) returns (roundUp: nat)
    requires size <= K_MAX_BUFFER_SIZE + 1
    ensures roundUp == RoundUp(size)
  {
    hide IsPow2;
    if size == 0 { return 0; }
    One();
    roundUp := 1;
    while roundUp < size
      invariant IsPow2(roundUp) && (roundUp == 1 || roundUp < 2 * size)
      invariant RoundUpFrom(roundUp, size) == RoundUp(size)
    {
      Double(roundUp);
      roundUp := roundUp * 2;
    }
  }

  // ---------- how the capacity grows ----------

  datatype Capacity = Cap(size: nat) | AssertFails

  /** The loop of AssureSpace, when `total` bytes have to fit behind position 0. */
  function GrowTo(cap: nat, total: nat): Capacity
    decreases total - cap
  {
    if cap >= total then Cap(cap)
    else if cap < K_DEFAULT_SIZE then GrowTo(K_DEFAULT_SIZE, total)
    else if cap <= K_MAX_BUFFER_SIZE then
      var r := RoundUp(cap);
      GrowTo(if cap < r then r else 2 * r, total)
    else AssertFails
  }

  predicate CapacityOk(cap: nat) {
    cap == 0 || (IsPow2(cap) && cap <= K_MAX_BUFFER_SIZE + 1)
  }

  lemma OneStep(cap: nat)
    requires CapacityOk(cap) && cap <= K_MAX_BUFFER_SIZE
    ensures cap < K_DEFAULT_SIZE ==> 2 * cap <= K_DEFAULT_SIZE && CapacityOk(K_DEFAULT_SIZE)
    ensures cap > 0 ==> RoundUp(cap) == cap && CapacityOk(2 * cap)
  {
    TwoTo63();
    if cap > 0 {
      RoundUpIsLeast(cap, cap);
      Pow2Gap(cap, K_MAX_BUFFER_SIZE + 1);
      Double(cap);
      assert IsPow2(K_DEFAULT_SIZE);
      if cap < K_DEFAULT_SIZE { Pow2Gap(cap, K_DEFAULT_SIZE); }
    }
  }

  /**
   * The assert is reached exactly when more than 2^63 bytes are asked for; otherwise the new capacity
   * is a power of two that is enough, at least double the old one and less than double what is needed.
   */
  lemma {:induction false} GrowToBounds(cap: nat, total: nat)
    requires CapacityOk(cap)
    ensures GrowTo(cap, total) != AssertFails <==> total <= 0x8000_0000_0000_0000
    ensures var g := GrowTo(cap, total); g.Cap? ==>
      && CapacityOk(g.size) && total <= g.size
      && (cap < total || g.size == cap)
      && (cap < total ==> 2 * cap <= g.size && (g.size == 128 || g.size < 2 * total))
    decreases total - cap
  {
    hide IsPow2, RoundUp;
    if cap < total && cap <= K_MAX_BUFFER_SIZE {
      OneStep(cap);
      GrowToBounds(if cap < K_DEFAULT_SIZE then K_DEFAULT_SIZE else 2 * cap, total);
    }
  }

  // ---------- the class ----------

  class Buffer {
    var readPos: nat
    var writePos: nat
    var capacity: nat
    var buffer: array<byte> // length 0 stands for NULL
    var highWaterPercent: nat
    ghost var copied: nat   // bytes AssureSpace has moved to a new block or within one

    ghost predicate Valid()
      reads this
    {
      && readPos <= writePos <= capacity == buffer.Length
      && CapacityOk(capacity) && 10 <= highWaterPercent < 100
    }

    /** The queued bytes, oldest first. */
    ghost function Contents(): (s: seq<byte>)
      requires Valid()
      reads this, buffer
      ensures |s| == writePos - readPos
    {
      buffer[readPos..writePos]
    }

    constructor ()
      ensures Valid() && Contents() == [] && capacity == 0 && fresh(buffer)
      ensures readPos == 0 && copied == 0 && highWaterPercent == 50
    {
      readPos, writePos, capacity, highWaterPercent, copied := 0, 0, 0, 50, 0;
      buffer := new byte[0];
    }

    function ReadableSize(): (n: nat)
      requires Valid()
      reads this, buffer
      ensures n == |Contents()|
    {
      writePos - readPos
    }

    function WritableSize(): nat
      requires Valid()
      reads this
    {
      capacity - writePos
    }

    /** Copies `n` bytes at `from` of the block to the start of `tmp`, which may be the block itself. */
    method CopyTo(tmp: array<byte>, from: nat, n: nat)
      requires from + n <= buffer.Length && n <= tmp.Length
      modifies tmp
      ensures tmp[..n] == old(buffer[from..from + n])
    {
      forall i | 0 <= i < n { tmp[i] := buffer[from + i]; }
    }

    /** The loop of AssureSpace; the block is still the old one. */
    method EnlargeCapacity(needsize: nat)
      requires readPos <= writePos <= capacity && CapacityOk(capacity)
      requires writePos - readPos + needsize <= K_MAX_BUFFER_SIZE + 1
      modifies this`capacity
      ensures old(capacity) <= capacity && CapacityOk(capacity)
      ensures writePos - readPos + needsize <= capacity
      ensures Cap(capacity) == GrowTo(old(capacity), writePos - readPos + needsize)
    {
      hide CapacityOk, IsPow2, RoundUp;
      ghost var total := writePos - readPos + needsize;
      while capacity - writePos + readPos < needsize
        invariant old(capacity) <= capacity && CapacityOk(capacity)
        invariant GrowTo(capacity, total) == GrowTo(old(capacity), total)
        decreases total - capacity
      {
        GrowToBounds(capacity, total);
        if capacity < K_DEFAULT_SIZE {
          OneStep(capacity);
          capacity := K_DEFAULT_SIZE;
        } else if capacity <= K_MAX_BUFFER_SIZE {
          OneStep(capacity);
          var newCapcity := RoundUp2Power(capacity);
          capacity := if capacity < newCapcity then newCapcity else 2 * newCapcity;
        } else {
          assert false;
        }
      }
    }

    /**
     * Afterwards needsize bytes fit, the queued bytes are the same, and the capacity is as GrowTo says.
     * The requires is the exact condition under which the asserts of the source hold.
     */
    method AssureSpace(needsize: nat)
      requires Valid()
      requires needsize <= WritableSize() || ReadableSize() + needsize <= K_MAX_BUFFER_SIZE + 1
      modifies this, buffer
      ensures Valid() && needsize <= WritableSize() && Contents() == old(Contents())
      ensures buffer == old(buffer) || fresh(buffer)
      ensures highWaterPercent == old(highWaterPercent)
      ensures needsize <= old(WritableSize()) ==>
        capacity == old(capacity) && readPos == old(readPos) && copied == old(copied)
      ensures needsize > old(WritableSize()) ==> Cap(capacity) == GrowTo(old(capacity), old(ReadableSize()) + needsize)
      ensures needsize > old(WritableSize()) ==> readPos == 0 && copied == old(copied + ReadableSize())
    {
      hide CapacityOk, IsPow2, RoundUp;
      if WritableSize() >= needsize { return; }
      var dataSize := ReadableSize();
      var oldCap := capacity;
      EnlargeCapacity(needsize);
      if oldCap < capacity {
        var tmp := new byte[capacity];
        if dataSize != 0 { CopyTo(tmp, readPos, dataSize); }
        buffer := tmp;
      } else {
        assert readPos > 0;
        CopyTo(buffer, readPos, dataSize);
      }
      readPos := 0;
      writePos := dataSize;
      copied := copied + dataSize;
      assert needsize <= WritableSize();
    }

    /** Produce(bytes): what was written behind the queue by hand joins it. */
    method Produce(bytes: nat)
      requires Valid() && bytes <= WritableSize()
      modifies this`writePos
      ensures Valid() && Contents() == old(Contents()) + buffer[old(writePos)..old(writePos) + bytes]
    {
      writePos := writePos + bytes;
    }

    /** Copies into the free space and makes it part of the queue. */
    method Fill(data: array<byte>, size: nat)
      requires Valid() && data != buffer && size <= data.Length && size <= WritableSize()
      modifies this`writePos, buffer
      ensures Valid() && writePos == old(writePos) + size && Contents() == old(Contents()) + data[..size]
    {
      hide CapacityOk;
      forall i | 0 <= i < size { buffer[writePos + i] := data[i]; }
      assert Contents() == old(Contents());
      assert buffer[writePos..writePos + size] == data[..size];
      Produce(size);
    }

    /** PushData: all of the data or, for a null pointer, no data or too much of it, none. */
    method PushData(data: array?<byte>, size: nat) returns (n: nat)
      requires Valid() && data != buffer && (data != null ==> size <= data.Length)
      modifies this, buffer
      ensures Valid() && (buffer == old(buffer) || fresh(buffer))
      ensures n == if data == null || |old(Contents())| + size >= K_MAX_BUFFER_SIZE then 0 else size
      ensures n > 0 ==> Contents() == old(Contents()) + data[..size]
      ensures n == 0 ==> Contents() == old(Contents())
      ensures data != null && old(readPos) == 0 ==> readPos == 0
      ensures data != null && old(readPos) == 0 ==>
        Growth(capacity, writePos, copied) == Push(old(Growth(capacity, writePos, copied)), size)
    {
      hide CapacityOk, GrowTo;
      if data == null || size == 0 { return 0; }
      if ReadableSize() + size >= K_MAX_BUFFER_SIZE { return 0; }
      AssureSpace(size);
      Fill(data, size);
      return size;
    }

    method Clear()
      modifies this
      ensures readPos == 0 && writePos == 0 && capacity == old(capacity) && buffer == old(buffer)
      ensures highWaterPercent == old(highWaterPercent)
    {
      readPos, writePos := 0, 0;
    }

    /** Consume(bytes): the source asserts that there are as many. */
    method Consume(bytes: nat)
      requires Valid() && bytes <= ReadableSize()
      modifies this
      ensures Valid() && Contents() == old(Contents())[bytes..]
      ensures capacity == old(capacity) && buffer == old(buffer)
    {
      readPos := readPos + bytes;
      if ReadableSize() == 0 { Clear(); }
    }

    /** PopData: the oldest bytes, as many as were asked for or as there are. */
    method PopData(buf: array?<byte>, size: nat) returns (n: nat)
      requires Valid() && buf != buffer && (buf != null ==> size <= buf.Length)
      modifies this, buf
      ensures Valid() && capacity == old(capacity) && buffer == old(buffer)
      ensures n == if buf == null then 0 else if size < |old(Contents())| then size else |old(Contents())|
      ensures Contents() == old(Contents())[n..]
      ensures buf != null ==> buf[..n] == old(Contents())[..n] && buf[n..] == old(buf[n..])
    {
      hide IsPow2, CapacityOk;
      var dataSize := ReadableSize();
      if buf == null || size == 0 || dataSize == 0 { return 0; }
      n := if size > dataSize then dataSize else size;
      forall i | 0 <= i < n { buf[i] := buffer[readPos + i]; }
      assert Contents() == old(Contents());
      assert buf[..n] == old(Contents())[..n];
      Consume(n);
    }

    /** Shrink: the queued bytes stay, and the capacity never grows, whatever the high-water percentage. */
    method Shrink()
      requires Valid()
      modifies this
      ensures Valid() && Contents() == old(Contents()) && (buffer == old(buffer) || fresh(buffer))
      ensures capacity <= old(capacity) && highWaterPercent == old(highWaterPercent)
      ensures old(Contents()) == [] ==> capacity == 0
      ensures old(Contents()) != [] ==>
        var sparse := 100 * |Contents()| <= old(capacity) * highWaterPercent;
        if old(capacity) > K_DEFAULT_SIZE && sparse then capacity < 2 * |Contents()| else capacity == old(capacity)
    {
      hide IsPow2, RoundUp;
      if ReadableSize() == 0 {
        Clear();
        capacity := 0;
        buffer := new byte[0];
        return;
      }
      if capacity <= K_DEFAULT_SIZE { return; }
      var oldCap := capacity;
      var dataSize := ReadableSize();
      if dataSize * 100 > oldCap * highWaterPercent { return; }
      assert dataSize <= oldCap;
      RoundUpIsLeast(dataSize, oldCap);
      RoundUpBelowDouble(dataSize);
      var newCap := RoundUp2Power(dataSize);
      var tmp := new byte[newCap];
      CopyTo(tmp, readPos, dataSize);
      buffer := tmp;
      capacity := newCap;
      readPos := 0;
      writePos := dataSize;
    }

    method SetHighWaterPercent(percents: nat)
      requires Valid()
      modifies this`highWaterPercent
      ensures Valid() && Contents() == old(Contents())
      ensures highWaterPercent == if 10 <= percents < 100 then percents else old(highWaterPercent)
    {
      if percents < 10 || percents >= 100 { return; }
      highWaterPercent := percents;
    }
  }

  lemma RoundUpBelowDouble(size: nat)
    requires size > 0
    ensures RoundUp(size) < 2 * size
  {
  }

  // ---------- amortised cost of a push-only run ----------

  /** Capacity, bytes queued at the front of the block, and bytes copied so far by growing. */
  datatype Growth = Growth(cap: nat, used: nat, copied: nat)

  function Push(g: Growth, size: nat): Growth {
    if size == 0 || g.used + size >= K_MAX_BUFFER_SIZE then g
    else if size <= g.cap - g.used then g.(used := g.used + size)
    else
      match GrowTo(g.cap, g.used + size)
      case Cap(c) => Growth(c, g.used + size, g.copied + g.used)
      case AssertFails => g
  }

  function PushAll(g: Growth, sizes: seq<nat>): Growth
    decreases |sizes|
  {
    if sizes == [] then g else PushAll(Push(g, sizes[0]), sizes[1..])
  }

  ghost predicate Amortised(g: Growth) {
    && CapacityOk(g.cap) && g.used <= g.cap
    && (g.cap == 0 ==> g.copied == 0) && (g.cap > 0 ==> g.copied < g.cap)
    && (g.cap <= K_DEFAULT_SIZE || g.cap < 2 * g.used)
  }

  lemma {:induction false} PushAllAmortised(g: Growth, sizes: seq<nat>)
    requires Amortised(g)
    ensures Amortised(PushAll(g, sizes))
    decreases |sizes|
  {
    hide CapacityOk, GrowTo;
    if sizes != [] {
      GrowToBounds(g.cap, g.used + sizes[0]);
      PushAllAmortised(Push(g, sizes[0]), sizes[1..]);
    }
  }

  /**
   * However the pushes are cut, a buffer that starts empty and is only pushed to has copied fewer bytes
   * than its capacity, and has at most 128 bytes or less than twice what was pushed.
   */
  lemma AmortisedGrowth(sizes: seq<nat>)
    ensures var g := PushAll(Growth(0, 0, 0), sizes);
      && (g.cap > 0 ==> g.copied < g.cap)
      && (g.cap <= 128 || (g.cap < 2 * g.used && g.copied < 2 * g.used))
  {
    PushAllAmortised(Growth(0, 0, 0), sizes);
  }

  function Sizes(chunks: seq<seq<byte>>): seq<nat> {
    seq(|chunks|, i requires 0 <= i < |chunks| => |chunks[i]|)
  }

  lemma {:induction false} PushAllStep(g: Growth, sizes: seq<nat>, i: nat)
    requires i < |sizes|
    ensures PushAll(g, sizes[..i + 1]) == Push(PushAll(g, sizes[..i]), sizes[i])
    decreases i
  {
    hide Push;
    if i == 0 {
      assert sizes[..1][1..] == [] && sizes[..0] == [];
    } else {
      assert sizes[..i + 1][1..] == sizes[1..][..i] && sizes[..i][1..] == sizes[1..][..i - 1];
      PushAllStep(Push(g, sizes[0]), sizes[1..], i - 1);
    }
  }

  /** Pushing any data, cut anyhow, into a new buffer: the bound on the copying holds of the object. */
  method PushRun(chunks: seq<seq<byte>>) returns (buf: Buffer)
    ensures fresh(buf) && buf.Valid() && buf.readPos == 0
    ensures Growth(buf.capacity, buf.writePos, buf.copied) == PushAll(Growth(0, 0, 0), Sizes(chunks))
    ensures buf.copied < buf.capacity || (buf.capacity == 0 && buf.copied == 0)
    ensures buf.capacity <= 128 || buf.capacity < 2 * |buf.Contents()|
    ensures |Flatten(chunks)| < 0x7fff_ffff_ffff_ffff ==> buf.Contents() == Flatten(chunks)
  {
    hide Push, CapacityOk, GrowTo;
    buf := new Buffer();
    ghost var sizes := Sizes(chunks);
    var i := 0;
    assert sizes[..0] == [] && chunks[..0] == [];
    while i < |chunks|
      invariant i <= |chunks| && fresh(buf) && fresh(buf.buffer) && buf.Valid() && buf.readPos == 0
      invariant Growth(buf.capacity, buf.writePos, buf.copied) == PushAll(Growth(0, 0, 0), sizes[..i])
      invariant |Flatten(chunks)| < K_MAX_BUFFER_SIZE ==> buf.Contents() == Flatten(chunks[..i])
    {
      var data := new byte[|chunks[i]|](k requires 0 <= k < |chunks[i]| => chunks[i][k]);
      assert data[..|chunks[i]|] == chunks[i];
      FlattenFirst(chunks, i);
      FlattenCut(chunks, i + 1);
      PushAllStep(Growth(0, 0, 0), sizes, i);
      var n := buf.PushData(data, |chunks[i]|);
      i := i + 1;
    }
    assert sizes[..i] == sizes && chunks[..i] == chunks;
    PushAllAmortised(Growth(0, 0, 0), sizes);
  }
}
