/** Bytes, little-endian words, bitmaps and 512-byte blocks: the vocabulary shared by the two
    file systems, the frame allocator and the block cache.  Words are integers with their C range
    written as a subset type, so every wrap-around in the models is explicit. */
module Bytes {

  type byte = x: int | 0 <= x < 0x100
  type u16 = x: int | 0 <= x < 0x1_0000
  type u32 = x: int | 0 <= x < 0x1_0000_0000
  type u64 = x: int | 0 <= x < 0x1_0000_0000_0000_0000

  /** A C string without its terminating zero. */
  type CString = s: seq<byte> | 0 !in s witness []

  datatype Option<T> = None | Some(value: T)

  const BLOCK_SIZE: nat := 512
  const PAGE: int := 4096
  const WORD32: int := 0x1_0000_0000
  const WORD64: int := 0x1_0000_0000_0000_0000

  type Block = b: seq<byte> | |b| == BLOCK_SIZE witness seq(512, _ => 0)

  function Min(a: int, b: int): (r: int)
    ensures r <= a && r <= b && (r == a || r == b)
  {
    if a < b then a else b
  }

  /** A zeroed buffer of n bytes. */
  function Zeros(n: nat): (r: seq<byte>)
    ensures |r| == n && forall i :: 0 <= i < n ==> r[i] == 0
  {
    seq(n, _ => 0)
  }

  const ZERO_BLOCK: Block := Zeros(BLOCK_SIZE)

  /** memcpy(buf + off, data, |data|). */
  function Splice(buf: seq<byte>, off: nat, data: seq<byte>): (r: seq<byte>)
    requires off + |data| <= |buf|
    ensures |r| == |buf|
    ensures forall i :: 0 <= i < |buf| ==> r[i] == if off <= i < off + |data| then data[i - off] else buf[i]
  {
    buf[..off] + data + buf[off + |data|..]
  }

  lemma SpliceElsewhere(buf: seq<byte>, off: nat, data: seq<byte>, a: nat, b: nat)
    requires off + |data| <= |buf| && a <= b <= |buf| && (b <= off || off + |data| <= a)
    ensures Splice(buf, off, data)[a..b] == buf[a..b]
  {
  }

  /** A little-endian number. */
  function Decode(s: seq<byte>): (v: nat)
    decreases |s|
  {
    if s == [] then 0 else s[0] as int + 0x100 * Decode(s[1..])
  }

  /** The four-byte number spelled out. */
  lemma Decode4(s: seq<byte>)
    requires |s| == 4
    ensures Decode(s) == s[0] as int + 0x100 * s[1] as int + 0x1_0000 * s[2] as int + 0x100_0000 * s[3] as int
  {
    assert Decode(s[1..][1..][1..][1..]) == 0;
    assert Decode(s[1..][1..][1..]) == s[3] as int;
    assert Decode(s[1..][1..]) == s[2] as int + 0x100 * s[3] as int;
  }

  function LoadU32(s: seq<byte>, off: nat): u32
    requires off + 4 <= |s|
  {
    Decode4(s[off..off + 4]);
    Decode(s[off..off + 4])
  }

  function LoadU64(s: seq<byte>, off: nat): u64
    requires off + 8 <= |s|
  {
    LoadU32(s, off) as int + 0x1_0000_0000 * LoadU32(s, off + 4) as int
  }

  /** Equal words have equal bytes, so changing one byte of a word changes the word. */
  lemma LoadU32Injective(s: seq<byte>, t: seq<byte>, off: nat)
    requires off + 4 <= |s| && off + 4 <= |t|
    requires LoadU32(s, off) == LoadU32(t, off)
    ensures s[off..off + 4] == t[off..off + 4]
  {
    EncodingUnique(s[off..off + 4], t[off..off + 4]);
  }

  /** A word has a value exactly when its four bytes are the value's, least significant first. */
  lemma WordBytes(s: seq<byte>, off: nat, a: byte, b: byte, c: byte, d: byte)
    requires off + 4 <= |s|
    ensures LoadU32(s, off) as int == a as int + 0x100 * b as int + 0x1_0000 * c as int + 0x100_0000 * d as int <==>
              s[off] == a && s[off + 1] == b && s[off + 2] == c && s[off + 3] == d
  {
    var w := s[off..off + 4];
    Decode4(w);
    if Decode(w) == a as int + 0x100 * b as int + 0x1_0000 * c as int + 0x100_0000 * d as int {
      FourDigits(w[0], w[1], w[2], w[3], a, b, c, d);
    }
  }

  lemma LoadU32Same(s: seq<byte>, t: seq<byte>, off: nat)
    requires off + 4 <= |s| && off + 4 <= |t|
    requires s[off..off + 4] == t[off..off + 4]
    ensures LoadU32(s, off) == LoadU32(t, off)
  {
  }

  lemma LoadMoved(s: seq<byte>, a: nat, t: seq<byte>, b: nat)
    requires a + 4 <= |s| && b + 4 <= |t| && s[a..a + 4] == t[b..b + 4]
    ensures LoadU32(s, a) == LoadU32(t, b)
  {
  }

  lemma LoadZeros(n: nat, off: nat)
    requires off + 4 <= n
    ensures LoadU32(Zeros(n), off) == 0
  {
    var s := Zeros(n)[off..off + 4];
    assert s == [0, 0, 0, 0];
    Decode4(s);
  }

  lemma EncodingExists(v: u32)
    ensures exists r: seq<byte> :: |r| == 4 && Decode(r) == v
  {
    var q1: int := v as int / 0x100;
    var q2: int := q1 / 0x100;
    var q3: int := q2 / 0x100;
    assert 0 <= q1 < 0x100_0000 && 0 <= q2 < 0x1_0000 && 0 <= q3 < 0x100;
    var r: seq<byte> := [v as int % 0x100, q1 % 0x100, q2 % 0x100, q3];
    Decode4(r);
  }

  lemma FourDigits(a: byte, b: byte, c: byte, d: byte, w: byte, x: byte, y: byte, z: byte)
    requires a as int + 0x100 * b as int + 0x1_0000 * c as int + 0x100_0000 * d as int ==
             w as int + 0x100 * x as int + 0x1_0000 * y as int + 0x100_0000 * z as int
    ensures a == w && b == x && c == y && d == z
  {
    assert d == z;
    assert c == y;
  }

  lemma EncodingUnique(r: seq<byte>, s: seq<byte>)
    requires |r| == |s| == 4 && Decode(r) == Decode(s)
    ensures r == s
  {
    Decode4(r);
    Decode4(s);
    FourDigits(r[0], r[1], r[2], r[3], s[0], s[1], s[2], s[3]);
  }

  /** The four bytes of v, least significant first. */
  function EncodeU32(v: u32): (r: seq<byte>)
    ensures |r| == 4 && Decode(r) == v
  {
    EncodingExists(v);
    assert forall r: seq<byte>, s: seq<byte> :: |r| == |s| == 4 && Decode(r) == v && Decode(s) == v ==> r == s by {
      forall r: seq<byte>, s: seq<byte> | |r| == |s| == 4 && Decode(r) == v && Decode(s) == v { EncodingUnique(r, s); }
    }
    var r: seq<byte> :| |r| == 4 && Decode(r) == v;
    r
  }

  /** *(uint32_t *)(buf + off) = v */
  function StoreU32(buf: seq<byte>, off: nat, v: u32): (r: seq<byte>)
    requires off + 4 <= |buf|
    ensures |r| == |buf| && LoadU32(r, off) == v
    ensures forall o: nat {:trigger LoadU32(r, o)} :: o + 4 <= |buf| && (o + 4 <= off || off + 4 <= o) ==>
              LoadU32(r, o) == LoadU32(buf, o)
    ensures forall i :: 0 <= i < |buf| && !(off <= i < off + 4) ==> r[i] == buf[i]
  {
    var r := Splice(buf, off, EncodeU32(v));
    assert r[off..off + 4] == EncodeU32(v);
    assert forall o: nat {:trigger LoadU32(r, o)} :: o + 4 <= |buf| && (o + 4 <= off || off + 4 <= o) ==>
        LoadU32(r, o) == LoadU32(buf, o) by {
      forall o: nat {:trigger LoadU32(r, o)} | o + 4 <= |buf| && (o + 4 <= off || off + 4 <= o)
        ensures LoadU32(r, o) == LoadU32(buf, o)
      {
        assert r[o..o + 4] == buf[o..o + 4];
        LoadU32Same(r, buf, o);
      }
    }
    r
  }

  function LoadU16(s: seq<byte>, off: nat): u16
    requires off + 2 <= |s|
  {
    s[off] as int + 0x100 * s[off + 1] as int
  }

  function StoreU16(buf: seq<byte>, off: nat, v: u16): (r: seq<byte>)
    requires off + 2 <= |buf|
    ensures |r| == |buf| && LoadU16(r, off) == v
    ensures forall o: nat {:trigger LoadU32(r, o)} :: o + 4 <= |buf| && (o + 4 <= off || off + 2 <= o) ==>
              LoadU32(r, o) == LoadU32(buf, o)
    ensures forall i :: 0 <= i < |buf| && !(off <= i < off + 2) ==> r[i] == buf[i]
  {
    var r := Splice(buf, off, [v as int % 0x100, v as int / 0x100]);
    assert forall o: nat {:trigger LoadU32(r, o)} :: o + 4 <= |buf| && (o + 4 <= off || off + 2 <= o) ==>
        LoadU32(r, o) == LoadU32(buf, o) by {
      forall o: nat {:trigger LoadU32(r, o)} | o + 4 <= |buf| && (o + 4 <= off || off + 2 <= o)
        ensures LoadU32(r, o) == LoadU32(buf, o)
      {
        assert r[o..o + 4] == buf[o..o + 4];
        LoadU32Same(r, buf, o);
      }
    }
    r
  }

  function StoreU64(buf: seq<byte>, off: nat, v: u64): (r: seq<byte>)
    requires off + 8 <= |buf|
    ensures |r| == |buf| && LoadU64(r, off) == v
    ensures forall o: nat {:trigger LoadU32(r, o)} :: o + 4 <= |buf| && (o + 4 <= off || off + 8 <= o) ==>
              LoadU32(r, o) == LoadU32(buf, o)
    ensures forall i :: 0 <= i < |buf| && !(off <= i < off + 8) ==> r[i] == buf[i]
  {
    StoreU32(StoreU32(buf, off, v % 0x1_0000_0000), off + 4, v / 0x1_0000_0000)
  }

  /** A zeroed block with data copied to its front. */
  function PadBlock(data: seq<byte>): Block
    requires |data| <= BLOCK_SIZE
  {
    data + Zeros(BLOCK_SIZE - |data|)
  }

  // ----- Bitmaps -----

  /** 1u << k */
  function Mask(k: nat): bv8
    requires k < 8
  {
    if k == 0 then 0x01 else if k == 1 then 0x02 else if k == 2 then 0x04 else if k == 3 then 0x08 else
    if k == 4 then 0x10 else if k == 5 then 0x20 else if k == 6 then 0x40 else 0x80
  }

  predicate BvBit(x: bv8, k: nat)
    requires k < 8
  {
    x & Mask(k) != 0
  }

  function BvSet(x: bv8, k: nat): bv8
    requires k < 8
  {
    x | Mask(k)
  }

  function BvClear(x: bv8, k: nat): bv8
    requires k < 8
  {
    x & !Mask(k)
  }

  lemma BvSetBit(x: bv8, k: nat, j: nat)
    requires k < 8 && j < 8
    ensures BvBit(BvSet(x, k), j) == (j == k || BvBit(x, j))
  {
  }

  lemma BvClearBit(x: bv8, k: nat, j: nat)
    requires k < 8 && j < 8
    ensures BvBit(BvClear(x, k), j) == (j != k && BvBit(x, j))
  {
  }

  lemma BvRoundTrip(x: bv8)
    ensures (x as int) as bv8 == x
  {
  }

  lemma ByteRoundTrip(a: byte)
    ensures (a as bv8) as int == a
  {
    var x := BvOf(a);
    BvRoundTrip(x);
  }

  /** Every byte is the value of a bit vector. */
  lemma {:induction false} BvOf(a: byte) returns (x: bv8)
    ensures x as int == a
    decreases a
  {
    if a == 0 {
      x := 0;
    } else {
      var y := BvOf(a - 1);
      BvSucc(y);
      x := y + 1;
    }
  }

  lemma BvSucc(x: bv8)
    requires x != 255
    ensures (x + 1) as int == x as int + 1
  {
  }

  predicate ByteBit(b: byte, k: nat)
    requires k < 8
  {
    BvBit(b as bv8, k)
  }

  /** b | (1u << k) */
  function ByteSet(b: byte, k: nat): (r: byte)
    requires k < 8
  {
    BvSet(b as bv8, k) as int
  }

  /** b & ~(1u << k) */
  function ByteClear(b: byte, k: nat): (r: byte)
    requires k < 8
  {
    BvClear(b as bv8, k) as int
  }

  lemma ByteOfBv(x: bv8, j: nat)
    requires j < 8
    ensures 0 <= x as int < 0x100 && ByteBit(x as int, j) == BvBit(x, j)
  {
    BvRoundTrip(x);
  }

  lemma ByteSetBit(b: byte, k: nat, j: nat)
    requires k < 8 && j < 8
    ensures ByteBit(ByteSet(b, k), j) == (j == k || ByteBit(b, j))
  {
    ByteOfBv(BvSet(b as bv8, k), j);
    BvSetBit(b as bv8, k, j);
  }

  lemma ByteClearBit(b: byte, k: nat, j: nat)
    requires k < 8 && j < 8
    ensures ByteBit(ByteClear(b, k), j) == (j != k && ByteBit(b, j))
  {
    ByteOfBv(BvClear(b as bv8, k), j);
    BvClearBit(b as bv8, k, j);
  }

  /** Bit k of x. */
  function Bit(x: nat, k: nat): (b: int)
    ensures 0 <= b <= 1
    decreases k
  {
    if k == 0 then x % 2 else Bit(x / 2, k - 1)
  }

  lemma BvHalf(x: bv8)
    ensures (x >> 1) as int == x as int / 2 && (x & 1 != 0 <==> x as int % 2 == 1)
  {
  }

  lemma BvShift(x: bv8, k: nat)
    requires k < 7
    ensures BvBit(x, k + 1) == BvBit(x >> 1, k)
  {
  }

  lemma {:induction false} BvBitIs(x: bv8, k: nat)
    requires k < 8
    ensures BvBit(x, k) <==> Bit(x as int, k) == 1
    decreases k
  {
    hide BvBit;
    BvHalf(x);
    if k == 0 {
      BvLowest(x);
    } else {
      BvShift(x, k - 1);
      BvBitIs(x >> 1, k - 1);
    }
  }

  lemma BvLowest(x: bv8)
    ensures BvBit(x, 0) == (x & 1 != 0)
  {
  }

  /** The masks select the binary digits, the lowest first. */
  lemma ByteBitIs(b: byte, k: nat)
    requires k < 8
    ensures ByteBit(b, k) <==> Bit(b, k) == 1
  {
    hide Bit;
    ByteRoundTrip(b);
    BvBitIs(b as bv8, k);
  }

  predicate TestBit(bm: seq<byte>, i: nat)
    requires i / 8 < |bm|
  {
    ByteBit(bm[i / 8], i % 8)
  }

  function SetBit(bm: seq<byte>, i: nat): (r: seq<byte>)
    requires i / 8 < |bm|
    ensures |r| == |bm|
    ensures forall j: nat :: j / 8 < |bm| ==> TestBit(r, j) == (j == i || TestBit(bm, j))
  {
    var r := bm[i / 8 := ByteSet(bm[i / 8], i % 8)];
    assert forall j: nat :: j / 8 < |bm| ==> TestBit(r, j) == (j == i || TestBit(bm, j)) by {
      forall j: nat | j / 8 < |bm| { ByteSetBit(bm[i / 8], i % 8, j % 8); }
    }
    r
  }

  function ClearBit(bm: seq<byte>, i: nat): (r: seq<byte>)
    requires i / 8 < |bm|
    ensures |r| == |bm|
    ensures forall j: nat :: j / 8 < |bm| ==> TestBit(r, j) == (j != i && TestBit(bm, j))
  {
    var r := bm[i / 8 := ByteClear(bm[i / 8], i % 8)];
    assert forall j: nat :: j / 8 < |bm| ==> TestBit(r, j) == (j != i && TestBit(bm, j)) by {
      forall j: nat | j / 8 < |bm| { ByteClearBit(bm[i / 8], i % 8, j % 8); }
    }
    r
  }

  /** A bitmap with the first n bits set. */
  function FirstBits(n: nat): (r: Block)
    requires n <= 8 * BLOCK_SIZE
    ensures forall b: nat :: b < n ==> TestBit(r, b)
  {
    if n == 0 then ZERO_BLOCK else SetBit(FirstBits(n - 1), n - 1)
  }

  /** The first clear bit in [i, hi); hi if there is none. */
  function FindClearBit(bm: Block, i: nat, hi: nat): (r: nat)
    requires i <= hi <= 8 * BLOCK_SIZE
    ensures i <= r <= hi
    ensures r < hi ==> !TestBit(bm, r)
    ensures forall j: nat :: i <= j < r ==> TestBit(bm, j)
    decreases hi - i
  {
    if i == hi || !TestBit(bm, i) then i else FindClearBit(bm, i + 1, hi)
  }

  /** The scan loop of both file systems' allocators. */
  method FindFreeBit(bm: Block, lo: nat, hi: nat) returns (bit: nat)
    requires lo <= hi <= 8 * BLOCK_SIZE
    ensures bit == FindClearBit(bm, lo, hi)
  {
    for i := lo to hi
      invariant FindClearBit(bm, lo, hi) == FindClearBit(bm, i, hi)
    {
      if !TestBit(bm, i) {
        return i;
      }
    }
    bit := hi;
  }

  // ----- Bitmaps with the first bits set -----

  lemma {:induction false} FirstBitsExact(n: nat, b: nat)
    requires n <= 8 * BLOCK_SIZE && b < 8 * BLOCK_SIZE
    ensures TestBit(FirstBits(n), b) <==> b < n
  {
    hide SetBit, TestBit;
    if n > 0 {
      FirstBitsExact(n - 1, b);
    } else {
      ZeroBit(b);
    }
  }

  lemma ZeroBit(b: nat)
    requires b < 8 * BLOCK_SIZE
    ensures !TestBit(ZERO_BLOCK, b)
  {
    BvZero(b % 8);
  }

  lemma BvZero(k: nat)
    requires k < 8
    ensures !BvBit(0, k)
  {
  }

  lemma FirstClear(n: nat, lo: nat, hi: nat)
    requires lo <= n < hi <= 8 * BLOCK_SIZE
    ensures FindClearBit(FirstBits(n), lo, hi) == n
  {
    hide FirstBits, TestBit, FindClearBit;
    var r := FindClearBit(FirstBits(n), lo, hi);
    FirstBitsExact(n, n);
    if r < hi {
      FirstBitsExact(n, r);
    }
  }

  lemma NextBit(n: nat)
    requires n < 8 * BLOCK_SIZE
    ensures SetBit(FirstBits(n), n) == FirstBits(n + 1)
  {
    hide SetBit;
  }

  // ----- Bytes of a bitmap -----

  /** Bit i of a bitmap is binary digit i % 8 of byte i / 8. */
  lemma BitOf(bm: Block, i: nat)
    requires i / 8 < 512
    ensures i / 8 < |bm| && (TestBit(bm, i) <==> Bit(bm[i / 8], i % 8) == 1)
  {
    hide Bit;
    ByteBitIs(bm[i / 8], i % 8);
  }

  lemma AllEight(x: bv8)
    ensures (forall k :: 0 <= k < 8 ==> BvBit(x, k)) <==> x == 255
  {
    if BvBit(x, 0) && BvBit(x, 1) && BvBit(x, 2) && BvBit(x, 3) && BvBit(x, 4) && BvBit(x, 5) && BvBit(x, 6) {
      assert BvBit(x, 7) ==> x == 255;
    }
  }

  lemma FullByte(bm: Block, i: nat)
    requires i < 512
    ensures i < |bm| && ((forall b :: 8 * i <= b < 8 * i + 8 ==> TestBit(bm, b)) <==> bm[i] == 255)
  {
    hide BvBit;
    var x := bm[i] as bv8;
    AllEight(x);
    ByteRoundTrip(bm[i]);
    if forall b :: 8 * i <= b < 8 * i + 8 ==> TestBit(bm, b) {
      forall k | 0 <= k < 8 ensures BvBit(x, k) {
        assert TestBit(bm, 8 * i + k);
      }
    }
    if bm[i] == 255 {
      forall b | 8 * i <= b < 8 * i + 8 ensures TestBit(bm, b) {
        assert BvBit(bm[i] as bv8, b % 8);
      }
    }
  }

  /** Bytes from bits. */
  lemma BvFromBits(x: bv8)
    ensures (forall k :: 0 <= k < 8 ==> !BvBit(x, k)) <==> x == 0
    ensures BvBit(x, 0) && (forall k :: 1 <= k < 8 ==> !BvBit(x, k)) <==> x == 1
    ensures BvBit(x, 0) && BvBit(x, 1) && (forall k :: 2 <= k < 8 ==> !BvBit(x, k)) <==> x == 3
  {
    if !BvBit(x, 2) && !BvBit(x, 3) && !BvBit(x, 4) && !BvBit(x, 5) && !BvBit(x, 6) && !BvBit(x, 7) {
      assert BvBit(x, 1) || (BvBit(x, 0) <==> x == 1);
      assert BvBit(x, 0) && BvBit(x, 1) <==> x == 3;
    }
  }

  lemma ByteFromBits(bm: Block, i: nat)
    requires i < 512
    ensures i < |bm|
    ensures (forall b :: 8 * i <= b < 8 * i + 8 ==> !TestBit(bm, b)) ==> bm[i] == 0
    ensures TestBit(bm, 8 * i) && (forall b :: 8 * i < b < 8 * i + 8 ==> !TestBit(bm, b)) ==> bm[i] == 1
    ensures (TestBit(bm, 8 * i) && TestBit(bm, 8 * i + 1) && forall b :: 8 * i + 1 < b < 8 * i + 8 ==> !TestBit(bm, b))
            ==> bm[i] == 3
  {
    hide BvBit;
    var x := bm[i] as bv8;
    BvFromBits(x);
    ByteRoundTrip(bm[i]);
    assert forall k :: 0 <= k < 8 ==> BvBit(x, k) == TestBit(bm, 8 * i + k);
  }
}
