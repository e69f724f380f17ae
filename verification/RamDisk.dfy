/** The memory-backed block device behind the block layer's range check: block numbers become byte offsets
    by a 64-bit multiplication that may wrap. */
module RamDisk {
  import opened Bytes

  const MIN_BLOCK: nat := 512

  datatype Status = Ok | Inval | Range

  /** mcsos_blk_validate_range for a transfer of `count` blocks. */
  function Validate(lba: u64, count: u32, blockCount: nat): Status {
    if count == 0 then Inval
    else if lba >= blockCount || count as int > blockCount - lba as int then Range
    else Ok
  }

  /** The size of n blocks. */
  function Extent(n: nat, size: nat): nat {
    n * size
  }

  /** lba * block_size on a 64-bit word. */
  function Offset(lba: u64, size: nat): (r: u64) {
    Extent(lba, size) % WORD64
  }

  lemma ExtentAdd(a: nat, b: nat, size: nat)
    ensures Extent(a + b, size) == Extent(a, size) + Extent(b, size)
  {
  }

  lemma ExtentGrows(a: nat, b: nat, size: nat)
    requires a <= b
    ensures Extent(a, size) <= Extent(b, size)
  {
    ExtentAdd(a, b - a, size);
    hide Extent;
  }

  /** Inside a device that fits in memory the offset never wraps. */
  lemma OffsetIsExact(lba: u64, count: nat, size: nat, blockCount: nat)
    requires lba as int + count <= blockCount && Extent(blockCount, size) < WORD64
    ensures Offset(lba, size) == Extent(lba, size)
    ensures Extent(lba, size) + Extent(count, size) <= Extent(blockCount, size)
  {
    hide Extent;
    ExtentAdd(lba, count, size);
    ExtentGrows(lba as int + count, blockCount, size);
  }

  /** Past the end it does wrap: block 2^55 of 512-byte blocks has the offset of block 0, so only the range
      check of the block layer keeps it out. */
  lemma OffsetWraps()
    ensures Offset(0x80_0000_0000_0000, 512) == Offset(0, 512)
    ensures forall blockCount: nat :: blockCount <= 0x80_0000_0000_0000 ==>
              Validate(0x80_0000_0000_0000, 1, blockCount) == Range
  {
  }

  /** Block l of a storage area. */
  function BlockOf(storage: seq<byte>, l: nat, size: nat): seq<byte>
    requires Extent(l + 1, size) <= |storage|
  {
    ExtentGrows(l, l + 1, size);
    storage[Extent(l, size)..Extent(l + 1, size)]
  }

  /** A transfer of whole blocks replaces exactly those blocks. */
  lemma SpliceBlocks(storage: seq<byte>, lba: nat, count: nat, size: nat, data: seq<byte>, l: nat)
    requires |data| == Extent(count, size) && Extent(lba + count, size) <= |storage| && Extent(l + 1, size) <= |storage|
    requires Extent(lba, size) + |data| == Extent(lba + count, size)
    ensures lba <= l < lba + count ==> Extent(l - lba + 1, size) <= |data|
    ensures BlockOf(Splice(storage, Extent(lba, size), data), l, size) ==
              if lba <= l < lba + count then BlockOf(data, l - lba, size) else BlockOf(storage, l, size)
  {
    hide Extent, Splice;
    var s := Splice(storage, Extent(lba, size), data);
    ExtentGrows(l, l + 1, size);
    if l < lba {
      ExtentGrows(l + 1, lba, size);
      SpliceElsewhere(storage, Extent(lba, size), data, Extent(l, size), Extent(l + 1, size));
    } else if l >= lba + count {
      ExtentGrows(lba + count, l, size);
      SpliceElsewhere(storage, Extent(lba, size), data, Extent(l, size), Extent(l + 1, size));
    } else {
      ExtentGrows(l - lba, l - lba + 1, size);
      ExtentGrows(l - lba + 1, count, size);
      ExtentAdd(lba, l - lba, size);
      ExtentAdd(lba, l - lba + 1, size);
      SpliceInside(storage, Extent(lba, size), data, Extent(l - lba, size), Extent(l - lba + 1, size));
    }
  }

  lemma SpliceInside(buf: seq<byte>, off: nat, data: seq<byte>, a: nat, b: nat)
    requires off + |data| <= |buf| && a <= b <= |data|
    ensures Splice(buf, off, data)[off + a..off + b] == data[a..b]
  {
  }

  // ----- The argument checks of mcsos_ramblk_init -----

  /** x & y, digit by digit. */
  function And(x: nat, y: nat): (r: nat)
    decreases x
  {
    if x == 0 then 0 else 2 * And(x / 2, y / 2) + x % 2 * (y % 2)
  }

  /** mcsos_is_power_of_two_u32_local */
  predicate PowerOfTwo(v: u32) {
    v != 0 && And(v, v - 1) == 0
  }

  /** 1 << k */
  function Pow2(k: nat): (p: nat)
    ensures p > 0
  {
    if k == 0 then 1 else 2 * Pow2(k - 1)
  }

  lemma {:induction false} AndSelf(x: nat)
    ensures And(x, x) == x
    decreases x
  {
    if x > 0 {
      AndSelf(x / 2);
      assert x % 2 * (x % 2) == x % 2;
    }
  }

  /** A number and the one before it share no digit exactly when the number is a power of two. */
  lemma {:induction false} NoSharedDigit(v: nat)
    requires v > 0
    ensures And(v, v - 1) == 0 <==> exists k: nat :: v == Pow2(k)
    decreases v
  {
    if v % 2 == 1 {
      AndSelf(v / 2);
      assert (v - 1) / 2 == v / 2 && (v - 1) % 2 == 0;
      OddPower(v);
    } else {
      assert (v - 1) / 2 == v / 2 - 1;
      NoSharedDigit(v / 2);
      EvenPower(v);
    }
  }

  lemma OddPower(v: nat)
    requires v % 2 == 1
    ensures (exists k: nat :: v == Pow2(k)) <==> v == 1
  {
    assert Pow2(0) == 1;
  }

  lemma EvenPower(v: nat)
    requires v > 0 && v % 2 == 0
    ensures (exists k: nat :: v == Pow2(k)) <==> exists k: nat :: v / 2 == Pow2(k)
  {
    if k: nat :| v == Pow2(k) {
      assert v / 2 == Pow2(k - 1);
    }
    if k: nat :| v / 2 == Pow2(k) {
      assert v == Pow2(k + 1);
    }
  }

  /** The answer of mcsos_ramblk_init for a storage area of `bytes` bytes. */
  function InitStatus(bytes: nat, size: u32): Status {
    if size < MIN_BLOCK || !PowerOfTwo(size) then Inval
    else if bytes < size || bytes % size as int != 0 then Inval
    else Ok
  }

  /** Accepted block sizes are the powers of two from 512 on, and the storage is a positive number of blocks. */
  lemma InitAccepts(bytes: nat, size: u32)
    ensures InitStatus(bytes, size) == Ok <==>
              size >= 512 && (exists k: nat :: size as int == Pow2(k)) && bytes >= size && bytes % size as int == 0
  {
    if size >= 512 {
      NoSharedDigit(size);
    }
  }

  class Disk {
    const storage: array<byte>
    const blockSize: nat
    const blockCount: nat

    ghost predicate Valid() {
      blockSize >= MIN_BLOCK && blockSize < 0x1_0000_0000 && Extent(blockCount, blockSize) == storage.Length < WORD64
    }

    /** The stores of mcsos_ramblk_init. */
    constructor (bytes: array<byte>, size: nat)
      requires MIN_BLOCK <= size < 0x1_0000_0000 && bytes.Length < WORD64 && bytes.Length >= size
      requires bytes.Length % size == 0
      ensures Valid() && storage == bytes && blockSize == size
    {
      storage, blockSize, blockCount := bytes, size, bytes.Length / size;
      WholeBlocks(bytes.Length, size);
    }

    /** mcsos_ramblk_rw, writing. */
    method Put(lba: u64, count: u32, buffer: array<byte>) returns (st: Status)
      requires Valid() && buffer != storage && buffer.Length >= Extent(count, blockSize)
      modifies storage
      ensures var off, n := Offset(lba, blockSize) as int, Extent(count, blockSize);
              if off + n > storage.Length then st == Range && storage[..] == old(storage[..])
              else st == Ok && storage[..] == Splice(old(storage[..]), off, buffer[..n])
    {
      hide Extent, Offset;
      var byteOffset, byteCount := Offset(lba, blockSize) as int, Extent(count, blockSize);
      if byteOffset > storage.Length || byteCount > storage.Length - byteOffset {
        return Range;
      }
      for i := 0 to byteCount
        invariant forall k :: 0 <= k < storage.Length ==>
          storage[k] == if byteOffset <= k < byteOffset + i then buffer[k - byteOffset] else old(storage[k])
        invariant buffer[..] == old(buffer[..])
      {
        storage[byteOffset + i] := buffer[i];
      }
      st := Ok;
    }

    /** mcsos_ramblk_rw, reading. */
    method Get(lba: u64, count: u32, buffer: array<byte>) returns (st: Status)
      requires Valid() && buffer != storage && buffer.Length >= Extent(count, blockSize)
      modifies buffer
      ensures var off, n := Offset(lba, blockSize) as int, Extent(count, blockSize);
              if off + n > storage.Length then st == Range && buffer[..] == old(buffer[..])
              else st == Ok && buffer[..] == Splice(old(buffer[..]), 0, storage[off..off + n])
    {
      hide Extent, Offset;
      var byteOffset, byteCount := Offset(lba, blockSize) as int, Extent(count, blockSize);
      if byteOffset > storage.Length || byteCount > storage.Length - byteOffset {
        return Range;
      }
      for i := 0 to byteCount
        invariant forall k :: 0 <= k < buffer.Length ==>
                  buffer[k] == if k < i then storage[byteOffset + k] else old(buffer[k])
      {
        buffer[i] := storage[byteOffset + i];
      }
      st := Ok;
    }

    /** mcsos_blk_write: accepted exactly for a nonempty range of existing blocks, and then exactly those
        blocks become the buffer's. */
    method Write(lba: u64, count: u32, buffer: array<byte>) returns (st: Status)
      requires Valid() && buffer != storage && buffer.Length >= Extent(count, blockSize)
      modifies storage
      ensures st == Ok <==> count > 0 && lba as int + count as int <= blockCount
      ensures st == Inval <==> count == 0
      ensures st != Ok ==> storage[..] == old(storage[..])
      ensures st == Ok ==> forall l: nat :: l < blockCount ==>
                BlockWritten(old(storage[..]), storage[..], lba, count, buffer[..], blockSize, l)
    {
      hide Extent, Offset;
      st := Validate(lba, count, blockCount);
      if st != Ok {
        return;
      }
      OffsetIsExact(lba, count, blockSize, blockCount);
      ghost var was, data := storage[..], buffer[..Extent(count, blockSize)];
      st := Put(lba, count, buffer);
      forall l: nat | l < blockCount ensures BlockWritten(was, storage[..], lba, count, buffer[..], blockSize, l) {
        BlockWrittenBy(was, lba, count, buffer[..], blockSize, blockCount, l);
      }
    }

    /** mcsos_blk_read: the buffer receives the blocks of the range, in order. */
    method Read(lba: u64, count: u32, buffer: array<byte>) returns (st: Status)
      requires Valid() && buffer != storage && buffer.Length >= Extent(count, blockSize)
      modifies buffer
      ensures st == Ok <==> count > 0 && lba as int + count as int <= blockCount
      ensures st == Inval <==> count == 0
      ensures if st == Ok
              then Extent(lba, blockSize) + Extent(count, blockSize) <= storage.Length
                   && buffer[..Extent(count, blockSize)] ==
                        storage[Extent(lba, blockSize)..Extent(lba, blockSize) + Extent(count, blockSize)]
              else buffer[..] == old(buffer[..])
    {
      hide Extent, Offset;
      st := Validate(lba, count, blockCount);
      if st != Ok {
        return;
      }
      OffsetIsExact(lba, count, blockSize, blockCount);
      st := Get(lba, count, buffer);
    }
  }

  /** mcsos_ramblk_init. */
  method Init(bytes: array<byte>, size: u32) returns (st: Status, disk: Disk?)
    requires bytes.Length < WORD64
    ensures st == InitStatus(bytes.Length, size)
    ensures if st != Ok then disk == null
            else disk != null && fresh(disk) && disk.Valid() && disk.storage == bytes && disk.blockSize == size
  {
    hide And, Extent;
    if size < MIN_BLOCK || !PowerOfTwo(size) {
      return Inval, null;
    }
    if bytes.Length < size || bytes.Length % size as int != 0 {
      return Inval, null;
    }
    disk := new Disk(bytes, size);
    st := Ok;
  }

  lemma WholeBlocks(length: nat, size: nat)
    requires size > 0 && length % size == 0
    ensures length / size >= 0 && Extent(length / size, size) == length
  {
  }

  /** Block l after a write of `count` blocks from `buffer` at lba. */
  ghost predicate BlockWritten(was: seq<byte>, now: seq<byte>, lba: nat, count: nat, buffer: seq<byte>, size: nat,
                               l: nat) {
    && |now| == |was| && Extent(l + 1, size) <= |was|
    && if lba <= l < lba + count
       then Extent(l - lba + 1, size) <= |buffer| && BlockOf(now, l, size) == BlockOf(buffer, l - lba, size)
       else BlockOf(now, l, size) == BlockOf(was, l, size)
  }

  lemma BlockWrittenBy(was: seq<byte>, lba: nat, count: nat, buffer: seq<byte>, size: nat, blockCount: nat, l: nat)
    requires lba + count <= blockCount && |was| == Extent(blockCount, size) && l < blockCount
    requires |buffer| >= Extent(count, size)
    requires Extent(lba, size) + Extent(count, size) <= Extent(blockCount, size)
    ensures var now := Splice(was, Extent(lba, size), buffer[..Extent(count, size)]);
            BlockWritten(was, now, lba, count, buffer, size, l)
  {
    hide Extent, Splice;
    ExtentGrows(l + 1, blockCount, size);
    ExtentGrows(lba + count, blockCount, size);
    var data := buffer[..Extent(count, size)];
    ExtentAdd(lba, count, size);
    SpliceBlocks(was, lba, count, size, data, l);
    if lba <= l < lba + count {
      ExtentGrows(l - lba, l - lba + 1, size);
      ExtentGrows(l - lba + 1, count, size);
      assert BlockOf(data, l - lba, size) == BlockOf(buffer, l - lba, size);
    }
  }
}
