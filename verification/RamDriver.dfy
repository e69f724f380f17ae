/** Memory-backed disks as the block devices under the cache: one-block transfers through the real driver meet
    the contracts that BlockCache.Devices states, without faults. */
module RamDriver {
  import opened Bytes
  import R = RamDisk
  import C = BlockCache

  /** Block l lies inside the storage. */
  predicate Inside(storage: seq<byte>, l: nat, size: nat) {
    R.Extent(l + 1, size) <= |storage|
  }

  lemma AllInside(storage: seq<byte>, size: nat, count: nat)
    requires R.Extent(count, size) == |storage|
    ensures forall l: nat :: l < count ==> Inside(storage, l, size)
  {
    hide R.Extent;
    forall l: nat | l < count ensures Inside(storage, l, size) {
      R.ExtentGrows(l + 1, count, size);
    }
  }

  /** A storage area as a list of blocks. */
  function AsDisk(storage: seq<byte>, size: nat, count: nat): (d: C.Disk)
    requires R.Extent(count, size) == |storage|
    ensures |d.blocks| == count
    ensures forall l :: 0 <= l < count ==> Inside(storage, l, size) && d.blocks[l] == R.BlockOf(storage, l, size)
  {
    AllInside(storage, size, count);
    C.Disk(size, seq(count, l requires 0 <= l < count && Inside(storage, l, size) => R.BlockOf(storage, l, size)))
  }

  /** Writing one block of the storage writes that block of the disk. */
  lemma OneBlockWritten(was: seq<byte>, now: seq<byte>, lba: nat, data: seq<byte>, size: nat, count: nat)
    requires R.Extent(count, size) == |was| == |now| && lba < count && |data| == size
    requires forall l: nat :: l < count ==> R.BlockWritten(was, now, lba, 1, data, size, l)
    ensures AsDisk(now, size, count) ==
              AsDisk(was, size, count).(blocks := AsDisk(was, size, count).blocks[lba := data])
  {
    hide AsDisk, R.Extent, R.BlockOf;
    SameSize(was, now, size, count);
    var a, b := AsDisk(was, size, count), AsDisk(now, size, count);
    forall l: nat | l < count ensures b.blocks[l] == if l == lba then data else a.blocks[l] {
      assert R.BlockWritten(was, now, lba, 1, data, size, l);
      if l == lba {
        WholeBuffer(data, size);
      }
    }
    assert b.blocks == a.blocks[lba := data];
  }

  lemma SameSize(was: seq<byte>, now: seq<byte>, size: nat, count: nat)
    requires R.Extent(count, size) == |was| == |now|
    ensures AsDisk(was, size, count).blockSize == AsDisk(now, size, count).blockSize == size
  {
    hide R.Extent;
  }

  lemma WholeBuffer(data: seq<byte>, size: nat)
    requires |data| == size
    ensures R.Extent(1, size) == size && R.Extent(0, size) == 0 && R.BlockOf(data, 0, size) == data
  {
  }

  class Drivers {
    const table: seq<R.Disk>

    /** Every disk is initialised, and no two share their storage. */
    ghost predicate Valid() {
      && (forall i :: 0 <= i < |table| ==> table[i].Valid())
      && forall i, j :: 0 <= i < j < |table| ==> table[i].storage != table[j].storage
    }

    ghost function Storages(): set<array<byte>> {
      set i | 0 <= i < |table| :: table[i].storage
    }

    /** The table as the cache sees it. */
    ghost function Disks(): (ds: C.Disks)
      requires Valid()
      reads Storages()
      ensures |ds| == |table|
    {
      seq(|table|, i requires 0 <= i < |table| reads Storages() =>
        AsDisk(table[i].storage[..], table[i].blockSize, table[i].blockCount))
    }

    constructor (disks: seq<R.Disk>)
      requires forall i :: 0 <= i < |disks| ==> disks[i].Valid()
      requires forall i, j :: 0 <= i < j < |disks| ==> disks[i].storage != disks[j].storage
      ensures Valid() && table == disks
    {
      table := disks;
    }

    /** One block read through the block layer. */
    method Read(dev: nat, lba: u64) returns (st: C.Status, data: seq<byte>)
      requires Valid() && dev < |table|
      ensures st == C.Range <==> lba >= |Disks()[dev].blocks|
      ensures st == C.Ok ==> data == Disks()[dev].blocks[lba]
      ensures st == C.Ok || st == C.Range
    {
      hide R.Extent, AsDisk, R.BlockOf;
      var disk := table[dev];
      WholeBlock(disk);
      var buffer := new byte[disk.blockSize](_ => 0);
      var r := disk.Read(lba, 1, buffer);
      if r != R.Ok {
        return C.Range, [];
      }
      OneBlock(disk.storage[..], lba, disk.blockSize);
      assert buffer[..disk.blockSize] == buffer[..];
      st, data := C.Ok, buffer[..];
    }

    /** One block written through the block layer. */
    method Write(dev: nat, lba: u64, data: seq<byte>) returns (st: C.Status)
      requires Valid() && dev < |table| && |data| == table[dev].blockSize
      modifies table[dev].storage
      ensures st == C.Range <==> lba >= |old(Disks())[dev].blocks|
      ensures Disks() == if st == C.Ok then C.Stored(old(Disks()), dev, lba, data) else old(Disks())
      ensures st == C.Ok || st == C.Range
    {
      hide R.Extent, AsDisk, R.BlockOf;
      var disk := table[dev];
      ghost var was := Disks();
      WholeBlock(disk);
      var buffer := new byte[disk.blockSize](i requires 0 <= i < disk.blockSize => data[i]);
      assert buffer[..] == data;
      var r := disk.Write(lba, 1, buffer);
      if r != R.Ok {
        assert Disks() == was;
        return C.Range;
      }
      assert buffer[..] == data;
      OneBlockWritten(old(disk.storage[..]), disk.storage[..], lba, data, disk.blockSize, disk.blockCount);
      assert Disks() == C.Stored(was, dev, lba, data);
      st := C.Ok;
    }
  }

  lemma WholeBlock(disk: R.Disk)
    requires disk.Valid()
    ensures R.Extent(1, disk.blockSize) == disk.blockSize
    ensures R.Extent(disk.blockCount, disk.blockSize) == disk.storage.Length
  {
  }

  lemma OneBlock(storage: seq<byte>, l: nat, size: nat)
    requires R.Extent(l, size) + R.Extent(1, size) <= |storage|
    ensures R.Extent(l + 1, size) == R.Extent(l, size) + size && R.Extent(1, size) == size
    ensures R.BlockOf(storage, l, size) == storage[R.Extent(l, size)..R.Extent(l, size) + size]
  {
    R.ExtentAdd(l, 1, size);
  }

  /** Every block of the table has its disk's block size, as the cache requires of its devices. */
  lemma WholeBlocks(d: Drivers)
    requires d.Valid()
    ensures C.DisksOk(d.Disks())
  {
    hide R.Extent, AsDisk, R.BlockOf;
    var ds := d.Disks();
    forall i, l | 0 <= i < |ds| && 0 <= l < |ds[i].blocks| ensures |ds[i].blocks[l]| == ds[i].blockSize {
      BlockSize(d.table[i].storage[..], l, d.table[i].blockSize, d.table[i].blockCount);
    }
  }

  lemma BlockSize(storage: seq<byte>, l: nat, size: nat, count: nat)
    requires R.Extent(count, size) == |storage| && l < count
    ensures var d := AsDisk(storage, size, count); d.blockSize == size && |d.blocks[l]| == size
  {
    hide R.Extent;
    R.ExtentGrows(l + 1, count, size);
    R.ExtentAdd(l, 1, size);
    OneBlock(storage, l, size);
  }
}
