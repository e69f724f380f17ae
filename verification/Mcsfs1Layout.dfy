/** MCSFS1 down to its raw bytes: which names are accepted, what format and a creation put where, and exactly which
    bytes mount and fsck refuse. */
module Mcsfs1Layout {
  import opened Bytes
  import opened Disk
  import opened Mcsfs1
  import opened Mcsfs1Inv
  import opened Mcsfs1Ops
  import opened Mcsfs1Files
  import opened Mcsfs1Runs

  // ----- Names -----

  /** A name that is too long, empty, or contains a slash is refused by every operation before any block is touched;
      only an oversized write is refused earlier still. */
  lemma BadNamesRefused(d: Dev, past: byte, name: CString, data: seq<byte>, cap: u32)
    requires 16 <= |d.disk| <= 4096 && (name == [] || |name| >= 28 || 47 in name)
    ensures Device(d.disk)
    ensures var rc := if |name| >= 28 then TooLong else Inval;
            && Create(d, past, name) == Outcome(d, rc) && Unlink(d, past, name) == Outcome(d, rc)
            && ReadFile(d.disk, past, name, cap) == (rc, [])
            && WriteFile(d, past, name, data) == Outcome(d, if |data| > 4096 then Range else rc)
  {
    hide FindSlot, FindFreeSlot, AddFile, WriteContents, RemoveFile, ReadFrom;
  }

  /** Room for one more file: a slot with inode number zero, an inode number and a data block not marked. */
  ghost predicate Room(disk: Blocks)
    requires 16 <= |disk| <= 4096
  {
    && (exists i :: 0 <= i < 16 && LoadU32(disk[7], 32 * i) == 0)
    && (exists n :: 2 <= n <= 32 && !TestBit(disk[1], n))
    && exists l :: 8 <= l < |disk| && !TestBit(disk[2], l)
  }

  lemma RoomIff(disk: Blocks)
    requires Device(disk)
    ensures 16 <= |disk| <= 4096
    ensures HasRoom(disk) <==> Room(disk)
  {
    hide LoadU32, TestBit;
    var slot := FindFreeSlot(disk[7], 0);
    assert forall i :: 0 <= i < 16 ==> LoadU32(disk[7], 32 * i) == SlotIno(disk[7], i);
  }

  /** A new name of 1 to 26 bytes without a slash can be created whenever there is room, by four block writes. */
  lemma GoodNamesCreated(d: Dev, past: byte, name: CString)
    requires NameInv(d.disk) && 1 <= |name| <= 26 && 47 !in name && Inv(d.disk) && File(d.disk, name) == None
    ensures 16 <= |d.disk| <= 4096
    ensures var r := Create(d, past, name);
            && (r.rc == Ok <==> Room(d.disk) && (d.power < 0 || d.power >= 4))
            && NameInv(r.dev.disk) && (r.rc == Ok ==> File(r.dev.disk, name) == Some([]))
  {
    hide NameInv, Inv, File, Create, Room, HasRoom;
    InvDevice(d.disk);
    RoomIff(d.disk);
    CreateNeedsFour(d, past, name);
    CreateRefines(d, past, name);
  }

  /** Every name of 1 to 27 bytes without a slash is looked up, whatever names are on the disk. */
  lemma GoodNamesFound(d: Dev, past: byte, name: CString, data: seq<byte>, cap: u32)
    requires NameInv(d.disk) && Inv(d.disk) && 1 <= |name| <= 27 && 47 !in name
    ensures Device(d.disk)
    ensures var r := ReadFile(d.disk, past, name, cap);
            match File(d.disk, name)
            case None => r.0 == NoEnt
            case Some(c) => if |c| <= cap then r == (Ok, c) else r.0 == Range
    ensures d.power < 0 && |data| <= 4096 ==>
              (WriteFile(d, past, name, data).rc == NoEnt <==> File(d.disk, name) == None)
              && (WriteFile(d, past, name, data).rc in {Ok, NoEnt, NoSpc})
    ensures d.power < 0 ==> Unlink(d, past, name).rc == if File(d.disk, name) == None then NoEnt else Ok
  {
    hide NameInv, Inv, File, ReadFile, WriteFile, Unlink;
    InvDevice(d.disk);
    ReadRefines(d.disk, past, name, cap);
    WriteRefines(d, past, name, data);
    UnlinkRefines(d, past, name);
  }

  /** Creation of any name of 1 to 27 bytes without a slash, on any consistent disk. */
  lemma AnyGoodNameCreated(d: Dev, past: byte, name: CString)
    requires Inv(d.disk) && d.power < 0 && 1 <= |name| <= 27 && 47 !in name
    ensures Device(d.disk) && 16 <= |d.disk| <= 4096
    ensures Create(d, past, name).rc ==
              if exists i :: Visible(d.disk, past, i, name) then Exists else if Room(d.disk) then Ok else NoSpc
  {
    hide Inv, Create, Room, HasRoom, Visible, NewlyNamed;
    InvDevice(d.disk);
    RoomIff(d.disk);
    CreateAnyName(d, past, name);
  }

  // ----- What the operations answer on any disk -----

  /** Looking a good name up: no slot carries it, its inode number is above 32, its inode is no file, or it is found;
      write, read and unlink pass the first three on and touch no block. */
  lemma LookupAnswers(d: Dev, past: byte, name: CString, data: seq<byte>, cap: u32)
    requires 16 <= |d.disk| <= 4096 && 1 <= |name| <= 27 && 47 !in name
    ensures Device(d.disk)
    ensures var slot := FindSlot(d.disk[7], past, name, 0);
            var n: int := if slot < 16 then LoadU32(d.disk[7], 32 * slot) else 0;
            var inode, o := if 1 <= n <= 32 then d.disk[3 + (n - 1) / 8] else ZERO_BLOCK, (n - 1) % 8 * 60;
            var rc := if slot == 16 then NoEnt else if n > 32 then Inval
                      else if inode[o] != 1 || inode[o + 1] != 0 then IsDir else Ok;
            && (slot < 16 ==> n > 0)
            && (rc != Ok ==>
                  && WriteFile(d, past, name, data) == Outcome(d, if |data| > 4096 then Range else rc)
                  && ReadFile(d.disk, past, name, cap) == (rc, []) && Unlink(d, past, name) == Outcome(d, rc))
            && (rc == Ok ==> Resolve(d.disk, past, name) == Found(slot, n, InodeAt(d.disk, n)))
    ensures |data| > 4096 ==> WriteFile(d, past, name, data) == Outcome(d, Range)
  {
    hide LoadU32, SlotHolds, InodeAt, ReadFrom, WriteContents, RemoveFile;
    var slot := FindSlot(d.disk[7], past, name, 0);
    if slot < 16 {
      HeldSlotIsLive(d.disk[7], past, slot, name);
      var n := LoadU32(d.disk[7], 32 * slot);
      if n <= 32 {
        InodeWord(d.disk, n, 0);
      }
    }
  }

  /** The blocks that the size asks for, from the i-th on, lie on the device and are not block 0. */
  ghost predicate BlocksExist(disk: Blocks, inode: InodeBuf, i: nat) {
    forall j :: i <= j < 8 && 512 * j < LoadU32(inode, 4) ==> 1 <= LoadU32(inode, 8 + 4 * j) < |disk|
  }

  /** Reading a found file: the buffer must hold its size, and all blocks of at most 4096 bytes must exist. */
  lemma ReadAnswers(disk: Blocks, past: byte, name: CString, cap: u32)
    requires Device(disk) && Resolve(disk, past, name).Found?
    ensures var inode, r := Resolve(disk, past, name).inode, ReadFile(disk, past, name, cap);
            var size := LoadU32(inode, 4);
            if size > cap then r == (Range, [])
            else if size > 4096 then r == (Corrupt, [])
            else if BlocksExist(disk, inode, 0) then r.0 == Ok && |r.1| == size
            else r.0 == Corrupt
  {
    hide LoadU32, Resolve, BlocksExist, ReadFrom;
    var inode := Resolve(disk, past, name).inode;
    if Size(inode) <= 4096 && Size(inode) <= cap {
      ReadFromAnswers(disk, inode, 0);
    }
  }

  lemma {:induction false} ReadFromAnswers(disk: Blocks, inode: InodeBuf, i: nat)
    requires LoadU32(inode, 4) <= 4096 && i <= 8
    ensures Size(inode) <= MAX_FILE && i <= DIRECT_BLOCKS
    ensures var r := ReadFrom(disk, inode, i);
            if BlocksExist(disk, inode, i)
            then r.0 == Ok && |r.1| == if 512 * i < LoadU32(inode, 4) then LoadU32(inode, 4) - 512 * i else 0
            else r.0 == Corrupt
    decreases 8 - i
  {
    hide LoadU32, Direct, Size, ReadFrom, BlocksExist;
    SizeWord(inode);
    ReadStep(disk, inode, i);
    if 512 * i < LoadU32(inode, 4) {
      BlocksFrom(disk, inode, i);
      ReadFromAnswers(disk, inode, i + 1);
    } else {
      NoBlocks(disk, inode, i);
    }
  }

  lemma SizeWord(inode: InodeBuf)
    ensures |inode| == 60 && Size(inode) == LoadU32(inode, 4) && MAX_FILE == 4096
  {
    hide LoadU32;
  }

  lemma BlocksFrom(disk: Blocks, inode: InodeBuf, i: nat)
    requires i < 8 && 512 * i < LoadU32(inode, 4)
    ensures i < DIRECT_BLOCKS
    ensures BlocksExist(disk, inode, i) <==> 1 <= Direct(inode, i) < |disk| && BlocksExist(disk, inode, i + 1)
  {
    hide LoadU32;
  }

  lemma NoBlocks(disk: Blocks, inode: InodeBuf, i: nat)
    requires LoadU32(inode, 4) <= 512 * i
    ensures BlocksExist(disk, inode, i)
  {
    hide LoadU32;
  }

  /** Format refuses devices of fewer than 16 or more than 4096 blocks. */
  lemma SizeRefused(d: Dev)
    requires |d.disk| < 16 || |d.disk| > 4096
    ensures FormatDevice(d) == Outcome(d, Inval)
  {
  }

  // ----- What mount and fsck refuse -----

  /** The bytes of block 0 that mount and fsck compare, on a device of n blocks. */
  predicate SuperBytes(b: Block, n: nat) {
    && b[..12] == [0x43, 0x53, 0x46, 0x31, 1, 0, 0, 0, 0, 2, 0, 0]
    && b[12] as int + 0x100 * b[13] as int == n && b[14] == 0 && b[15] == 0
    && b[16..24] == [32, 0, 0, 0, 1, 0, 0, 0] && b[24..32] == [2, 0, 0, 0, 3, 0, 0, 0]
    && b[36..48] == [1, 0, 0, 0, 7, 0, 0, 0, 8, 0, 0, 0]
  }

  lemma SuperIff(b: Block, n: nat)
    requires n <= 4096
    ensures SuperOk(b, n) <==> SuperBytes(b, n)
  {
    hide LoadU32, SuperOk;
    SuperWords(b, n);
    SuperFront(b, n);
    SuperMiddle(b);
    SuperEnd(b);
  }

  lemma SuperFront(b: Block, n: nat)
    requires n <= 4096
    ensures LoadU32(b, 0) == 0x31465343 && LoadU32(b, 4) == 1 && LoadU32(b, 8) == 512 <==>
              b[..12] == [0x43, 0x53, 0x46, 0x31, 1, 0, 0, 0, 0, 2, 0, 0]
    ensures LoadU32(b, 12) == n <==> b[12] as int + 0x100 * b[13] as int == n && b[14] == 0 && b[15] == 0
  {
    hide LoadU32;
    WordBytes(b, 0, 0x43, 0x53, 0x46, 0x31);
    WordBytes(b, 4, 1, 0, 0, 0);
    WordBytes(b, 8, 0, 2, 0, 0);
    WordBytes(b, 12, n % 0x100, n / 0x100, 0, 0);
  }

  lemma SuperMiddle(b: Block)
    ensures LoadU32(b, 16) == 32 && LoadU32(b, 20) == 1 <==> b[16..24] == [32, 0, 0, 0, 1, 0, 0, 0]
    ensures LoadU32(b, 24) == 2 && LoadU32(b, 28) == 3 <==> b[24..32] == [2, 0, 0, 0, 3, 0, 0, 0]
  {
    hide LoadU32;
    WordBytes(b, 16, 32, 0, 0, 0);
    WordBytes(b, 20, 1, 0, 0, 0);
    WordBytes(b, 24, 2, 0, 0, 0);
    WordBytes(b, 28, 3, 0, 0, 0);
  }

  lemma SuperEnd(b: Block)
    ensures LoadU32(b, 36) == 1 && LoadU32(b, 40) == 7 && LoadU32(b, 44) == 8 <==>
              b[36..48] == [1, 0, 0, 0, 7, 0, 0, 0, 8, 0, 0, 0]
  {
    hide LoadU32;
    WordBytes(b, 36, 1, 0, 0, 0);
    WordBytes(b, 40, 7, 0, 0, 0);
    WordBytes(b, 44, 8, 0, 0, 0);
  }

  lemma SuperWords(b: Block, n: nat)
    ensures SuperOk(b, n) <==>
              && LoadU32(b, 0) == 0x31465343 && LoadU32(b, 4) == 1 && LoadU32(b, 8) == 512 && LoadU32(b, 12) == n
              && LoadU32(b, 16) == 32 && LoadU32(b, 20) == 1 && LoadU32(b, 24) == 2 && LoadU32(b, 28) == 3
              && LoadU32(b, 36) == 1 && LoadU32(b, 40) == 7 && LoadU32(b, 44) == 8
  {
    hide LoadU32;
  }

  /** Inode 1, at the front of block 3, is a directory whose first block is block 7. */
  predicate RootBytes(disk: Blocks)
    requires 16 <= |disk| <= 4096
  {
    disk[3][0] == 2 && disk[3][1] == 0 && disk[3][8..12] == [7, 0, 0, 0]
  }

  lemma InodeWord(disk: Blocks, n: nat, w: nat)
    requires Device(disk) && 1 <= n <= 32 && w + 4 <= 60
    ensures 3 + (n - 1) / 8 < |disk| && |InodeAt(disk, n)| == 60
    ensures LoadU32(InodeAt(disk, n), w) == LoadU32(disk[3 + (n - 1) / 8], 60 * ((n - 1) % 8) + w)
    ensures LoadU16(InodeAt(disk, n), 0) == LoadU16(disk[3 + (n - 1) / 8], 60 * ((n - 1) % 8))
  {
    hide LoadU32;
    var b, o := disk[3 + (n - 1) / 8], 60 * ((n - 1) % 8);
    assert InodeAt(disk, n) == b[o..o + 60];
    assert InodeAt(disk, n)[w..w + 4] == b[o + w..o + w + 4];
    LoadMoved(InodeAt(disk, n), w, b, o + w);
  }

  lemma RootIff(disk: Blocks)
    requires Device(disk)
    ensures 16 <= |disk| <= 4096 && (RootOk(disk) <==> RootBytes(disk))
  {
    hide LoadU32, InodeAt;
    InodeWord(disk, 1, 8);
    WordBytes(disk[3], 8, 7, 0, 0, 0);
  }

  /** Block l of the data area, marked in the bitmap of block 2. */
  predicate DataBlock(disk: Blocks, l: u32)
    requires 16 <= |disk| <= 4096
  {
    8 <= l < |disk| && Bit(disk[2][l / 8], l % 8) == 1
  }

  /** fsck's test of a used directory slot: its inode number is marked, its inode is a file of at most 4096 bytes, and
      the blocks that this size takes lie in the data area and are marked. */
  predicate SlotBytes(disk: Blocks, i: nat)
    requires 16 <= |disk| <= 4096 && i < 16
  {
    var n := LoadU32(disk[7], 32 * i);
    && 1 <= n <= 32 && disk[7][32 * i + 4] == 1 && Bit(disk[1][n / 8], n % 8) == 1
    && var inode, o := disk[3 + (n - 1) / 8], 60 * ((n - 1) % 8);
       && inode[o] == 1 && inode[o + 1] == 0 && LoadU32(inode, o + 4) <= 4096
       && forall j :: 0 <= j < 8 && (j == 0 || 512 * j < LoadU32(inode, o + 4)) ==>
            DataBlock(disk, LoadU32(inode, o + 8 + 4 * j))
  }

  lemma GoodBlockIff(disk: Blocks, l: u32)
    requires Device(disk)
    ensures 16 <= |disk| <= 4096 && (GoodBlock(disk, l) <==> DataBlock(disk, l))
  {
    hide TestBit, Bit;
    if l < |disk| {
      BitOf(disk[2], l);
    }
  }

  lemma BlocksForIs(len: nat, j: nat)
    requires len <= 4096
    ensures len <= MAX_FILE && (j < BlocksFor(len) <==> j == 0 || 512 * j < len)
  {
  }

  lemma SlotIff(disk: Blocks, i: nat)
    requires Device(disk) && i < DIRENT_COUNT
    ensures 16 <= |disk| <= 4096 && (SlotOk(disk, i) <==> SlotBytes(disk, i))
  {
    hide LoadU32, TestBit, Bit, InodeAt, GoodBlock, DataBlock, BlocksFor;
    var n := LoadU32(disk[7], 32 * i);
    if 1 <= n <= 32 {
      BitOf(disk[1], n);
      InodeWord(disk, n, 4);
      var inode := InodeAt(disk, n);
      if Size(inode) <= 4096 {
        forall j | 0 <= j < 8
          ensures GoodBlock(disk, Direct(inode, j)) <==>
                    DataBlock(disk, LoadU32(disk[3 + (n - 1) / 8], 60 * ((n - 1) % 8) + 8 + 4 * j))
          ensures j < BlocksFor(Size(inode)) <==> j == 0 || 512 * j < Size(inode)
        {
          InodeWord(disk, n, 8 + 4 * j);
          BlocksForIs(Size(inode), j);
          GoodBlockIff(disk, Direct(inode, j));
        }
      }
    }
  }

  /** The first eight bits are set. */
  lemma SystemBlocksIff(bm: Block)
    ensures (forall b :: 0 <= b < 8 ==> TestBit(bm, b)) <==> bm[0] == 255
  {
    hide TestBit;
    FullByte(bm, 0);
  }

  /** What fsck looks at, all of it. */
  predicate FsckBytes(disk: Blocks)
    requires 16 <= |disk| <= 4096
  {
    && SuperBytes(disk[0], |disk|) && RootBytes(disk) && Bit(disk[1][0], 1) == 1 && disk[2][0] == 255
    && forall i :: 0 <= i < 16 && LoadU32(disk[7], 32 * i) != 0 ==> SlotBytes(disk, i)
  }

  /** fsck accepts exactly these bytes. */
  lemma FsckReads(disk: Blocks)
    requires Device(disk)
    ensures 16 <= |disk| <= 4096 && (FsckOk(disk) <==> FsckBytes(disk))
  {
    hide LoadU32, TestBit, Bit, SuperOk, SuperBytes, RootOk, RootBytes, SlotOk, SlotBytes;
    SuperIff(disk[0], |disk|);
    RootIff(disk);
    BitOf(disk[1], 1);
    SystemBlocksIff(disk[2]);
    forall i | 0 <= i < 16 ensures SlotOk(disk, i) <==> SlotBytes(disk, i) {
      SlotIff(disk, i);
    }
    assert forall i :: 0 <= i < 16 ==> SlotIno(disk[7], i) == LoadU32(disk[7], 32 * i);
  }

  /** mount accepts exactly these bytes. */
  lemma MountReads(disk: Blocks)
    requires Device(disk)
    ensures 16 <= |disk| <= 4096
    ensures SuperOk(disk[0], |disk|) && RootOk(disk) <==> SuperBytes(disk[0], |disk|) && RootBytes(disk)
  {
    hide SuperOk, SuperBytes, RootOk, RootBytes;
    SuperIff(disk[0], |disk|);
    RootIff(disk);
  }

  /** Any change to the compared bytes of the superblock is refused: bytes 0 to 31 and 36 to 47. */
  lemma DamagedSuperRefused(disk: Blocks, damaged: Block, k: nat)
    requires Device(disk) && FsckOk(disk) && (k < 32 || 36 <= k < 48)
    requires forall i :: 0 <= i < 512 && i != k ==> damaged[i] == disk[0][i]
    requires k < |damaged| && damaged[k] != disk[0][k]
    ensures !FsckOk(disk[0 := damaged]) && !SuperOk(damaged, |disk|)
  {
    hide SuperOk, FsckOk, FsckBytes;
    SuperIff(disk[0], |disk|);
    SuperIff(damaged, |disk|);
    SuperFirst(disk);
    SuperFirst(disk[0 := damaged]);
    if SuperBytes(disk[0], |disk|) && SuperBytes(damaged, |disk|) {
      SuperBytesFix(disk[0], damaged, |disk|, k);
      assert false;
    }
  }

  lemma SuperFirst(disk: Blocks)
    requires Device(disk)
    ensures FsckOk(disk) ==> SuperOk(disk[0], |disk|)
  {
    hide SuperOk, RootOk, SlotOk, TestBit;
  }

  /** The compared bytes are determined by the number of blocks. */
  lemma SuperBytesFix(a: Block, b: Block, n: nat, k: nat)
    requires SuperBytes(a, n) && SuperBytes(b, n) && (k < 32 || 36 <= k < 48)
    ensures a[k] == b[k]
  {
    if k < 12 {
      assert a[..12][k] == b[..12][k];
    } else if 16 <= k < 24 {
      assert a[16..24][k - 16] == b[16..24][k - 16];
    } else if 24 <= k < 32 {
      assert a[24..32][k - 24] == b[24..32][k - 24];
    } else if 36 <= k {
      assert a[36..48][k - 36] == b[36..48][k - 36];
    }
  }

  // ----- What format and a creation write -----

  /** The formatted superblock of a device of n blocks, byte by byte. */
  lemma FormattedSuper(n: nat)
    requires n <= 4096
    ensures var b := SuperBlock(n);
            && b[..12] == [0x43, 0x53, 0x46, 0x31, 1, 0, 0, 0, 0, 2, 0, 0]
            && b[12..16] == [n % 0x100, n / 0x100, 0, 0]
            && b[16..24] == [32, 0, 0, 0, 1, 0, 0, 0] && b[24..32] == [2, 0, 0, 0, 3, 0, 0, 0]
            && b[32..40] == [4, 0, 0, 0, 1, 0, 0, 0] && b[40..52] == [7, 0, 0, 0, 8, 0, 0, 0, 1, 0, 0, 0]
            && forall k :: 52 <= k < 512 ==> b[k] == 0
  {
    hide SuperBlock, LoadU32;
    var b := SuperBlock(n);
    SuperStored(n);
    SuperFront(b, n);
    SuperMiddle(b);
    WordBytes(b, 12, n % 0x100, n / 0x100, 0, 0);
    SuperTail(b);
  }

  lemma SuperTail(b: Block)
    requires LoadU32(b, 32) == 4 && LoadU32(b, 36) == 1
    requires LoadU32(b, 40) == 7 && LoadU32(b, 44) == 8 && LoadU32(b, 48) == 1
    ensures b[32..40] == [4, 0, 0, 0, 1, 0, 0, 0] && b[40..52] == [7, 0, 0, 0, 8, 0, 0, 0, 1, 0, 0, 0]
  {
    hide LoadU32;
    WordBytes(b, 32, 4, 0, 0, 0);
    WordBytes(b, 36, 1, 0, 0, 0);
    WordBytes(b, 40, 7, 0, 0, 0);
    WordBytes(b, 44, 8, 0, 0, 0);
    WordBytes(b, 48, 1, 0, 0, 0);
  }

  lemma SuperStored(n: u32)
    ensures var b := SuperBlock(n);
            && LoadU32(b, 0) == 0x31465343 && LoadU32(b, 4) == 1 && LoadU32(b, 8) == 512 && LoadU32(b, 12) == n
            && LoadU32(b, 16) == 32 && LoadU32(b, 20) == 1 && LoadU32(b, 24) == 2 && LoadU32(b, 28) == 3
            && LoadU32(b, 32) == 4 && LoadU32(b, 36) == 1 && LoadU32(b, 40) == 7 && LoadU32(b, 44) == 8
            && LoadU32(b, 48) == 1 && forall k :: 52 <= k < 512 ==> b[k] == 0
  {
    hide LoadU32;
  }

  /** A new inode: mode, one link, size, first block, and zeros. */
  lemma InodeLayout(mode: byte, size: nat, first: nat, k: nat)
    requires size <= 4096 && first < 4096 && k < 60
    ensures NewInode(mode, size, first)[k] ==
              if k == 0 then mode else if k == 2 then 1
              else if k == 4 then size % 0x100 else if k == 5 then size / 0x100
              else if k == 8 then first % 0x100 else if k == 9 then first / 0x100 else 0
  {
    hide LoadU32;
    var a := StoreU16(StoreU16(Zeros(60), 0, mode), 2, 1);
    var b := StoreU32(a, 4, size);
    var c := StoreU32(b, 8, first);
    WordBytes(b, 4, size % 0x100, size / 0x100, 0, 0);
    WordBytes(c, 8, first % 0x100, first / 0x100, 0, 0);
  }

  /** A new directory entry: inode number, type, name, and zeros. */
  lemma SlotLayout(dir: Block, i: nat, ino: byte, name: CString, k: nat)
    requires i < 16 && |name| <= 27 && k < 512
    ensures var b, o := SetSlot(dir, i, ino, name), 32 * i;
            b[k] == if k < o || k >= o + 32 then dir[k] else if k == o then ino else if k < o + 4 then 0
                    else if k == o + 4 then 1 else if k - o - 5 < |name| then name[k - o - 5] else 0
  {
    hide LoadU32, Splice;
    var e := EncodeU32(ino);
    assert e[0..4] == e;
    WordBytes(e, 0, ino, 0, 0, 0);
    assert LoadU32(e, 0) == ino by { Whole(e); }
  }

  lemma Whole(e: seq<byte>)
    requires |e| == 4
    ensures LoadU32(e, 0) == Decode(e)
  {
    assert e[0..4] == e;
  }

  /** What an unlink leaves: the slot and the inode zeroed, the bits of the inode and of its blocks clear, and
      everything else as it was, the data blocks included. */
  lemma UnlinkLeaves(d: Dev, past: byte, name: CString, b: nat, k: nat, n: nat)
    requires Device(d.disk) && d.power < 0 && Resolve(d.disk, past, name).Found? && b < 4096 && k < 512 && 1 <= n <= 32
    ensures var t, r := Resolve(d.disk, past, name), Unlink(d, past, name);
            var e := r.dev.disk;
            && r.rc == Ok && |e| == |d.disk| && b / 8 < |d.disk[1]|
            && e[7][k] == (if 32 * t.slot <= k < 32 * t.slot + 32 then 0 else d.disk[7][k])
            && InodeAt(e, n) == (if n == t.ino then Zeros(60) else InodeAt(d.disk, n))
            && (TestBit(e[1], b) <==> TestBit(d.disk[1], b) && b != t.ino)
            && (TestBit(e[2], b) <==> TestBit(d.disk[2], b) && !(0 < b < |d.disk| && Owns(t.inode, b)))
            && e[0] == d.disk[0] && forall l :: 8 <= l < |e| ==> e[l] == d.disk[l]
  {
    hide Resolve, ClearBit, ClearDirect, TestBit, InodeAt, Splice, InodeLba, InodeOff, Zeros, Direct, Owns, LoadU32;
    var t := Resolve(d.disk, past, name);
    InodeLbaRange(t.ino);
    ClearDirectBits(d.disk[2], t.inode, |d.disk|, 0, b);
    OwnsIff(t.inode, |d.disk|, b);
    var ib, bb := ClearBit(d.disk[1], t.ino), ClearDirect(d.disk[2], t.inode, |d.disk|, 0);
    var c := d.disk[7 := ClearSlot(d.disk[7], t.slot)][1 := ib][2 := bb];
    assert Unlink(d, past, name).dev.disk == PatchInode(c, t.ino, Zeros(60));
    InodeAtPatch(c, t.ino, Zeros(60), n);
    InodeLbaRange(n);
    SameInode(d.disk, c, n);
    ClearedBytes(d.disk[7], t.slot, k);
  }

  /** Some pointer of the inode names block b. */
  ghost predicate Owns(inode: InodeBuf, b: nat) {
    exists j :: 0 <= j < 8 && LoadU32(inode, 8 + 4 * j) == b
  }

  lemma OwnsIff(inode: InodeBuf, n: nat, b: nat)
    ensures 0 < b < n && Owns(inode, b) <==>
              exists k :: 0 <= k < DIRECT_BLOCKS && 0 != Direct(inode, k) < n && Direct(inode, k) == b
  {
    hide LoadU32;
    if 0 < b < n && Owns(inode, b) {
      var j :| 0 <= j < 8 && LoadU32(inode, 8 + 4 * j) == b;
      assert Direct(inode, j) == b;
    }
    if k :| 0 <= k < DIRECT_BLOCKS && 0 != Direct(inode, k) < n && Direct(inode, k) == b {
      assert LoadU32(inode, 8 + 4 * k) == b;
    }
  }

  lemma SameInode(d: Blocks, e: Blocks, n: nat)
    requires Device(d) && Device(e) && 1 <= n <= 32 && forall l :: 3 <= l < 7 ==> e[l] == d[l]
    ensures InodeAt(e, n) == InodeAt(d, n)
  {
    InodeLbaRange(n);
  }

  lemma ClearedBytes(dir: Block, slot: nat, k: nat)
    requires slot < 16 && k < 512
    ensures ClearSlot(dir, slot)[k] == if 32 * slot <= k < 32 * slot + 32 then 0 else dir[k]
  {
    hide Splice;
  }

  /** Byte k of block l after a format of n blocks. */
  function FormattedByte(n: nat, l: nat, k: nat): byte
    requires 16 <= n <= 4096 && l < n && k < 512
  {
    if l == 0 then SuperBlock(n)[k]
    else if l == 1 then if k == 0 then 3 else 0
    else if l == 2 then if k == 0 then 255 else 0
    else if l == 3 then if k == 0 || k == 5 then 2 else if k == 2 then 1 else if k == 8 then 7 else 0
    else 0
  }

  lemma FormattedBlocks(n: nat, l: nat)
    requires 16 <= n <= 4096 && l < n
    ensures MIN_BLOCKS == 16 && MAX_DEVICE == 4096
    ensures Formatted(n)[l] ==
              if l == 0 then SuperBlock(n) else if l == 1 then FirstBits(2) else if l == 2 then FirstBits(8)
              else if l == 3 then Splice(ZERO_BLOCK, 0, RootInode()) else ZERO_BLOCK
  {
    hide SuperBlock, FirstBits, RootInode, Splice;
  }

  lemma BitmapBytes(k: nat)
    requires k < 512
    ensures FirstBits(2)[k] == (if k == 0 then 3 else 0) && FirstBits(8)[k] == if k == 0 then 255 else 0
  {
    hide FirstBits, TestBit;
    forall b | 8 * k <= b < 8 * k + 8 ensures TestBit(FirstBits(2), b) <==> b < 2 {
      FirstBitsExact(2, b);
    }
    forall b | 8 * k <= b < 8 * k + 8 ensures TestBit(FirstBits(8), b) <==> b < 8 {
      FirstBitsExact(8, b);
    }
    ByteFromBits(FirstBits(2), k);
    ByteFromBits(FirstBits(8), k);
    FullByte(FirstBits(8), k);
  }

  lemma RootBlockBytes(k: nat)
    requires k < 512
    ensures Splice(ZERO_BLOCK, 0, RootInode())[k] ==
              if k == 0 || k == 5 then 2 else if k == 2 then 1 else if k == 8 then 7 else 0
  {
    hide NewInode;
    if k < 60 {
      InodeLayout(2, 512, 7, k);
    }
  }

  /** Every byte of every block of a formatted device. */
  lemma FormattedBytes(d: Dev, l: nat, k: nat)
    requires 16 <= |d.disk| <= 4096 && d.power < 0 && l < |d.disk| && k < 512
    ensures var r := FormatDevice(d);
            r.rc == Ok && |r.dev.disk| == |d.disk| && r.dev.disk[l][k] == FormattedByte(|d.disk|, l, k)
  {
    hide FormatDevice, Formatted, FirstBits, RootInode, SuperBlock, Splice;
    FormatResult(d);
    FormattedBlocks(|d.disk|, l);
    BitmapBytes(k);
    RootBlockBytes(k);
  }
}
