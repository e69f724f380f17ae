/** The file system on the journal (MCSFS1J): a root directory of twelve slots, sixteen inodes with one
    data block each, two bitmaps.  Every operation first mounts, and so first recovers the journal. */
module JournalFs {
  import opened Bytes
  import opened Disk
  import opened Journal

  const MAGIC: u64 := 0x4d43534631564a31
  const INODE_BITMAP_LBA: u32 := 18
  const BLOCK_BITMAP_LBA: u32 := 19
  const INODE_TABLE_LBA: u32 := 20
  const INODE_TABLE_BLOCKS: nat := 4
  const ROOT_DIR_LBA: u32 := 24
  const DATA_START_LBA: u32 := 25
  const MAX_INODES: nat := 16
  const INODE_SIZE: nat := 128
  const TABLE_SIZE: nat := 2048
  const MAX_NAME: nat := 32
  const DIRENT_SIZE: nat := 40
  const DIR_SLOTS: nat := 12
  const KIND_FILE: u32 := 1
  const KIND_DIR: u32 := 2

  type Table = t: seq<byte> | |t| == TABLE_SIZE witness Zeros(TABLE_SIZE)

  // ----- Fields of the in-memory structures -----

  function InodeUsed(t: Table, ino: nat): u32
    requires ino < MAX_INODES
  {
    LoadU32(t, INODE_SIZE * ino)
  }

  function InodeKind(t: Table, ino: nat): u32
    requires ino < MAX_INODES
  {
    LoadU32(t, INODE_SIZE * ino + 4)
  }

  function InodeSize(t: Table, ino: nat): u32
    requires ino < MAX_INODES
  {
    LoadU32(t, INODE_SIZE * ino + 8)
  }

  function InodeBlock(t: Table, ino: nat): u32
    requires ino < MAX_INODES
  {
    LoadU32(t, INODE_SIZE * ino + 12)
  }

  function SetInode(t: Table, ino: nat, kind: u32, size: u32, block: u32): (r: Table)
    requires ino < MAX_INODES
  {
    var o := INODE_SIZE * ino;
    StoreU32(StoreU32(StoreU32(StoreU32(t, o, 1), o + 4, kind), o + 8, size), o + 12, block)
  }

  function SlotUsed(dir: Block, i: nat): u32
    requires i < DIR_SLOTS
  {
    LoadU32(dir, DIRENT_SIZE * i)
  }

  function SlotIno(dir: Block, i: nat): u32
    requires i < DIR_SLOTS
  {
    LoadU32(dir, DIRENT_SIZE * i + 4)
  }

  function SlotName(dir: Block, i: nat): (r: seq<byte>)
    requires i < DIR_SLOTS
    ensures |r| == MAX_NAME
  {
    dir[DIRENT_SIZE * i + 8..DIRENT_SIZE * i + DIRENT_SIZE]
  }

  function SetSlot(dir: Block, i: nat, ino: u32, name: CString): (r: Block)
    requires i < DIR_SLOTS && |name| < MAX_NAME
  {
    var o := DIRENT_SIZE * i;
    Splice(StoreU32(StoreU32(dir, o, 1), o + 4, ino), o + 8, name + Zeros(MAX_NAME - |name|))
  }

  /** The stored name field equals the C string, comparing at most 32 characters. */
  predicate NameMatches(field: seq<byte>, name: CString)
    requires |field| == MAX_NAME
  {
    if |name| < MAX_NAME then field[..|name|] == name && field[|name|] == 0 else field == name[..MAX_NAME]
  }

  predicate SlotMatches(dir: Block, i: nat, name: CString)
    requires i < DIR_SLOTS
  {
    SlotUsed(dir, i) != 0 && NameMatches(SlotName(dir, i), name)
  }

  /** The first slot from i that holds name; DIR_SLOTS if there is none. */
  function FindSlot(dir: Block, name: CString, i: nat): (r: nat)
    requires i <= DIR_SLOTS
    ensures i <= r <= DIR_SLOTS
    ensures r < DIR_SLOTS ==> SlotMatches(dir, r, name)
    ensures forall j :: i <= j < r ==> !SlotMatches(dir, j, name)
    decreases DIR_SLOTS - i
  {
    if i == DIR_SLOTS || SlotMatches(dir, i, name) then i else FindSlot(dir, name, i + 1)
  }

  function FindFreeSlot(dir: Block, i: nat): (r: nat)
    requires i <= DIR_SLOTS
    ensures i <= r <= DIR_SLOTS
    ensures r < DIR_SLOTS ==> SlotUsed(dir, r) == 0
    ensures forall j :: i <= j < r ==> SlotUsed(dir, j) != 0
    decreases DIR_SLOTS - i
  {
    if i == DIR_SLOTS || SlotUsed(dir, i) == 0 then i else FindFreeSlot(dir, i + 1)
  }

  // ----- The disk as file-system structures -----

  function InodeTable(disk: Blocks): (t: Table)
    requires |disk| == MAX_BLOCKS
  {
    var first: seq<byte> := disk[INODE_TABLE_LBA];
    first + disk[INODE_TABLE_LBA + 1] + disk[INODE_TABLE_LBA + 2] + disk[INODE_TABLE_LBA + 3]
  }

  function TableBlock(t: Table, i: nat): Block
    requires i < INODE_TABLE_BLOCKS
  {
    t[BLOCK_SIZE * i..BLOCK_SIZE * (i + 1)]
  }

  predicate SuperOk(sb: Block) {
    && LoadU64(sb, 0) == MAGIC && LoadU32(sb, 8) == VERSION && LoadU32(sb, 12) == BLOCK_SIZE
    && LoadU32(sb, 48) == DATA_START_LBA && LoadU32(sb, 44) == ROOT_DIR_LBA
  }

  /** sb.clean_generation + k, on a 32-bit word. */
  function Seqno(sb: Block, k: nat): u32 {
    (LoadU32(sb, 52) as int + k) % 0x1_0000_0000
  }

  /** fsck's test of one used directory slot. */
  predicate SlotOk(disk: Blocks, i: nat)
    requires |disk| == MAX_BLOCKS && i < DIR_SLOTS
  {
    var ino := SlotIno(disk[ROOT_DIR_LBA], i);
    var t := InodeTable(disk);
    && ino < MAX_INODES && TestBit(disk[INODE_BITMAP_LBA], ino)
    && InodeUsed(t, ino) != 0 && InodeKind(t, ino) == KIND_FILE && InodeSize(t, ino) <= BLOCK_SIZE
    && DATA_START_LBA <= InodeBlock(t, ino) < MAX_BLOCKS && TestBit(disk[BLOCK_BITMAP_LBA], InodeBlock(t, ino))
  }

  predicate RootOk(disk: Blocks)
    requires |disk| == MAX_BLOCKS
  {
    var t := InodeTable(disk);
    TestBit(disk[INODE_BITMAP_LBA], 0) && InodeUsed(t, 0) == 1 && InodeKind(t, 0) == KIND_DIR
    && InodeBlock(t, 0) == ROOT_DIR_LBA
  }

  /** What fsck checks once the file system is mounted. */
  predicate Consistent(disk: Blocks) {
    && |disk| == MAX_BLOCKS
    && SuperOk(disk[0])
    && RootOk(disk)
    && (forall b :: 0 <= b < DATA_START_LBA ==> TestBit(disk[BLOCK_BITMAP_LBA], b))
    && (forall i :: 0 <= i < DIR_SLOTS && SlotUsed(disk[ROOT_DIR_LBA], i) != 0 ==> SlotOk(disk, i))
  }

  // ----- Operations as functions of the device -----

  function Mount(d: Dev): (r: Outcome)
    requires |d.disk| == MAX_BLOCKS
    ensures |r.dev.disk| == MAX_BLOCKS
  {
    var r := Recover(d);
    if r.rc != Ok then r else Outcome(r.dev, if SuperOk(r.dev.disk[0]) then Ok else Corrupt)
  }

  function Fsck(d: Dev): Outcome
    requires |d.disk| == MAX_BLOCKS
  {
    var m := Mount(d);
    if m.rc != Ok then m else Outcome(m.dev, if Consistent(m.dev.disk) then Ok else Corrupt)
  }

  /** What a read of name finds on a mounted disk: an error code, or the contents. */
  function ReadResult(disk: Blocks, name: CString, cap: u32): (r: (Rc, seq<byte>))
    requires |disk| == MAX_BLOCKS
    ensures r.0 == Ok ==> |r.1| <= cap && |r.1| <= BLOCK_SIZE
  {
    var dir, t := disk[ROOT_DIR_LBA], InodeTable(disk);
    var slot := FindSlot(dir, name, 0);
    if slot == DIR_SLOTS then (NoEnt, [])
    else
      var ino := SlotIno(dir, slot);
      if ino >= MAX_INODES || InodeUsed(t, ino) == 0 || InodeKind(t, ino) != KIND_FILE then (Corrupt, [])
      else if InodeSize(t, ino) > cap || InodeBlock(t, ino) >= MAX_BLOCKS then (Inval, [])
      else if InodeSize(t, ino) > BLOCK_SIZE then (Corrupt, [])
      else (Ok, disk[InodeBlock(t, ino)][..InodeSize(t, ino)])
  }

  /** Mount, then read name. */
  function Read(d: Dev, name: CString, cap: u32): (r: (Outcome, seq<byte>))
    requires |d.disk| == MAX_BLOCKS
  {
    var m := Mount(d);
    if m.rc != Ok then (m, [])
    else
      var found := ReadResult(m.dev.disk, name, cap);
      (Outcome(m.dev, found.0), found.1)
  }

  datatype Plan = Refuse(rc: Rc) | Place(ino: nat, block: nat, slot: nat)

  /** Where a new file goes, or why it cannot be created. */
  function PlanFile(disk: Blocks, name: CString): (p: Plan)
    requires |disk| == MAX_BLOCKS
    ensures p.Place? ==> 1 <= p.ino < MAX_INODES && DATA_START_LBA <= p.block < MAX_BLOCKS && p.slot < DIR_SLOTS
    ensures p.Refuse? ==> p.rc == Exists || p.rc == NoSpc
  {
    var dir := disk[ROOT_DIR_LBA];
    if FindSlot(dir, name, 0) < DIR_SLOTS then Refuse(Exists)
    else
      var ino := FindClearBit(disk[INODE_BITMAP_LBA], 1, MAX_INODES);
      var block := FindClearBit(disk[BLOCK_BITMAP_LBA], DATA_START_LBA, MAX_BLOCKS);
      var slot := FindFreeSlot(dir, 0);
      if ino == MAX_INODES || block == MAX_BLOCKS || slot == DIR_SLOTS then Refuse(NoSpc) else Place(ino, block, slot)
  }

  /** First transaction: bitmaps and inode table. */
  function MetadataRecords(disk: Blocks, p: Plan, size: u32): (recs: seq<Rec>)
    requires |disk| == MAX_BLOCKS && p.Place? && p.ino < MAX_INODES && p.block < MAX_BLOCKS
    ensures |recs| == 6
  {
    var t := SetInode(InodeTable(disk), p.ino, KIND_FILE, size, p.block);
    [ Rec(INODE_BITMAP_LBA, SetBit(disk[INODE_BITMAP_LBA], p.ino)),
      Rec(BLOCK_BITMAP_LBA, SetBit(disk[BLOCK_BITMAP_LBA], p.block)),
      Rec(INODE_TABLE_LBA, TableBlock(t, 0)),
      Rec(INODE_TABLE_LBA + 1, TableBlock(t, 1)),
      Rec(INODE_TABLE_LBA + 2, TableBlock(t, 2)),
      Rec(INODE_TABLE_LBA + 3, TableBlock(t, 3)) ]
  }

  /** Second transaction: directory and data. */
  function ContentRecords(disk: Blocks, p: Plan, name: CString, data: seq<byte>): (recs: seq<Rec>)
    requires |disk| == MAX_BLOCKS && p.Place? && p.ino < MAX_INODES && p.block < MAX_BLOCKS && p.slot < DIR_SLOTS
    requires |name| < MAX_NAME && |data| <= BLOCK_SIZE
    ensures |recs| == 2
  {
    [ Rec(ROOT_DIR_LBA, SetSlot(disk[ROOT_DIR_LBA], p.slot, p.ino, name)), Rec(p.block, PadBlock(data)) ]
  }

  /** The two transactions of a creation on a mounted disk. */
  function CommitFile(d: Dev, p: Plan, name: CString, data: seq<byte>, stop: bool): (r: Outcome)
    requires |d.disk| == MAX_BLOCKS && p.Place?
    requires p.ino < MAX_INODES && p.block < MAX_BLOCKS && p.slot < DIR_SLOTS
    requires |name| < MAX_NAME && |data| <= BLOCK_SIZE
    ensures |r.dev.disk| == MAX_BLOCKS
  {
    var c := Commit(d, MetadataRecords(d.disk, p, |data|), Seqno(d.disk[0], 1), false);
    if c.rc != Ok then c
    else Commit(c.dev, ContentRecords(d.disk, p, name, data), Seqno(d.disk[0], 2), stop)
  }

  /** Create a file with its contents. */
  function WriteFile(d: Dev, name: CString, data: seq<byte>, stop: bool): (r: Outcome)
    requires |d.disk| == MAX_BLOCKS
    ensures |r.dev.disk| == MAX_BLOCKS
  {
    if name == [] || |name| >= MAX_NAME then Outcome(d, TooLong)
    else if |data| > BLOCK_SIZE then Outcome(d, Inval)
    else
      var m := Mount(d);
      if m.rc != Ok then m else
      var p := PlanFile(m.dev.disk, name);
      if p.Refuse? then Outcome(m.dev, p.rc) else CommitFile(m.dev, p, name, data, stop)
  }

  // ----- The C functions -----

  /** m16_streq against a 32-byte name field. */
  method StrEq(field: seq<byte>, name: CString) returns (r: bool)
    requires |field| == MAX_NAME
    ensures r == NameMatches(field, name)
  {
    for i := 0 to MAX_NAME
      invariant i <= |name| && field[..i] == name[..i]
    {
      var c: byte := if i < |name| then name[i] else 0;
      assert i < |name| ==> c in name;
      if field[i] != c {
        return false;
      }
      if field[i] == 0 {
        return true;
      }
    }
    r := true;
  }

  /** m16_find_dirent. */
  method FindDirent(dir: Block, name: CString) returns (slot: nat)
    ensures slot == FindSlot(dir, name, 0)
  {
    for i := 0 to DIR_SLOTS
      invariant FindSlot(dir, name, 0) == FindSlot(dir, name, i)
    {
      if SlotUsed(dir, i) != 0 {
        var same := StrEq(SlotName(dir, i), name);
        if same {
          return i;
        }
      }
    }
    slot := DIR_SLOTS;
  }

  /** m16_find_free_dirent. */
  method FindFreeDirent(dir: Block) returns (slot: nat)
    ensures slot == FindFreeSlot(dir, 0)
  {
    for i := 0 to DIR_SLOTS
      invariant FindFreeSlot(dir, 0) == FindFreeSlot(dir, i)
    {
      if SlotUsed(dir, i) == 0 {
        return i;
      }
    }
    slot := DIR_SLOTS;
  }

  /** m16_load_inode_table. */
  method LoadInodeTable(dev: BlockDev) returns (t: Table)
    requires dev.blocks.Length == MAX_BLOCKS
    ensures t == InodeTable(dev.State().disk)
  {
    var raw: seq<byte> := [];
    for i := 0 to INODE_TABLE_BLOCKS
      invariant |raw| == BLOCK_SIZE * i
      invariant raw <= InodeTable(dev.State().disk)
    {
      var rc, block := dev.ReadBlock(INODE_TABLE_LBA + i);
      raw := raw + block;
    }
    t := raw;
  }

  /** m16_mount. */
  method MountDevice(dev: BlockDev) returns (rc: Rc, sb: Block)
    requires dev.blocks.Length == MAX_BLOCKS
    modifies dev, dev.blocks
    ensures Outcome(dev.State(), rc) == old(Mount(dev.State()))
    ensures rc == Ok ==> sb == dev.State().disk[0] && SuperOk(sb)
  {
    rc := JournalRecover(dev);
    if rc != Ok {
      return rc, ZERO_BLOCK;
    }
    rc, sb := dev.ReadBlock(0);
    if LoadU64(sb, 0) != MAGIC || LoadU32(sb, 8) != VERSION || LoadU32(sb, 12) != BLOCK_SIZE {
      return Corrupt, sb;
    }
    if LoadU32(sb, 48) != DATA_START_LBA || LoadU32(sb, 44) != ROOT_DIR_LBA {
      return Corrupt, sb;
    }
  }

  /** m16_write_file_ex. */
  method WriteFileEx(dev: BlockDev, name: CString, data: seq<byte>, stopAfterCommitRecord: bool) returns (rc: Rc)
    requires dev.blocks.Length == MAX_BLOCKS
    modifies dev, dev.blocks
    ensures Outcome(dev.State(), rc) == old(WriteFile(dev.State(), name, data, stopAfterCommitRecord))
  {
    hide Mount, FindSlot, FindClearBit, FindFreeSlot, Commit, LoadU32, Seqno, SetInode, SetSlot, TestBit;
    if name == [] || |name| >= MAX_NAME {
      return TooLong;
    }
    if |data| > BLOCK_SIZE {
      return Inval;
    }
    var sb, ib, bb, dir;
    rc, sb := MountDevice(dev);
    if rc != Ok {
      return rc;
    }
    ghost var disk := dev.State().disk;
    rc, ib := dev.ReadBlock(INODE_BITMAP_LBA);
    rc, bb := dev.ReadBlock(BLOCK_BITMAP_LBA);
    var t := LoadInodeTable(dev);
    rc, dir := dev.ReadBlock(ROOT_DIR_LBA);
    var existing := FindDirent(dir, name);
    if existing < DIR_SLOTS {
      return Exists;
    }
    var ino := FindFreeBit(ib, 1, MAX_INODES);
    if ino == MAX_INODES {
      return NoSpc;
    }
    var block := FindFreeBit(bb, DATA_START_LBA, MAX_BLOCKS);
    if block == MAX_BLOCKS {
      return NoSpc;
    }
    var slot := FindFreeDirent(dir);
    if slot == DIR_SLOTS {
      return NoSpc;
    }
    ghost var p := PlanFile(disk, name);
    assert p == Place(ino, block, slot);
    ib := SetBit(ib, ino);
    bb := SetBit(bb, block);
    t := SetInode(t, ino, KIND_FILE, |data|, block);
    dir := SetSlot(dir, slot, ino, name);
    var recs := [Rec(INODE_BITMAP_LBA, ib), Rec(BLOCK_BITMAP_LBA, bb)];
    for i := 0 to INODE_TABLE_BLOCKS
      invariant recs == MetadataRecords(disk, p, |data|)[..2 + i]
    {
      recs := recs + [Rec(INODE_TABLE_LBA + i, TableBlock(t, i))];
    }
    assert recs == MetadataRecords(disk, p, |data|);
    rc := JournalCommit(dev, recs, Seqno(sb, 1), false);
    if rc != Ok {
      return rc;
    }
    rc := JournalCommit(dev, [Rec(ROOT_DIR_LBA, dir), Rec(block, PadBlock(data))], Seqno(sb, 2), stopAfterCommitRecord);
  }

  /** m16_read_file.  An inode larger than a block would make the C code read past its buffer; the
      model reports such an inode as corrupt. */
  method ReadFile(dev: BlockDev, name: CString, cap: u32) returns (rc: Rc, data: seq<byte>)
    requires dev.blocks.Length == MAX_BLOCKS
    modifies dev, dev.blocks
    ensures (Outcome(dev.State(), rc), data) == old(Read(dev.State(), name, cap))
  {
    hide Mount, FindSlot, LoadU32;
    var sb, dir, block;
    data := [];
    rc, sb := MountDevice(dev);
    if rc != Ok {
      return rc, data;
    }
    var t := LoadInodeTable(dev);
    rc, dir := dev.ReadBlock(ROOT_DIR_LBA);
    var slot := FindDirent(dir, name);
    if slot == DIR_SLOTS {
      return NoEnt, data;
    }
    var ino := SlotIno(dir, slot);
    if ino >= MAX_INODES || InodeUsed(t, ino) == 0 || InodeKind(t, ino) != KIND_FILE {
      return Corrupt, data;
    }
    if InodeSize(t, ino) > cap || InodeBlock(t, ino) >= dev.blocks.Length {
      return Inval, data;
    }
    rc, block := dev.ReadBlock(InodeBlock(t, ino));
    if InodeSize(t, ino) > BLOCK_SIZE {
      return Corrupt, data;
    }
    data := block[..InodeSize(t, ino)];
  }

  /** m16_fsck. */
  method FsckDevice(dev: BlockDev) returns (rc: Rc)
    requires dev.blocks.Length == MAX_BLOCKS
    modifies dev, dev.blocks
    ensures Outcome(dev.State(), rc) == old(Fsck(dev.State()))
  {
    hide Mount, LoadU32, TestBit;
    var sb, ib, bb, dir;
    rc, sb := MountDevice(dev);
    if rc != Ok {
      return rc;
    }
    ghost var disk := dev.State().disk;
    assert SuperOk(disk[0]);
    rc, ib := dev.ReadBlock(INODE_BITMAP_LBA);
    rc, bb := dev.ReadBlock(BLOCK_BITMAP_LBA);
    var t := LoadInodeTable(dev);
    rc, dir := dev.ReadBlock(ROOT_DIR_LBA);
    if !TestBit(ib, 0) || InodeUsed(t, 0) != 1 || InodeKind(t, 0) != KIND_DIR || InodeBlock(t, 0) != ROOT_DIR_LBA {
      return Corrupt;
    }
    for b := 0 to DATA_START_LBA
      invariant forall c :: 0 <= c < b ==> TestBit(bb, c)
    {
      if !TestBit(bb, b) {
        return Corrupt;
      }
    }
    for i := 0 to DIR_SLOTS
      invariant forall j :: 0 <= j < i && SlotUsed(dir, j) != 0 ==> SlotOk(disk, j)
    {
      if SlotUsed(dir, i) != 0 {
        var ino := SlotIno(dir, i);
        if ino >= MAX_INODES || !TestBit(ib, ino) {
          return Corrupt;
        }
        if InodeUsed(t, ino) == 0 || InodeKind(t, ino) != KIND_FILE || InodeSize(t, ino) > BLOCK_SIZE {
          return Corrupt;
        }
        var block := InodeBlock(t, ino);
        if block < DATA_START_LBA || block >= dev.blocks.Length || !TestBit(bb, block) {
          return Corrupt;
        }
      }
    }
    rc := Ok;
  }
}
