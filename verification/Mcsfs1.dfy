/** MCSFS1: a bitmap/inode/directory file system without a journal, which relies on the order of its
    block writes.  The operations are functions from device to device; the methods are the C code. */
module Mcsfs1 {
  import opened Bytes
  import opened Disk

  const MAGIC: u32 := 0x31465343
  const VERSION: u32 := 1
  const MAX_INODES: nat := 32
  const DIRECT_BLOCKS: nat := 8
  const MAX_NAME: nat := 27
  const ROOT_INO: nat := 1
  const MODE_FILE: u16 := 1
  const MODE_DIR: u16 := 2
  const INODE_BMAP_LBA: u32 := 1
  const BLOCK_BMAP_LBA: u32 := 2
  const INODE_TABLE_LBA: u32 := 3
  const INODE_TABLE_BLOCKS: nat := 4
  const ROOT_DIR_LBA: u32 := 7
  const DATA_START_LBA: u32 := 8
  const MIN_BLOCKS: nat := 16
  const MAX_DEVICE: nat := 4096
  const DIRENT_COUNT: nat := 16
  const DIRENT_SIZE: nat := 32
  const INODE_SIZE: nat := 60
  const INODES_PER_BLOCK: nat := 8
  const MAX_FILE: nat := 4096
  const SLASH: byte := 47

  type InodeBuf = b: seq<byte> | |b| == INODE_SIZE witness Zeros(INODE_SIZE)

  /** The device sizes that format accepts. */
  predicate Device(disk: Blocks) {
    MIN_BLOCKS <= |disk| <= MAX_DEVICE
  }

  // ----- Inodes -----

  function Mode(b: InodeBuf): u16 {
    LoadU16(b, 0)
  }

  function Size(b: InodeBuf): u32 {
    LoadU32(b, 4)
  }

  function Direct(b: InodeBuf, j: nat): u32
    requires j < DIRECT_BLOCKS
  {
    LoadU32(b, 8 + 4 * j)
  }

  function SetSize(b: InodeBuf, size: u32): InodeBuf {
    StoreU32(b, 4, size)
  }

  function SetDirect(b: InodeBuf, j: nat, lba: u32): InodeBuf
    requires j < DIRECT_BLOCKS
  {
    StoreU32(b, 8 + 4 * j, lba)
  }

  function NewInode(mode: u16, size: u32, first: u32): InodeBuf {
    StoreU32(StoreU32(StoreU16(StoreU16(Zeros(INODE_SIZE), 0, mode), 2, 1), 4, size), 8, first)
  }

  function InodeLba(ino: nat): u32
    requires 1 <= ino <= MAX_INODES
  {
    INODE_TABLE_LBA + (ino - 1) / INODES_PER_BLOCK
  }

  function InodeOff(ino: nat): (o: nat)
    requires 1 <= ino <= MAX_INODES
    ensures o + INODE_SIZE <= BLOCK_SIZE
  {
    (ino - 1) % INODES_PER_BLOCK * INODE_SIZE
  }

  function InodeAt(disk: Blocks, ino: nat): InodeBuf
    requires Device(disk) && 1 <= ino <= MAX_INODES
  {
    disk[InodeLba(ino)][InodeOff(ino)..InodeOff(ino) + INODE_SIZE]
  }

  /** How many blocks hold len bytes; an empty file keeps one. */
  function BlocksFor(len: nat): (n: nat)
    requires len <= MAX_FILE
    ensures 1 <= n <= DIRECT_BLOCKS && len <= BLOCK_SIZE * n && (len > 0 ==> BLOCK_SIZE * (n - 1) < len)
  {
    if len == 0 then 1 else (len + BLOCK_SIZE - 1) / BLOCK_SIZE
  }

  // ----- Directory -----

  function SlotIno(dir: Block, i: nat): u32
    requires i < DIRENT_COUNT
  {
    LoadU32(dir, DIRENT_SIZE * i)
  }

  function SlotType(dir: Block, i: nat): byte
    requires i < DIRENT_COUNT
  {
    dir[DIRENT_SIZE * i + 4]
  }

  /** Character k of the name in slot i as strlen_bound reads it: the field has 27 characters, but 28
      are scanned, so the last one belongs to the next slot, or for slot 15 to whatever follows the
      buffer (`past`). */
  function NameChar(dir: Block, past: byte, i: nat, k: nat): byte
    requires i < DIRENT_COUNT && k <= MAX_NAME
  {
    var o := DIRENT_SIZE * i + 5 + k;
    if o < BLOCK_SIZE then dir[o] else past
  }

  /** find_dirent's test: the scanned length equals the name's and the characters agree. */
  predicate SlotHolds(dir: Block, past: byte, i: nat, name: CString)
    requires i < DIRENT_COUNT && |name| <= MAX_NAME
  {
    && SlotIno(dir, i) != 0
    && (forall k :: 0 <= k < |name| ==> NameChar(dir, past, i, k) == name[k])
    && NameChar(dir, past, i, |name|) == 0
  }

  function FindSlot(dir: Block, past: byte, name: CString, i: nat): (r: nat)
    requires i <= DIRENT_COUNT && |name| <= MAX_NAME
    ensures i <= r <= DIRENT_COUNT
    ensures r < DIRENT_COUNT ==> SlotHolds(dir, past, r, name)
    ensures forall k :: i <= k < r ==> !SlotHolds(dir, past, k, name)
    decreases DIRENT_COUNT - i
  {
    if i == DIRENT_COUNT || SlotHolds(dir, past, i, name) then i else FindSlot(dir, past, name, i + 1)
  }

  function FindFreeSlot(dir: Block, i: nat): (r: nat)
    requires i <= DIRENT_COUNT
    ensures i <= r <= DIRENT_COUNT
    ensures r < DIRENT_COUNT ==> SlotIno(dir, r) == 0
    ensures forall k :: i <= k < r ==> SlotIno(dir, k) != 0
    decreases DIRENT_COUNT - i
  {
    if i == DIRENT_COUNT || SlotIno(dir, i) == 0 then i else FindFreeSlot(dir, i + 1)
  }

  function SlotBytes(ino: u32, name: CString): (r: seq<byte>)
    requires |name| <= MAX_NAME
    ensures |r| == DIRENT_SIZE
  {
    EncodeU32(ino) + [MODE_FILE] + name + Zeros(MAX_NAME - |name|)
  }

  function SetSlot(dir: Block, i: nat, ino: u32, name: CString): Block
    requires i < DIRENT_COUNT && |name| <= MAX_NAME
  {
    Splice(dir, DIRENT_SIZE * i, SlotBytes(ino, name))
  }

  function ClearSlot(dir: Block, i: nat): Block
    requires i < DIRENT_COUNT
  {
    Splice(dir, DIRENT_SIZE * i, Zeros(DIRENT_SIZE))
  }

  function ValidName(name: CString): (rc: Rc)
    ensures rc == Ok ==> 1 <= |name| <= MAX_NAME
  {
    if name == [] then Inval else if |name| > MAX_NAME then TooLong else if SLASH in name then Inval else Ok
  }

  // ----- Device updates -----

  function StoreBmaps(d: Dev, ib: Block, bb: Block): (r: Outcome)
    requires Device(d.disk)
    ensures |r.dev.disk| == |d.disk|
  {
    var w := Put(d, INODE_BMAP_LBA, ib);
    if w.rc != Ok then w else Put(w.dev, BLOCK_BMAP_LBA, bb)
  }

  function WriteInode(d: Dev, ino: nat, buf: InodeBuf): (r: Outcome)
    requires Device(d.disk) && 1 <= ino <= MAX_INODES
    ensures |r.dev.disk| == |d.disk|
  {
    Put(d, InodeLba(ino), Splice(d.disk[InodeLba(ino)], InodeOff(ino), buf))
  }

  // ----- Operations -----

  /** Allocate, write the inode, and only then link the name. */
  function AddFile(d: Dev, slot: nat, ino: nat, lba: nat, name: CString): (r: Outcome)
    requires Device(d.disk) && slot < DIRENT_COUNT && 1 <= ino <= MAX_INODES && lba < |d.disk| && |name| <= MAX_NAME
    ensures |r.dev.disk| == |d.disk|
  {
    var a := StoreBmaps(d, SetBit(d.disk[INODE_BMAP_LBA], ino), SetBit(d.disk[BLOCK_BMAP_LBA], lba));
    if a.rc != Ok then a else
    var b := WriteInode(a.dev, ino, NewInode(MODE_FILE, 0, lba));
    if b.rc != Ok then b else Put(b.dev, ROOT_DIR_LBA, SetSlot(d.disk[ROOT_DIR_LBA], slot, ino, name))
  }

  function Create(d: Dev, past: byte, name: CString): (r: Outcome)
    requires Device(d.disk)
    ensures |r.dev.disk| == |d.disk|
  {
    if ValidName(name) != Ok then Outcome(d, ValidName(name))
    else if FindSlot(d.disk[ROOT_DIR_LBA], past, name, 0) < DIRENT_COUNT then Outcome(d, Exists)
    else
      var slot := FindFreeSlot(d.disk[ROOT_DIR_LBA], 0);
      var ino := FindClearBit(d.disk[INODE_BMAP_LBA], 2, MAX_INODES + 1);
      var lba := FindClearBit(d.disk[BLOCK_BMAP_LBA], DATA_START_LBA, |d.disk|);
      if slot == DIRENT_COUNT || ino > MAX_INODES || lba == |d.disk| then Outcome(d, NoSpc)
      else AddFile(d, slot, ino, lba, name)
  }

  /** Give blocks i..need-1 of an in-memory inode a device block each, storing the bitmaps every time. */
  function AllocBlocks(d: Dev, inode: InodeBuf, i: nat, need: nat): (r: (Outcome, InodeBuf))
    requires Device(d.disk) && i <= need <= DIRECT_BLOCKS
    ensures |r.0.dev.disk| == |d.disk|
    decreases need - i
  {
    if i == need then (Outcome(d, Ok), inode)
    else if Direct(inode, i) != 0 then AllocBlocks(d, inode, i + 1, need)
    else
      var lba := FindClearBit(d.disk[BLOCK_BMAP_LBA], DATA_START_LBA, |d.disk|);
      if lba == |d.disk| then (Outcome(d, NoSpc), inode)
      else
        var s := StoreBmaps(d, d.disk[INODE_BMAP_LBA], SetBit(d.disk[BLOCK_BMAP_LBA], lba));
        if s.rc != Ok then (s, inode) else AllocBlocks(s.dev, SetDirect(inode, i, lba), i + 1, need)
  }

  function Chunk(data: seq<byte>, i: nat): (r: seq<byte>)
    ensures |r| <= BLOCK_SIZE
  {
    data[Min(BLOCK_SIZE * i, |data|)..Min(BLOCK_SIZE * (i + 1), |data|)]
  }

  function WriteBlocks(d: Dev, inode: InodeBuf, data: seq<byte>, i: nat, need: nat): (r: Outcome)
    requires i <= need <= DIRECT_BLOCKS
    ensures |r.dev.disk| == |d.disk|
    decreases need - i
  {
    if i == need then Outcome(d, Ok)
    else
      var w := Put(d, Direct(inode, i), PadBlock(Chunk(data, i)));
      if w.rc != Ok then w else WriteBlocks(w.dev, inode, data, i + 1, need)
  }

  function WriteContents(d: Dev, ino: nat, inode: InodeBuf, data: seq<byte>): (r: Outcome)
    requires Device(d.disk) && 1 <= ino <= MAX_INODES && |data| <= MAX_FILE
    ensures |r.dev.disk| == |d.disk|
  {
    var need := BlocksFor(|data|);
    var a := AllocBlocks(d, inode, 0, need);
    if a.0.rc != Ok then a.0 else
    var b := WriteBlocks(a.0.dev, a.1, data, 0, need);
    if b.rc != Ok then b else WriteInode(b.dev, ino, SetSize(a.1, |data|))
  }

  datatype Target = Refused(rc: Rc) | Found(slot: nat, ino: nat, inode: InodeBuf)

  /** The common front of write, read and unlink: the file called name. */
  function Resolve(disk: Blocks, past: byte, name: CString): (t: Target)
    requires Device(disk)
    ensures t.Found? ==> t.slot < DIRENT_COUNT && 1 <= t.ino <= MAX_INODES && t.inode == InodeAt(disk, t.ino)
    ensures t.Refused? ==> t.rc == Inval || t.rc == TooLong || t.rc == NoEnt || t.rc == IsDir
  {
    if ValidName(name) != Ok then Refused(ValidName(name)) else
    var slot := FindSlot(disk[ROOT_DIR_LBA], past, name, 0);
    if slot == DIRENT_COUNT then Refused(NoEnt) else
    var ino := SlotIno(disk[ROOT_DIR_LBA], slot);
    if ino > MAX_INODES then Refused(Inval)
    else if Mode(InodeAt(disk, ino)) != MODE_FILE then Refused(IsDir)
    else Found(slot, ino, InodeAt(disk, ino))
  }

  function WriteFile(d: Dev, past: byte, name: CString, data: seq<byte>): (r: Outcome)
    requires Device(d.disk)
    ensures |r.dev.disk| == |d.disk|
  {
    if |data| > MAX_FILE then Outcome(d, Range) else
    match Resolve(d.disk, past, name)
    case Refused(rc) => Outcome(d, rc)
    case Found(_, ino, inode) => WriteContents(d, ino, inode, data)
  }

  /** The bytes of an inode from block i on. */
  function ReadFrom(disk: Blocks, inode: InodeBuf, i: nat): (r: (Rc, seq<byte>))
    requires Size(inode) <= MAX_FILE && i <= DIRECT_BLOCKS
    decreases DIRECT_BLOCKS - i
  {
    if BLOCK_SIZE * i >= Size(inode) then (Ok, [])
    else
      var lba := Direct(inode, i);
      if lba == 0 || lba >= |disk| then (Corrupt, [])
      else
        var rest := ReadFrom(disk, inode, i + 1);
        if rest.0 != Ok then rest else (Ok, disk[lba][..Min(BLOCK_SIZE, Size(inode) - BLOCK_SIZE * i)] + rest.1)
  }

  function ReadFile(disk: Blocks, past: byte, name: CString, cap: u32): (r: (Rc, seq<byte>))
    requires Device(disk)
  {
    match Resolve(disk, past, name)
    case Refused(rc) => (rc, [])
    case Found(_, _, inode) =>
      if cap < Size(inode) then (Range, [])
      else if Size(inode) > MAX_FILE then (Corrupt, [])
      else ReadFrom(disk, inode, 0)
  }

  function ClearDirect(bb: Block, inode: InodeBuf, n: nat, j: nat): (r: Block)
    requires n <= MAX_DEVICE && j <= DIRECT_BLOCKS
    decreases DIRECT_BLOCKS - j
  {
    if j == DIRECT_BLOCKS then bb
    else ClearDirect(if 0 != Direct(inode, j) < n then ClearBit(bb, Direct(inode, j)) else bb, inode, n, j + 1)
  }

  /** Unlink the name first, then free, then wipe the inode. */
  function RemoveFile(d: Dev, slot: nat, ino: nat, inode: InodeBuf): (r: Outcome)
    requires Device(d.disk) && slot < DIRENT_COUNT && 1 <= ino <= MAX_INODES
    ensures |r.dev.disk| == |d.disk|
  {
    var a := Put(d, ROOT_DIR_LBA, ClearSlot(d.disk[ROOT_DIR_LBA], slot));
    if a.rc != Ok then a else
    var b := StoreBmaps(a.dev, ClearBit(a.dev.disk[INODE_BMAP_LBA], ino),
                        ClearDirect(a.dev.disk[BLOCK_BMAP_LBA], inode, |d.disk|, 0));
    if b.rc != Ok then b else WriteInode(b.dev, ino, Zeros(INODE_SIZE))
  }

  function Unlink(d: Dev, past: byte, name: CString): (r: Outcome)
    requires Device(d.disk)
    ensures |r.dev.disk| == |d.disk|
  {
    match Resolve(d.disk, past, name)
    case Refused(rc) => Outcome(d, rc)
    case Found(slot, ino, inode) => RemoveFile(d, slot, ino, inode)
  }

  // ----- fsck and mount -----

  predicate SuperOk(sb: Block, blockCount: nat) {
    && LoadU32(sb, 0) == MAGIC && LoadU32(sb, 4) == VERSION && LoadU32(sb, 8) == BLOCK_SIZE
    && LoadU32(sb, 12) == blockCount && LoadU32(sb, 16) == MAX_INODES
    && LoadU32(sb, 20) == INODE_BMAP_LBA && LoadU32(sb, 24) == BLOCK_BMAP_LBA && LoadU32(sb, 28) == INODE_TABLE_LBA
    && LoadU32(sb, 36) == ROOT_INO && LoadU32(sb, 40) == ROOT_DIR_LBA && LoadU32(sb, 44) == DATA_START_LBA
  }

  predicate RootOk(disk: Blocks)
    requires Device(disk)
  {
    Mode(InodeAt(disk, ROOT_INO)) == MODE_DIR && Direct(InodeAt(disk, ROOT_INO), 0) == ROOT_DIR_LBA
  }

  predicate GoodBlock(disk: Blocks, lba: u32)
    requires Device(disk)
  {
    DATA_START_LBA <= lba < |disk| && TestBit(disk[BLOCK_BMAP_LBA], lba)
  }

  predicate SlotOk(disk: Blocks, i: nat)
    requires Device(disk) && i < DIRENT_COUNT
  {
    var dir := disk[ROOT_DIR_LBA];
    var ino := SlotIno(dir, i);
    && 0 < ino <= MAX_INODES && SlotType(dir, i) == MODE_FILE && TestBit(disk[INODE_BMAP_LBA], ino)
    && var inode := InodeAt(disk, ino);
       && Mode(inode) == MODE_FILE && Size(inode) <= MAX_FILE
       && forall j :: 0 <= j < BlocksFor(Size(inode)) ==> GoodBlock(disk, Direct(inode, j))
  }

  predicate FsckOk(disk: Blocks)
    requires Device(disk)
  {
    && SuperOk(disk[0], |disk|)
    && TestBit(disk[INODE_BMAP_LBA], ROOT_INO)
    && (forall b :: 0 <= b < DATA_START_LBA ==> TestBit(disk[BLOCK_BMAP_LBA], b))
    && RootOk(disk)
    && forall i :: 0 <= i < DIRENT_COUNT && SlotIno(disk[ROOT_DIR_LBA], i) != 0 ==> SlotOk(disk, i)
  }

  // ----- The C functions -----

  /** mcsfs_strlen_bound on a name field. */
  method SlotStrlen(dir: Block, past: byte, i: nat) returns (n: nat)
    requires i < DIRENT_COUNT
    ensures n <= MAX_NAME + 1
    ensures forall k :: 0 <= k < n ==> NameChar(dir, past, i, k) != 0
    ensures n <= MAX_NAME ==> NameChar(dir, past, i, n) == 0
  {
    n := 0;
    while n < MAX_NAME + 1 && NameChar(dir, past, i, n) != 0
      invariant n <= MAX_NAME + 1
      invariant forall k :: 0 <= k < n ==> NameChar(dir, past, i, k) != 0
    {
      n := n + 1;
    }
  }

  /** mcsfs_memcmp against a name field. */
  method SlotMemEq(dir: Block, past: byte, i: nat, name: CString) returns (same: bool)
    requires i < DIRENT_COUNT && |name| <= MAX_NAME
    ensures same <==> forall k :: 0 <= k < |name| ==> NameChar(dir, past, i, k) == name[k]
  {
    for k := 0 to |name|
      invariant forall m :: 0 <= m < k ==> NameChar(dir, past, i, m) == name[m]
    {
      if NameChar(dir, past, i, k) != name[k] {
        return false;
      }
    }
    same := true;
  }

  /** The scan of find_dirent. */
  method FindDirent(dir: Block, past: byte, name: CString) returns (slot: nat)
    requires |name| <= MAX_NAME
    ensures slot == FindSlot(dir, past, name, 0)
  {
    for i := 0 to DIRENT_COUNT
      invariant FindSlot(dir, past, name, 0) == FindSlot(dir, past, name, i)
    {
      if SlotIno(dir, i) != 0 {
        var n := SlotStrlen(dir, past, i);
        assert forall k :: 0 <= k < |name| ==> name[k] in name;
        if n == |name| {
          var same := SlotMemEq(dir, past, i, name);
          if same {
            return i;
          }
        }
      }
    }
    slot := DIRENT_COUNT;
  }

  /** The free-slot scan of mcsfs1_create. */
  method FindFreeDirent(dir: Block) returns (slot: nat)
    ensures slot == FindFreeSlot(dir, 0)
  {
    for i := 0 to DIRENT_COUNT
      invariant FindFreeSlot(dir, 0) == FindFreeSlot(dir, i)
    {
      if SlotIno(dir, i) == 0 {
        return i;
      }
    }
    slot := DIRENT_COUNT;
  }

  /** valid_name. */
  method CheckName(name: CString) returns (rc: Rc)
    ensures rc == ValidName(name)
  {
    if name == [] {
      return Inval;
    }
    if |name| > MAX_NAME {
      return TooLong;
    }
    for i := 0 to |name|
      invariant SLASH !in name[..i]
    {
      if name[i] == SLASH {
        return Inval;
      }
    }
    assert name[..|name|] == name;
    rc := Ok;
  }

  /** read_inode: the inode number is checked, then its block is read. */
  method LoadInode(dev: BlockDev, ino: u32) returns (rc: Rc, inode: InodeBuf)
    requires Device(dev.State().disk)
    ensures rc == if 1 <= ino <= MAX_INODES then Ok else Inval
    ensures rc == Ok ==> inode == InodeAt(dev.State().disk, ino)
  {
    inode := Zeros(INODE_SIZE);
    if ino == 0 || ino > MAX_INODES {
      return Inval, inode;
    }
    var block;
    rc, block := dev.ReadBlock(InodeLba(ino));
    inode := block[InodeOff(ino)..InodeOff(ino) + INODE_SIZE];
  }

  /** write_inode: read the block, patch it, write it back. */
  method StoreInode(dev: BlockDev, ino: nat, inode: InodeBuf) returns (rc: Rc)
    requires Device(dev.State().disk) && 1 <= ino <= MAX_INODES
    modifies dev, dev.blocks
    ensures Outcome(dev.State(), rc) == old(WriteInode(dev.State(), ino, inode))
  {
    var block;
    rc, block := dev.ReadBlock(InodeLba(ino));
    rc := dev.WriteBlock(InodeLba(ino), Splice(block, InodeOff(ino), inode));
  }

  method StoreBitmaps(dev: BlockDev, ib: Block, bb: Block) returns (rc: Rc)
    requires Device(dev.State().disk)
    modifies dev, dev.blocks
    ensures Outcome(dev.State(), rc) == old(StoreBmaps(dev.State(), ib, bb))
  {
    rc := dev.WriteBlock(INODE_BMAP_LBA, ib);
    if rc != Ok {
      return rc;
    }
    rc := dev.WriteBlock(BLOCK_BMAP_LBA, bb);
  }

  /** find_dirent followed by read_inode and the mode check. */
  method ResolveFile(dev: BlockDev, past: byte, name: CString) returns (t: Target)
    requires Device(dev.State().disk)
    ensures t == Resolve(dev.State().disk, past, name)
  {
    hide LoadU32, LoadU16, SlotHolds;
    var rc := CheckName(name);
    if rc != Ok {
      return Refused(rc);
    }
    var dir, inode;
    rc, dir := dev.ReadBlock(ROOT_DIR_LBA);
    var slot := FindDirent(dir, past, name);
    if slot == DIRENT_COUNT {
      return Refused(NoEnt);
    }
    assert SlotIno(dir, slot) != 0 by { HeldSlotIsLive(dir, past, slot, name); }
    rc, inode := LoadInode(dev, SlotIno(dir, slot));
    if rc != Ok {
      return Refused(rc);
    }
    if Mode(inode) != MODE_FILE {
      return Refused(IsDir);
    }
    t := Found(slot, SlotIno(dir, slot), inode);
  }

  lemma HeldSlotIsLive(dir: Block, past: byte, i: nat, name: CString)
    requires i < DIRENT_COUNT && |name| <= MAX_NAME && SlotHolds(dir, past, i, name)
    ensures SlotIno(dir, i) != 0
  {
  }

  /** mcsfs1_create. */
  method CreateFile(dev: BlockDev, past: byte, name: CString) returns (rc: Rc)
    requires Device(dev.State().disk)
    modifies dev, dev.blocks
    ensures Outcome(dev.State(), rc) == old(Create(dev.State(), past, name))
  {
    hide LoadU32, SlotHolds, TestBit, SetBit, SetSlot, NewInode, StoreBmaps, WriteInode, Put;
    rc := CheckName(name);
    if rc != Ok {
      return rc;
    }
    var dir, ib, bb;
    rc, dir := dev.ReadBlock(ROOT_DIR_LBA);
    var existing := FindDirent(dir, past, name);
    if existing < DIRENT_COUNT {
      return Exists;
    }
    var slot := FindFreeDirent(dir);
    if slot == DIRENT_COUNT {
      return NoSpc;
    }
    rc, ib := dev.ReadBlock(INODE_BMAP_LBA);
    rc, bb := dev.ReadBlock(BLOCK_BMAP_LBA);
    var ino := FindFreeBit(ib, 2, MAX_INODES + 1);
    if ino > MAX_INODES {
      return NoSpc;
    }
    var lba := FindFreeBit(bb, DATA_START_LBA, dev.blocks.Length);
    if lba == dev.blocks.Length {
      return NoSpc;
    }
    rc := StoreBitmaps(dev, SetBit(ib, ino), SetBit(bb, lba));
    if rc != Ok {
      return rc;
    }
    rc := StoreInode(dev, ino, NewInode(MODE_FILE, 0, lba));
    if rc != Ok {
      return rc;
    }
    rc := dev.WriteBlock(ROOT_DIR_LBA, SetSlot(dir, slot, ino, name));
  }

  /** alloc_data_block for every hole below need. */
  method AllocateBlocks(dev: BlockDev, start: InodeBuf, need: nat) returns (rc: Rc, inode: InodeBuf)
    requires Device(dev.State().disk) && need <= DIRECT_BLOCKS
    modifies dev, dev.blocks
    ensures (Outcome(dev.State(), rc), inode) == old(AllocBlocks(dev.State(), start, 0, need))
  {
    hide LoadU32, TestBit, SetBit, StoreBmaps, SetDirect;
    inode := start;
    for i := 0 to need
      invariant Device(dev.State().disk)
      invariant AllocBlocks(dev.State(), inode, i, need) == old(AllocBlocks(dev.State(), start, 0, need))
    {
      if Direct(inode, i) == 0 {
        var ib, bb;
        rc, ib := dev.ReadBlock(INODE_BMAP_LBA);
        rc, bb := dev.ReadBlock(BLOCK_BMAP_LBA);
        var lba := FindFreeBit(bb, DATA_START_LBA, dev.blocks.Length);
        if lba == dev.blocks.Length {
          return NoSpc, inode;
        }
        rc := StoreBitmaps(dev, ib, SetBit(bb, lba));
        if rc != Ok {
          return rc, inode;
        }
        inode := SetDirect(inode, i, lba);
      }
    }
    rc := Ok;
  }

  /** The data loop of mcsfs1_write. */
  method WriteDataBlocks(dev: BlockDev, inode: InodeBuf, data: seq<byte>, need: nat) returns (rc: Rc)
    requires need <= DIRECT_BLOCKS
    modifies dev, dev.blocks
    ensures Outcome(dev.State(), rc) == old(WriteBlocks(dev.State(), inode, data, 0, need))
  {
    hide LoadU32;
    var written := 0;
    for i := 0 to need
      invariant written == Min(BLOCK_SIZE * i, |data|)
      invariant WriteBlocks(dev.State(), inode, data, i, need) == old(WriteBlocks(dev.State(), inode, data, 0, need))
    {
      var remain := |data| - written;
      var chunk := if remain > BLOCK_SIZE then BLOCK_SIZE else remain;
      assert data[written..written + chunk] == Chunk(data, i);
      rc := dev.WriteBlock(Direct(inode, i), PadBlock(data[written..written + chunk]));
      if rc != Ok {
        return rc;
      }
      written := written + chunk;
    }
    rc := Ok;
  }

  /** mcsfs1_write. */
  method WriteNamed(dev: BlockDev, past: byte, name: CString, data: seq<byte>) returns (rc: Rc)
    requires Device(dev.State().disk)
    modifies dev, dev.blocks
    ensures Outcome(dev.State(), rc) == old(WriteFile(dev.State(), past, name, data))
  {
    hide AllocBlocks, WriteBlocks, WriteInode, Resolve, SetSize;
    if |data| > MAX_FILE {
      return Range;
    }
    var t := ResolveFile(dev, past, name);
    if t.Refused? {
      return t.rc;
    }
    var need := BlocksFor(|data|);
    var inode;
    rc, inode := AllocateBlocks(dev, t.inode, need);
    if rc != Ok {
      return rc;
    }
    rc := WriteDataBlocks(dev, inode, data, need);
    if rc != Ok {
      return rc;
    }
    rc := StoreInode(dev, t.ino, SetSize(inode, |data|));
  }

  /** One round of the copy loop of mcsfs1_read. */
  lemma ReadStep(disk: Blocks, inode: InodeBuf, i: nat)
    requires Size(inode) <= MAX_FILE && i <= DIRECT_BLOCKS
    ensures BLOCK_SIZE * i >= Size(inode) ==> ReadFrom(disk, inode, i) == (Ok, [])
    ensures BLOCK_SIZE * i < Size(inode) ==>
              i < DIRECT_BLOCKS && 0 <= Min(BLOCK_SIZE, Size(inode) - BLOCK_SIZE * i) <= BLOCK_SIZE &&
              var lba, rest := Direct(inode, i), ReadFrom(disk, inode, i + 1);
              ReadFrom(disk, inode, i) ==
                if lba == 0 || lba >= |disk| then (Corrupt, [])
                else if rest.0 != Ok then rest
                else (Ok, disk[lba][..Min(BLOCK_SIZE, Size(inode) - BLOCK_SIZE * i)] + rest.1)
  {
    hide LoadU32, Direct, Size;
  }

  /** The copy loop of mcsfs1_read. */
  method ReadData(dev: BlockDev, inode: InodeBuf) returns (rc: Rc, data: seq<byte>)
    requires Size(inode) <= MAX_FILE
    ensures rc == ReadFrom(dev.State().disk, inode, 0).0
    ensures rc == Ok ==> data == ReadFrom(dev.State().disk, inode, 0).1
  {
    hide LoadU32, Direct, Size, Min, ReadFrom;
    data := [];
    ghost var disk, all := dev.State().disk, ReadFrom(dev.State().disk, inode, 0);
    var i := 0;
    while BLOCK_SIZE * i < Size(inode)
      invariant i <= DIRECT_BLOCKS
      invariant var rest := ReadFrom(disk, inode, i); all.0 == rest.0 && (all.0 == Ok ==> all.1 == data + rest.1)
    {
      ReadStep(disk, inode, i);
      var lba := Direct(inode, i);
      if lba == 0 || lba >= dev.blocks.Length {
        return Corrupt, data;
      }
      var block;
      rc, block := dev.ReadBlock(lba);
      data := data + block[..Min(BLOCK_SIZE, Size(inode) - BLOCK_SIZE * i)];
      i := i + 1;
    }
    ReadStep(disk, inode, i);
    rc := Ok;
  }

  /** mcsfs1_read.  A size over eight blocks would index past the block pointers; the model reports it
      as corrupt. */
  method ReadNamed(dev: BlockDev, past: byte, name: CString, cap: u32) returns (rc: Rc, data: seq<byte>)
    requires Device(dev.State().disk)
    ensures rc == ReadFile(dev.State().disk, past, name, cap).0
    ensures rc == Ok ==> data == ReadFile(dev.State().disk, past, name, cap).1
  {
    hide LoadU32, Resolve;
    data := [];
    var t := ResolveFile(dev, past, name);
    if t.Refused? {
      return t.rc, data;
    }
    if cap < Size(t.inode) {
      return Range, data;
    }
    if Size(t.inode) > MAX_FILE {
      return Corrupt, data;
    }
    rc, data := ReadData(dev, t.inode);
  }

  /** The loop of free_inode_and_blocks over the block pointers. */
  method ClearBlocks(bitmap: Block, inode: InodeBuf, n: nat) returns (bb: Block)
    requires n <= MAX_DEVICE
    ensures bb == ClearDirect(bitmap, inode, n, 0)
  {
    hide LoadU32, ClearBit, TestBit;
    bb := bitmap;
    for j := 0 to DIRECT_BLOCKS
      invariant ClearDirect(bb, inode, n, j) == ClearDirect(bitmap, inode, n, 0)
    {
      if 0 != Direct(inode, j) < n {
        bb := ClearBit(bb, Direct(inode, j));
      }
    }
  }

  /** mcsfs1_unlink. */
  method UnlinkNamed(dev: BlockDev, past: byte, name: CString) returns (rc: Rc)
    requires Device(dev.State().disk)
    modifies dev, dev.blocks
    ensures Outcome(dev.State(), rc) == old(Unlink(dev.State(), past, name))
  {
    hide LoadU32, Resolve, ClearBit, ClearSlot, ClearDirect, WriteInode, TestBit;
    var t := ResolveFile(dev, past, name);
    if t.Refused? {
      return t.rc;
    }
    var dir, ib, bb;
    rc, dir := dev.ReadBlock(ROOT_DIR_LBA);
    rc := dev.WriteBlock(ROOT_DIR_LBA, ClearSlot(dir, t.slot));
    if rc != Ok {
      return rc;
    }
    rc, ib := dev.ReadBlock(INODE_BMAP_LBA);
    rc, bb := dev.ReadBlock(BLOCK_BMAP_LBA);
    bb := ClearBlocks(bb, t.inode, dev.blocks.Length);
    rc := StoreBitmaps(dev, ClearBit(ib, t.ino), bb);
    if rc != Ok {
      return rc;
    }
    rc := StoreInode(dev, t.ino, Zeros(INODE_SIZE));
  }

  /** mcsfs1_mount. */
  method Mount(dev: BlockDev) returns (rc: Rc)
    requires Device(dev.State().disk)
    ensures rc == if SuperOk(dev.State().disk[0], dev.blocks.Length) && RootOk(dev.State().disk) then Ok else Corrupt
  {
    hide LoadU32, LoadU16;
    var sb, root;
    rc, sb := dev.ReadBlock(0);
    if !SuperOk(sb, dev.blocks.Length) {
      return Corrupt;
    }
    rc, root := LoadInode(dev, ROOT_INO);
    if Mode(root) != MODE_DIR || Direct(root, 0) != ROOT_DIR_LBA {
      return Corrupt;
    }
  }

  /** mcsfs1_fsck. */
  method Fsck(dev: BlockDev) returns (rc: Rc)
    requires Device(dev.State().disk)
    ensures rc == if FsckOk(dev.State().disk) then Ok else Corrupt
  {
    hide LoadU32, LoadU16, TestBit;
    ghost var disk := dev.State().disk;
    var sb, ib, bb, dir, root;
    rc, sb := dev.ReadBlock(0);
    if !SuperOk(sb, dev.blocks.Length) {
      return Corrupt;
    }
    rc, ib := dev.ReadBlock(INODE_BMAP_LBA);
    rc, bb := dev.ReadBlock(BLOCK_BMAP_LBA);
    if !TestBit(ib, ROOT_INO) || !TestBit(bb, ROOT_DIR_LBA) {
      return Corrupt;
    }
    for b := 0 to DATA_START_LBA
      invariant forall c :: 0 <= c < b ==> TestBit(bb, c)
    {
      if !TestBit(bb, b) {
        return Corrupt;
      }
    }
    rc, root := LoadInode(dev, ROOT_INO);
    if Mode(root) != MODE_DIR || Direct(root, 0) != ROOT_DIR_LBA {
      return Corrupt;
    }
    rc, dir := dev.ReadBlock(ROOT_DIR_LBA);
    for i := 0 to DIRENT_COUNT
      invariant forall k :: 0 <= k < i && SlotIno(dir, k) != 0 ==> SlotOk(disk, k)
    {
      if SlotIno(dir, i) != 0 {
        var ok := CheckSlot(dev, i);
        if !ok {
          return Corrupt;
        }
      }
    }
    rc := Ok;
  }

  /** fsck's checks of one live slot. */
  method CheckSlot(dev: BlockDev, i: nat) returns (ok: bool)
    requires Device(dev.State().disk) && i < DIRENT_COUNT && SlotIno(dev.State().disk[ROOT_DIR_LBA], i) != 0
    ensures ok <==> SlotOk(dev.State().disk, i)
  {
    hide LoadU32, LoadU16, TestBit;
    ghost var disk := dev.State().disk;
    var rc, ib, bb, dir, inode;
    rc, ib := dev.ReadBlock(INODE_BMAP_LBA);
    rc, bb := dev.ReadBlock(BLOCK_BMAP_LBA);
    rc, dir := dev.ReadBlock(ROOT_DIR_LBA);
    var ino := SlotIno(dir, i);
    if ino > MAX_INODES || SlotType(dir, i) != MODE_FILE || !TestBit(ib, ino) {
      return false;
    }
    rc, inode := LoadInode(dev, ino);
    if Mode(inode) != MODE_FILE || Size(inode) > MAX_FILE {
      return false;
    }
    var need := BlocksFor(Size(inode));
    for j := 0 to need
      invariant forall k :: 0 <= k < j ==> GoodBlock(disk, Direct(inode, k))
    {
      var lba := Direct(inode, j);
      if lba < DATA_START_LBA || lba >= dev.blocks.Length || !TestBit(bb, lba) {
        return false;
      }
    }
    ok := true;
  }
}
