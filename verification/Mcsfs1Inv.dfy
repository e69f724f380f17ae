/** The invariant behind fsck.  fsck never checks sharing, so FsckOk alone is not preserved; Inv adds
    that live slots have distinct inodes and own disjoint sets of blocks.  Each lemma below is one
    block write: what it keeps of the invariant and of the files. */
module Mcsfs1Inv {
  import opened Bytes
  import opened Disk
  import opened Mcsfs1

  predicate Live(disk: Blocks, i: nat)
    requires Device(disk) && i < DIRENT_COUNT
  {
    SlotIno(disk[ROOT_DIR_LBA], i) != 0
  }

  function Ino(disk: Blocks, i: nat): u32
    requires Device(disk) && i < DIRENT_COUNT
  {
    SlotIno(disk[ROOT_DIR_LBA], i)
  }

  /** The inode of slot i. */
  function FileInode(disk: Blocks, i: nat): InodeBuf
    requires Device(disk) && i < DIRENT_COUNT
  {
    if 1 <= Ino(disk, i) <= MAX_INODES then InodeAt(disk, Ino(disk, i)) else Zeros(INODE_SIZE)
  }

  /** A file inode whose blocks are allocated, pairwise distinct and enough for its size. */
  ghost predicate InodeFine(disk: Blocks, inode: InodeBuf)
    requires Device(disk)
  {
    && Mode(inode) == MODE_FILE && Size(inode) <= MAX_FILE
    && (forall j :: 0 <= j < BlocksFor(Size(inode)) ==> Direct(inode, j) != 0)
    && (forall j :: 0 <= j < DIRECT_BLOCKS && Direct(inode, j) != 0 ==> GoodBlock(disk, Direct(inode, j)))
    && NoRepeats(inode)
  }

  ghost predicate NoRepeats(inode: InodeBuf) {
    forall j, k :: 0 <= j < k < DIRECT_BLOCKS && Direct(inode, j) != 0 ==> Direct(inode, j) != Direct(inode, k)
  }

  ghost predicate OwnsNothingOf(a: InodeBuf, b: InodeBuf) {
    forall j, k :: 0 <= j < DIRECT_BLOCKS && 0 <= k < DIRECT_BLOCKS && Direct(a, j) != 0 ==>
      Direct(a, j) != Direct(b, k)
  }

  lemma OwnsSymmetric(a: InodeBuf, b: InodeBuf)
    requires OwnsNothingOf(a, b)
    ensures OwnsNothingOf(b, a)
  {
    hide Direct;
  }

  ghost predicate Entry(disk: Blocks, i: nat)
    requires Device(disk) && i < DIRENT_COUNT
  {
    && 2 <= Ino(disk, i) <= MAX_INODES && SlotType(disk[ROOT_DIR_LBA], i) == MODE_FILE
    && TestBit(disk[INODE_BMAP_LBA], Ino(disk, i))
    && InodeFine(disk, FileInode(disk, i))
  }

  ghost predicate Unshared(disk: Blocks, i: nat, k: nat)
    requires Device(disk) && i < DIRENT_COUNT && k < DIRENT_COUNT
  {
    Ino(disk, i) != Ino(disk, k) && OwnsNothingOf(FileInode(disk, i), FileInode(disk, k))
  }

  ghost predicate BaseOk(disk: Blocks)
    requires Device(disk)
  {
    && SuperOk(disk[0], |disk|) && RootOk(disk)
    && TestBit(disk[INODE_BMAP_LBA], ROOT_INO)
    && forall b :: 0 <= b < DATA_START_LBA ==> TestBit(disk[BLOCK_BMAP_LBA], b)
  }

  ghost predicate Inv(disk: Blocks) {
    && Device(disk) && BaseOk(disk)
    && (forall i :: 0 <= i < DIRENT_COUNT && Live(disk, i) ==> Entry(disk, i))
    && (forall i, k :: 0 <= i < DIRENT_COUNT && 0 <= k < DIRENT_COUNT && i != k && Live(disk, i) && Live(disk, k) ==>
          Unshared(disk, i, k))
  }

  lemma InvPassesFsck(disk: Blocks)
    requires Inv(disk)
    ensures FsckOk(disk)
  {
    hide LoadU32, LoadU16, TestBit, SuperOk, InodeAt, BlocksFor;
    forall i | 0 <= i < DIRENT_COUNT && SlotIno(disk[ROOT_DIR_LBA], i) != 0 ensures SlotOk(disk, i) {
      assert Live(disk, i) && Entry(disk, i);
    }
  }

  /** Slot i is the same file with the same bytes on both disks. */
  ghost predicate Kept(d: Blocks, e: Blocks, i: nat)
    requires Device(d) && Device(e) && i < DIRENT_COUNT
  {
    && Ino(d, i) == Ino(e, i) && SlotType(d[ROOT_DIR_LBA], i) == SlotType(e[ROOT_DIR_LBA], i)
    && (forall k :: 0 <= k < MAX_NAME ==> NameChar(d[ROOT_DIR_LBA], 0, i, k) == NameChar(e[ROOT_DIR_LBA], 0, i, k))
    && FileInode(d, i) == FileInode(e, i)
    && |d| == |e|
    && forall j :: 0 <= j < DIRECT_BLOCKS && 0 != Direct(FileInode(d, i), j) < |d| ==>
         d[Direct(FileInode(d, i), j)] == e[Direct(FileInode(d, i), j)]
  }

  /** Every live slot except `but` is kept, and no other slot became live. */
  ghost predicate KeptBut(d: Blocks, e: Blocks, but: nat) {
    && Device(d) && Device(e)
    && forall i :: 0 <= i < DIRENT_COUNT && i != but ==> Live(d, i) == Live(e, i) && (Live(d, i) ==> Kept(d, e, i))
  }

  const NOBODY: nat := DIRENT_COUNT

  lemma KeptTransitive(d: Blocks, e: Blocks, f: Blocks, but: nat)
    requires KeptBut(d, e, but) && KeptBut(e, f, but)
    ensures KeptBut(d, f, but)
  {
    hide LoadU32, InodeAt, NameChar, FileInode, SlotType, Live, Ino;
  }

  lemma KeptReflexive(d: Blocks)
    requires Device(d)
    ensures KeptBut(d, d, NOBODY)
  {
    hide LoadU32, InodeAt;
  }

  lemma KeptWeaken(d: Blocks, e: Blocks, but: nat)
    requires KeptBut(d, e, NOBODY)
    ensures KeptBut(d, e, but)
  {
    hide Kept, Live;
  }

  // ----- Inode and slot updates -----

  function PatchInode(disk: Blocks, ino: nat, buf: InodeBuf): (e: Blocks)
    requires Device(disk) && 1 <= ino <= MAX_INODES
    ensures |e| == |disk|
  {
    disk[InodeLba(ino) := Splice(disk[InodeLba(ino)], InodeOff(ino), buf)]
  }

  lemma InodePlaces(a: nat, b: nat)
    requires 1 <= a <= MAX_INODES && 1 <= b <= MAX_INODES && a != b
    ensures InodeLba(a) != InodeLba(b)
            || InodeOff(a) + INODE_SIZE <= InodeOff(b) || InodeOff(b) + INODE_SIZE <= InodeOff(a)
    ensures INODE_TABLE_LBA <= InodeLba(a) < ROOT_DIR_LBA
  {
    var x, y := a - 1, b - 1;
    assert x / 8 == y / 8 ==> x % 8 < y % 8 || y % 8 < x % 8;
  }

  lemma InodeLbaRange(a: nat)
    requires 1 <= a <= MAX_INODES
    ensures INODE_TABLE_LBA <= InodeLba(a) < ROOT_DIR_LBA
  {
  }

  lemma InodeAtPatch(disk: Blocks, ino: nat, buf: InodeBuf, k: nat)
    requires Device(disk) && 1 <= ino <= MAX_INODES && 1 <= k <= MAX_INODES
    ensures InodeAt(PatchInode(disk, ino, buf), k) == if k == ino then buf else InodeAt(disk, k)
  {
    hide InodeLba, InodeOff, Splice;
    InodeLbaRange(k);
    if k != ino {
      InodePlaces(ino, k);
      if InodeLba(k) == InodeLba(ino) {
        SpliceElsewhere(disk[InodeLba(ino)], InodeOff(ino), buf, InodeOff(k), InodeOff(k) + INODE_SIZE);
      }
    } else {
      assert Splice(disk[InodeLba(ino)], InodeOff(ino), buf)[InodeOff(ino)..InodeOff(ino) + INODE_SIZE] == buf;
    }
  }

  /** The inode of slot k after patching inode ino. */
  lemma FileInodePatch(disk: Blocks, ino: nat, buf: InodeBuf, k: nat)
    requires Device(disk) && 1 <= ino <= MAX_INODES && k < DIRENT_COUNT
    ensures var e := PatchInode(disk, ino, buf);
            && FileInode(e, k) == (if Ino(disk, k) == ino then buf else FileInode(disk, k))
            && e[ROOT_DIR_LBA] == disk[ROOT_DIR_LBA] && Ino(e, k) == Ino(disk, k)
  {
    hide LoadU32, InodeAt, InodeLba, InodeOff, Splice;
    InodeLbaRange(ino);
    if 1 <= Ino(disk, k) <= MAX_INODES {
      InodeAtPatch(disk, ino, buf, Ino(disk, k));
    }
  }

  /** A slot rewritten at byte o, a slot read at byte m. */
  lemma SlotSplice(dir: Block, o: nat, field: seq<byte>, m: nat)
    requires o + DIRENT_SIZE <= BLOCK_SIZE && m + DIRENT_SIZE <= BLOCK_SIZE && |field| == DIRENT_SIZE
    requires o + DIRENT_SIZE <= m || m + DIRENT_SIZE <= o
    ensures LoadU32(Splice(dir, o, field), m) == LoadU32(dir, m)
    ensures forall k :: m <= k < m + DIRENT_SIZE ==> Splice(dir, o, field)[k] == dir[k]
  {
    hide LoadU32, Splice;
    SpliceElsewhere(dir, o, field, m, m + 4);
    LoadU32Same(Splice(dir, o, field), dir, m);
  }

  lemma OtherSlotSame(dir: Block, slot: nat, field: seq<byte>, k: nat)
    requires slot < DIRENT_COUNT && k < DIRENT_COUNT && k != slot && |field| == DIRENT_SIZE
    ensures var r := Splice(dir, DIRENT_SIZE * slot, field);
            && SlotIno(r, k) == SlotIno(dir, k) && SlotType(r, k) == SlotType(dir, k)
            && forall c :: 0 <= c < MAX_NAME ==> NameChar(r, 0, k, c) == NameChar(dir, 0, k, c)
  {
    hide LoadU32, Splice;
    SlotSplice(dir, DIRENT_SIZE * slot, field, DIRENT_SIZE * k);
  }

  lemma NewSlotFields(dir: Block, slot: nat, ino: u32, name: CString)
    requires slot < DIRENT_COUNT && |name| <= MAX_NAME
    ensures var r := SetSlot(dir, slot, ino, name);
            && SlotIno(r, slot) == ino && SlotType(r, slot) == MODE_FILE
            && forall c :: 0 <= c < MAX_NAME ==> NameChar(r, 0, slot, c) == if c < |name| then name[c] else 0
  {
    hide SetSlot, SlotIno, SlotType, NameChar, SlotBytes;
    NewSlotBytes(dir, slot, ino, name);
    FieldsOfBytes(SetSlot(dir, slot, ino, name), slot, ino, name);
  }

  /** The bytes of slot i, in place. */
  ghost predicate SlotIs(dir: Block, i: nat, field: seq<byte>)
    requires i < DIRENT_COUNT && |field| == DIRENT_SIZE
  {
    forall c :: 0 <= c < DIRENT_SIZE ==> dir[DIRENT_SIZE * i + c] == field[c]
  }

  lemma NewSlotBytes(dir: Block, slot: nat, ino: u32, name: CString)
    requires slot < DIRENT_COUNT && |name| <= MAX_NAME
    ensures SlotIs(SetSlot(dir, slot, ino, name), slot, SlotBytes(ino, name))
  {
    hide SlotBytes;
  }

  lemma FieldsOfBytes(r: Block, slot: nat, ino: u32, name: CString)
    requires slot < DIRENT_COUNT && |name| <= MAX_NAME && SlotIs(r, slot, SlotBytes(ino, name))
    ensures SlotIno(r, slot) == ino && SlotType(r, slot) == MODE_FILE
    ensures forall c :: 0 <= c < MAX_NAME ==> NameChar(r, 0, slot, c) == if c < |name| then name[c] else 0
  {
    hide Decode, EncodeU32;
    var o, field := DIRENT_SIZE * slot, SlotBytes(ino, name);
    assert r[o..o + 4] == EncodeU32(ino) by {
      assert forall c :: 0 <= c < 4 ==> r[o + c] == field[c] == EncodeU32(ino)[c];
    }
    assert field[4] == MODE_FILE;
    forall c | 0 <= c < MAX_NAME ensures NameChar(r, 0, slot, c) == if c < |name| then name[c] else 0 {
      assert field[5 + c] == if c < |name| then name[c] else 0;
    }
  }

  lemma ClearedSlotIsFree(dir: Block, slot: nat)
    requires slot < DIRENT_COUNT
    ensures SlotIno(ClearSlot(dir, slot), slot) == 0
  {
    hide Decode, Splice;
    var o := DIRENT_SIZE * slot;
    LoadZeros(DIRENT_SIZE, 0);
    assert ClearSlot(dir, slot)[o..o + 4] == Zeros(DIRENT_SIZE)[0..4];
  }

  // ----- One block write at a time -----

  lemma SameInodes(d: Blocks, e: Blocks)
    requires Device(d) && |e| == |d| && forall l :: INODE_TABLE_LBA <= l <= ROOT_DIR_LBA ==> d[l] == e[l]
    ensures RootOk(e) == RootOk(d)
    ensures forall i :: 0 <= i < DIRENT_COUNT ==>
              FileInode(e, i) == FileInode(d, i) && Ino(e, i) == Ino(d, i) && Live(e, i) == Live(d, i)
  {
    hide LoadU32, LoadU16;
    InodeLbaRange(ROOT_INO);
    forall i | 0 <= i < DIRENT_COUNT ensures FileInode(e, i) == FileInode(d, i) {
      if 1 <= Ino(d, i) <= MAX_INODES {
        InodeLbaRange(Ino(d, i));
      }
    }
  }

  /** The bits that must be set: reserved blocks, the root, live inodes and owned blocks. */
  ghost predicate CoversUse(d: Blocks, ib: Block, bb: Block)
    requires Device(d)
  {
    && TestBit(ib, ROOT_INO)
    && (forall b :: 0 <= b < DATA_START_LBA ==> TestBit(bb, b))
    && (forall i :: 0 <= i < DIRENT_COUNT && Live(d, i) ==> Ino(d, i) <= MAX_INODES && TestBit(ib, Ino(d, i)))
    && (forall i, j ::
          0 <= i < DIRENT_COUNT && 0 <= j < DIRECT_BLOCKS && Live(d, i) && 0 != Direct(FileInode(d, i), j) < |d| ==>
          TestBit(bb, Direct(FileInode(d, i), j)))
  }

  lemma InvCovers(d: Blocks)
    requires Inv(d)
    ensures CoversUse(d, d[INODE_BMAP_LBA], d[BLOCK_BMAP_LBA])
  {
    hide LoadU32, TestBit, FileInode, SuperOk, RootOk, NoRepeats, Unshared, BlocksFor;
    forall i, j | 0 <= i < DIRENT_COUNT && 0 <= j < DIRECT_BLOCKS && Live(d, i) && 0 != Direct(FileInode(d, i), j) < |d|
      ensures TestBit(d[BLOCK_BMAP_LBA], Direct(FileInode(d, i), j))
    {
      assert Entry(d, i);
    }
  }

  /** New bitmaps that still cover everything in use. */
  lemma BitmapStep(d: Blocks, e: Blocks)
    requires Inv(d) && |e| == |d| && forall l :: 0 <= l < |d| && l != INODE_BMAP_LBA && l != BLOCK_BMAP_LBA ==>
              e[l] == d[l]
    requires CoversUse(d, e[INODE_BMAP_LBA], e[BLOCK_BMAP_LBA])
    ensures Inv(e) && KeptBut(d, e, NOBODY)
  {
    SameInodes(d, e);
    hide LoadU32, LoadU16, TestBit, FileInode, SuperOk, RootOk, NoRepeats, OwnsNothingOf, BlocksFor, Ino, Live;
    hide SlotType;
    forall i | 0 <= i < DIRENT_COUNT && Live(e, i) ensures Entry(e, i) && Kept(d, e, i) {
      assert Entry(d, i);
    }
    forall i, k | 0 <= i < DIRENT_COUNT && 0 <= k < DIRENT_COUNT && i != k && Live(e, i) && Live(e, k)
      ensures Unshared(e, i, k)
    {
      assert Unshared(d, i, k);
    }
  }

  /** A data block that only slot `but`, or nobody, may own. */
  lemma DataStep(d: Blocks, b: nat, data: Block, but: nat)
    requires Inv(d) && DATA_START_LBA <= b < |d|
    requires forall i, j :: 0 <= i < DIRENT_COUNT && i != but && Live(d, i) && 0 <= j < DIRECT_BLOCKS ==>
              Direct(FileInode(d, i), j) != b
    ensures Inv(d[b := data]) && KeptBut(d, d[b := data], but)
    ensures forall i :: 0 <= i < DIRENT_COUNT ==>
              Ino(d[b := data], i) == Ino(d, i) && FileInode(d[b := data], i) == FileInode(d, i)
  {
    var e := d[b := data];
    SameInodes(d, e);
    hide LoadU32, LoadU16, TestBit, FileInode, SuperOk, RootOk, NoRepeats, OwnsNothingOf, BlocksFor, Ino, Live;
    forall i | 0 <= i < DIRENT_COUNT && Live(e, i) ensures Entry(e, i) {
      assert Entry(d, i);
    }
    forall i, k | 0 <= i < DIRENT_COUNT && 0 <= k < DIRENT_COUNT && i != k && Live(e, i) && Live(e, k)
      ensures Unshared(e, i, k)
    {
      assert Unshared(d, i, k);
    }
  }

  /** What an inode write changes at all. */
  lemma PatchFrame(d: Blocks, ino: nat, buf: InodeBuf)
    requires Inv(d) && 2 <= ino <= MAX_INODES
    ensures var e := PatchInode(d, ino, buf);
            && BaseOk(e)
            && e[INODE_BMAP_LBA] == d[INODE_BMAP_LBA] && e[BLOCK_BMAP_LBA] == d[BLOCK_BMAP_LBA]
            && e[ROOT_DIR_LBA] == d[ROOT_DIR_LBA]
            && forall l :: DATA_START_LBA <= l < |d| ==> e[l] == d[l]
  {
    hide LoadU32, LoadU16, TestBit, SuperOk, InodeAt, InodeLba, InodeOff, Splice;
    InodeLbaRange(ino);
    InodeAtPatch(d, ino, buf, ROOT_INO);
  }

  /** Who sees an inode write. */
  lemma PatchedInodes(d: Blocks, ino: nat, buf: InodeBuf)
    requires Device(d) && 2 <= ino <= MAX_INODES
    ensures var e := PatchInode(d, ino, buf);
            forall i :: 0 <= i < DIRENT_COUNT ==>
              && Ino(e, i) == Ino(d, i) && Live(e, i) == Live(d, i)
              && FileInode(e, i) == if Ino(d, i) == ino then buf else FileInode(d, i)
  {
    hide LoadU32, FileInode, PatchInode;
    var e := PatchInode(d, ino, buf);
    forall i | 0 <= i < DIRENT_COUNT
      ensures Ino(e, i) == Ino(d, i) && Live(e, i) == Live(d, i)
      ensures FileInode(e, i) == if Ino(d, i) == ino then buf else FileInode(d, i)
    {
      FileInodePatch(d, ino, buf, i);
    }
  }

  /** Writing the inode of no live slot. */
  lemma FreeInodeStep(d: Blocks, ino: nat, buf: InodeBuf)
    requires Inv(d) && 2 <= ino <= MAX_INODES
    requires forall i :: 0 <= i < DIRENT_COUNT && Live(d, i) ==> Ino(d, i) != ino
    ensures Inv(PatchInode(d, ino, buf)) && KeptBut(d, PatchInode(d, ino, buf), NOBODY)
  {
    hide LoadU32, LoadU16, TestBit, FileInode, BaseOk, NoRepeats, OwnsNothingOf, BlocksFor, Ino, PatchInode, Live;
    hide InodeFine, SlotType;
    var e := PatchInode(d, ino, buf);
    PatchFrame(d, ino, buf);
    PatchedInodes(d, ino, buf);
    forall i | 0 <= i < DIRENT_COUNT && Live(e, i) ensures Entry(e, i) && Kept(d, e, i) {
      assert Entry(d, i);
      InodeFineSame(d, e, FileInode(d, i));
      FineBlocks(d, FileInode(d, i));
    }
    forall i, k | 0 <= i < DIRENT_COUNT && 0 <= k < DIRENT_COUNT && i != k && Live(e, i) && Live(e, k)
      ensures Unshared(e, i, k)
    {
      assert Unshared(d, i, k);
    }
  }

  lemma InodeFineSame(d: Blocks, e: Blocks, inode: InodeBuf)
    requires Device(d) && |e| == |d| && e[BLOCK_BMAP_LBA] == d[BLOCK_BMAP_LBA]
    ensures InodeFine(e, inode) == InodeFine(d, inode)
  {
    hide LoadU32, LoadU16, TestBit, BlocksFor, NoRepeats;
  }

  lemma FineBlocks(d: Blocks, inode: InodeBuf)
    requires Device(d) && InodeFine(d, inode)
    ensures forall j :: 0 <= j < DIRECT_BLOCKS && Direct(inode, j) != 0 ==> DATA_START_LBA <= Direct(inode, j) < |d|
  {
    hide LoadU32, LoadU16, TestBit, BlocksFor, NoRepeats;
  }

  /** Slot s changed, the others not: sharing has to be checked against s only. */
  lemma UnsharedAfterReplacing(d: Blocks, e: Blocks, s: nat)
    requires Inv(d) && Device(e) && s < DIRENT_COUNT
    requires forall i :: 0 <= i < DIRENT_COUNT && i != s && Live(e, i) ==>
               && Live(d, i) && Ino(e, i) == Ino(d, i) && FileInode(e, i) == FileInode(d, i)
               && Ino(e, s) != Ino(d, i) && OwnsNothingOf(FileInode(e, s), FileInode(d, i))
    ensures forall i, k :: 0 <= i < DIRENT_COUNT && 0 <= k < DIRENT_COUNT && i != k && Live(e, i) && Live(e, k) ==>
              Unshared(e, i, k)
  {
    hide LoadU32, FileInode, BaseOk, Entry, OwnsNothingOf, Ino, Live;
    forall i, k | 0 <= i < DIRENT_COUNT && 0 <= k < DIRENT_COUNT && i != k && Live(e, i) && Live(e, k)
      ensures Unshared(e, i, k)
    {
      if i == s {
        assert OwnsNothingOf(FileInode(e, s), FileInode(d, k));
      } else if k == s {
        OwnsSymmetric(FileInode(e, s), FileInode(d, i));
      } else {
        assert Unshared(d, i, k);
      }
    }
  }

  /** Writing the inode of live slot s with fine contents that share nothing with the other slots. */
  lemma LiveInodeStep(d: Blocks, s: nat, buf: InodeBuf)
    requires Inv(d) && s < DIRENT_COUNT && Live(d, s) && InodeFine(d, buf)
    requires forall i :: 0 <= i < DIRENT_COUNT && i != s && Live(d, i) ==> OwnsNothingOf(buf, FileInode(d, i))
    ensures 2 <= Ino(d, s) <= MAX_INODES
    ensures var e := PatchInode(d, Ino(d, s), buf);
            Inv(e) && KeptBut(d, e, s) && Live(e, s) && FileInode(e, s) == buf && e[ROOT_DIR_LBA] == d[ROOT_DIR_LBA]
            && forall l :: DATA_START_LBA <= l < |d| ==> e[l] == d[l]
  {
    hide LoadU32, LoadU16, TestBit, FileInode, BaseOk, NoRepeats, OwnsNothingOf, BlocksFor, Ino, PatchInode, Live;
    hide InodeFine, SlotType;
    assert Entry(d, s);
    var ino := Ino(d, s);
    var e := PatchInode(d, ino, buf);
    PatchFrame(d, ino, buf);
    PatchedInodes(d, ino, buf);
    forall i | 0 <= i < DIRENT_COUNT && i != s && Live(e, i) ensures Ino(e, s) != Ino(d, i) {
      assert Unshared(d, i, s);
    }
    forall i | 0 <= i < DIRENT_COUNT && Live(e, i) ensures Entry(e, i) {
      assert Entry(d, i);
      InodeFineSame(d, e, FileInode(e, i));
    }
    forall i | 0 <= i < DIRENT_COUNT && i != s && Live(e, i) ensures Kept(d, e, i) {
      assert Entry(d, i);
      FineBlocks(d, FileInode(d, i));
    }
    UnsharedAfterReplacing(d, e, s);
  }

  lemma DirFrame(d: Blocks, dir: Block, i: nat)
    requires Device(d) && i < DIRENT_COUNT && SlotIno(dir, i) == SlotIno(d[ROOT_DIR_LBA], i)
    ensures FileInode(d[ROOT_DIR_LBA := dir], i) == FileInode(d, i)
  {
    hide LoadU32;
    if 1 <= Ino(d, i) <= MAX_INODES {
      InodeLbaRange(Ino(d, i));
    }
  }

  lemma DirBase(d: Blocks, dir: Block)
    requires Device(d) && BaseOk(d)
    ensures BaseOk(d[ROOT_DIR_LBA := dir])
  {
    hide LoadU32, LoadU16, TestBit, SuperOk;
    InodeLbaRange(ROOT_INO);
  }

  /** Slot i of directory block `dir` holds the same entry as on disk d. */
  ghost predicate SameEntry(d: Blocks, e: Blocks, i: nat)
    requires Device(d) && Device(e) && i < DIRENT_COUNT
  {
    && Ino(e, i) == Ino(d, i) && FileInode(e, i) == FileInode(d, i) && Live(e, i) == Live(d, i)
    && SlotType(e[ROOT_DIR_LBA], i) == SlotType(d[ROOT_DIR_LBA], i)
    && forall c :: 0 <= c < MAX_NAME ==> NameChar(e[ROOT_DIR_LBA], 0, i, c) == NameChar(d[ROOT_DIR_LBA], 0, i, c)
  }

  /** What rewriting one slot leaves alone. */
  lemma SlotFrame(d: Blocks, slot: nat, field: seq<byte>)
    requires Device(d) && BaseOk(d) && slot < DIRENT_COUNT && |field| == DIRENT_SIZE
    ensures var e := d[ROOT_DIR_LBA := Splice(d[ROOT_DIR_LBA], DIRENT_SIZE * slot, field)];
            BaseOk(e) && forall i :: 0 <= i < DIRENT_COUNT && i != slot ==> SameEntry(d, e, i)
  {
    hide LoadU32, TestBit, BaseOk, FileInode, InodeAt, Splice, NameChar;
    var dir := Splice(d[ROOT_DIR_LBA], DIRENT_SIZE * slot, field);
    var e := d[ROOT_DIR_LBA := dir];
    DirBase(d, dir);
    forall i | 0 <= i < DIRENT_COUNT && i != slot ensures SameEntry(d, e, i) {
      OtherSlotSame(d[ROOT_DIR_LBA], slot, field, i);
      DirFrame(d, dir, i);
    }
  }

  lemma LinkFrame(d: Blocks, slot: nat, ino: nat, name: CString)
    requires Device(d) && BaseOk(d) && slot < DIRENT_COUNT && 2 <= ino <= MAX_INODES && |name| <= MAX_NAME
    ensures var e := d[ROOT_DIR_LBA := SetSlot(d[ROOT_DIR_LBA], slot, ino, name)];
            && BaseOk(e) && (forall i :: 0 <= i < DIRENT_COUNT && i != slot ==> SameEntry(d, e, i))
            && Ino(e, slot) == ino && FileInode(e, slot) == InodeAt(d, ino) && Live(e, slot)
            && SlotType(e[ROOT_DIR_LBA], slot) == MODE_FILE
  {
    hide LoadU32, TestBit, BaseOk, SameEntry, Splice;
    NewSlotFields(d[ROOT_DIR_LBA], slot, ino, name);
    SlotFrame(d, slot, SlotBytes(ino, name));
    InodeLbaRange(ino);
  }

  /** Linking a name to an allocated, fine inode that nobody uses. */
  lemma LinkStep(d: Blocks, slot: nat, ino: nat, name: CString)
    requires Inv(d) && slot < DIRENT_COUNT && !Live(d, slot) && 2 <= ino <= MAX_INODES && |name| <= MAX_NAME
    requires TestBit(d[INODE_BMAP_LBA], ino) && InodeFine(d, InodeAt(d, ino))
    requires forall i :: 0 <= i < DIRENT_COUNT && Live(d, i) ==>
               Ino(d, i) != ino && OwnsNothingOf(InodeAt(d, ino), FileInode(d, i))
    ensures var e := d[ROOT_DIR_LBA := SetSlot(d[ROOT_DIR_LBA], slot, ino, name)];
            Inv(e) && KeptBut(d, e, slot) && Ino(e, slot) == ino && FileInode(e, slot) == InodeAt(d, ino)
  {
    hide LoadU32, LoadU16, TestBit, FileInode, BaseOk, NoRepeats, OwnsNothingOf, BlocksFor;
    hide Ino, SetSlot, Live, SlotType, NameChar, InodeAt, InodeFine;
    var e := d[ROOT_DIR_LBA := SetSlot(d[ROOT_DIR_LBA], slot, ino, name)];
    LinkFrame(d, slot, ino, name);
    forall i | 0 <= i < DIRENT_COUNT && i != slot
      ensures Live(e, i) == Live(d, i) && Ino(e, i) == Ino(d, i) && FileInode(e, i) == FileInode(d, i)
    {
      assert SameEntry(d, e, i);
    }
    InodeFineSame(d, e, InodeAt(d, ino));
    forall i | 0 <= i < DIRENT_COUNT && i != slot && Live(e, i) ensures Entry(e, i) && Kept(d, e, i) {
      assert Entry(d, i) && SameEntry(d, e, i);
      InodeFineSame(d, e, FileInode(d, i));
      FineBlocks(d, FileInode(d, i));
    }
    UnsharedAfterReplacing(d, e, slot);
  }

  lemma UnlinkFrame(d: Blocks, slot: nat)
    requires Device(d) && BaseOk(d) && slot < DIRENT_COUNT
    ensures var e := d[ROOT_DIR_LBA := ClearSlot(d[ROOT_DIR_LBA], slot)];
            BaseOk(e) && (forall i :: 0 <= i < DIRENT_COUNT && i != slot ==> SameEntry(d, e, i)) && !Live(e, slot)
  {
    hide LoadU32, TestBit, BaseOk, SameEntry, Splice;
    ClearedSlotIsFree(d[ROOT_DIR_LBA], slot);
    SlotFrame(d, slot, Zeros(DIRENT_SIZE));
  }

  /** Unlinking a name. */
  lemma UnlinkStep(d: Blocks, slot: nat)
    requires Inv(d) && slot < DIRENT_COUNT
    ensures var e := d[ROOT_DIR_LBA := ClearSlot(d[ROOT_DIR_LBA], slot)];
            Inv(e) && KeptBut(d, e, slot) && !Live(e, slot)
  {
    hide LoadU32, LoadU16, TestBit, FileInode, BaseOk, NoRepeats, OwnsNothingOf, BlocksFor;
    hide Ino, ClearSlot, Live, SlotType, NameChar, InodeAt, InodeFine;
    var e := d[ROOT_DIR_LBA := ClearSlot(d[ROOT_DIR_LBA], slot)];
    UnlinkFrame(d, slot);
    forall i | 0 <= i < DIRENT_COUNT && i != slot
      ensures Live(e, i) == Live(d, i) && Ino(e, i) == Ino(d, i) && FileInode(e, i) == FileInode(d, i)
    {
      assert SameEntry(d, e, i);
    }
    forall i | 0 <= i < DIRENT_COUNT && Live(e, i) ensures Entry(e, i) && Kept(d, e, i) {
      assert Entry(d, i) && SameEntry(d, e, i);
      InodeFineSame(d, e, FileInode(d, i));
      FineBlocks(d, FileInode(d, i));
    }
    forall i, k | 0 <= i < DIRENT_COUNT && 0 <= k < DIRENT_COUNT && i != k && Live(e, i) && Live(e, k)
      ensures Unshared(e, i, k)
    {
      assert Unshared(d, i, k);
    }
  }
}
