/** Every operation of MCSFS1, cut at any block write, keeps the invariant and every other file. */
module Mcsfs1Ops {
  import opened Bytes
  import opened Disk
  import opened Mcsfs1
  import opened Mcsfs1Inv

  lemma InvDevice(d: Blocks)
    requires Inv(d)
    ensures Device(d) && DATA_START_LBA <= |d| <= 8 * BLOCK_SIZE && |d| <= 4096
    ensures INODE_BMAP_LBA < DATA_START_LBA && BLOCK_BMAP_LBA < DATA_START_LBA && ROOT_DIR_LBA < DATA_START_LBA
  {
  }

  // ----- Bitmaps -----

  lemma StoreBmapsKeeps(d: Dev, ib: Block, bb: Block)
    requires Inv(d.disk)
    requires CoversUse(d.disk, ib, d.disk[BLOCK_BMAP_LBA]) && CoversUse(d.disk, ib, bb)
    ensures var r := StoreBmaps(d, ib, bb);
            && Inv(r.dev.disk) && KeptBut(d.disk, r.dev.disk, NOBODY)
            && (r.rc == Ok || r.rc == Io) && (d.power < 0 ==> r.rc == Ok && r.dev.power < 0)
            && (r.rc == Ok ==> r.dev.disk == d.disk[INODE_BMAP_LBA := ib][BLOCK_BMAP_LBA := bb])
            && forall l :: 0 <= l < |d.disk| && l != INODE_BMAP_LBA && l != BLOCK_BMAP_LBA ==>
                 r.dev.disk[l] == d.disk[l]
  {
    assert Device(d.disk);
    KeptReflexive(d.disk);
    hide Inv, CoversUse, KeptBut;
    if d.power != 0 {
      BitmapStep(d.disk, d.disk[INODE_BMAP_LBA := ib]);
      BitmapStep(d.disk, d.disk[INODE_BMAP_LBA := ib][BLOCK_BMAP_LBA := bb]);
    }
  }

  /** Setting more bits covers what was covered. */
  lemma CoversMore(d: Blocks, ino: nat, lba: nat)
    requires Inv(d) && ino <= MAX_INODES && lba < |d|
    ensures CoversUse(d, d[INODE_BMAP_LBA], SetBit(d[BLOCK_BMAP_LBA], lba))
    ensures CoversUse(d, SetBit(d[INODE_BMAP_LBA], ino), d[BLOCK_BMAP_LBA])
    ensures CoversUse(d, SetBit(d[INODE_BMAP_LBA], ino), SetBit(d[BLOCK_BMAP_LBA], lba))
  {
    InvCovers(d);
    hide LoadU32, TestBit, FileInode, Inv;
  }

  /** A block whose bit is clear is owned by nobody. */
  lemma ClearBitIsUnowned(d: Blocks, lba: nat, i: nat, j: nat)
    requires Inv(d) && lba < |d| && !TestBit(d[BLOCK_BMAP_LBA], lba) && i < DIRENT_COUNT && Live(d, i)
    requires j < DIRECT_BLOCKS
    ensures Direct(FileInode(d, i), j) != lba || lba == 0
  {
    hide LoadU32, TestBit, FileInode, BaseOk, NoRepeats;
    assert Entry(d, i);
  }

  lemma ClearBitIsUnlinked(d: Blocks, ino: nat, i: nat)
    requires Inv(d) && ino <= MAX_INODES && !TestBit(d[INODE_BMAP_LBA], ino) && i < DIRENT_COUNT && Live(d, i)
    ensures Ino(d, i) != ino
  {
    hide LoadU32, TestBit, FileInode, BaseOk, NoRepeats;
    assert Entry(d, i);
  }

  // ----- Create -----

  lemma NewInodeFields(first: u32, j: nat)
    requires j < DIRECT_BLOCKS
    ensures var b := NewInode(MODE_FILE, 0, first);
            Mode(b) == MODE_FILE && Size(b) == 0 && Direct(b, j) == if j == 0 then first else 0
  {
    hide LoadU32;
    LoadZeros(INODE_SIZE, 8 + 4 * j);
  }

  lemma NewInodeFine(d: Blocks, lba: u32)
    requires Device(d) && GoodBlock(d, lba)
    ensures InodeFine(d, NewInode(MODE_FILE, 0, lba))
  {
    hide LoadU32, LoadU16, TestBit, NewInode;
    forall j | 0 <= j < DIRECT_BLOCKS ensures Direct(NewInode(MODE_FILE, 0, lba), j) == if j == 0 then lba else 0 {
      NewInodeFields(lba, j);
    }
    NewInodeFields(lba, 0);
  }

  /** e is d with one new, empty file called name in a slot that was free. */
  ghost predicate CreatedAt(d: Blocks, e: Blocks, slot: nat, name: CString)
    requires Device(d) && Device(e) && |name| <= MAX_NAME
  {
    && slot < DIRENT_COUNT && !Live(d, slot) && Live(e, slot) && KeptBut(d, e, slot)
    && Size(FileInode(e, slot)) == 0
    && forall c :: 0 <= c < MAX_NAME ==> NameChar(e[ROOT_DIR_LBA], 0, slot, c) == if c < |name| then name[c] else 0
  }

  lemma AddFileKeeps(d: Dev, slot: nat, ino: nat, lba: nat, name: CString)
    requires Inv(d.disk) && slot < DIRENT_COUNT && !Live(d.disk, slot) && |name| <= MAX_NAME
    requires 2 <= ino <= MAX_INODES && !TestBit(d.disk[INODE_BMAP_LBA], ino)
    requires DATA_START_LBA <= lba < |d.disk| && !TestBit(d.disk[BLOCK_BMAP_LBA], lba)
    ensures var r := AddFile(d, slot, ino, lba, name);
            && Inv(r.dev.disk) && (r.rc == Ok || r.rc == Io) && (d.power < 0 ==> r.rc == Ok)
            && (r.rc != Ok ==> KeptBut(d.disk, r.dev.disk, NOBODY))
            && (r.rc == Ok ==> CreatedAt(d.disk, r.dev.disk, slot, name))
  {
    assert Device(d.disk);
    var ib, bb := SetBit(d.disk[INODE_BMAP_LBA], ino), SetBit(d.disk[BLOCK_BMAP_LBA], lba);
    CoversMore(d.disk, ino, lba);
    StoreBmapsKeeps(d, ib, bb);
    var a := StoreBmaps(d, ib, bb);
    if a.rc == Ok {
      AddFileAfterBitmaps(d.disk, a.dev, slot, ino, lba, name);
    }
  }

  lemma AddFileAfterBitmaps(d: Blocks, a: Dev, slot: nat, ino: nat, lba: nat, name: CString)
    requires Inv(d) && slot < DIRENT_COUNT && !Live(d, slot) && |name| <= MAX_NAME
    requires 2 <= ino <= MAX_INODES && !TestBit(d[INODE_BMAP_LBA], ino)
    requires DATA_START_LBA <= lba < |d| && !TestBit(d[BLOCK_BMAP_LBA], lba)
    requires a.disk == d[INODE_BMAP_LBA := SetBit(d[INODE_BMAP_LBA], ino)]
                        [BLOCK_BMAP_LBA := SetBit(d[BLOCK_BMAP_LBA], lba)]
    requires Inv(a.disk) && KeptBut(d, a.disk, NOBODY)
    ensures var b := WriteInode(a, ino, NewInode(MODE_FILE, 0, lba));
            var r := if b.rc != Ok then b else Put(b.dev, ROOT_DIR_LBA, SetSlot(d[ROOT_DIR_LBA], slot, ino, name));
            && Inv(r.dev.disk) && (r.rc == Ok || r.rc == Io) && (a.power < 0 ==> r.rc == Ok)
            && (r.rc != Ok ==> KeptBut(d, r.dev.disk, NOBODY))
            && (r.rc == Ok ==> CreatedAt(d, r.dev.disk, slot, name))
  {
    hide Inv, KeptBut, LoadU32, TestBit, InodeAt, FileInode, Kept, NewInode, SetSlot;
    hide OwnsNothingOf, InodeFine, BaseOk, InodeLba, InodeOff, Splice, SetBit, Live, Ino;
    InvDevice(d);
    InvDevice(a.disk);
    var inode := NewInode(MODE_FILE, 0, lba);
    var e := PatchInode(a.disk, ino, inode);
    InodeLbaRange(ino);
    NewInodeApart(d, a.disk, ino, lba);
    FreeInodeStep(a.disk, ino, inode);
    PatchFrame(a.disk, ino, inode);
    InodeAtPatch(a.disk, ino, inode, ino);
    BlockIsGood(e, lba);
    NewInodeFine(e, lba);
    NewInodeFields(lba, 0);
    NewSlotFields(d[ROOT_DIR_LBA], slot, ino, name);
    StaysApart(a.disk, e, ino, inode);
    SlotFree(d, a.disk, slot);
    SlotFree(a.disk, e, slot);
    LinkStep(e, slot, ino, name);
    KeptTransitive(d, a.disk, e, NOBODY);
    KeptWeaken(d, e, slot);
    var f := e[ROOT_DIR_LBA := SetSlot(e[ROOT_DIR_LBA], slot, ino, name)];
    KeptTransitive(d, e, f, slot);
    LiveIs(f, slot);
  }

  lemma LiveIs(d: Blocks, i: nat)
    requires Device(d) && i < DIRENT_COUNT
    ensures Live(d, i) <==> Ino(d, i) != 0
  {
  }

  /** The new inode belongs to no live slot and shares no block with one. */
  lemma NewInodeApart(d: Blocks, a: Blocks, ino: nat, lba: nat)
    requires Inv(d) && 2 <= ino <= MAX_INODES && !TestBit(d[INODE_BMAP_LBA], ino)
    requires DATA_START_LBA <= lba < |d| && !TestBit(d[BLOCK_BMAP_LBA], lba)
    requires |a| == |d| && forall l :: INODE_TABLE_LBA <= l <= ROOT_DIR_LBA ==> a[l] == d[l]
    ensures Device(a)
    ensures forall i :: 0 <= i < DIRENT_COUNT && Live(a, i) ==>
              Ino(a, i) != ino && OwnsNothingOf(NewInode(MODE_FILE, 0, lba), FileInode(a, i))
  {
    hide Inv, LoadU32, TestBit, FileInode, NewInode, Live, Ino;
    InvDevice(d);
    SameInodes(d, a);
    var inode := NewInode(MODE_FILE, 0, lba);
    forall i | 0 <= i < DIRENT_COUNT && Live(a, i) ensures Ino(a, i) != ino && OwnsNothingOf(inode, FileInode(a, i)) {
      ClearBitIsUnlinked(d, ino, i);
      forall j, k | 0 <= j < DIRECT_BLOCKS && 0 <= k < DIRECT_BLOCKS && Direct(inode, j) != 0
        ensures Direct(inode, j) != Direct(FileInode(a, i), k)
      {
        NewInodeFields(lba, j);
        ClearBitIsUnowned(d, lba, i, k);
      }
    }
  }

  lemma StaysApart(a: Blocks, e: Blocks, ino: nat, inode: InodeBuf)
    requires KeptBut(a, e, NOBODY)
    requires forall i :: 0 <= i < DIRENT_COUNT && Live(a, i) ==>
              Ino(a, i) != ino && OwnsNothingOf(inode, FileInode(a, i))
    ensures forall i :: 0 <= i < DIRENT_COUNT && Live(e, i) ==>
              Ino(e, i) != ino && OwnsNothingOf(inode, FileInode(e, i))
  {
    hide LoadU32, FileInode, OwnsNothingOf, Ino, Live;
    forall i | 0 <= i < DIRENT_COUNT && Live(e, i) ensures Ino(e, i) != ino && OwnsNothingOf(inode, FileInode(e, i)) {
      assert Live(a, i) && Kept(a, e, i);
    }
  }

  lemma SlotFree(d: Blocks, e: Blocks, slot: nat)
    requires KeptBut(d, e, NOBODY) && slot < DIRENT_COUNT && !Live(d, slot)
    ensures !Live(e, slot)
  {
    hide Live, Kept;
  }

  lemma BlockIsGood(e: Blocks, lba: nat)
    requires Device(e) && DATA_START_LBA <= lba < |e| && TestBit(e[BLOCK_BMAP_LBA], lba)
    ensures GoodBlock(e, lba)
  {
  }

  lemma KeptInode(d: Blocks, e: Blocks, i: nat)
    requires Device(d) && Device(e) && i < DIRENT_COUNT && Kept(d, e, i)
    ensures FileInode(e, i) == FileInode(d, i) && Ino(e, i) == Ino(d, i) && Live(e, i) == Live(d, i)
  {
  }

  /** Create, cut anywhere: the invariant holds; the new file exists exactly when Ok is returned. */
  lemma CreateKeeps(d: Dev, past: byte, name: CString)
    requires Inv(d.disk)
    ensures var r := Create(d, past, name);
            && Inv(r.dev.disk)
            && (r.rc != Ok ==> KeptBut(d.disk, r.dev.disk, NOBODY))
            && (r.rc == Ok ==> |name| <= MAX_NAME && exists slot :: CreatedAt(d.disk, r.dev.disk, slot, name))
  {
    hide Inv, LoadU32, TestBit, KeptBut, FindSlot, AddFile, CreatedAt;
    InvDevice(d.disk);
    KeptReflexive(d.disk);
    var slot := FindFreeSlot(d.disk[ROOT_DIR_LBA], 0);
    var ino := FindClearBit(d.disk[INODE_BMAP_LBA], 2, MAX_INODES + 1);
    var lba := FindClearBit(d.disk[BLOCK_BMAP_LBA], DATA_START_LBA, |d.disk|);
    if slot < DIRENT_COUNT && ino <= MAX_INODES && lba < |d.disk| && ValidName(name) == Ok {
      AddFileKeeps(d, slot, ino, lba, name);
    }
  }

  // ----- Write -----

  /** An in-memory inode for live slot s: its blocks are allocated, distinct and not used by others;
      the first n pointers are filled. */
  ghost predicate Partial(d: Blocks, s: nat, inode: InodeBuf, n: nat)
    requires Device(d) && s < DIRENT_COUNT && n <= DIRECT_BLOCKS
  {
    && Mode(inode) == MODE_FILE && NoRepeats(inode)
    && (forall j :: 0 <= j < DIRECT_BLOCKS && Direct(inode, j) != 0 ==> GoodBlock(d, Direct(inode, j)))
    && (forall j :: 0 <= j < n ==> Direct(inode, j) != 0)
    && (forall i :: 0 <= i < DIRENT_COUNT && i != s && Live(d, i) ==> OwnsNothingOf(inode, FileInode(d, i)))
  }

  lemma OnDiskInodeIsPartial(d: Blocks, s: nat)
    requires Inv(d) && s < DIRENT_COUNT && Live(d, s)
    ensures Partial(d, s, FileInode(d, s), 0)
  {
    hide LoadU32, LoadU16, TestBit, FileInode, BaseOk, NoRepeats, OwnsNothingOf;
    assert Entry(d, s);
    forall i | 0 <= i < DIRENT_COUNT && i != s && Live(d, i) ensures OwnsNothingOf(FileInode(d, s), FileInode(d, i)) {
      assert Unshared(d, s, i);
    }
  }

  lemma SetDirectFields(inode: InodeBuf, i: nat, lba: u32, j: nat)
    requires i < DIRECT_BLOCKS && j < DIRECT_BLOCKS
    ensures var r := SetDirect(inode, i, lba);
            && Direct(r, j) == (if j == i then lba else Direct(inode, j))
            && Mode(r) == Mode(inode) && Size(r) == Size(inode)
  {
    hide LoadU32;
  }

  /** One allocation: the fresh block goes into hole i. */
  lemma PartialStep(d: Blocks, s: nat, inode: InodeBuf, i: nat, lba: nat, e: Blocks)
    requires Inv(d) && s < DIRENT_COUNT && i < DIRECT_BLOCKS && Partial(d, s, inode, i) && Direct(inode, i) == 0
    requires DATA_START_LBA <= lba < |d| && !TestBit(d[BLOCK_BMAP_LBA], lba)
    requires e == d[BLOCK_BMAP_LBA := SetBit(d[BLOCK_BMAP_LBA], lba)]
    ensures Partial(e, s, SetDirect(inode, i, lba), i + 1)
  {
    var r := SetDirect(inode, i, lba);
    forall j | 0 <= j < DIRECT_BLOCKS
      ensures Direct(r, j) == (if j == i then lba else Direct(inode, j)) && Mode(r) == Mode(inode)
    {
      SetDirectFields(inode, i, lba, j);
    }
    SameInodes(d, e);
    forall k, j | 0 <= k < DIRENT_COUNT && k != s && Live(e, k) && 0 <= j < DIRECT_BLOCKS
      ensures Direct(FileInode(e, k), j) != lba
    {
      ClearBitIsUnowned(d, lba, k, j);
    }
    hide Inv, LoadU32, LoadU16, TestBit, FileInode, SetDirect, Live;
    forall k | 0 <= k < DIRENT_COUNT && k != s && Live(e, k) ensures OwnsNothingOf(r, FileInode(e, k)) {
      assert OwnsNothingOf(inode, FileInode(d, k));
    }
  }

  /** What an allocation, cut anywhere, leaves: only bits are added, so no file changes. */
  ghost predicate AllocOutcome(d: Dev, r: Outcome, out: InodeBuf, s: nat, need: nat)
    requires s < DIRENT_COUNT && need <= DIRECT_BLOCKS
  {
    && Inv(d.disk) && Inv(r.dev.disk) && |r.dev.disk| == |d.disk|
    && KeptBut(d.disk, r.dev.disk, NOBODY) && r.dev.disk[ROOT_DIR_LBA] == d.disk[ROOT_DIR_LBA]
    && (r.rc == Ok || r.rc == Io || r.rc == NoSpc) && (d.power < 0 ==> r.rc != Io && r.dev.power < 0)
    && (r.rc == NoSpc ==> DeviceFull(r.dev.disk))
    && (r.rc == Ok ==> Partial(r.dev.disk, s, out, need))
  }

  ghost predicate DeviceFull(d: Blocks)
    requires Device(d)
  {
    forall b :: DATA_START_LBA <= b < |d| ==> TestBit(d[BLOCK_BMAP_LBA], b)
  }

  lemma AllocOutcomeThen(d: Dev, st: Outcome, r: Outcome, out: InodeBuf, s: nat, need: nat)
    requires s < DIRENT_COUNT && need <= DIRECT_BLOCKS && st.rc == Ok && Inv(d.disk) && |st.dev.disk| == |d.disk|
    requires KeptBut(d.disk, st.dev.disk, NOBODY) && st.dev.disk[ROOT_DIR_LBA] == d.disk[ROOT_DIR_LBA]
    requires (d.power < 0 ==> st.dev.power < 0) && AllocOutcome(st.dev, r, out, s, need)
    ensures AllocOutcome(d, r, out, s, need)
  {
    hide Inv, KeptBut, Partial, DeviceFull;
    KeptTransitive(d.disk, st.dev.disk, r.dev.disk, NOBODY);
  }

  lemma AllocOutcomeStop(d: Dev, rc: Rc, inode: InodeBuf, s: nat, need: nat)
    requires s < DIRENT_COUNT && need <= DIRECT_BLOCKS && Inv(d.disk)
    requires rc == Ok || rc == NoSpc
    requires rc == Ok ==> Partial(d.disk, s, inode, need)
    requires rc == NoSpc ==> DeviceFull(d.disk)
    ensures AllocOutcome(d, Outcome(d, rc), inode, s, need)
  {
    KeptReflexive(d.disk);
    hide Inv, KeptBut, Partial, DeviceFull;
  }

  lemma {:induction false} AllocBlocksKeeps(d: Dev, s: nat, inode: InodeBuf, i: nat, need: nat)
    requires Inv(d.disk) && s < DIRENT_COUNT && Live(d.disk, s) && i <= need <= DIRECT_BLOCKS
    requires Partial(d.disk, s, inode, i)
    ensures AllocOutcome(d, AllocBlocks(d, inode, i, need).0, AllocBlocks(d, inode, i, need).1, s, need)
    decreases need - i
  {
    hide *;
    InvDevice(d.disk);
    AllocBlocksUnfold(d, inode, i, need);
    if i == need {
      AllocOutcomeStop(d, Ok, inode, s, need);
    } else if Direct(inode, i) != 0 {
      PartialSkip(d.disk, s, inode, i);
      AllocBlocksKeeps(d, s, inode, i + 1, need);
    } else {
      var lba := FindClearBit(d.disk[BLOCK_BMAP_LBA], DATA_START_LBA, |d.disk|);
      if lba == |d.disk| {
        FullWhenNoneClear(d.disk);
        AllocOutcomeStop(d, NoSpc, inode, s, need);
      } else {
        AllocOneKeeps(d, s, inode, i, need, lba);
        var st := StoreBmaps(d, d.disk[INODE_BMAP_LBA], SetBit(d.disk[BLOCK_BMAP_LBA], lba));
        if st.rc == Ok {
          var inode' := SetDirect(inode, i, lba);
          InvDevice(st.dev.disk);
          AllocBlocksKeeps(st.dev, s, inode', i + 1, need);
          var (r, out) := AllocBlocks(st.dev, inode', i + 1, need);
          AllocOutcomeThen(d, st, r, out, s, need);
        } else {
          AllocOutcomeCut(d, st, inode, s, need);
        }
      }
    }
  }

  lemma AllocBlocksUnfold(d: Dev, inode: InodeBuf, i: nat, need: nat)
    requires Device(d.disk) && i <= need <= DIRECT_BLOCKS
    ensures i == need ==> AllocBlocks(d, inode, i, need) == (Outcome(d, Ok), inode)
    ensures i < need && Direct(inode, i) != 0 ==> AllocBlocks(d, inode, i, need) == AllocBlocks(d, inode, i + 1, need)
    ensures i < need && Direct(inode, i) == 0 ==>
              var lba := FindClearBit(d.disk[BLOCK_BMAP_LBA], DATA_START_LBA, |d.disk|);
              if lba == |d.disk| then AllocBlocks(d, inode, i, need) == (Outcome(d, NoSpc), inode)
              else
                var st := StoreBmaps(d, d.disk[INODE_BMAP_LBA], SetBit(d.disk[BLOCK_BMAP_LBA], lba));
                AllocBlocks(d, inode, i, need) ==
                  if st.rc != Ok then (st, inode) else AllocBlocks(st.dev, SetDirect(inode, i, lba), i + 1, need)
  {
    hide LoadU32, TestBit, StoreBmaps, SetDirect, SetBit;
  }

  lemma AllocOutcomeCut(d: Dev, st: Outcome, inode: InodeBuf, s: nat, need: nat)
    requires s < DIRENT_COUNT && need <= DIRECT_BLOCKS && Inv(d.disk) && Inv(st.dev.disk) && |st.dev.disk| == |d.disk|
    requires KeptBut(d.disk, st.dev.disk, NOBODY) && st.dev.disk[ROOT_DIR_LBA] == d.disk[ROOT_DIR_LBA]
    requires st.rc == Io && d.power >= 0
    ensures AllocOutcome(d, st, inode, s, need)
  {
    hide Inv, KeptBut, Partial, DeviceFull;
  }

  lemma FullWhenNoneClear(d: Blocks)
    requires Device(d) && FindClearBit(d[BLOCK_BMAP_LBA], DATA_START_LBA, |d|) == |d|
    ensures DeviceFull(d)
  {
    hide TestBit;
  }

  lemma PartialSkip(d: Blocks, s: nat, inode: InodeBuf, i: nat)
    requires Device(d) && s < DIRENT_COUNT && i < DIRECT_BLOCKS && Partial(d, s, inode, i) && Direct(inode, i) != 0
    ensures Partial(d, s, inode, i + 1)
  {
    hide LoadU32, LoadU16, TestBit, FileInode, NoRepeats, OwnsNothingOf;
  }

  lemma AllocOneKeeps(d: Dev, s: nat, inode: InodeBuf, i: nat, need: nat, lba: nat)
    requires Inv(d.disk) && s < DIRENT_COUNT && Live(d.disk, s) && i < need <= DIRECT_BLOCKS
    requires Partial(d.disk, s, inode, i)
    requires Direct(inode, i) == 0 && DATA_START_LBA <= lba < |d.disk| && !TestBit(d.disk[BLOCK_BMAP_LBA], lba)
    ensures var st := StoreBmaps(d, d.disk[INODE_BMAP_LBA], SetBit(d.disk[BLOCK_BMAP_LBA], lba));
            && Inv(st.dev.disk) && KeptBut(d.disk, st.dev.disk, NOBODY)
            && st.dev.disk[ROOT_DIR_LBA] == d.disk[ROOT_DIR_LBA]
            && (st.rc == Ok || st.rc == Io) && (d.power < 0 ==> st.rc == Ok && st.dev.power < 0)
            && (st.rc == Ok ==> Live(st.dev.disk, s) && Partial(st.dev.disk, s, SetDirect(inode, i, lba), i + 1))
  {
    hide Inv, KeptBut, LoadU32, TestBit, SetBit, CoversUse, Partial;
    InvDevice(d.disk);
    InvCovers(d.disk);
    CoversMore(d.disk, ROOT_INO, lba);
    var bb := SetBit(d.disk[BLOCK_BMAP_LBA], lba);
    StoreBmapsKeeps(d, d.disk[INODE_BMAP_LBA], bb);
    PartialStep(d.disk, s, inode, i, lba, d.disk[BLOCK_BMAP_LBA := bb]);
    assert d.disk[INODE_BMAP_LBA := d.disk[INODE_BMAP_LBA]][BLOCK_BMAP_LBA := bb] == d.disk[BLOCK_BMAP_LBA := bb];
  }

  /** The blocks i.. of a partial inode have taken their data; nobody else's data was touched. */
  ghost predicate DataOutcome(d: Dev, r: Outcome, s: nat, inode: InodeBuf, data: seq<byte>, i: nat, need: nat)
    requires s < DIRENT_COUNT && i <= need <= DIRECT_BLOCKS
  {
    && Inv(d.disk) && Inv(r.dev.disk) && |r.dev.disk| == |d.disk|
    && KeptBut(d.disk, r.dev.disk, s) && Live(r.dev.disk, s) && Partial(r.dev.disk, s, inode, need)
    && r.dev.disk[ROOT_DIR_LBA] == d.disk[ROOT_DIR_LBA]
    && (r.rc == Ok || r.rc == Io) && (d.power < 0 ==> r.rc == Ok && r.dev.power < 0)
    && (r.rc == Ok ==> BlocksHold(r.dev.disk, inode, data, i, need))
    && (forall b :: 0 <= b < |d.disk| && (forall j :: i <= j < need ==> Direct(inode, j) != b) ==>
         r.dev.disk[b] == d.disk[b])
  }

  ghost predicate BlocksHold(disk: Blocks, inode: InodeBuf, data: seq<byte>, i: nat, need: nat)
    requires need <= DIRECT_BLOCKS
  {
    forall j :: i <= j < need ==> Direct(inode, j) < |disk| && disk[Direct(inode, j)] == PadBlock(Chunk(data, j))
  }

  lemma DataOutcomeThen(d: Dev, w: Dev, r: Outcome, s: nat, inode: InodeBuf, data: seq<byte>, i: nat, need: nat)
    requires s < DIRENT_COUNT && i < need <= DIRECT_BLOCKS && Inv(d.disk) && Partial(d.disk, s, inode, need)
    requires Direct(inode, i) < |d.disk| && w.disk == d.disk[Direct(inode, i) := PadBlock(Chunk(data, i))]
    requires KeptBut(d.disk, w.disk, s) && w.disk[ROOT_DIR_LBA] == d.disk[ROOT_DIR_LBA] && (d.power < 0 ==> w.power < 0)
    requires DataOutcome(w, r, s, inode, data, i + 1, need)
    ensures DataOutcome(d, r, s, inode, data, i, need)
  {
    hide Inv, KeptBut, Partial, Direct, PadBlock, Chunk, Live, Device;
    InvDevice(d.disk);
    KeptTransitive(d.disk, w.disk, r.dev.disk, s);
    PartialDistinct(d.disk, s, inode, i, need);
    forall b | 0 <= b < |d.disk| && (forall j :: i <= j < need ==> Direct(inode, j) != b)
      ensures r.dev.disk[b] == d.disk[b]
    {
      assert Direct(inode, i) != b;
    }
    if r.rc == Ok {
      assert r.dev.disk[Direct(inode, i)] == w.disk[Direct(inode, i)];
    }
  }

  lemma DataOutcomeStop(d: Dev, rc: Rc, s: nat, inode: InodeBuf, data: seq<byte>, i: nat, need: nat)
    requires s < DIRENT_COUNT && i <= need <= DIRECT_BLOCKS && Inv(d.disk) && Live(d.disk, s)
    requires Partial(d.disk, s, inode, need)
    requires (rc == Ok && i == need) || (rc == Io && d.power >= 0)
    ensures DataOutcome(d, Outcome(d, rc), s, inode, data, i, need)
  {
    KeptReflexive(d.disk);
    KeptWeaken(d.disk, d.disk, s);
    hide Inv, KeptBut, Partial, Live, LoadU32;
  }

  lemma {:induction false} WriteBlocksKeeps(d: Dev, s: nat, inode: InodeBuf, data: seq<byte>, i: nat, need: nat)
    requires Inv(d.disk) && s < DIRENT_COUNT && Live(d.disk, s) && i <= need <= DIRECT_BLOCKS
    requires Partial(d.disk, s, inode, need)
    ensures DataOutcome(d, WriteBlocks(d, inode, data, i, need), s, inode, data, i, need)
    decreases need - i
  {
    hide *;
    InvDevice(d.disk);
    WriteBlocksUnfold(d, inode, data, i, need);
    if i == need {
      DataOutcomeStop(d, Ok, s, inode, data, i, need);
    } else {
      var b, data' := Direct(inode, i), PadBlock(Chunk(data, i));
      DataWriteKeeps(d.disk, s, inode, i, need, data');
      PutCases(d, b, data');
      var w := Put(d, b, data');
      if w.rc == Ok {
        WriteBlocksKeeps(w.dev, s, inode, data, i + 1, need);
        DataOutcomeThen(d, w.dev, WriteBlocks(w.dev, inode, data, i + 1, need), s, inode, data, i, need);
      } else {
        DataOutcomeStop(d, Io, s, inode, data, i, need);
      }
    }
  }

  lemma PutCases(d: Dev, b: u32, data: Block)
    requires b < |d.disk|
    ensures var w := Put(d, b, data);
            if d.power == 0 then w == Outcome(d, Io)
            else w.rc == Ok && w.dev.disk == d.disk[b := data] && (d.power < 0 ==> w.dev.power < 0)
  {
  }

  lemma WriteBlocksUnfold(d: Dev, inode: InodeBuf, data: seq<byte>, i: nat, need: nat)
    requires i <= need <= DIRECT_BLOCKS
    ensures i == need ==> WriteBlocks(d, inode, data, i, need) == Outcome(d, Ok)
    ensures i < need ==>
              var w := Put(d, Direct(inode, i), PadBlock(Chunk(data, i)));
              WriteBlocks(d, inode, data, i, need) ==
                if w.rc != Ok then w else WriteBlocks(w.dev, inode, data, i + 1, need)
  {
    hide LoadU32, PadBlock, Chunk, Put;
  }

  lemma PartialDistinct(d: Blocks, s: nat, inode: InodeBuf, i: nat, need: nat)
    requires Device(d) && s < DIRENT_COUNT && i < need <= DIRECT_BLOCKS && Partial(d, s, inode, need)
    ensures forall j :: i < j < need ==> Direct(inode, j) != Direct(inode, i)
  {
    hide LoadU32, LoadU16, TestBit, FileInode, OwnsNothingOf;
  }

  lemma DataWriteKeeps(d: Blocks, s: nat, inode: InodeBuf, i: nat, need: nat, data: Block)
    requires Inv(d) && s < DIRENT_COUNT && Live(d, s) && i < need <= DIRECT_BLOCKS && Partial(d, s, inode, need)
    ensures DATA_START_LBA <= Direct(inode, i) < |d|
    ensures var e := d[Direct(inode, i) := data];
            Inv(e) && KeptBut(d, e, s) && Live(e, s) && Partial(e, s, inode, need) && FileInode(e, s) == FileInode(d, s)
  {
    var b := Direct(inode, i);
    assert GoodBlock(d, b);
    forall k, j | 0 <= k < DIRENT_COUNT && k != s && Live(d, k) && 0 <= j < DIRECT_BLOCKS
      ensures Direct(FileInode(d, k), j) != b
    {
      assert OwnsNothingOf(inode, FileInode(d, k));
    }
    DataStep(d, b, data, s);
    SameInodes(d, d[b := data]);
    hide Inv, KeptBut, LoadU32, LoadU16, TestBit, FileInode, NoRepeats, OwnsNothingOf, Live;
  }

  /** Blocks that hold the padded chunks read back as the data. */
  lemma {:induction false} ReadBack(disk: Blocks, inode: InodeBuf, data: seq<byte>, i: nat)
    requires |data| <= MAX_FILE && Size(inode) == |data| && i <= DIRECT_BLOCKS
    requires forall j :: 0 <= j < BlocksFor(|data|) ==>
               0 != Direct(inode, j) < |disk| && disk[Direct(inode, j)] == PadBlock(Chunk(data, j))
    ensures ReadFrom(disk, inode, i) == (Ok, data[Min(BLOCK_SIZE * i, |data|)..])
    decreases DIRECT_BLOCKS - i
  {
    hide LoadU32, PadBlock, Chunk, ReadFrom, Direct, Size;
    ReadStep(disk, inode, i);
    if BLOCK_SIZE * i < |data| {
      assert i < BlocksFor(|data|);
      ReadBack(disk, inode, data, i + 1);
      var n := Min(BLOCK_SIZE, |data| - BLOCK_SIZE * i);
      var at := BLOCK_SIZE * i;
      assert Min(BLOCK_SIZE * (i + 1), |data|) == at + n;
      ChunkPrefix(data, i, n);
      assert data[at..] == data[at..at + n] + data[at + n..];
    } else {
      assert data[|data|..] == [];
    }
  }

  lemma ChunkPrefix(data: seq<byte>, i: nat, n: nat)
    requires BLOCK_SIZE * i < |data| && n == Min(BLOCK_SIZE, |data| - BLOCK_SIZE * i)
    ensures PadBlock(Chunk(data, i))[..n] == data[BLOCK_SIZE * i..BLOCK_SIZE * i + n]
  {
  }

  lemma SetSizeFields(inode: InodeBuf, size: u32, j: nat)
    requires j < DIRECT_BLOCKS
    ensures var r := SetSize(inode, size); Size(r) == size && Mode(r) == Mode(inode) && Direct(r, j) == Direct(inode, j)
  {
    hide LoadU32;
  }

  lemma SizedInodeFine(d: Blocks, s: nat, inode: InodeBuf, size: u32)
    requires Device(d) && s < DIRENT_COUNT && size <= MAX_FILE && Partial(d, s, inode, BlocksFor(size))
    ensures InodeFine(d, SetSize(inode, size))
    ensures forall i :: 0 <= i < DIRENT_COUNT && i != s && Live(d, i) ==>
              OwnsNothingOf(SetSize(inode, size), FileInode(d, i))
  {
    var r := SetSize(inode, size);
    forall j | 0 <= j < DIRECT_BLOCKS
      ensures Size(r) == size && Mode(r) == Mode(inode) && Direct(r, j) == Direct(inode, j)
    {
      SetSizeFields(inode, size, j);
    }
    hide LoadU32, LoadU16, TestBit, FileInode, SetSize, BlocksFor;
    assert Size(r) == size && Mode(r) == Mode(inode) by { SetSizeFields(inode, size, 0); }
    forall i | 0 <= i < DIRENT_COUNT && i != s && Live(d, i) ensures OwnsNothingOf(r, FileInode(d, i)) {
      assert OwnsNothingOf(inode, FileInode(d, i));
    }
  }

  /** Writing live slot s, cut anywhere: the invariant holds and every other file is kept.  Ok means
      the file now reads as data; NoSpc means no file changed and the device is full. */
  ghost predicate WriteOutcome(d: Blocks, e: Blocks, s: nat, data: seq<byte>, rc: Rc) {
    && Inv(d) && Inv(e) && s < DIRENT_COUNT && Live(d, s) && Live(e, s) && KeptBut(d, e, s)
    && e[ROOT_DIR_LBA] == d[ROOT_DIR_LBA]
    && (rc == Ok || rc == Io || rc == NoSpc)
    && (rc == Ok ==>
         && |data| <= MAX_FILE && Size(FileInode(e, s)) == |data|
         && ReadFrom(e, FileInode(e, s), 0) == (Ok, data))
    && (rc == NoSpc ==> KeptBut(d, e, NOBODY) && DeviceFull(e))
  }

  lemma WriteContentsKeeps(d: Dev, s: nat, data: seq<byte>)
    requires Inv(d.disk) && s < DIRENT_COUNT && Live(d.disk, s) && |data| <= MAX_FILE
    ensures 2 <= Ino(d.disk, s) <= MAX_INODES
    ensures var r := WriteContents(d, Ino(d.disk, s), FileInode(d.disk, s), data);
            WriteOutcome(d.disk, r.dev.disk, s, data, r.rc) && (d.power < 0 ==> r.rc != Io)
  {
    hide *;
    InvDevice(d.disk);
    LiveIno(d.disk, s);
    var inode, need, ino := FileInode(d.disk, s), BlocksFor(|data|), Ino(d.disk, s);
    OnDiskInodeIsPartial(d.disk, s);
    AllocBlocksKeeps(d, s, inode, 0, need);
    var (a, out) := AllocBlocks(d, inode, 0, need);
    AllocOutcomeFacts(d, a, out, s, need);
    WriteContentsUnfold(d, ino, inode, data);
    var r := WriteContents(d, ino, inode, data);
    KeptWeaken(d.disk, a.dev.disk, s);
    if a.rc == Ok {
      WriteBlocksKeeps(a.dev, s, out, data, 0, need);
      var w := WriteBlocks(a.dev, out, data, 0, need);
      DataOutcomeFacts(a.dev, w, s, out, data, need);
      KeptTransitive(d.disk, a.dev.disk, w.dev.disk, s);
      if w.rc == Ok {
        LiveIno(w.dev.disk, s);
        FinishWrite(w.dev.disk, s, out, data);
        var buf := SetSize(out, |data|);
        KeptTransitive(d.disk, w.dev.disk, PatchInode(w.dev.disk, ino, buf), s);
        WriteInodeCases(w.dev, ino, buf);
      }
    }
    WriteOutcomeFrom(d.disk, r.dev.disk, s, data, r.rc);
  }

  lemma LiveIno(d: Blocks, s: nat)
    requires Inv(d) && s < DIRENT_COUNT && Live(d, s)
    ensures 2 <= Ino(d, s) <= MAX_INODES && Device(d)
    ensures forall e: Blocks :: Device(e) && e[ROOT_DIR_LBA] == d[ROOT_DIR_LBA] ==> Ino(e, s) == Ino(d, s) && Live(e, s)
  {
    assert Entry(d, s);
    hide LoadU32, Entry;
  }

  lemma AllocOutcomeFacts(d: Dev, r: Outcome, out: InodeBuf, s: nat, need: nat)
    requires s < DIRENT_COUNT && need <= DIRECT_BLOCKS && AllocOutcome(d, r, out, s, need)
    ensures Inv(r.dev.disk) && Device(r.dev.disk) && KeptBut(d.disk, r.dev.disk, NOBODY)
    ensures r.dev.disk[ROOT_DIR_LBA] == d.disk[ROOT_DIR_LBA]
    ensures (r.rc == Ok || r.rc == Io || r.rc == NoSpc) && (d.power < 0 ==> r.rc != Io && r.dev.power < 0)
    ensures (r.rc == NoSpc ==> DeviceFull(r.dev.disk)) && (r.rc == Ok ==> Partial(r.dev.disk, s, out, need))
  {
    hide KeptBut, DeviceFull, Partial;
  }

  lemma DataOutcomeFacts(d: Dev, r: Outcome, s: nat, inode: InodeBuf, data: seq<byte>, need: nat)
    requires s < DIRENT_COUNT && need <= DIRECT_BLOCKS && DataOutcome(d, r, s, inode, data, 0, need)
    ensures Inv(r.dev.disk) && Device(r.dev.disk) && KeptBut(d.disk, r.dev.disk, s) && Live(r.dev.disk, s)
    ensures r.dev.disk[ROOT_DIR_LBA] == d.disk[ROOT_DIR_LBA] && Partial(r.dev.disk, s, inode, need)
    ensures (r.rc == Ok || r.rc == Io) && (d.power < 0 ==> r.rc == Ok && r.dev.power < 0)
    ensures r.rc == Ok ==> BlocksHold(r.dev.disk, inode, data, 0, need)
  {
    hide KeptBut, Partial, BlocksHold, Live;
  }

  lemma WriteContentsUnfold(d: Dev, ino: nat, inode: InodeBuf, data: seq<byte>)
    requires Device(d.disk) && 1 <= ino <= MAX_INODES && |data| <= MAX_FILE
    ensures var need := BlocksFor(|data|);
            var (a, out) := AllocBlocks(d, inode, 0, need);
            if a.rc != Ok then WriteContents(d, ino, inode, data) == a
            else
              var w := WriteBlocks(a.dev, out, data, 0, need);
              WriteContents(d, ino, inode, data) ==
                if w.rc != Ok then w else WriteInode(w.dev, ino, SetSize(out, |data|))
  {
    hide AllocBlocks, WriteBlocks, WriteInode, SetSize, BlocksFor;
  }

  lemma WriteInodeCases(d: Dev, ino: nat, buf: InodeBuf)
    requires Device(d.disk) && 1 <= ino <= MAX_INODES
    ensures var w := WriteInode(d, ino, buf);
            if d.power == 0 then w == Outcome(d, Io) else w.rc == Ok && w.dev.disk == PatchInode(d.disk, ino, buf)
  {
    InodeLbaRange(ino);
  }

  lemma WriteOutcomeFrom(d: Blocks, e: Blocks, s: nat, data: seq<byte>, rc: Rc)
    requires Inv(d) && Inv(e) && s < DIRENT_COUNT && Live(d, s) && Live(e, s) && KeptBut(d, e, s)
    requires e[ROOT_DIR_LBA] == d[ROOT_DIR_LBA] && (rc == Ok || rc == Io || rc == NoSpc)
    requires rc == Ok ==>
              |data| <= MAX_FILE && Size(FileInode(e, s)) == |data| && ReadFrom(e, FileInode(e, s), 0) == (Ok, data)
    requires rc == NoSpc ==> KeptBut(d, e, NOBODY) && DeviceFull(e)
    ensures WriteOutcome(d, e, s, data, rc)
  {
    hide KeptBut, DeviceFull, ReadFrom, FileInode, Live;
  }

  /** The final inode write of a complete write. */
  lemma FinishWrite(d: Blocks, s: nat, inode: InodeBuf, data: seq<byte>)
    requires Inv(d) && s < DIRENT_COUNT && Live(d, s) && |data| <= MAX_FILE && Partial(d, s, inode, BlocksFor(|data|))
    requires BlocksHold(d, inode, data, 0, BlocksFor(|data|))
    ensures 2 <= Ino(d, s) <= MAX_INODES
    ensures var e := PatchInode(d, Ino(d, s), SetSize(inode, |data|));
            && Inv(e) && KeptBut(d, e, s) && Live(e, s) && e[ROOT_DIR_LBA] == d[ROOT_DIR_LBA]
            && Size(FileInode(e, s)) == |data| && ReadFrom(e, FileInode(e, s), 0) == (Ok, data)
  {
    var buf := SetSize(inode, |data|);
    SizedInodeFine(d, s, inode, |data|);
    LiveInodeStep(d, s, buf);
    var e := PatchInode(d, Ino(d, s), buf);
    forall j | 0 <= j < DIRECT_BLOCKS ensures Size(buf) == |data| && Direct(buf, j) == Direct(inode, j) {
      SetSizeFields(inode, |data|, j);
    }
    hide Inv, KeptBut, LoadU32, LoadU16, TestBit, SetSize, PatchInode, PadBlock, Chunk, BlocksFor, FileInode, Live, Ino;
    assert Size(buf) == |data| by { SetSizeFields(inode, |data|, 0); }
    forall j | 0 <= j < BlocksFor(|data|)
      ensures 0 != Direct(buf, j) < |e| && e[Direct(buf, j)] == PadBlock(Chunk(data, j))
    {
      assert GoodBlock(d, Direct(inode, j));
    }
    ReadBack(e, buf, data, 0);
    assert data[Min(0, |data|)..] == data;
  }

  // ----- Unlink -----

  lemma {:induction false} ClearDirectBits(bb: Block, inode: InodeBuf, n: nat, j: nat, b: nat)
    requires n <= MAX_DEVICE && j <= DIRECT_BLOCKS && b / 8 < BLOCK_SIZE
    ensures TestBit(ClearDirect(bb, inode, n, j), b) <==>
              TestBit(bb, b) && forall k :: j <= k < DIRECT_BLOCKS && 0 != Direct(inode, k) < n ==>
                Direct(inode, k) != b
    decreases DIRECT_BLOCKS - j
  {
    hide LoadU32, TestBit, ClearBit;
    if j < DIRECT_BLOCKS {
      var bb' := if 0 != Direct(inode, j) < n then ClearBit(bb, Direct(inode, j)) else bb;
      ClearDirectBits(bb', inode, n, j + 1, b);
    }
  }

  lemma OthersApart(d: Blocks, s: nat, e: Blocks)
    requires Inv(d) && s < DIRENT_COUNT && Live(d, s) && KeptBut(d, e, s) && !Live(e, s)
    ensures forall i :: 0 <= i < DIRENT_COUNT && Live(e, i) ==>
              Ino(e, i) != Ino(d, s) && OwnsNothingOf(FileInode(d, s), FileInode(e, i))
  {
    hide LoadU32, FileInode, BaseOk, Entry, NameChar, OwnsNothingOf, SlotType;
    forall i | 0 <= i < DIRENT_COUNT && Live(e, i)
      ensures Ino(e, i) != Ino(d, s) && OwnsNothingOf(FileInode(d, s), FileInode(e, i))
    {
      assert i != s && Live(d, i) && Kept(d, e, i);
      assert Unshared(d, s, i);
    }
  }

  /** What the invariant says of a live slot. */
  lemma LiveEntry(d: Blocks, s: nat)
    requires Inv(d) && s < DIRENT_COUNT && Live(d, s)
    ensures Device(d) && Entry(d, s) && 2 <= Ino(d, s) <= MAX_INODES
    ensures forall j :: 0 <= j < DIRECT_BLOCKS && Direct(FileInode(d, s), j) != 0 ==>
              DATA_START_LBA <= Direct(FileInode(d, s), j) < |d|
  {
    hide LoadU32, LoadU16, TestBit, FileInode, Ino, InodeFine, BaseOk, Unshared;
    assert Entry(d, s);
    FineBlocks(d, FileInode(d, s));
  }

  /** After the name is gone, freeing its inode and blocks still covers everyone else. */
  lemma FreeCovers(d: Blocks, s: nat, e: Blocks)
    requires Inv(d) && s < DIRENT_COUNT && Live(d, s) && Inv(e) && KeptBut(d, e, s) && !Live(e, s)
    requires |e| == |d|
    ensures 2 <= Ino(d, s) <= MAX_INODES
    ensures var ib := ClearBit(e[INODE_BMAP_LBA], Ino(d, s));
            CoversUse(e, ib, e[BLOCK_BMAP_LBA])
            && CoversUse(e, ib, ClearDirect(e[BLOCK_BMAP_LBA], FileInode(d, s), |d|, 0))
  {
    hide Inv, KeptBut, LoadU32, LoadU16, TestBit, FileInode, Live, Ino, ClearDirect, ClearBit, InodeFine, Entry, BaseOk;
    InvDevice(d);
    InvDevice(e);
    LiveEntry(d, s);
    InvCovers(e);
    OthersApart(d, s, e);
    var bb, inode := e[BLOCK_BMAP_LBA], FileInode(d, s);
    var bb' := ClearDirect(bb, inode, |d|, 0);
    forall b | 0 <= b < DATA_START_LBA ensures TestBit(bb', b) {
      ClearDirectBits(bb, inode, |d|, 0, b);
    }
    forall i, j | 0 <= i < DIRENT_COUNT && 0 <= j < DIRECT_BLOCKS && Live(e, i) && 0 != Direct(FileInode(e, i), j) < |e|
      ensures TestBit(bb', Direct(FileInode(e, i), j))
    {
      assert OwnsNothingOf(inode, FileInode(e, i));
      ClearDirectBits(bb, inode, |d|, 0, Direct(FileInode(e, i), j));
    }
  }

  ghost predicate UnlinkOutcome(d: Blocks, e: Blocks, s: nat, rc: Rc) {
    && Inv(d) && Inv(e) && s < DIRENT_COUNT && Live(d, s)
    && (rc == Ok || rc == Io)
    && (KeptBut(d, e, NOBODY) || (KeptBut(d, e, s) && !Live(e, s)))
    && (rc == Ok ==> KeptBut(d, e, s) && !Live(e, s))
  }

  lemma RemoveFileKeeps(d: Dev, s: nat)
    requires Inv(d.disk) && s < DIRENT_COUNT && Live(d.disk, s)
    ensures 2 <= Ino(d.disk, s) <= MAX_INODES
    ensures var r := RemoveFile(d, s, Ino(d.disk, s), FileInode(d.disk, s));
            UnlinkOutcome(d.disk, r.dev.disk, s, r.rc) && (d.power < 0 ==> r.rc == Ok)
  {
    hide LoadU32, LoadU16, TestBit, Entry, FileInode, ClearSlot, ClearBit, ClearDirect;
    hide StoreBmaps, Kept, CoversUse, BaseOk, Live, Inv, KeptBut;
    LiveEntry(d.disk, s);
    var ino, inode := Ino(d.disk, s), FileInode(d.disk, s);
    KeptReflexive(d.disk);
    UnlinkStep(d.disk, s);
    var a := Put(d, ROOT_DIR_LBA, ClearSlot(d.disk[ROOT_DIR_LBA], s));
    if a.rc == Ok {
      FreeCovers(d.disk, s, a.dev.disk);
      var ib := ClearBit(a.dev.disk[INODE_BMAP_LBA], ino);
      var bb := ClearDirect(a.dev.disk[BLOCK_BMAP_LBA], inode, |d.disk|, 0);
      StoreBmapsKeeps(a.dev, ib, bb);
      var b := StoreBmaps(a.dev, ib, bb);
      KeptWeaken(a.dev.disk, b.dev.disk, s);
      KeptTransitive(d.disk, a.dev.disk, b.dev.disk, s);
      StillGone(a.dev.disk, b.dev.disk, s);
      if b.rc == Ok {
        UnlinkedInodeIsFree(d.disk, a.dev.disk, b.dev.disk, s);
        FreeInodeStep(b.dev.disk, ino, Zeros(INODE_SIZE));
        var e := PatchInode(b.dev.disk, ino, Zeros(INODE_SIZE));
        KeptWeaken(b.dev.disk, e, s);
        KeptTransitive(d.disk, b.dev.disk, e, s);
        StillGone(b.dev.disk, e, s);
      }
    }
  }

  lemma StillGone(d: Blocks, e: Blocks, s: nat)
    requires s < DIRENT_COUNT && KeptBut(d, e, NOBODY) && !Live(d, s)
    ensures !Live(e, s)
  {
    hide Kept, Live;
  }

  lemma UnlinkedInodeIsFree(d: Blocks, a: Blocks, b: Blocks, s: nat)
    requires Inv(d) && s < DIRENT_COUNT && Live(d, s) && KeptBut(d, a, s) && !Live(a, s) && KeptBut(a, b, NOBODY)
    ensures forall i :: 0 <= i < DIRENT_COUNT && Live(b, i) ==> Ino(b, i) != Ino(d, s)
  {
    hide LoadU32, FileInode, BaseOk, Entry, NameChar, OwnsNothingOf, SlotType;
    forall i | 0 <= i < DIRENT_COUNT && Live(b, i) ensures Ino(b, i) != Ino(d, s) {
      assert Live(a, i) && i != s;
      assert Unshared(d, i, s);
    }
  }

  // ----- The operations by name, for any name -----

  lemma ResolvedIsLive(d: Blocks, past: byte, name: CString)
    requires Inv(d) && Resolve(d, past, name).Found?
    ensures var t := Resolve(d, past, name);
            Live(d, t.slot) && t.ino == Ino(d, t.slot) && t.inode == FileInode(d, t.slot)
  {
    hide LoadU32, LoadU16;
    assert SlotHolds(d[ROOT_DIR_LBA], past, Resolve(d, past, name).slot, name);
  }

  lemma WriteFileKeeps(d: Dev, past: byte, name: CString, data: seq<byte>)
    requires Inv(d.disk)
    ensures var r, t := WriteFile(d, past, name, data), Resolve(d.disk, past, name);
            if |data| > MAX_FILE then r == Outcome(d, Range)
            else if t.Refused? then r == Outcome(d, t.rc)
            else WriteOutcome(d.disk, r.dev.disk, t.slot, data, r.rc) && (d.power < 0 ==> r.rc != Io)
  {
    assert Device(d.disk);
    hide Inv, Resolve, WriteContents, FileInode, Live;
    var t := Resolve(d.disk, past, name);
    if t.Found? && |data| <= MAX_FILE {
      ResolvedIsLive(d.disk, past, name);
      WriteContentsKeeps(d, t.slot, data);
    }
  }

  lemma UnlinkKeeps(d: Dev, past: byte, name: CString)
    requires Inv(d.disk)
    ensures var r, t := Unlink(d, past, name), Resolve(d.disk, past, name);
            if t.Refused? then r == Outcome(d, t.rc)
            else UnlinkOutcome(d.disk, r.dev.disk, t.slot, r.rc) && (d.power < 0 ==> r.rc == Ok)
  {
    assert Device(d.disk);
    hide Inv, Resolve, RemoveFile, FileInode, Live;
    var t := Resolve(d.disk, past, name);
    if t.Found? {
      ResolvedIsLive(d.disk, past, name);
      RemoveFileKeeps(d, t.slot);
    }
  }
}
