/** Concrete runs of MCSFS1 from format, with any byte behind the buffer: a file whose 27-byte name is lost,
    and a write that is torn. */
module Mcsfs1Cases {
  import opened Bytes
  import opened Disk
  import opened Mcsfs1
  import opened Mcsfs1Inv
  import opened Mcsfs1Ops
  import opened Mcsfs1Files
  import opened Mcsfs1Runs
  import opened Mcsfs1Torn

  // ----- Bitmaps with the first bits set -----

  lemma {:induction false} ClearAfter(n: nat, lo: nat, hi: nat)
    requires n <= lo <= hi <= 8 * BLOCK_SIZE
    ensures CountClear(FirstBits(n), lo, hi) == hi - lo
    decreases hi - lo
  {
    hide FirstBits, TestBit;
    if lo < hi {
      FirstBitsExact(n, lo);
      ClearAfter(n, lo + 1, hi);
    }
  }

  // ----- Files created one after the other on a formatted disk -----

  /** The disk after these names were created, in order, on a formatted one. */
  ghost predicate Stage(disk: Blocks, names: seq<CString>) {
    && Inv(disk) && |names| <= 7
    && disk[INODE_BMAP_LBA] == FirstBits(2 + |names|) && disk[BLOCK_BMAP_LBA] == FirstBits(DATA_START_LBA + |names|)
    && (forall i :: 0 <= i < DIRENT_COUNT ==> SlotIno(disk[ROOT_DIR_LBA], i) == if i < |names| then 2 + i else 0)
    && (forall i :: 0 <= i < |names| ==> Named(disk, i, names[i]))
  }

  lemma DeviceSize(disk: Blocks)
    requires Device(disk)
    ensures MIN_BLOCKS <= |disk| <= MAX_DEVICE
  {
  }

  lemma StageStart(n: nat)
    requires MIN_BLOCKS <= n <= MAX_DEVICE
    ensures Stage(Formatted(n), [])
  {
    hide Formatted, Inv, FirstBits, LoadU32, BaseOk, Named;
    FormattedInv(n);
    FormattedBase(n);
    FormattedBitmaps(n);
    forall i | 0 <= i < DIRENT_COUNT ensures SlotIno(ZERO_BLOCK, i) == 0 {
      LoadZeros(BLOCK_SIZE, DIRENT_SIZE * i);
    }
  }

  lemma FormattedBitmaps(n: nat)
    requires MIN_BLOCKS <= n <= MAX_DEVICE
    ensures Formatted(n)[INODE_BMAP_LBA] == FirstBits(2) && Formatted(n)[BLOCK_BMAP_LBA] == FirstBits(DATA_START_LBA)
  {
    hide SuperBlock, FirstBits, RootInode, InodeLba, InodeOff, Splice;
    InodeLbaRange(ROOT_INO);
  }

  /** One more file: it takes the next slot, inode and block. */
  lemma StageCreate(d: Dev, past: byte, name: CString, names: seq<CString>)
    requires Stage(d.disk, names) && d.power < 0 && |names| < 7 && ValidName(name) == Ok
    requires Device(d.disk) && !(exists i :: Visible(d.disk, past, i, name))
    ensures var r := Create(d, past, name); r.rc == Ok && r.dev.power < 0 && Stage(r.dev.disk, names + [name])
  {
    hide *;
    StageFacts(d.disk, names);
    InvDevice(d.disk);
    var m := |names|;
    StageRoom(d.disk, names);
    FoundIffVisible(d.disk, past, name);
    CreateKeeps(d, past, name);
    InvDevice(Create(d, past, name).dev.disk);
    CreateUnfold(d, past, name, m, 2 + m, DATA_START_LBA + m);
    AddFilePower(d, m, 2 + m, DATA_START_LBA + m, name);
    NextBit(2 + m);
    NextBit(DATA_START_LBA + m);
    StageAfter(d.disk, Create(d, past, name).dev.disk, names, name);
  }

  lemma StageFacts(disk: Blocks, names: seq<CString>)
    requires Stage(disk, names)
    ensures Inv(disk) && |names| <= 7 && MIN_BLOCKS == 16 && DATA_START_LBA == 8 && BLOCK_SIZE == 512
    ensures DIRENT_COUNT == 16
    ensures MAX_INODES == 32 && INODE_BMAP_LBA == 1 && BLOCK_BMAP_LBA == 2 && ROOT_DIR_LBA == 7 && |disk| >= 16
    ensures disk[INODE_BMAP_LBA] == FirstBits(2 + |names|)
    ensures disk[BLOCK_BMAP_LBA] == FirstBits(DATA_START_LBA + |names|)
  {
    hide Named, SlotIno, FirstBits;
  }

  lemma StageRoom(disk: Blocks, names: seq<CString>)
    requires Stage(disk, names) && |names| < 7
    ensures Device(disk) && FindFreeSlot(disk[ROOT_DIR_LBA], 0) == |names|
    ensures FindClearBit(disk[INODE_BMAP_LBA], 2, MAX_INODES + 1) == 2 + |names|
    ensures FindClearBit(disk[BLOCK_BMAP_LBA], DATA_START_LBA, |disk|) == DATA_START_LBA + |names|
  {
    hide Named, SlotIno, FirstBits, FindClearBit, FindFreeSlot;
    InvDevice(disk);
    FirstClear(2 + |names|, 2, MAX_INODES + 1);
    FirstClear(DATA_START_LBA + |names|, DATA_START_LBA, |disk|);
    assert SlotIno(disk[ROOT_DIR_LBA], |names|) == 0;
  }

  lemma CreateUnfold(d: Dev, past: byte, name: CString, slot: nat, ino: nat, lba: nat)
    requires Device(d.disk) && ValidName(name) == Ok && FindSlot(d.disk[ROOT_DIR_LBA], past, name, 0) >= DIRENT_COUNT
    requires FindFreeSlot(d.disk[ROOT_DIR_LBA], 0) == slot < DIRENT_COUNT
    requires FindClearBit(d.disk[INODE_BMAP_LBA], 2, MAX_INODES + 1) == ino <= MAX_INODES
    requires FindClearBit(d.disk[BLOCK_BMAP_LBA], DATA_START_LBA, |d.disk|) == lba < |d.disk|
    ensures 1 <= ino && |name| <= MAX_NAME && Create(d, past, name) == AddFile(d, slot, ino, lba, name)
  {
    hide AddFile, FindSlot, FindFreeSlot, FindClearBit;
  }

  lemma AddFilePower(d: Dev, slot: nat, ino: nat, lba: nat, name: CString)
    requires Device(d.disk) && slot < DIRENT_COUNT && 1 <= ino <= MAX_INODES && lba < |d.disk| && |name| <= MAX_NAME
    requires d.power < 0
    ensures var r := AddFile(d, slot, ino, lba, name);
            && r.rc == Ok && r.dev.power < 0
            && r.dev.disk[INODE_BMAP_LBA] == SetBit(d.disk[INODE_BMAP_LBA], ino)
            && r.dev.disk[BLOCK_BMAP_LBA] == SetBit(d.disk[BLOCK_BMAP_LBA], lba)
            && r.dev.disk[ROOT_DIR_LBA] == SetSlot(d.disk[ROOT_DIR_LBA], slot, ino, name)
  {
    hide SetBit, SetSlot, NewInode, InodeLba, InodeOff, Splice;
    InodeLbaRange(ino);
  }

  lemma StageAfter(d: Blocks, e: Blocks, names: seq<CString>, name: CString)
    requires Stage(d, names) && Inv(e) && |names| < 7 && |name| <= MAX_NAME && Device(e)
    requires e[INODE_BMAP_LBA] == FirstBits(3 + |names|) && e[BLOCK_BMAP_LBA] == FirstBits(DATA_START_LBA + |names| + 1)
    requires e[ROOT_DIR_LBA] == SetSlot(d[ROOT_DIR_LBA], |names|, 2 + |names|, name)
    ensures Stage(e, names + [name])
  {
    hide Inv, FirstBits, NameFrom, LoadU32, Splice, NameChar;
    InvDevice(d);
    var m := |names|;
    NewSlotFields(d[ROOT_DIR_LBA], m, 2 + m, name);
    NameFromIs(e[ROOT_DIR_LBA], m, 0, name);
    forall i | 0 <= i < DIRENT_COUNT && i != m
      ensures SlotIno(e[ROOT_DIR_LBA], i) == SlotIno(d[ROOT_DIR_LBA], i)
              && SlotName(e[ROOT_DIR_LBA], i) == SlotName(d[ROOT_DIR_LBA], i)
    {
      OtherSlotSame(d[ROOT_DIR_LBA], m, SlotBytes(2 + m, name), i);
      SameChars(e[ROOT_DIR_LBA], d[ROOT_DIR_LBA], i, 0);
    }
    forall i | 0 <= i < |names + [name]| ensures Named(e, i, (names + [name])[i]) {
      if i < m {
        assert Named(d, i, names[i]);
      }
    }
  }

  // ----- Who is visible -----

  /** A file is visible exactly under its own name, and under a 27-byte name only while no file was created
      after it. */
  lemma StageVisible(disk: Blocks, past: byte, names: seq<CString>, i: nat, q: CString)
    requires Stage(disk, names)
    ensures Device(disk)
    ensures Visible(disk, past, i, q) <==> i < |names| && names[i] == q && (|q| == MAX_NAME ==> i + 1 == |names|)
  {
    hide Inv, FirstBits, LoadU32, SlotName;
    InvDevice(disk);
    if i < |names| {
      assert Named(disk, i, names[i]);
      FollowingByte(disk[ROOT_DIR_LBA], i + 1, if i + 1 < |names| then 3 + i else 0);
    }
  }

  lemma FollowingByte(dir: Block, i: nat, ino: nat)
    requires i < DIRENT_COUNT && SlotIno(dir, i) == ino < 0x100
    ensures dir[DIRENT_SIZE * i] as int == ino
  {
    Decode4(dir[DIRENT_SIZE * i..DIRENT_SIZE * i + 4]);
  }

  // ----- A name of 27 bytes -----

  function LongName(): (r: CString)
    ensures |r| == MAX_NAME && forall i :: 0 <= i < |r| ==> r[i] == 0x41
  {
    seq(MAX_NAME, _ => 0x41)
  }

  function ShortName(): (r: CString)
    ensures r == [0x42]
  {
    [0x42]
  }

  lemma NamesAreValid()
    ensures ValidName(LongName()) == Ok && ValidName(ShortName()) == Ok && LongName() != ShortName()
  {
  }

  /** Create a file with a 27-byte name: it can be read.  Create another: the first is gone from lookup, and
      creating it again succeeds, leaving two live files of the same name. */
  lemma LongNameIsLost(d: Dev, past: byte, cap: u32)
    requires Device(d.disk) && d.power < 0
    ensures var a := Create(FormatDevice(d).dev, past, LongName());
            var b := Create(a.dev, past, ShortName());
            var c := Create(b.dev, past, LongName());
            && a.rc == Ok && Resolve(a.dev.disk, past, LongName()).Found?
            && b.rc == Ok && ReadFile(b.dev.disk, past, LongName(), cap).0 == NoEnt
            && c.rc == Ok && Inv(c.dev.disk) && Named(c.dev.disk, 0, LongName()) && Named(c.dev.disk, 2, LongName())
  {
    hide *;
    NamesAreValid();
    FormatResult(d);
    FormatPower(d);
    DeviceSize(d.disk);
    StageStart(|d.disk|);
    var f, x, y := FormatDevice(d).dev, LongName(), ShortName();
    NothingVisible(f.disk, past, [], x);
    StageCreate(f, past, x, []);
    var a := Create(f, past, x).dev;
    assert [] + [x] == [x];
    NothingVisible(a.disk, past, [x], y);
    LastVisible(a.disk, past, [x], x);
    StageCreate(a, past, y, [x]);
    var b := Create(a, past, y).dev;
    assert [x] + [y] == [x, y];
    NothingVisible(b.disk, past, [x, y], x);
    NoRead(b.disk, past, x, cap);
    StageCreate(b, past, x, [x, y]);
    assert [x, y] + [x] == [x, y, x];
    StageNamed(Create(b, past, x).dev.disk, [x, y, x], 0);
    StageNamed(Create(b, past, x).dev.disk, [x, y, x], 2);
  }

  lemma FormatPower(d: Dev)
    requires Device(d.disk) && d.power < 0
    ensures FormatDevice(d).dev.power < 0
  {
    hide SuperBlock, FirstBits, RootInode, SetBit, InodeLba, InodeOff, Splice;
    ZeroFromZeroes(d, 0);
    InodeLbaRange(ROOT_INO);
  }

  lemma NothingVisible(disk: Blocks, past: byte, names: seq<CString>, q: CString)
    requires Stage(disk, names) && ValidName(q) == Ok
    requires forall i :: 0 <= i < |names| && names[i] == q ==> |q| == MAX_NAME && i + 1 < |names|
    ensures Device(disk) && Inv(disk) && !(exists i :: Visible(disk, past, i, q))
    ensures Resolve(disk, past, q) == Refused(NoEnt)
  {
    hide *;
    StageFacts(disk, names);
    InvDevice(disk);
    if i :| Visible(disk, past, i, q) {
      StageVisible(disk, past, names, i, q);
    }
    ResolveFinds(disk, past, q);
  }

  lemma LastVisible(disk: Blocks, past: byte, names: seq<CString>, q: CString)
    requires Stage(disk, names) && ValidName(q) == Ok && names != [] && names[|names| - 1] == q
    ensures Device(disk) && Resolve(disk, past, q).Found?
  {
    hide *;
    StageFacts(disk, names);
    InvDevice(disk);
    StageVisible(disk, past, names, |names| - 1, q);
    ResolveFinds(disk, past, q);
  }

  lemma NoRead(disk: Blocks, past: byte, q: CString, cap: u32)
    requires Device(disk) && Resolve(disk, past, q) == Refused(NoEnt)
    ensures ReadFile(disk, past, q, cap).0 == NoEnt
  {
    hide Resolve, ReadFrom;
  }

  lemma StageNamed(disk: Blocks, names: seq<CString>, i: nat)
    requires Stage(disk, names) && i < |names|
    ensures Inv(disk) && Device(disk) && Named(disk, i, names[i])
  {
    InvDevice(disk);
    hide Inv, Named, SlotIno, FirstBits;
  }

  // ----- A torn write -----

  /** From format: create a file, write 1024 bytes, then write 1024 others and lose the power after one block. */
  lemma TornRun(d: Dev, past: byte)
    requires Device(d.disk) && d.power < 0
    ensures var name := ShortName();
            var a := Create(FormatDevice(d).dev, past, name);
            var b := WriteFile(a.dev, past, name, Fill(1024, 0x61));
            var c := WriteFile(Dev(b.dev.disk, 1), past, name, Fill(1024, 0x62));
            && a.rc == Ok && b.rc == Ok && c.rc == Io && Inv(b.dev.disk) && Inv(c.dev.disk)
            && File(b.dev.disk, name) == Some(Fill(1024, 0x61))
            && File(c.dev.disk, name) == Some(Fill(512, 0x62) + Fill(512, 0x61))
  {
    hide *;
    NamesAreValid();
    FormatResult(d);
    FormatPower(d);
    DeviceSize(d.disk);
    StageStart(|d.disk|);
    FormattedIsEmpty(|d.disk|);
    var f, name, old' := FormatDevice(d).dev, ShortName(), Fill(1024, 0x61);
    NothingVisible(f.disk, past, [], name);
    StageCreate(f, past, name, []);
    assert [] + [name] == [name];
    Sizes();
    Limits();
    CreateRefines(f, past, name);
    var a := Create(f, past, name).dev;
    StageFree(a.disk, [name]);
    WriteCut(a, past, name, old');
    FewHoles(Resolve(a.disk, past, name).inode, 0, BlocksFor(1024));
    PowerCases(a.power, Holes(Resolve(a.disk, past, name).inode, 0, BlocksFor(1024)), BlocksFor(1024));
    var b := WriteFile(a, past, name, old').dev;
    NameInvDevice(b.disk);
    TornWrite(b.disk, past, name);
  }

  lemma Limits()
    ensures SHORT_NAME == 26 && DIRECT_BLOCKS == 8 && BlocksFor(1024) == 2
  {
  }

  /** After one create at least seven blocks are free. */
  lemma StageFree(disk: Blocks, names: seq<CString>)
    requires Stage(disk, names)
    ensures Device(disk) && FreeBlocks(disk) >= 8 - |names|
  {
    hide *;
    StageFacts(disk, names);
    InvDevice(disk);
    FreeIs(disk);
    var n := DATA_START_LBA + |names|;
    ClearAfter(n, n, |disk|);
    CountSplit(disk[BLOCK_BMAP_LBA], DATA_START_LBA, n, |disk|);
  }

  lemma FreeIs(disk: Blocks)
    requires Device(disk)
    ensures FreeBlocks(disk) == CountClear(disk[BLOCK_BMAP_LBA], DATA_START_LBA, |disk|)
  {
    hide CountClear;
  }

  lemma {:induction false} CountSplit(bm: Block, lo: nat, mid: nat, hi: nat)
    requires lo <= mid <= hi <= 8 * BLOCK_SIZE
    ensures CountClear(bm, lo, hi) >= CountClear(bm, mid, hi)
    decreases mid - lo
  {
    hide TestBit;
    if lo < mid {
      CountSplit(bm, lo + 1, mid, hi);
    }
  }

  lemma {:induction false} FewHoles(inode: InodeBuf, i: nat, need: nat)
    requires i <= need <= DIRECT_BLOCKS
    ensures Holes(inode, i, need) <= need - i
    decreases need - i
  {
    hide Direct;
    if i < need {
      FewHoles(inode, i + 1, need);
    }
  }

  // ----- The life of a first file -----

  /** From format, for every new name of 1 to 26 bytes without a slash and every contents of up to seven blocks:
      create answers Ok and then Exists, write stores the data, read returns it or says that the buffer is too small,
      another name is not there, unlink removes the file, and fsck accepts every stage. */
  lemma FirstFile(d: Dev, past: byte, name: CString, data: seq<byte>, cap: u32, other: CString)
    requires Device(d.disk) && d.power < 0 && 1 <= |name| <= 26 && 47 !in name && |data| <= 3584
    requires 1 <= |other| <= 26 && 47 !in other && other != name
    ensures var a := Create(FormatDevice(d).dev, past, name);
            var b := WriteFile(a.dev, past, name, data);
            var c := Unlink(Dev(b.dev.disk, -1), past, name);
            && FsckOk(FormatDevice(d).dev.disk)
            && a.rc == Ok && Create(a.dev, past, name).rc == Exists && FsckOk(a.dev.disk)
            && b.rc == Ok && FsckOk(b.dev.disk) && ReadFile(b.dev.disk, past, other, cap).0 == NoEnt
            && (|data| <= cap ==> ReadFile(b.dev.disk, past, name, cap) == (Ok, data))
            && (|data| > cap ==> ReadFile(b.dev.disk, past, name, cap).0 == Range)
            && c.rc == Ok && FsckOk(c.dev.disk) && ReadFile(c.dev.disk, past, name, cap).0 == NoEnt
  {
    hide *;
    GoodName(name);
    GoodName(other);
    FormatResult(d);
    FormatPower(d);
    DeviceSize(d.disk);
    StageStart(|d.disk|);
    FormattedIsEmpty(|d.disk|);
    var f := FormatDevice(d).dev;
    NameInvDevice(f.disk);
    InvPassesFsck(f.disk);
    NothingVisible(f.disk, past, [], name);
    StageCreate(f, past, name, []);
    assert [] + [name] == [name];
    CreateRefines(f, past, name);
    var a := Create(f, past, name).dev;
    NameInvDevice(a.disk);
    AfterFirst(a, past, name, data);
    CreateRefines(a, past, name);
    NameInvDevice(WriteFile(a, past, name, data).dev.disk);
    var b := Dev(WriteFile(a, past, name, data).dev.disk, -1);
    UnlinkRefines(b, past, name);
    var c := Unlink(b, past, name).dev;
    NameInvDevice(c.disk);
    InvPassesFsck(c.disk);
    ReadRefines(b.disk, past, name, cap);
    ReadRefines(b.disk, past, other, cap);
    ReadRefines(c.disk, past, name, cap);
  }

  lemma GoodName(name: CString)
    requires 1 <= |name| <= 26 && 47 !in name
    ensures ValidName(name) == Ok && SHORT_NAME == 26 && MAX_FILE == 4096
  {
  }

  lemma AfterFirst(a: Dev, past: byte, name: CString, data: seq<byte>)
    requires Stage(a.disk, [name]) && NameInv(a.disk) && a.power < 0 && ValidName(name) == Ok && |data| <= 3584
    requires Inv(a.disk) && File(a.disk, name) == Some([])
    ensures FsckOk(a.disk)
    ensures var r := WriteFile(a, past, name, data);
            && r.rc == Ok && Inv(r.dev.disk) && NameInv(r.dev.disk) && FsckOk(r.dev.disk)
            && File(r.dev.disk, name) == Some(data)
            && forall q: CString :: q != name ==> File(r.dev.disk, q) == File(a.disk, q)
  {
    hide *;
    SmallFile(|data|);
    NameInvDevice(a.disk);
    InvPassesFsck(a.disk);
    StageFree(a.disk, [name]);
    WriteRefines(a, past, name, data);
    FileNamed(a.disk, name);
    ResolveIsNamed(a.disk, past, name);
    FewHoles(Resolve(a.disk, past, name).inode, 0, BlocksFor(|data|));
    HasBlocksIf(a.disk, past, name, |data|);
    WriteCode(a.disk, past, name, data, a.power);
    var r := WriteFile(a, past, name, data);
    NameInvDevice(r.dev.disk);
    InvPassesFsck(r.dev.disk);
  }

  lemma SmallFile(len: nat)
    requires len <= 3584
    ensures len <= MAX_FILE && BlocksFor(len) <= 7 && DIRECT_BLOCKS == 8
  {
  }

  lemma HasBlocksIf(disk: Blocks, past: byte, name: CString, len: nat)
    requires Device(disk) && len <= MAX_FILE && Resolve(disk, past, name).Found?
    requires FreeBlocks(disk) >= Holes(Resolve(disk, past, name).inode, 0, BlocksFor(len))
    ensures HasBlocks(disk, past, name, len)
  {
    hide Resolve, FreeBlocks, Holes, BlocksFor;
  }
}
