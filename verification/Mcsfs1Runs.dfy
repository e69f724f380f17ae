/** Whole runs of MCSFS1 from format: write ordering keeps fsck true at every crash point, and without
    crashes the file system is a map from names to byte strings. */
module Mcsfs1Runs {
  import opened Bytes
  import opened Disk
  import opened Mcsfs1
  import opened Mcsfs1Inv
  import opened Mcsfs1Ops
  import opened Mcsfs1Files
  import opened Mcsfs1Torn

  // ----- Format -----

  function SuperBlock(blockCount: u32): Block {
    var b := StoreU32(StoreU32(StoreU32(ZERO_BLOCK, 0, MAGIC), 4, VERSION), 8, BLOCK_SIZE);
    var c := StoreU32(StoreU32(StoreU32(b, 12, blockCount), 16, MAX_INODES), 20, INODE_BMAP_LBA);
    var d := StoreU32(StoreU32(StoreU32(c, 24, BLOCK_BMAP_LBA), 28, INODE_TABLE_LBA), 32, INODE_TABLE_BLOCKS);
    StoreU32(StoreU32(StoreU32(StoreU32(d, 36, ROOT_INO), 40, ROOT_DIR_LBA), 44, DATA_START_LBA), 48, 1)
  }

  function RootInode(): InodeBuf {
    NewInode(MODE_DIR, BLOCK_SIZE, ROOT_DIR_LBA)
  }

  function ZeroFrom(d: Dev, l: nat): (r: Outcome)
    requires Device(d.disk) && l <= |d.disk|
    ensures |r.dev.disk| == |d.disk|
    decreases |d.disk| - l
  {
    if l == |d.disk| then Outcome(d, Ok)
    else
      var w := Put(d, l, ZERO_BLOCK);
      if w.rc != Ok then w else ZeroFrom(w.dev, l + 1)
  }

  function FormatDevice(d: Dev): (r: Outcome)
    ensures |r.dev.disk| == |d.disk|
  {
    if !Device(d.disk) then Outcome(d, Inval) else
    var z := ZeroFrom(d, 0);
    if z.rc != Ok then z else
    var s := Put(z.dev, 0, SuperBlock(|d.disk|));
    if s.rc != Ok then s else
    var b := StoreBmaps(s.dev, FirstBits(2), FirstBits(DATA_START_LBA));
    if b.rc != Ok then b else WriteInode(b.dev, ROOT_INO, RootInode())
  }

  /** mcsfs1_format. */
  method Format(dev: BlockDev) returns (rc: Rc)
    modifies dev, dev.blocks
    ensures Outcome(dev.State(), rc) == old(FormatDevice(dev.State()))
  {
    hide SuperBlock, FirstBits, RootInode, StoreBmaps, WriteInode, SetBit;
    if dev.blocks.Length < MIN_BLOCKS || dev.blocks.Length > MAX_DEVICE {
      return Inval;
    }
    for l := 0 to dev.blocks.Length
      invariant Device(dev.State().disk)
      invariant ZeroFrom(dev.State(), l) == old(ZeroFrom(dev.State(), 0))
    {
      rc := dev.WriteBlock(l, ZERO_BLOCK);
      if rc != Ok {
        return rc;
      }
    }
    rc := dev.WriteBlock(0, SuperBlock(dev.blocks.Length));
    if rc != Ok {
      return rc;
    }
    var ib, bb := InitialBitmaps();
    rc := StoreBitmaps(dev, ib, bb);
    if rc != Ok {
      return rc;
    }
    rc := StoreInode(dev, ROOT_INO, RootInode());
  }

  /** The bitmaps of an empty file system; setting the root directory's bit again changes nothing. */
  method InitialBitmaps() returns (ib: Block, bb: Block)
    ensures ib == FirstBits(2) && bb == FirstBits(DATA_START_LBA)
  {
    hide SetBit;
    ib := SetBit(SetBit(ZERO_BLOCK, 0), ROOT_INO);
    assert FirstBits(0) == ZERO_BLOCK && FirstBits(1) == SetBit(FirstBits(0), 0);
    assert FirstBits(2) == SetBit(FirstBits(1), 1);
    bb := ZERO_BLOCK;
    for b := 0 to DATA_START_LBA
      invariant bb == FirstBits(b)
    {
      bb := SetBit(bb, b);
    }
    SetBitTwice(FirstBits(DATA_START_LBA), ROOT_DIR_LBA);
    bb := SetBit(bb, ROOT_DIR_LBA);
  }

  lemma SetBitTwice(bm: Block, i: nat)
    requires i / 8 < BLOCK_SIZE && TestBit(bm, i)
    ensures SetBit(bm, i) == bm
  {
    ByteSetTwice(bm[i / 8], i % 8);
  }

  lemma ByteSetTwice(b: byte, k: nat)
    requires k < 8 && ByteBit(b, k)
    ensures ByteSet(b, k) == b
  {
    BvSetTwice(b as bv8, k);
    ByteRoundTrip(b);
  }

  lemma BvSetTwice(x: bv8, k: nat)
    requires k < 8 && BvBit(x, k)
    ensures BvSet(x, k) == x
  {
  }

  lemma SuperBlockIsOk(n: u32)
    ensures SuperOk(SuperBlock(n), n)
  {
    hide LoadU32;
  }

  lemma {:induction false} ZeroFromZeroes(d: Dev, l: nat)
    requires Device(d.disk) && l <= |d.disk| && d.power < 0
    ensures var r := ZeroFrom(d, l);
            && r.rc == Ok && r.dev.power < 0
            && forall k :: 0 <= k < |d.disk| ==> r.dev.disk[k] == if k < l then d.disk[k] else ZERO_BLOCK
    decreases |d.disk| - l
  {
    if l < |d.disk| {
      ZeroFromZeroes(Put(d, l, ZERO_BLOCK).dev, l + 1);
    }
  }

  function ZeroDisk(n: nat): (e: Blocks)
    ensures |e| == n && forall l :: 0 <= l < n ==> e[l] == ZERO_BLOCK
  {
    seq(n, _ => ZERO_BLOCK)
  }

  function WithStructures(d: Blocks, sb: Block, ib: Block, bb: Block, root: InodeBuf): (e: Blocks)
    requires Device(d)
    ensures |e| == |d|
  {
    PatchInode(d[0 := sb][INODE_BMAP_LBA := ib][BLOCK_BMAP_LBA := bb], ROOT_INO, root)
  }

  /** The disk a completed format leaves. */
  function Formatted(n: nat): (e: Blocks)
    requires MIN_BLOCKS <= n <= MAX_DEVICE
    ensures |e| == n
  {
    WithStructures(ZeroDisk(n), SuperBlock(n), FirstBits(2), FirstBits(DATA_START_LBA), RootInode())
  }

  lemma FormatResult(d: Dev)
    requires Device(d.disk) && d.power < 0
    ensures FormatDevice(d).rc == Ok && FormatDevice(d).dev.disk == Formatted(|d.disk|)
  {
    hide SuperBlock, FirstBits, RootInode, SetBit, InodeLba, InodeOff, Splice;
    ZeroFromZeroes(d, 0);
    assert ZeroFrom(d, 0).dev.disk == ZeroDisk(|d.disk|);
    InodeLbaRange(ROOT_INO);
  }

  lemma EmptyIsFine(e: Blocks)
    requires Device(e) && BaseOk(e) && forall i :: 0 <= i < DIRENT_COUNT ==> !Live(e, i)
    ensures NameInv(e) && forall q: CString :: File(e, q) == None
  {
    hide BaseOk, Live, Entry, Unshared, SlotName;
  }

  lemma ZeroSlotNotLive(e: Blocks, i: nat)
    requires Device(e) && i < DIRENT_COUNT && e[ROOT_DIR_LBA] == ZERO_BLOCK
    ensures !Live(e, i)
  {
    hide LoadU32;
    LoadZeros(BLOCK_SIZE, DIRENT_SIZE * i);
  }

  /** A formatted disk satisfies the invariant and holds no file. */
  lemma FormattedIsEmpty(n: nat)
    requires MIN_BLOCKS <= n <= MAX_DEVICE
    ensures NameInv(Formatted(n)) && forall q: CString :: File(Formatted(n), q) == None
  {
    hide Formatted, Live, BaseOk, NameInv, File;
    var e := Formatted(n);
    FormattedBase(n);
    forall i | 0 <= i < DIRENT_COUNT ensures !Live(e, i) {
      ZeroSlotNotLive(e, i);
    }
    EmptyIsFine(e);
  }

  lemma FormattedBase(n: nat)
    requires MIN_BLOCKS <= n <= MAX_DEVICE
    ensures var e := Formatted(n); BaseOk(e) && e[ROOT_DIR_LBA] == ZERO_BLOCK
  {
    hide SuperBlock, FirstBits, SetBit, TestBit, LoadU32, LoadU16, SuperOk, RootInode, InodeAt, InodeLba, InodeOff;
    hide Splice;
    var d := ZeroDisk(n)[0 := SuperBlock(n)];
    d := d[INODE_BMAP_LBA := FirstBits(2)][BLOCK_BMAP_LBA := FirstBits(DATA_START_LBA)];
    InodeLbaRange(ROOT_INO);
    InodeAtPatch(d, ROOT_INO, RootInode(), ROOT_INO);
    RootInodeFields();
    SuperBlockIsOk(n);
  }

  lemma RootInodeFields()
    ensures Mode(RootInode()) == MODE_DIR && Direct(RootInode(), 0) == ROOT_DIR_LBA
  {
    hide LoadU32;
  }

  // ----- Runs -----

  /** One operation: `past` is the byte behind its stack buffer, `power` how many block writes reach the
      medium (negative: all). */
  datatype Op =
    | DoCreate(name: CString, past: byte, power: int)
    | DoWrite(name: CString, data: seq<byte>, past: byte, power: int)
    | DoUnlink(name: CString, past: byte, power: int)

  function Step(disk: Blocks, op: Op): (r: Outcome)
    requires Device(disk)
    ensures |r.dev.disk| == |disk|
  {
    match op
    case DoCreate(name, past, power) => Create(Dev(disk, power), past, name)
    case DoWrite(name, data, past, power) => WriteFile(Dev(disk, power), past, name, data)
    case DoUnlink(name, past, power) => Unlink(Dev(disk, power), past, name)
  }

  function Run(disk: Blocks, ops: seq<Op>): (r: Blocks)
    requires Device(disk)
    ensures |r| == |disk|
    decreases |ops|
  {
    if ops == [] then disk else Run(Step(disk, ops[0]).dev.disk, ops[1..])
  }

  lemma StepIs(disk: Blocks, op: Op)
    requires Device(disk)
    ensures Step(disk, op) ==
              match op
              case DoCreate(name, past, power) => Create(Dev(disk, power), past, name)
              case DoWrite(name, data, past, power) => WriteFile(Dev(disk, power), past, name, data)
              case DoUnlink(name, past, power) => Unlink(Dev(disk, power), past, name)
  {
    hide Create, WriteFile, Unlink;
  }

  lemma WriteKeepsInv(d: Dev, past: byte, name: CString, data: seq<byte>)
    requires Inv(d.disk)
    ensures Inv(WriteFile(d, past, name, data).dev.disk)
  {
    hide Inv, WriteFile, Resolve, KeptBut, Live, DeviceFull, ReadFrom, FileInode, Device;
    WriteFileKeeps(d, past, name, data);
  }

  lemma UnlinkKeepsInv(d: Dev, past: byte, name: CString)
    requires Inv(d.disk)
    ensures Inv(Unlink(d, past, name).dev.disk)
  {
    hide Inv, Unlink, Resolve, KeptBut, Live, ReadFrom, FileInode, Device;
    UnlinkKeeps(d, past, name);
  }

  lemma StepKeepsInv(disk: Blocks, op: Op)
    requires Inv(disk)
    ensures Inv(Step(disk, op).dev.disk)
  {
    hide *;
    InvDevice(disk);
    StepIs(disk, op);
    match op
    case DoCreate(name, past, power) => CreateKeeps(Dev(disk, power), past, name);
    case DoWrite(name, data, past, power) => WriteKeepsInv(Dev(disk, power), past, name, data);
    case DoUnlink(name, past, power) => UnlinkKeepsInv(Dev(disk, power), past, name);
  }

  /** Write ordering: over any run, each operation cut after any number of its block writes, fsck
      succeeds at the end, and no two live files share an inode or a block.  Names are arbitrary. */
  lemma {:induction false} RunsPassFsck(disk: Blocks, ops: seq<Op>)
    requires Inv(disk)
    ensures Inv(Run(disk, ops)) && FsckOk(Run(disk, ops))
    decreases |ops|
  {
    InvDevice(disk);
    InvPassesFsck(disk);
    hide Inv, FsckOk, Step;
    if ops != [] {
      StepKeepsInv(disk, ops[0]);
      RunsPassFsck(Step(disk, ops[0]).dev.disk, ops[1..]);
    }
  }

  /** Slots i and k, if live, have different inodes and no common block. */
  ghost predicate NothingShared(e: Blocks, i: nat, k: nat)
    requires Device(e) && i < DIRENT_COUNT && k < DIRENT_COUNT
  {
    Live(e, i) && Live(e, k) ==>
      && Ino(e, i) != Ino(e, k)
      && forall j, l :: 0 <= j < DIRECT_BLOCKS && 0 <= l < DIRECT_BLOCKS && Direct(FileInode(e, i), j) != 0 ==>
           Direct(FileInode(e, i), j) != Direct(FileInode(e, k), l)
  }

  lemma InvSharesNothing(e: Blocks, i: nat, k: nat)
    requires Inv(e) && i < DIRENT_COUNT && k < DIRENT_COUNT && i != k
    ensures NothingShared(e, i, k)
  {
    hide LoadU32, FileInode, Live, Ino, BaseOk, Entry;
    assert Live(e, i) && Live(e, k) ==> Unshared(e, i, k);
  }

  lemma FormattedInv(n: nat)
    requires MIN_BLOCKS <= n <= MAX_DEVICE
    ensures Inv(Formatted(n))
  {
    hide Formatted, Inv;
    FormattedIsEmpty(n);
  }

  lemma RunsFromFormatPassFsck(d: Dev, ops: seq<Op>, i: nat, k: nat)
    requires Device(d.disk) && d.power < 0 && i < DIRENT_COUNT && k < DIRENT_COUNT && i != k
    ensures var e := Run(FormatDevice(d).dev.disk, ops); FsckOk(e) && NothingShared(e, i, k)
  {
    hide Formatted, FormatDevice, Run, FsckOk, Inv, NothingShared;
    FormatResult(d);
    FormattedInv(|d.disk|);
    var e := Run(Formatted(|d.disk|), ops);
    RunsPassFsck(Formatted(|d.disk|), ops);
    InvSharesNothing(e, i, k);
  }

  // ----- Refinement of a map -----

  type Files = map<CString, seq<byte>>

  function AbstractStep(m: Files, op: Op, rc: Rc): Files {
    if rc != Ok then m
    else
      match op
      case DoCreate(name, _, _) => m[name := []]
      case DoWrite(name, data, _, _) => m[name := data]
      case DoUnlink(name, _, _) => m - {name}
  }

  /** Room for the holes that a write of len bytes has to fill. */
  predicate HasBlocks(disk: Blocks, past: byte, name: CString, len: nat)
    requires Device(disk) && len <= MAX_FILE
  {
    var t := Resolve(disk, past, name);
    t.Found? && FreeBlocks(disk) >= Holes(t.inode, 0, BlocksFor(len))
  }

  /** The code of an operation, from the map alone except for the room left on the disk. */
  function Code(m: Files, disk: Blocks, op: Op): Rc
    requires Device(disk)
  {
    match op
    case DoCreate(name, _, _) =>
      if ValidName(name) != Ok then ValidName(name) else if name in m then Exists
      else if HasRoom(disk) then Ok else NoSpc
    case DoWrite(name, data, past, _) =>
      if |data| > MAX_FILE then Range else if ValidName(name) != Ok then ValidName(name) else if name !in m then NoEnt
      else if HasBlocks(disk, past, name, |data|) then Ok else NoSpc
    case DoUnlink(name, _, _) =>
      if ValidName(name) != Ok then ValidName(name) else if name !in m then NoEnt else Ok
  }

  /** The abstract run, and the codes it returns; the disk only tells how much room is left. */
  function AbstractRun(m: Files, disk: Blocks, ops: seq<Op>): (Files, seq<Rc>)
    requires Device(disk)
    decreases |ops|
  {
    if ops == [] then (m, [])
    else
      var rc := Code(m, disk, ops[0]);
      var rest := AbstractRun(AbstractStep(m, ops[0], rc), Step(disk, ops[0]).dev.disk, ops[1..]);
      (rest.0, [rc] + rest.1)
  }

  /** The codes that the operations of a run return. */
  function Codes(disk: Blocks, ops: seq<Op>): seq<Rc>
    requires Device(disk)
    decreases |ops|
  {
    if ops == [] then [] else [Step(disk, ops[0]).rc] + Codes(Step(disk, ops[0]).dev.disk, ops[1..])
  }

  /** The disk's files are exactly the map. */
  ghost predicate Represents(disk: Blocks, m: Files) {
    && NameInv(disk)
    && forall q: CString :: File(disk, q) == if q in m then Some(m[q]) else None
  }

  /** Power holds out and created names are short. */
  predicate Steady(op: Op) {
    op.power < 0 && (op.DoCreate? ==> |op.name| <= SHORT_NAME)
  }

  lemma Represented(disk: Blocks, m: Files)
    requires Represents(disk, m)
    ensures NameInv(disk) && forall q: CString :: File(disk, q) == if q in m then Some(m[q]) else None
  {
    hide NameInv, File;
  }

  /** The map follows when only the file called name changes. */
  lemma MapFollows(d: Blocks, e: Blocks, m: Files, name: CString)
    requires Represents(d, m) && NameInv(e) && forall q: CString :: q != name ==> File(e, q) == File(d, q)
    ensures Represents(e, match File(e, name) case Some(c) => m[name := c] case None => m - {name})
    ensures File(e, name) == File(d, name) ==> Represents(e, m)
  {
    hide NameInv, File;
  }

  /** The code of a write of a file that exists. */
  lemma WriteCode(disk: Blocks, past: byte, name: CString, data: seq<byte>, power: int)
    requires NameInv(disk) && Device(disk) && |data| <= MAX_FILE && ValidName(name) == Ok && Inv(disk) && power < 0
    requires File(disk, name).Some?
    ensures WriteFile(Dev(disk, power), past, name, data).rc ==
              if HasBlocks(disk, past, name, |data|) then Ok else NoSpc
  {
    hide NameInv, Inv, WriteFile, Resolve, File, FreeBlocks, Holes, DeviceFull, Overlay, Filled, BlocksFor;
    WriteCut(Dev(disk, power), past, name, data);
    WriteRefines(Dev(disk, power), past, name, data);
  }

  lemma StepRefines(disk: Blocks, op: Op, m: Files)
    requires Represents(disk, m) && Steady(op)
    ensures Device(disk) && Step(disk, op).rc == Code(m, disk, op)
    ensures Represents(Step(disk, op).dev.disk, AbstractStep(m, op, Step(disk, op).rc))
  {
    hide Inv, NameInv, Represents, Create, WriteFile, Unlink, HasRoom, HasBlocks, DeviceFull, File, Live;
    Represented(disk, m);
    NameInvDevice(disk);
    InvDevice(disk);
    var e := Step(disk, op).dev.disk;
    match op {
      case DoCreate(name, past, power) => CreateRefines(Dev(disk, power), past, name);
      case DoWrite(name, data, past, power) =>
        WriteRefines(Dev(disk, power), past, name, data);
        if |data| <= MAX_FILE && ValidName(name) == Ok && name in m {
          WriteCode(disk, past, name, data, power);
        }
      case DoUnlink(name, past, power) => UnlinkRefines(Dev(disk, power), past, name);
    }
    MapFollows(disk, e, m, op.name);
  }

  /** Over any run with short names on a device that does not fail, the file system is a map: create adds
      an empty file, write replaces contents, unlink removes, a failed operation changes nothing, and
      every code is the one that the map and the room left on the disk call for. */
  lemma {:induction false} RunsRefineMap(disk: Blocks, ops: seq<Op>, m: Files)
    requires Represents(disk, m) && forall i :: 0 <= i < |ops| ==> Steady(ops[i])
    ensures Device(disk) && Represents(Run(disk, ops), AbstractRun(m, disk, ops).0)
    ensures Codes(disk, ops) == AbstractRun(m, disk, ops).1
    decreases |ops|
  {
    assert Inv(disk);
    InvDevice(disk);
    hide Represents, Step, AbstractStep, Steady, Inv, Code;
    if ops != [] {
      StepRefines(disk, ops[0], m);
      RunsRefineMap(Step(disk, ops[0]).dev.disk, ops[1..], AbstractStep(m, ops[0], Step(disk, ops[0]).rc));
    }
  }

  /** From format to read: a read after any such run returns exactly what the map says. */
  lemma ReadsAfterRun(d: Dev, ops: seq<Op>, past: byte, q: CString, cap: u32)
    requires Device(d.disk) && d.power < 0 && 1 <= |q| <= 27 && 47 !in q
    requires forall i :: 0 <= i < |ops| ==> ops[i].power < 0 && (ops[i].DoCreate? ==> |ops[i].name| <= 26)
    ensures var start := FormatDevice(d).dev.disk;
            var m, r := AbstractRun(map[], start, ops).0, ReadFile(Run(start, ops), past, q, cap);
            if q !in m then r.0 == NoEnt else if |m[q]| <= cap then r == (Ok, m[q]) else r.0 == Range
  {
    FormatResult(d);
    var start := Formatted(|d.disk|);
    FormattedIsEmpty(|d.disk|);
    assert Represents(start, map[]);
    assert forall i :: 0 <= i < |ops| ==> Steady(ops[i]);
    RunsRefineMap(start, ops, map[]);
    hide NameInv, Formatted, FormatDevice, Run, ReadFile, AbstractRun;
    ReadRefines(Run(start, ops), past, q, cap);
  }

  // ----- Crashes and names together -----

  lemma StepTouchesNamedFileOnly(disk: Blocks, op: Op, q: CString)
    requires NameInv(disk) && op.name != q && (op.DoCreate? ==> |op.name| <= SHORT_NAME)
    ensures Device(disk) && NameInv(Step(disk, op).dev.disk) && File(Step(disk, op).dev.disk, q) == File(disk, q)
  {
    hide NameInv, Inv, Create, WriteFile, Unlink, HasRoom, DeviceFull, File, Live;
    NameInvDevice(disk);
    match op {
      case DoCreate(name, past, power) => CreateRefines(Dev(disk, power), past, name);
      case DoWrite(name, data, past, power) => WriteRefines(Dev(disk, power), past, name, data);
      case DoUnlink(name, past, power) => UnlinkRefines(Dev(disk, power), past, name);
    }
  }

  /** Over any run with short names, cut anywhere: only files that an operation of the run names can
      change, and the names stay distinct. */
  lemma {:induction false} RunsTouchNamedFilesOnly(disk: Blocks, ops: seq<Op>, q: CString)
    requires NameInv(disk) && forall i :: 0 <= i < |ops| ==>
              ops[i].name != q && (ops[i].DoCreate? ==> |ops[i].name| <= SHORT_NAME)
    ensures Device(disk) && NameInv(Run(disk, ops)) && File(Run(disk, ops), q) == File(disk, q)
    decreases |ops|
  {
    hide NameInv, Inv, Step, File, Live;
    NameInvDevice(disk);
    InvDevice(disk);
    if ops != [] {
      StepTouchesNamedFileOnly(disk, ops[0], q);
      RunsTouchNamedFilesOnly(Step(disk, ops[0]).dev.disk, ops[1..], q);
    }
  }

  // ----- The map under power cuts -----

  /** A creation needs four block writes; its last one links the name. */
  lemma AddFileNeedsFour(d: Dev, slot: nat, ino: nat, lba: nat, name: CString)
    requires Device(d.disk) && slot < DIRENT_COUNT && 1 <= ino <= MAX_INODES && lba < |d.disk| && |name| <= MAX_NAME
    ensures AddFile(d, slot, ino, lba, name).rc == Ok <==> d.power < 0 || d.power >= 4
  {
    hide SetBit, SetSlot, NewInode, InodeLba, InodeOff, Splice;
    InodeLbaRange(ino);
  }

  lemma CreateNeedsFour(d: Dev, past: byte, name: CString)
    requires NameInv(d.disk) && |name| <= SHORT_NAME
    ensures Device(d.disk) && Create(d, past, name).rc == Ok <==>
              && ValidName(name) == Ok && File(d.disk, name) == None && HasRoom(d.disk) && (d.power < 0 || d.power >= 4)
  {
    hide NameInv, Named, AddFile, SlotHolds, TestBit, LoadU32, Inv, Live, File;
    var disk := d.disk;
    NameInvDevice(disk);
    InvDevice(disk);
    FoundIffNamed(disk, past, name);
    FileNamed(disk, name);
    var slot := FindFreeSlot(disk[ROOT_DIR_LBA], 0);
    var ino := FindClearBit(disk[INODE_BMAP_LBA], 2, MAX_INODES + 1);
    var lba := FindClearBit(disk[BLOCK_BMAP_LBA], DATA_START_LBA, |disk|);
    if HasRoom(disk) && ValidName(name) == Ok {
      AddFileNeedsFour(d, slot, ino, lba, name);
    }
  }

  /** An unlink removes the name with its first block write and succeeds with its fourth. */
  lemma RemoveFileWrites(d: Dev, slot: nat, ino: nat, inode: InodeBuf)
    requires Device(d.disk) && slot < DIRENT_COUNT && 1 <= ino <= MAX_INODES
    ensures var r := RemoveFile(d, slot, ino, inode);
            && (r.rc == Ok <==> d.power < 0 || d.power >= 4)
            && (d.power == 0 ==> r.dev.disk == d.disk)
            && (d.power != 0 ==> r.dev.disk[ROOT_DIR_LBA] == ClearSlot(d.disk[ROOT_DIR_LBA], slot))
  {
    hide ClearBit, ClearSlot, ClearDirect, InodeLba, InodeOff, Splice;
    InodeLbaRange(ino);
  }

  lemma ClearedIsDead(e: Blocks, dir: Block, slot: nat)
    requires Device(e) && slot < DIRENT_COUNT && e[ROOT_DIR_LBA] == ClearSlot(dir, slot)
    ensures !Live(e, slot)
  {
    hide LoadU32, Splice;
    ClearedSlotIsFree(dir, slot);
  }

  lemma UnlinkCut(d: Dev, past: byte, name: CString)
    requires NameInv(d.disk) && ValidName(name) == Ok && Inv(d.disk) && File(d.disk, name).Some?
    ensures Device(d.disk)
    ensures var r := Unlink(d, past, name);
            && NameInv(r.dev.disk) && (r.rc == Ok <==> d.power < 0 || d.power >= 4)
            && File(r.dev.disk, name) == if d.power == 0 then File(d.disk, name) else None
  {
    hide *;
    InvDevice(d.disk);
    FileNamed(d.disk, name);
    ResolveIsNamed(d.disk, past, name);
    UnlinkRefines(d, past, name);
    UnlinkKeeps(d, past, name);
    UnlinkFound(d, past, name);
    var t, r := Resolve(d.disk, past, name), Unlink(d, past, name);
    RemoveFileWrites(d, t.slot, t.ino, t.inode);
    if d.power != 0 {
      NameInvDevice(r.dev.disk);
      ClearedIsDead(r.dev.disk, d.disk[ROOT_DIR_LBA], t.slot);
      ResolvedIsLive(d.disk, past, name);
      DeadIsGone(d.disk, r.dev.disk, t.slot, name, r.rc);
    }
  }

  lemma UnlinkFound(d: Dev, past: byte, name: CString)
    requires Device(d.disk) && Resolve(d.disk, past, name).Found?
    ensures var t := Resolve(d.disk, past, name); Unlink(d, past, name) == RemoveFile(d, t.slot, t.ino, t.inode)
    ensures Resolve(d.disk, past, name).slot < DIRENT_COUNT
  {
    hide Resolve, RemoveFile;
  }

  lemma DeadIsGone(d: Blocks, e: Blocks, s: nat, name: CString, rc: Rc)
    requires NameInv(d) && UnlinkOutcome(d, e, s, rc) && Device(d) && Named(d, s, name) && s < DIRENT_COUNT
    requires Device(e) && !Live(e, s) && Inv(e)
    ensures File(e, name) == None
  {
    hide Inv, NameInv, KeptBut, Live, SlotName, File;
    if KeptBut(d, e, NOBODY) {
      StillLive(d, e, s);
      assert false;
    }
    NameGone(d, e, s, name);
  }

  /** How many holes a write of len bytes to this file has to fill. */
  function FileHoles(disk: Blocks, past: byte, name: CString, len: nat): nat
    requires Device(disk) && len <= MAX_FILE
  {
    var t := Resolve(disk, past, name);
    if t.Found? then Holes(t.inode, 0, BlocksFor(len)) else 0
  }

  /** The map after an operation with any power: a creation is linked by its fourth block write, a name is gone
      with the first block write of its unlink, and a write that the power does not see through leaves the old
      contents overlaid on the blocks that it reached. */
  function CutStep(m: Files, disk: Blocks, op: Op): Files
    requires Device(disk)
  {
    if Code(m, disk, op) != Ok then m
    else
      match op
      case DoCreate(name, _, power) => if power < 0 || power >= 4 then m[name := []] else m
      case DoWrite(name, data, past, power) =>
        var h, need := FileHoles(disk, past, name, |data|), BlocksFor(|data|);
        if Enough(power, h, need) then m[name := data] else m[name := Overlay(m[name], data, Filled(power, h, need))]
      case DoUnlink(name, _, power) => if power == 0 then m else m - {name}
  }

  function CutRun(m: Files, disk: Blocks, ops: seq<Op>): Files
    requires Device(disk)
    decreases |ops|
  {
    if ops == [] then m else CutRun(CutStep(m, disk, ops[0]), Step(disk, ops[0]).dev.disk, ops[1..])
  }

  lemma CutWrite(disk: Blocks, past: byte, name: CString, data: seq<byte>, power: int, m: Files)
    requires Represents(disk, m) && Device(disk) && |data| <= MAX_FILE && ValidName(name) == Ok && name in m
    ensures var e := WriteFile(Dev(disk, power), past, name, data).dev.disk;
            var h, need := FileHoles(disk, past, name, |data|), BlocksFor(|data|);
            && NameInv(e)
            && File(e, name) == Some(if !HasBlocks(disk, past, name, |data|) then m[name]
                                     else if Enough(power, h, need) then data
                                     else Overlay(m[name], data, Filled(power, h, need)))
  {
    hide NameInv, Inv, WriteFile, Resolve, File, FreeBlocks, Holes, Overlay, Filled, BlocksFor, Enough;
    Represented(disk, m);
    NameInvDevice(disk);
    WriteCut(Dev(disk, power), past, name, data);
  }

  lemma CutStepRefines(disk: Blocks, op: Op, m: Files)
    requires Represents(disk, m) && (op.DoCreate? ==> |op.name| <= SHORT_NAME)
    ensures Device(disk) && Represents(Step(disk, op).dev.disk, CutStep(m, disk, op))
  {
    hide Inv, NameInv, Represents, Create, WriteFile, Unlink, HasRoom, HasBlocks, DeviceFull, File, Live;
    hide Overlay, Filled, Enough, FileHoles, BlocksFor;
    Represented(disk, m);
    NameInvDevice(disk);
    InvDevice(disk);
    var e := Step(disk, op).dev.disk;
    match op {
      case DoCreate(name, past, power) =>
        CreateRefines(Dev(disk, power), past, name);
        CreateNeedsFour(Dev(disk, power), past, name);
      case DoWrite(name, data, past, power) =>
        WriteRefines(Dev(disk, power), past, name, data);
        if |data| <= MAX_FILE && ValidName(name) == Ok && name in m {
          CutWrite(disk, past, name, data, power, m);
        } else {
          WriteRefused(disk, past, name, data, power);
        }
      case DoUnlink(name, past, power) =>
        UnlinkRefines(Dev(disk, power), past, name);
        if ValidName(name) == Ok && name in m {
          UnlinkCut(Dev(disk, power), past, name);
        } else {
          UnlinkRefused(disk, past, name, power);
        }
    }
    MapFollows(disk, e, m, op.name);
  }

  lemma WriteRefused(disk: Blocks, past: byte, name: CString, data: seq<byte>, power: int)
    requires NameInv(disk) && Device(disk) && Inv(disk)
    requires |data| > MAX_FILE || ValidName(name) != Ok || File(disk, name) == None
    ensures WriteFile(Dev(disk, power), past, name, data).dev.disk == disk
  {
    hide NameInv, Inv, Resolve, WriteContents, File;
    FileNamed(disk, name);
    ResolveIsNamed(disk, past, name);
  }

  lemma UnlinkRefused(disk: Blocks, past: byte, name: CString, power: int)
    requires NameInv(disk) && Device(disk) && Inv(disk) && (ValidName(name) != Ok || File(disk, name) == None)
    ensures Unlink(Dev(disk, power), past, name).dev.disk == disk
  {
    hide NameInv, Inv, Resolve, RemoveFile, File;
    FileNamed(disk, name);
    ResolveIsNamed(disk, past, name);
  }

  /** Over any run with short names, each operation cut after any number of its block writes, the files are
      exactly those of the map that follows the cuts. */
  lemma {:induction false} CutRunsRefineMap(disk: Blocks, ops: seq<Op>, m: Files)
    requires Represents(disk, m) && forall i :: 0 <= i < |ops| && ops[i].DoCreate? ==> |ops[i].name| <= SHORT_NAME
    ensures Device(disk) && Represents(Run(disk, ops), CutRun(m, disk, ops))
    decreases |ops|
  {
    assert Inv(disk);
    InvDevice(disk);
    hide Represents, Step, CutStep, Inv;
    if ops != [] {
      CutStepRefines(disk, ops[0], m);
      CutRunsRefineMap(Step(disk, ops[0]).dev.disk, ops[1..], CutStep(m, disk, ops[0]));
    }
  }
}
