/** A write that loses power: MCSFS1 overwrites data blocks in place, so the contents can end up torn.
    The contents after any cut are stated exactly, and from them when a write is old-or-new. */
module Mcsfs1Torn {
  import opened Bytes
  import opened Disk
  import opened Mcsfs1
  import opened Mcsfs1Inv
  import opened Mcsfs1Ops
  import opened Mcsfs1Files

  // ----- Allocation, counted -----

  /** How many bits of [lo, hi) are clear. */
  function CountClear(bm: Block, lo: nat, hi: nat): nat
    requires lo <= hi <= 8 * BLOCK_SIZE
    decreases hi - lo
  {
    if lo == hi then 0 else (if TestBit(bm, lo) then 0 else 1) + CountClear(bm, lo + 1, hi)
  }

  function FreeBlocks(disk: Blocks): nat
    requires Device(disk)
  {
    CountClear(disk[BLOCK_BMAP_LBA], DATA_START_LBA, |disk|)
  }

  /** How many of the pointers i..need-1 are empty. */
  function Holes(inode: InodeBuf, i: nat, need: nat): nat
    requires i <= need <= DIRECT_BLOCKS
    decreases need - i
  {
    if i == need then 0 else (if Direct(inode, i) == 0 then 1 else 0) + Holes(inode, i + 1, need)
  }

  lemma {:induction false} CountSet(bm: Block, lo: nat, hi: nat, i: nat)
    requires lo <= hi <= 8 * BLOCK_SIZE && i < hi && !TestBit(bm, i)
    ensures CountClear(bm, lo, hi) == CountClear(SetBit(bm, i), lo, hi) + if lo <= i then 1 else 0
    decreases hi - lo
  {
    hide TestBit, SetBit;
    if lo < hi {
      CountSet(bm, lo + 1, hi, i);
    }
  }

  lemma {:induction false} CountFinds(bm: Block, lo: nat, hi: nat)
    requires lo <= hi <= 8 * BLOCK_SIZE
    ensures FindClearBit(bm, lo, hi) < hi <==> CountClear(bm, lo, hi) > 0
    decreases hi - lo
  {
    hide TestBit;
    if lo < hi {
      CountFinds(bm, lo + 1, hi);
    }
  }

  lemma {:induction false} HolesFilled(inode: InodeBuf, k: nat, lba: u32, i: nat, need: nat)
    requires k < i <= need <= DIRECT_BLOCKS
    ensures Holes(SetDirect(inode, k, lba), i, need) == Holes(inode, i, need)
    decreases need - i
  {
    hide LoadU32, Direct, SetDirect;
    if i < need {
      SetDirectFields(inode, k, lba, i);
      HolesFilled(inode, k, lba, i + 1, need);
    }
  }

  /** Two bitmap stores cost two writes. */
  lemma StoreBmapsPower(d: Dev, ib: Block, bb: Block)
    requires Device(d.disk)
    ensures var r := StoreBmaps(d, ib, bb);
            && (r.rc == Ok <==> d.power < 0 || d.power >= 2) && (r.rc == Ok || r.rc == Io)
            && (r.rc == Ok ==> r.dev.power == (if d.power < 0 then d.power else d.power - 2)
                               && r.dev.disk == d.disk[INODE_BMAP_LBA := ib][BLOCK_BMAP_LBA := bb])
  {
  }

  /** Filling the holes succeeds exactly when there are enough free blocks and two writes for each;
      pointers that were there stay. */
  lemma {:induction false} AllocExact(d: Dev, inode: InodeBuf, i: nat, need: nat)
    requires Device(d.disk) && i <= need <= DIRECT_BLOCKS
    ensures var (r, out), h := AllocBlocks(d, inode, i, need), Holes(inode, i, need);
            && (r.rc == Ok <==> FreeBlocks(d.disk) >= h && (d.power < 0 || d.power >= 2 * h))
            && (r.rc == Ok || r.rc == Io || r.rc == NoSpc) && (FreeBlocks(d.disk) >= h ==> r.rc != NoSpc)
            && (r.rc == Ok ==> r.dev.power == if d.power < 0 then d.power else d.power - 2 * h)
            && forall j :: 0 <= j < DIRECT_BLOCKS && Direct(inode, j) != 0 ==> Direct(out, j) == Direct(inode, j)
    decreases need - i
  {
    hide LoadU32, TestBit, SetBit, StoreBmaps, SetDirect, Direct, AllocBlocks;
    AllocBlocksUnfold(d, inode, i, need);
    if i < need {
      if Direct(inode, i) != 0 {
        AllocExact(d, inode, i + 1, need);
      } else {
        var lba := FindClearBit(d.disk[BLOCK_BMAP_LBA], DATA_START_LBA, |d.disk|);
        CountFinds(d.disk[BLOCK_BMAP_LBA], DATA_START_LBA, |d.disk|);
        if lba < |d.disk| {
          var bb := SetBit(d.disk[BLOCK_BMAP_LBA], lba);
          var st := StoreBmaps(d, d.disk[INODE_BMAP_LBA], bb);
          CountSet(d.disk[BLOCK_BMAP_LBA], DATA_START_LBA, |d.disk|, lba);
          StoreBmapsPower(d, d.disk[INODE_BMAP_LBA], bb);
          forall j | 0 <= j < DIRECT_BLOCKS
            ensures Direct(SetDirect(inode, i, lba), j) == if j == i then lba else Direct(inode, j)
          {
            SetDirectFields(inode, i, lba, j);
          }
          HolesFilled(inode, i, lba, i + 1, need);
          AllocExact(st.dev, SetDirect(inode, i, lba), i + 1, need);
        }
      }
    }
  }

  // ----- Data blocks, counted -----

  /** With power for k blocks exactly the first k take their data. */
  lemma {:induction false} WriteBlocksExact(d: Dev, inode: InodeBuf, data: seq<byte>, i: nat, need: nat)
    requires i <= need <= DIRECT_BLOCKS && forall j :: i <= j < need ==> Direct(inode, j) < |d.disk|
    requires forall j, l :: i <= j < l < need ==> Direct(inode, j) != Direct(inode, l)
    ensures var r, k := WriteBlocks(d, inode, data, i, need), i + Reach(d.power, need - i);
            && r.rc == (if k == need then Ok else Io)
            && r.dev.power == (if d.power < 0 then d.power else d.power - (k - i))
            && (forall j :: i <= j < k ==> r.dev.disk[Direct(inode, j)] == PadBlock(Chunk(data, j)))
            && forall b :: 0 <= b < |d.disk| && (forall j :: i <= j < k ==> Direct(inode, j) != b) ==>
                 r.dev.disk[b] == d.disk[b]
    decreases need - i
  {
    hide LoadU32, Direct, PadBlock, Chunk;
    if i < need && d.power != 0 {
      var w := Put(d, Direct(inode, i), PadBlock(Chunk(data, i)));
      WriteBlocksExact(w.dev, inode, data, i + 1, need);
      var r, k := WriteBlocks(d, inode, data, i, need), i + Reach(d.power, need - i);
      forall b | 0 <= b < |d.disk| && (forall j :: i <= j < k ==> Direct(inode, j) != b)
        ensures r.dev.disk[b] == d.disk[b]
      {
        assert Direct(inode, i) != b;
      }
    }
  }

  // ----- The contents -----

  /** The data with zeros behind it. */
  function Padded(data: seq<byte>, i: nat): byte {
    if i < |data| then data[i] else 0
  }

  /** c with the padded data laid over its first k blocks, cut to the length of c. */
  function Overlay(c: seq<byte>, data: seq<byte>, k: nat): (r: seq<byte>)
    ensures |r| == |c|
  {
    seq(|c|, i requires 0 <= i < |c| => if i < BLOCK_SIZE * k then Padded(data, i) else c[i])
  }

  lemma PaddedChunk(data: seq<byte>, i: nat, m: nat)
    requires m < BLOCK_SIZE
    ensures PadBlock(Chunk(data, i))[m] == Padded(data, BLOCK_SIZE * i + m)
  {
  }

  /** Reading through an inode whose first k blocks were overwritten. */
  lemma {:induction false} ReadTorn(d: Blocks, e: Blocks, inode: InodeBuf, data: seq<byte>, k: nat, i: nat)
    requires Size(inode) <= MAX_FILE && i <= DIRECT_BLOCKS && |e| == |d| && ReadFrom(d, inode, i).0 == Ok
    requires forall j :: 0 <= j < DIRECT_BLOCKS && 0 != Direct(inode, j) < |d| ==>
               e[Direct(inode, j)] == if j < k then PadBlock(Chunk(data, j)) else d[Direct(inode, j)]
    ensures var x, y := ReadFrom(d, inode, i).1, ReadFrom(e, inode, i).1;
            && ReadFrom(e, inode, i).0 == Ok && |y| == |x|
            && forall m :: 0 <= m < |x| ==>
                 y[m] == if i + m / BLOCK_SIZE < k then Padded(data, BLOCK_SIZE * i + m) else x[m]
    decreases DIRECT_BLOCKS - i
  {
    hide LoadU32, PadBlock, Chunk, Direct, Size, Padded, ReadFrom;
    ReadStep(d, inode, i);
    ReadStep(e, inode, i);
    if BLOCK_SIZE * i < Size(inode) {
      ReadTorn(d, e, inode, data, k, i + 1);
      var n := Min(BLOCK_SIZE, Size(inode) - BLOCK_SIZE * i);
      var x, y := ReadFrom(d, inode, i).1, ReadFrom(e, inode, i).1;
      ReadStep(d, inode, i + 1);
      forall m | 0 <= m < |x|
        ensures y[m] == if i + m / BLOCK_SIZE < k then Padded(data, BLOCK_SIZE * i + m) else x[m]
      {
        if m < n {
          PaddedChunk(data, i, m);
        } else {
          NextBlock(m);
        }
      }
    }
  }

  lemma NextBlock(m: nat)
    requires m >= BLOCK_SIZE
    ensures m / BLOCK_SIZE == 1 + (m - BLOCK_SIZE) / BLOCK_SIZE
  {
  }

  /** How many data blocks a write with this power gets through, after two writes for each of h holes. */
  function Filled(power: int, h: nat, need: nat): (k: nat)
    ensures k <= need
  {
    if power < 2 * h then 0 else if power - 2 * h < need then power - 2 * h else need
  }

  predicate Enough(power: int, h: nat, need: nat) {
    power < 0 || power >= 2 * h + need + 1
  }

  /** The blocks of slot s after its first k data blocks were written through `out`, which only fills holes. */
  lemma TornContents(d: Blocks, e: Blocks, s: nat, out: InodeBuf, data: seq<byte>, k: nat)
    requires Inv(d) && Inv(e) && s < DIRENT_COUNT && Live(d, s) && Live(e, s) && k <= DIRECT_BLOCKS && |e| == |d|
    requires FileInode(e, s) == FileInode(d, s) && NoRepeats(out)
    requires forall j :: 0 <= j < DIRECT_BLOCKS && Direct(FileInode(d, s), j) != 0 ==>
              Direct(out, j) == Direct(FileInode(d, s), j)
    requires forall j :: 0 <= j < k ==> 0 != Direct(out, j) < |d| && e[Direct(out, j)] == PadBlock(Chunk(data, j))
    requires forall b :: DATA_START_LBA <= b < |d| && (forall j :: 0 <= j < k ==> Direct(out, j) != b) ==> e[b] == d[b]
    ensures SlotContents(e, s) == Overlay(SlotContents(d, s), data, k)
  {
    LiveEntry(d, s);
    LiveSize(d, s);
    var inode := FileInode(d, s);
    hide LoadU32, LoadU16, TestBit, FileInode, Direct, Size, PadBlock, Chunk, Inv, Entry, ReadFrom, Padded, Live;
    SlotReads(d, s);
    forall j | 0 <= j < DIRECT_BLOCKS && 0 != Direct(inode, j) < |d|
      ensures e[Direct(inode, j)] == if j < k then PadBlock(Chunk(data, j)) else d[Direct(inode, j)]
    {
      forall l | 0 <= l < k && l != j ensures Direct(out, l) != Direct(inode, j) {
        assert Direct(out, j) == Direct(inode, j);
      }
    }
    ReadTorn(d, e, inode, data, k, 0);
    forall m: nat ensures m / BLOCK_SIZE < k <==> m < BLOCK_SIZE * k {
      BlockBound(m, k);
    }
  }

  lemma BlockBound(m: nat, k: nat)
    ensures m / BLOCK_SIZE < k <==> m < BLOCK_SIZE * k
  {
  }

  lemma SlotReads(d: Blocks, s: nat)
    requires Inv(d) && s < DIRENT_COUNT && Live(d, s)
    ensures Size(FileInode(d, s)) <= MAX_FILE && ReadFrom(d, FileInode(d, s), 0) == (Ok, SlotContents(d, s))
  {
    LiveEntry(d, s);
    LiveSize(d, s);
    hide LoadU32, LoadU16, TestBit, FileInode, BlocksFor, NoRepeats;
    FineReads(d, FileInode(d, s), 0);
  }

  /** Writing live slot s with any power: refused for lack of blocks, complete, or torn. */
  lemma WriteContentsCut(d: Dev, s: nat, data: seq<byte>)
    requires Inv(d.disk) && s < DIRENT_COUNT && Live(d.disk, s) && |data| <= MAX_FILE
    ensures 2 <= Ino(d.disk, s) <= MAX_INODES
    ensures var inode, need := FileInode(d.disk, s), BlocksFor(|data|);
            var h, r := Holes(inode, 0, need), WriteContents(d, Ino(d.disk, s), inode, data);
            && Inv(r.dev.disk) && Live(r.dev.disk, s)
            && (r.rc == Ok <==> FreeBlocks(d.disk) >= h && Enough(d.power, h, need))
            && (FreeBlocks(d.disk) < h ==> SlotContents(r.dev.disk, s) == SlotContents(d.disk, s))
            && (FreeBlocks(d.disk) >= h && !Enough(d.power, h, need) ==>
                  && r.rc == Io
                  && SlotContents(r.dev.disk, s) == Overlay(SlotContents(d.disk, s), data, Filled(d.power, h, need)))
  {
    hide *;
    InvDevice(d.disk);
    LiveIno(d.disk, s);
    WriteContentsKeeps(d, s, data);
    var inode, need, ino := FileInode(d.disk, s), BlocksFor(|data|), Ino(d.disk, s);
    var h, r := Holes(inode, 0, need), WriteContents(d, ino, inode, data);
    WriteOutcomeFacts(d.disk, r.dev.disk, s, data, r.rc);
    OnDiskInodeIsPartial(d.disk, s);
    AllocExact(d, inode, 0, need);
    AllocBlocksKeeps(d, s, inode, 0, need);
    var (a, out) := AllocBlocks(d, inode, 0, need);
    AllocOutcomeFacts(d, a, out, s, need);
    WriteContentsUnfold(d, ino, inode, data);
    PowerCases(d.power, h, need);
    StillLive(d.disk, a.dev.disk, s);
    KeptContents(d.disk, a.dev.disk, s);
    if a.rc == Ok {
      CutAfterAlloc(d.disk, a.dev, s, out, data);
    } else {
      NothingLaid(SlotContents(d.disk, s), data);
    }
  }

  lemma NothingLaid(c: seq<byte>, data: seq<byte>)
    ensures Overlay(c, data, 0) == c
  {
  }

  lemma PowerCases(power: int, h: nat, need: nat)
    ensures Enough(power, h, need) <==> power < 0 || power >= 2 * h + need + 1
    ensures 0 <= power < 2 * h ==> Filled(power, h, need) == 0
    ensures power >= 2 * h ==> Filled(power, h, need) == Reach(power - 2 * h, need)
  {
  }

  lemma WriteOutcomeFacts(d: Blocks, e: Blocks, s: nat, data: seq<byte>, rc: Rc)
    requires WriteOutcome(d, e, s, data, rc)
    ensures Inv(e) && s < DIRENT_COUNT && Live(e, s) && (rc == Ok || rc == Io || rc == NoSpc)
  {
    hide Inv, Live, ReadFrom, FileInode, DeviceFull;
  }

  lemma KeptContents(d: Blocks, e: Blocks, s: nat)
    requires Inv(d) && Inv(e) && KeptBut(d, e, NOBODY) && s < DIRENT_COUNT && Live(d, s) && Live(e, s)
    ensures SlotContents(e, s) == SlotContents(d, s) && FileInode(e, s) == FileInode(d, s)
  {
    hide Inv, SlotContents, Live, Kept, SlotName;
    KeptFile(d, e, s, []);
    KeptInode(d, e, s);
  }

  /** The second half of a write, on the device that the allocation left. */
  lemma CutAfterAlloc(d: Blocks, a: Dev, s: nat, out: InodeBuf, data: seq<byte>)
    requires Inv(d) && Inv(a.disk) && s < DIRENT_COUNT && Live(d, s) && Live(a.disk, s) && |data| <= MAX_FILE
    requires KeptBut(d, a.disk, NOBODY) && Partial(a.disk, s, out, BlocksFor(|data|))
    requires forall j :: 0 <= j < DIRECT_BLOCKS && Direct(FileInode(d, s), j) != 0 ==>
              Direct(out, j) == Direct(FileInode(d, s), j)
    ensures 2 <= Ino(d, s) <= MAX_INODES && Device(a.disk)
    ensures var need := BlocksFor(|data|);
            var w := WriteBlocks(a, out, data, 0, need);
            var r := if w.rc != Ok then w else WriteInode(w.dev, Ino(d, s), SetSize(out, |data|));
            && (r.rc == Ok <==> a.power < 0 || a.power >= need + 1)
            && (r.rc != Ok ==>
                  && r.rc == Io && Inv(r.dev.disk) && Live(r.dev.disk, s)
                  && SlotContents(r.dev.disk, s) == Overlay(SlotContents(d, s), data, Reach(a.power, need)))
  {
    hide *;
    InvDevice(d);
    InvDevice(a.disk);
    LiveIno(d, s);
    KeptContents(d, a.disk, s);
    var need := BlocksFor(|data|);
    PartialFacts(a.disk, s, out, need);
    WriteBlocksExact(a, out, data, 0, need);
    WriteBlocksKeeps(a, s, out, data, 0, need);
    var w := WriteBlocks(a, out, data, 0, need);
    DataOutcomeFacts(a, w, s, out, data, need);
    ReachIs(a.power, need);
    if w.rc == Ok {
      WriteInodeCases(w.dev, Ino(d, s), SetSize(out, |data|));
    }
    if !(a.power < 0 || a.power >= need + 1) {
      SameSlots(a.disk, w.dev.disk, s);
      TornContents(a.disk, w.dev.disk, s, out, data, Reach(a.power, need));
    }
  }

  lemma ReachIs(power: int, n: nat)
    ensures Reach(power, n) == (if 0 <= power < n then power else n) && Reach(power, n - 0) == Reach(power, n) <= n
  {
  }

  lemma SameSlots(d: Blocks, e: Blocks, s: nat)
    requires Device(d) && |e| == |d| && s < DIRENT_COUNT && forall b :: 0 <= b < DATA_START_LBA ==> e[b] == d[b]
    ensures FileInode(e, s) == FileInode(d, s)
  {
    SameInodes(d, e);
    hide LoadU32, FileInode;
  }

  lemma PartialFacts(d: Blocks, s: nat, inode: InodeBuf, need: nat)
    requires Device(d) && s < DIRENT_COUNT && need <= DIRECT_BLOCKS && Partial(d, s, inode, need)
    ensures NoRepeats(inode) && DATA_START_LBA == 8 && MAX_FILE == 4096
    ensures forall j :: 0 <= j < need ==> DATA_START_LBA <= Direct(inode, j) < |d|
    ensures forall j, l :: 0 <= j < l < need ==> Direct(inode, j) != Direct(inode, l)
  {
    hide LoadU32, LoadU16, TestBit, FileInode, OwnsNothingOf;
    forall j | 0 <= j < need ensures DATA_START_LBA <= Direct(inode, j) < |d| {
      assert GoodBlock(d, Direct(inode, j));
    }
  }

  // ----- By name -----

  /** A write of an existing short-named file, with any power: without enough free blocks for its holes the
      file stays as it was; with power for all its block writes the file is the data; otherwise the contents
      are the old ones overlaid on the blocks that were reached. */
  lemma WriteCut(d: Dev, past: byte, name: CString, data: seq<byte>)
    requires NameInv(d.disk) && |data| <= MAX_FILE && ValidName(name) == Ok && File(d.disk, name).Some?
    ensures var t, need := Resolve(d.disk, past, name), BlocksFor(|data|);
            t.Found? &&
            var h, r := Holes(t.inode, 0, need), WriteFile(d, past, name, data);
            && NameInv(r.dev.disk)
            && (r.rc == Ok <==> FreeBlocks(d.disk) >= h && Enough(d.power, h, need))
            && File(r.dev.disk, name) ==
                 if FreeBlocks(d.disk) < h then File(d.disk, name)
                 else if Enough(d.power, h, need) then Some(data)
                 else Some(Overlay(File(d.disk, name).value, data, Filled(d.power, h, need)))
  {
    hide *;
    NameInvDevice(d.disk);
    WriteRefines(d, past, name, data);
    ResolveIsNamed(d.disk, past, name);
    FileNamed(d.disk, name);
    var t := Resolve(d.disk, past, name);
    ResolvedIsLive(d.disk, past, name);
    WriteContentsCut(d, t.slot, data);
    WriteFileFound(d, past, name, data);
    var e := WriteFile(d, past, name, data).dev.disk;
    WriteFileKeeps(d, past, name, data);
    StillNamed(d.disk, e, t.slot, name, data, WriteFile(d, past, name, data).rc);
    NameInvDevice(e);
    FileAt(d.disk, t.slot, name);
    FileAt(e, t.slot, name);
  }

  lemma FileNamed(disk: Blocks, q: CString)
    requires NameInv(disk)
    ensures Device(disk) && Inv(disk) && (File(disk, q).Some? <==> exists i :: Named(disk, i, q))
  {
    hide Named, SlotContents;
  }

  lemma WriteFileFound(d: Dev, past: byte, name: CString, data: seq<byte>)
    requires Device(d.disk) && |data| <= MAX_FILE && Resolve(d.disk, past, name).Found?
    ensures var t := Resolve(d.disk, past, name);
            WriteFile(d, past, name, data) == WriteContents(d, t.ino, t.inode, data)
  {
    hide Resolve, WriteContents;
  }

  lemma StillNamed(d: Blocks, e: Blocks, s: nat, name: CString, data: seq<byte>, rc: Rc)
    requires WriteOutcome(d, e, s, data, rc) && Device(d) && Named(d, s, name)
    ensures Device(e) && Named(e, s, name) && Live(d, s) && Live(e, s)
  {
    hide Inv, Live, ReadFrom, FileInode, DeviceFull, KeptBut, SlotName;
    InvDevice(e);
  }

  // ----- When a write is old-or-new -----

  /** With this power the file ends up as it was or as the data. */
  ghost predicate OldOrNew(disk: Blocks, past: byte, name: CString, data: seq<byte>, power: int)
    requires NameInv(disk)
  {
    NameInvDevice(disk);
    var e := WriteFile(Dev(disk, power), past, name, data).dev.disk;
    NameInv(e) && Inv(e) && (File(e, name) == File(disk, name) || File(e, name) == Some(data))
  }

  /** A write is old-or-new at every power exactly when there are too few free blocks for its holes, or every
      overlay is the old contents or the data. */
  lemma WriteAtomicIff(disk: Blocks, past: byte, name: CString, data: seq<byte>)
    requires NameInv(disk) && |data| <= MAX_FILE && ValidName(name) == Ok && Inv(disk) && File(disk, name).Some?
    ensures Resolve(disk, past, name).Found?
    ensures var c, need := File(disk, name).value, BlocksFor(|data|);
            var h := Holes(Resolve(disk, past, name).inode, 0, need);
            (forall power :: OldOrNew(disk, past, name, data, power)) <==>
              FreeBlocks(disk) < h || forall k :: 0 <= k <= need ==>
                Overlay(c, data, k) == c || Overlay(c, data, k) == data
  {
    hide *;
    InvDevice(disk);
    WriteCut(Dev(disk, 0), past, name, data);
    var c, need := File(disk, name).value, BlocksFor(|data|);
    var h := Holes(Resolve(disk, past, name).inode, 0, need);
    forall power ensures OldOrNew(disk, past, name, data, power) <==>
                           FreeBlocks(disk) < h || Enough(power, h, need)
                           || Overlay(c, data, Filled(power, h, need)) in {c, data}
    {
      WriteCut(Dev(disk, power), past, name, data);
      OldOrNewIs(disk, past, name, data, power);
    }
    if FreeBlocks(disk) >= h && forall power :: OldOrNew(disk, past, name, data, power) {
      forall k | 0 <= k <= need ensures Overlay(c, data, k) == c || Overlay(c, data, k) == data {
        assert OldOrNew(disk, past, name, data, 2 * h + k);
        PowerFor(h, need, k);
      }
    }
  }

  lemma OldOrNewIs(disk: Blocks, past: byte, name: CString, data: seq<byte>, power: int)
    requires NameInv(disk) && Device(disk) && Inv(disk)
    requires NameInv(WriteFile(Dev(disk, power), past, name, data).dev.disk)
    ensures var e := WriteFile(Dev(disk, power), past, name, data).dev.disk;
            Inv(e) && (OldOrNew(disk, past, name, data, power) <==>
              File(e, name) == File(disk, name) || File(e, name) == Some(data))
  {
    hide NameInv, Inv, WriteFile, File;
    NameInvDevice(WriteFile(Dev(disk, power), past, name, data).dev.disk);
  }

  lemma PowerFor(h: nat, need: nat, k: nat)
    requires k <= need
    ensures !Enough(2 * h + k, h, need) && Filled(2 * h + k, h, need) == k
  {
  }

  /** The two halves of that condition, byte by byte. */
  lemma OverlayIs(c: seq<byte>, data: seq<byte>, k: nat)
    ensures Overlay(c, data, k) == c <==> forall i :: 0 <= i < |c| && i < BLOCK_SIZE * k ==> c[i] == Padded(data, i)
    ensures Overlay(c, data, k) == data <==>
              |c| == |data| && forall i :: BLOCK_SIZE * k <= i < |c| ==> c[i] == data[i]
  {
    hide Padded;
    var o := Overlay(c, data, k);
    if o == c {
      forall i | 0 <= i < |c| && i < BLOCK_SIZE * k ensures c[i] == Padded(data, i) {
        assert o[i] == c[i];
      }
    }
    if o == data {
      forall i | BLOCK_SIZE * k <= i < |c| ensures c[i] == data[i] {
        assert o[i] == data[i];
      }
    }
    if |c| == |data| && forall i :: BLOCK_SIZE * k <= i < |c| ==> c[i] == data[i] {
      forall i | 0 <= i < |c| ensures o[i] == data[i] {
        assert i < |data| ==> Padded(data, i) == data[i] by { PaddedInside(data, i); }
      }
    }
  }

  lemma PaddedInside(data: seq<byte>, i: nat)
    ensures i < |data| ==> Padded(data, i) == data[i]
  {
  }

  /** Appending is old-or-new at every power. */
  lemma AppendIsAtomic(disk: Blocks, past: byte, name: CString, data: seq<byte>, power: int)
    requires NameInv(disk) && |data| <= MAX_FILE && ValidName(name) == Ok && Inv(disk) && File(disk, name).Some?
    requires File(disk, name).value <= data
    ensures OldOrNew(disk, past, name, data, power)
  {
    hide *;
    WriteAtomicIff(disk, past, name, data);
    forall k | 0 <= k <= BlocksFor(|data|) ensures Overlay(File(disk, name).value, data, k) == File(disk, name).value {
      OverlayIs(File(disk, name).value, data, k);
      forall i: nat ensures i < |data| ==> Padded(data, i) == data[i] {
        PaddedInside(data, i);
      }
    }
  }

  /** So is replacing at most one block by as many bytes. */
  lemma OneBlockIsAtomic(disk: Blocks, past: byte, name: CString, data: seq<byte>, power: int)
    requires NameInv(disk) && ValidName(name) == Ok && Inv(disk) && File(disk, name).Some?
    requires |File(disk, name).value| == |data| <= BLOCK_SIZE
    ensures OldOrNew(disk, past, name, data, power)
  {
    hide *;
    Sizes();
    WriteAtomicIff(disk, past, name, data);
    var c := File(disk, name).value;
    forall k | 0 <= k <= BlocksFor(|data|) ensures Overlay(c, data, k) == c || Overlay(c, data, k) == data {
      OverlayIs(c, data, k);
    }
  }

  lemma Sizes()
    ensures MAX_FILE == 4096 && BLOCK_SIZE == 512
  {
  }

  function Fill(n: nat, b: byte): (r: seq<byte>)
    ensures |r| == n && forall i :: 0 <= i < n ==> r[i] == b
  {
    seq(n, _ => b)
  }

  /** Two blocks of one byte overwritten by two blocks of another: with power for one block write the file is
      half old and half new. */
  lemma TornWrite(disk: Blocks, past: byte, name: CString)
    requires NameInv(disk) && ValidName(name) == Ok && Inv(disk) && File(disk, name) == Some(Fill(1024, 0x61))
    ensures var r := WriteFile(Dev(disk, 1), past, name, Fill(1024, 0x62));
            && r.rc == Io && NameInv(r.dev.disk) && Inv(r.dev.disk)
            && File(r.dev.disk, name) == Some(Fill(512, 0x62) + Fill(512, 0x61))
    ensures !OldOrNew(disk, past, name, Fill(1024, 0x62), 1)
  {
    hide *;
    Sizes();
    InvDevice(disk);
    var c, data := Fill(1024, 0x61), Fill(1024, 0x62);
    WriteCut(Dev(disk, 1), past, name, data);
    NoHoles(disk, past, name);
    var r := WriteFile(Dev(disk, 1), past, name, data);
    WriteRefines(Dev(disk, 1), past, name, data);
    NameInvDevice(r.dev.disk);
    HalfLaid();
    OldOrNewIs(disk, past, name, data, 1);
    assert (Fill(512, 0x62) + Fill(512, 0x61))[0] == 0x62;
    assert (Fill(512, 0x62) + Fill(512, 0x61))[512] == 0x61;
  }

  lemma HalfLaid()
    ensures BlocksFor(1024) == 2 && Filled(1, 0, 2) == 1 && !Enough(1, 0, 2)
    ensures Overlay(Fill(1024, 0x61), Fill(1024, 0x62), 1) == Fill(512, 0x62) + Fill(512, 0x61)
  {
  }

  /** A file of 1024 bytes has its first two blocks. */
  lemma NoHoles(disk: Blocks, past: byte, name: CString)
    requires NameInv(disk) && Inv(disk) && ValidName(name) == Ok && File(disk, name).Some?
    requires |File(disk, name).value| == 1024
    ensures Resolve(disk, past, name).Found? && Holes(Resolve(disk, past, name).inode, 0, 2) == 0
  {
    hide *;
    FileNamed(disk, name);
    ResolveIsNamed(disk, past, name);
    var t := Resolve(disk, past, name);
    FileAt(disk, t.slot, name);
    ReadOfSlot(disk, past, name);
    NamedEntryFine(disk, t.slot, name);
    TwoBlocks(disk, t.inode);
  }

  lemma NamedEntryFine(disk: Blocks, i: nat, q: CString)
    requires Inv(disk) && Named(disk, i, q)
    ensures InodeFine(disk, FileInode(disk, i))
  {
    hide LoadU32, LoadU16, InodeAt, BaseOk, TestBit, SlotName, InodeFine, FileInode;
    assert Entry(disk, i);
  }

  lemma TwoBlocks(disk: Blocks, inode: InodeBuf)
    requires Device(disk) && InodeFine(disk, inode) && Size(inode) == 1024
    ensures Holes(inode, 0, 2) == 0
  {
    hide LoadU32, LoadU16, TestBit, NoRepeats, Direct;
    assert Holes(inode, 2, 2) == 0;
    assert Holes(inode, 1, 2) == 0;
  }
}
