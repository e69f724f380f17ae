/** MCSFS1J down to its raw bytes: what format, a commit and a creation put where, and exactly which bytes mount,
    read, write and fsck refuse. */
module JournalLayout {
  import opened Bytes
  import opened Disk
  import opened Checksum
  import opened Journal
  import opened JournalFs
  import opened JournalCrash
  import opened JournalFsCrash
  import opened JournalFormat
  import opened JournalFsRuns

  // ----- Literal words -----

  lemma Word(b: Block, off: nat, v: byte, w: byte)
    requires off + 4 <= 512
    ensures off + 4 <= |b|
    ensures LoadU32(b, off) as int == v as int + 0x100 * w as int <==>
              b[off] == v && b[off + 1] == w && b[off + 2] == 0 && b[off + 3] == 0
  {
    hide LoadU32;
    WordBytes(b, off, v, w, 0, 0);
  }

  /** The bytes of block 0 that mount compares. */
  predicate SuperBytes(b: Block) {
    && b[..16] == [0x31, 0x4A, 0x56, 0x31, 0x46, 0x53, 0x43, 0x4D, 1, 0, 0, 0, 0, 2, 0, 0]
    && b[44..52] == [24, 0, 0, 0, 25, 0, 0, 0]
  }

  lemma MagicBytes(b: Block)
    ensures LoadU64(b, 0) == JournalFs.MAGIC <==> b[..8] == [0x31, 0x4A, 0x56, 0x31, 0x46, 0x53, 0x43, 0x4D]
  {
    hide LoadU32;
    WordBytes(b, 0, 0x31, 0x4A, 0x56, 0x31);
    WordBytes(b, 4, 0x46, 0x53, 0x43, 0x4D);
    LoadU64Parts(b, 0x31564A31, 0x4D435346);
  }

  lemma LoadU64Parts(b: Block, lo: u32, hi: u32)
    ensures LoadU64(b, 0) as int == lo as int + 0x1_0000_0000 * hi as int <==>
              LoadU32(b, 0) == lo && LoadU32(b, 4) == hi
  {
    hide LoadU32;
  }

  lemma SuperIff(b: Block)
    ensures SuperOk(b) <==> SuperBytes(b)
  {
    hide LoadU32, LoadU64;
    MagicBytes(b);
    Word(b, 8, 1, 0);
    Word(b, 12, 0, 2);
    Word(b, 44, 24, 0);
    Word(b, 48, 25, 0);
  }

  /** Bytes 0 to 7 and 12 to 15 of block 1 are zero. */
  predicate NothingLogged(disk: Blocks) {
    |disk| == 128 && (forall k :: 0 <= k < 8 ==> disk[1][k] == 0) && forall k :: 12 <= k < 16 ==> disk[1][k] == 0
  }

  lemma NothingLoggedIff(disk: Blocks)
    requires |disk| == MAX_BLOCKS
    ensures NothingLogged(disk) <==> Classify(disk[JOURNAL_START]) == Empty
  {
    hide LoadU32;
    var b := disk[JOURNAL_START];
    Word(b, 0, 0, 0);
    Word(b, 4, 0, 0);
    Word(b, 12, 0, 0);
  }

  // ----- What mount refuses -----

  /** On any disk: mount recovers, and then accepts exactly the literal bytes. */
  lemma MountReads(d: Dev)
    requires |d.disk| == 128
    ensures |d.disk| == MAX_BLOCKS
    ensures var r := Recover(d);
            Mount(d) == Outcome(r.dev, if r.rc != Ok then r.rc else if SuperBytes(r.dev.disk[0]) then Ok else Corrupt)
  {
    hide Recover, SuperOk, SuperBytes;
    SuperIff(Recover(d).dev.disk[0]);
  }

  /** On a disk with nothing logged whose block 0 differs anywhere in bytes 0 to 15 or 44 to 51 from a formatted one,
      every operation answers that it is corrupt and leaves it as it was. */
  lemma ForeignSuperRefused(d: Dev, name: CString, data: seq<byte>, stop: bool, cap: u32)
    requires NothingLogged(d.disk)
    requires d.disk[0][..16] != [0x31, 0x4A, 0x56, 0x31, 0x46, 0x53, 0x43, 0x4D, 1, 0, 0, 0, 0, 2, 0, 0]
             || d.disk[0][44..52] != [24, 0, 0, 0, 25, 0, 0, 0]
    ensures |d.disk| == MAX_BLOCKS
    ensures Mount(d) == Outcome(d, Corrupt) && Fsck(d) == Outcome(d, Corrupt)
    ensures Read(d, name, cap) == (Outcome(d, Corrupt), [])
    ensures WriteFile(d, name, data, stop) ==
              Outcome(d, if name == [] || |name| >= 32 then TooLong else if |data| > 512 then Inval else Corrupt)
  {
    hide SuperOk, LoadU32, PlanFile, CommitFile, ReadResult, Consistent, Classify;
    NothingLoggedIff(d.disk);
    SuperIff(d.disk[0]);
  }

  /** A device that was never formatted is one of these disks. */
  lemma BlankRefused(power: int, name: CString, data: seq<byte>, stop: bool, cap: u32)
    ensures var d := Dev(BLANK, power);
            && Mount(d) == Outcome(d, Corrupt) && Fsck(d) == Outcome(d, Corrupt)
            && Read(d, name, cap) == (Outcome(d, Corrupt), [])
            && WriteFile(d, name, data, stop).dev == d && WriteFile(d, name, data, stop).rc != Ok
  {
    hide Mount, Fsck, Read, WriteFile;
    assert BLANK[0][..16][0] == 0;
    ForeignSuperRefused(Dev(BLANK, power), name, data, stop, cap);
  }

  // ----- What a creation refuses -----

  /** A slot, an inode number and a data block that are not in use. */
  ghost predicate Room(disk: Blocks)
    requires |disk| == 128
  {
    && (exists i :: 0 <= i < 12 && LoadU32(disk[24], 40 * i) == 0)
    && (exists n :: 1 <= n < 16 && !TestBit(disk[18], n))
    && exists b :: 25 <= b < 128 && !TestBit(disk[19], b)
  }

  lemma RoomIff(disk: Blocks)
    requires |disk| == MAX_BLOCKS
    ensures HasRoom(disk) <==> Room(disk)
  {
    hide LoadU32, TestBit;
    assert forall i :: 0 <= i < 12 ==> SlotUsed(disk[24], i) == LoadU32(disk[24], 40 * i);
  }

  /** An empty name and one of 32 bytes or more are too long, more than 512 bytes are invalid, and then no block is
      touched; with a name of 1 to 31 bytes and at most 512 bytes a creation on a good disk without a power cut answers
      that the file exists, that there is no room, or Ok. */
  lemma CreationAnswers(disk: Blocks, power: int, name: CString, data: seq<byte>, stop: bool)
    requires |disk| == 128
    ensures |disk| == MAX_BLOCKS
    ensures name == [] || |name| >= 32 ==>
              WriteFile(Dev(disk, power), name, data, stop) == Outcome(Dev(disk, power), TooLong)
    ensures 1 <= |name| <= 31 && |data| > 512 ==>
              WriteFile(Dev(disk, power), name, data, stop) == Outcome(Dev(disk, power), Inval)
    ensures Good(disk) && 1 <= |name| <= 31 && |data| <= 512 ==>
              && WellFormed(disk) && |Settled(disk)| == 128
              && WriteFile(Dev(disk, -1), name, data, stop).rc ==
                   if File(disk, name).Some? then Exists else if Room(Settled(disk)) then Ok else NoSpc
  {
    hide Mount, PlanFile, CommitFile, Good, WellFormed, Settled, File, Room, HasRoom;
    if Good(disk) && 1 <= |name| <= 31 && |data| <= 512 {
      GoodIsDisk(disk);
      CreateSucceedsIff(disk, name, data, stop);
      RoomIff(Settled(disk));
    }
  }

  // ----- What a read answers -----

  /** On any disk: read recovers, checks the superblock, and answers what the first used slot of that name, its inode
      and the size of the buffer call for. */
  lemma ReadReads(d: Dev, name: CString, cap: u32)
    requires |d.disk| == 128
    ensures |d.disk| == MAX_BLOCKS
    ensures var m := Mount(d);
            var e, slot := m.dev.disk, FindSlot(m.dev.disk[24], name, 0);
            var n: int := if slot < 12 then LoadU32(e[24], 40 * slot + 4) else 16;
            var inode, o := if n < 16 then e[20 + n / 4] else ZERO_BLOCK, if n < 16 then 128 * (n % 4) else 0;
            var size, b := LoadU32(inode, o + 8), LoadU32(inode, o + 12);
            Read(d, name, cap) ==
              if m.rc != Ok then (m, [])
              else if slot == 12 then (Outcome(m.dev, NoEnt), [])
              else if n >= 16 || LoadU32(inode, o) == 0 || LoadU32(inode, o + 4) != 1 then (Outcome(m.dev, Corrupt), [])
              else if size > cap || b >= 128 then (Outcome(m.dev, Inval), [])
              else if size > 512 then (Outcome(m.dev, Corrupt), [])
              else (Outcome(m.dev, Ok), e[b][..size])
  {
    hide Mount, LoadU32, SlotMatches, InodeTable;
    var m := Mount(d);
    var e, slot := m.dev.disk, FindSlot(m.dev.disk[24], name, 0);
    if slot < 12 {
      var n := LoadU32(e[24], 40 * slot + 4);
      if n < 16 {
        InodeWord(e, n, 0);
        InodeWord(e, n, 4);
        InodeWord(e, n, 8);
        InodeWord(e, n, 12);
      }
    }
  }

  // ----- What fsck refuses -----

  /** The first twenty-five bits are set: three full bytes and the lowest bit of the next. */
  lemma SystemBlocksIff(bm: Block)
    ensures (forall b :: 0 <= b < 25 ==> TestBit(bm, b)) <==> bm[..3] == [255, 255, 255] && bm[3] % 2 == 1
  {
    hide TestBit, Bit;
    FullByte(bm, 0);
    FullByte(bm, 1);
    FullByte(bm, 2);
    BitOf(bm, 24);
    BitZero(bm[3]);
  }

  lemma BitZero(x: byte)
    ensures Bit(x, 0) == x % 2
  {
  }

  /** Inode 0 is in use and is a directory in block 24. */
  predicate RootBytes(disk: Blocks)
    requires |disk| == 128
  {
    && disk[18][0] % 2 == 1 && disk[20][..8] == [1, 0, 0, 0, 2, 0, 0, 0] && disk[20][12..16] == [24, 0, 0, 0]
  }

  lemma RootIff(disk: Blocks)
    requires |disk| == MAX_BLOCKS
    ensures RootOk(disk) <==> RootBytes(disk)
  {
    hide LoadU32, TestBit, InodeTable, Bit;
    BitOf(disk[18], 0);
    BitZero(disk[18][0]);
    InodeWord(disk, 0, 0);
    InodeWord(disk, 0, 4);
    InodeWord(disk, 0, 12);
    Word(disk[20], 0, 1, 0);
    Word(disk[20], 4, 2, 0);
    Word(disk[20], 12, 24, 0);
  }

  /** Word w of inode i lies in block 20 + i / 4. */
  lemma InodeWord(disk: Blocks, i: nat, w: nat)
    requires |disk| == MAX_BLOCKS && i < 16 && w + 4 <= 128
    ensures 20 + i / 4 < |disk| && 128 * i + w + 4 <= |InodeTable(disk)|
    ensures LoadU32(InodeTable(disk), 128 * i + w) == LoadU32(disk[20 + i / 4], 128 * (i % 4) + w)
  {
    hide LoadU32;
    var t, o := InodeTable(disk), 128 * (i % 4) + w;
    assert 128 * i + w == 512 * (i / 4) + o;
    assert t[128 * i + w..128 * i + w + 4] == disk[20 + i / 4][o..o + 4];
    LoadMoved(t, 128 * i + w, disk[20 + i / 4], o);
  }

  /** fsck's test of a used directory slot: its inode is allocated, in use, a file of at most one block, and its block
      lies in the data area and is allocated. */
  predicate SlotBytes(disk: Blocks, i: nat)
    requires |disk| == 128 && i < 12
  {
    var n := LoadU32(disk[24], 40 * i + 4);
    && n < 16 && Bit(disk[18][n / 8], n % 8) == 1
    && var inode, o := disk[20 + n / 4], 128 * (n % 4);
       var b := LoadU32(inode, o + 12);
       && LoadU32(inode, o) != 0 && LoadU32(inode, o + 4) == 1 && LoadU32(inode, o + 8) <= 512
       && 25 <= b < 128 && Bit(disk[19][b / 8], b % 8) == 1
  }

  lemma SlotIff(disk: Blocks, i: nat)
    requires |disk| == MAX_BLOCKS && i < DIR_SLOTS
    ensures SlotOk(disk, i) <==> SlotBytes(disk, i)
  {
    hide LoadU32, TestBit, Bit, InodeTable;
    var n := LoadU32(disk[24], 40 * i + 4);
    if n < 16 {
      InodeWord(disk, n, 0);
      InodeWord(disk, n, 4);
      InodeWord(disk, n, 8);
      InodeWord(disk, n, 12);
      BitOf(disk[18], n);
      var b := LoadU32(disk[20 + n / 4], 128 * (n % 4) + 12);
      if b < 128 {
        BitOf(disk[19], b);
      }
    }
  }

  /** What fsck looks at, all of it. */
  predicate FsckBytes(disk: Blocks) {
    && |disk| == 128 && SuperBytes(disk[0]) && RootBytes(disk)
    && disk[19][..3] == [255, 255, 255] && disk[19][3] % 2 == 1
    && forall i :: 0 <= i < 12 && LoadU32(disk[24], 40 * i) != 0 ==> SlotBytes(disk, i)
  }

  lemma ConsistentIff(disk: Blocks)
    requires |disk| == MAX_BLOCKS
    ensures Consistent(disk) <==> FsckBytes(disk)
  {
    hide LoadU32, TestBit, SuperOk, SuperBytes, RootOk, RootBytes, SlotOk, SlotBytes;
    SuperIff(disk[0]);
    RootIff(disk);
    SystemBlocksIff(disk[19]);
    forall i | 0 <= i < 12 ensures SlotOk(disk, i) <==> SlotBytes(disk, i) {
      SlotIff(disk, i);
    }
    assert forall i :: 0 <= i < 12 ==> SlotUsed(disk[24], i) == LoadU32(disk[24], 40 * i);
  }

  /** On any disk: fsck recovers, and then accepts exactly these bytes. */
  lemma FsckReads(d: Dev)
    requires |d.disk| == 128
    ensures |d.disk| == MAX_BLOCKS
    ensures var r := Recover(d);
            Fsck(d) == Outcome(r.dev, if r.rc != Ok then r.rc else if FsckBytes(r.dev.disk) then Ok else Corrupt)
  {
    hide Recover, SuperOk, SuperBytes, Consistent, FsckBytes;
    SuperIff(Recover(d).dev.disk[0]);
    ConsistentIff(Recover(d).dev.disk);
    ConsistentParts(Recover(d).dev.disk);
  }

  lemma ConsistentParts(disk: Blocks)
    requires |disk| == MAX_BLOCKS
    ensures Consistent(disk) ==> SuperOk(disk[0])
  {
    hide SuperOk, RootOk, SlotOk, TestBit;
  }

  /** On a disk with nothing logged, a damaged root inode or an unmarked system block is enough for fsck to refuse. */
  lemma DamagedRootRefused(d: Dev)
    requires NothingLogged(d.disk)
    requires d.disk[18][0] % 2 == 0 || d.disk[20][..8] != [1, 0, 0, 0, 2, 0, 0, 0]
             || d.disk[20][12..16] != [24, 0, 0, 0]
             || d.disk[19][..3] != [255, 255, 255] || d.disk[19][3] % 2 == 0
    ensures |d.disk| == MAX_BLOCKS && Fsck(d) == Outcome(d, Corrupt)
  {
    hide SuperBytes, SlotBytes, Classify, Fsck;
    NothingLoggedIff(d.disk);
    FsckReads(d);
  }

  // ----- What format writes -----

  /** The formatted superblock, byte by byte. */
  lemma FormattedSuper()
    ensures var b := SuperBlock();
            && b[..16] == [0x31, 0x4A, 0x56, 0x31, 0x46, 0x53, 0x43, 0x4D, 1, 0, 0, 0, 0, 2, 0, 0]
            && b[16..32] == [128, 0, 0, 0, 1, 0, 0, 0, 17, 0, 0, 0, 18, 0, 0, 0]
            && b[32..48] == [19, 0, 0, 0, 20, 0, 0, 0, 4, 0, 0, 0, 24, 0, 0, 0]
            && b[48..56] == [25, 0, 0, 0, 1, 0, 0, 0]
            && forall k :: 56 <= k < 512 ==> b[k] == 0
  {
    hide SuperBlock, LoadU32, LoadU64;
    var b := SuperBlock();
    SuperWords();
    SuperRest();
    MagicBytes(b);
    Word(b, 8, 1, 0);
    Word(b, 12, 0, 2);
    Word(b, 16, 128, 0);
    Word(b, 20, 1, 0);
    Word(b, 24, 17, 0);
    Word(b, 28, 18, 0);
    Word(b, 32, 19, 0);
    Word(b, 36, 20, 0);
    Word(b, 40, 4, 0);
    Word(b, 44, 24, 0);
    Word(b, 48, 25, 0);
    Word(b, 52, 1, 0);
  }

  lemma SuperWords()
    ensures var b := SuperBlock();
            && LoadU64(b, 0) == JournalFs.MAGIC && LoadU32(b, 8) == 1 && LoadU32(b, 12) == 512 && LoadU32(b, 16) == 128
            && LoadU32(b, 20) == 1 && LoadU32(b, 24) == 17 && LoadU32(b, 28) == 18 && LoadU32(b, 32) == 19
            && LoadU32(b, 36) == 20 && LoadU32(b, 40) == 4 && LoadU32(b, 44) == 24 && LoadU32(b, 48) == 25
            && LoadU32(b, 52) == 1
  {
    hide LoadU32;
  }

  lemma SuperRest()
    ensures forall k :: 56 <= k < 512 ==> SuperBlock()[k] == 0
  {
    hide LoadU32;
  }

  lemma FirstBitsBytes(i: nat)
    requires i < 512
    ensures FirstBits(1)[i] == (if i == 0 then 1 else 0)
    ensures FirstBits(25)[i] == (if i < 3 then 255 else if i == 3 then 1 else 0)
  {
    hide FirstBits, TestBit;
    forall b | 8 * i <= b < 8 * i + 8 ensures TestBit(FirstBits(1), b) <==> b < 1 {
      FirstBitsExact(1, b);
    }
    forall b | 8 * i <= b < 8 * i + 8 ensures TestBit(FirstBits(25), b) <==> b < 25 {
      FirstBitsExact(25, b);
    }
    ByteFromBits(FirstBits(1), i);
    ByteFromBits(FirstBits(25), i);
    FullByte(FirstBits(25), i);
  }

  lemma RootTableBytes(k: nat)
    requires k < 2048
    ensures RootTable()[k] == if k == 0 then 1 else if k == 4 then 2 else if k == 12 then 24 else 0
  {
    var t := RootTable();
    hide LoadU32;
    assert LoadU32(t, 0) == 1 && LoadU32(t, 4) == 2 && LoadU32(t, 8) == 0 && LoadU32(t, 12) == 24;
    hide RootTable;
    WordBytes(t, 0, 1, 0, 0, 0);
    WordBytes(t, 4, 2, 0, 0, 0);
    WordBytes(t, 8, 0, 0, 0, 0);
    WordBytes(t, 12, 24, 0, 0, 0);
  }

  /** Byte k of block l after a format that was not cut, for every block and byte. */
  function FormattedByte(l: nat, k: nat): byte
    requires l < 128 && k < 512
  {
    if l == 0 then SuperBlock()[k]
    else if l == 18 then if k == 0 then 1 else 0
    else if l == 19 then if k < 3 then 255 else if k == 3 then 1 else 0
    else if l == 20 then if k == 0 then 1 else if k == 4 then 2 else if k == 12 then 24 else 0
    else 0
  }

  /** The nine writes. */
  lemma FormatSpots()
    ensures |BLANK| == 128 && |FormatWrites()| == 9 && InRange(FormatWrites(), 128)
    ensures var ws := FormatWrites();
            && ws[0].lba == 0 && ws[1].lba == 18 && ws[2].lba == 19 && ws[3].lba == 20 && ws[4].lba == 21
            && ws[5].lba == 22 && ws[6].lba == 23 && ws[7].lba == 24 && ws[8].lba == 1
    ensures forall i, j :: 0 <= i < j < 9 ==> FormatWrites()[i].lba != FormatWrites()[j].lba
  {
    hide SuperBlock, RootTable, FirstBits, TableBlock;
  }

  lemma FormatWriteBytes(i: nat, k: nat)
    requires i < 9 && k < 512
    ensures i < |FormatWrites()| && FormatWrites()[i].lba < 128
    ensures FormatWrites()[i].data[k] == FormattedByte(FormatWrites()[i].lba, k)
  {
    hide SuperBlock, RootTable, FirstBits;
    FirstBitsBytes(k);
    RootTableBytes(k);
    RootTableBytes(512 + k);
    RootTableBytes(1024 + k);
    RootTableBytes(1536 + k);
  }

  lemma UnwrittenBytes(l: nat, k: nat)
    requires l < 128 && k < 512
    requires l != 0 && l != 1 && (l < 18 || l > 24)
    ensures |BLANK| == 128 && BLANK[l][k] == FormattedByte(l, k)
  {
    hide SuperBlock;
  }

  lemma FormattedBytes(power: int, l: nat, k: nat)
    requires (power < 0 || power >= 9) && l < 128 && k < 512
    ensures var r := Run(Dev(BLANK, power), FormatWrites());
            r.rc == Ok && |r.dev.disk| == 128 && r.dev.disk[l][k] == FormattedByte(l, k)
  {
    hide *;
    var ws := FormatWrites();
    FormatSpots();
    FormatReaches(power);
    if i :| 0 <= i < 9 && ws[i].lba == l {
      ApplyLast(BLANK, ws, i);
      FormatWriteBytes(i, k);
    } else {
      ApplyUntouched(BLANK, ws, l);
      assert ws[1].lba == 18 && ws[2].lba == 19;
      UnwrittenBytes(l, k);
    }
  }

  lemma FormatReaches(power: int)
    requires power < 0 || power >= 9
    ensures |BLANK| == 128 && InRange(FormatWrites(), |BLANK|)
    ensures var r := Run(Dev(BLANK, power), FormatWrites());
            r.rc == Ok && |r.dev.disk| == 128 && r.dev.disk == Apply(BLANK, FormatWrites())
  {
    hide FormatWrites, Run, Apply;
    FormatSpots();
    RunIsPrefix(Dev(BLANK, power), FormatWrites());
    assert FormatWrites()[..9] == FormatWrites();
  }

  // ----- The journal's blocks -----

  lemma JournalMagic(b: Block)
    ensures LoadU64(b, 0) == JMAGIC <==> b[..8] == [0x31, 0x4C, 0x4E, 0x52, 0x4A, 0x53, 0x43, 0x4D]
  {
    hide LoadU32;
    WordBytes(b, 0, 0x31, 0x4C, 0x4E, 0x52);
    WordBytes(b, 4, 0x4A, 0x53, 0x43, 0x4D);
    LoadU64Parts(b, 0x524E4C31, 0x4D43534A);
  }

  /** The header block that a commit writes. */
  lemma HeaderBytes(seqno: u32, count: u32)
    ensures var b := CommitHeader(seqno, count);
            && b[..16] == [0x31, 0x4C, 0x4E, 0x52, 0x4A, 0x53, 0x43, 0x4D, 1, 0, 0, 0, 2, 0, 0, 0]
            && LoadU32(b, 16) == seqno && LoadU32(b, 20) == count
            && LoadU32(b, 24) == Fnv(b[24 := 0][25 := 0][26 := 0][27 := 0])
            && forall k :: 28 <= k < 512 ==> b[k] == 0
  {
    hide CommitHeader, LoadU32, LoadU64, Fnv;
    HeaderWords(seqno, count);
    var b := CommitHeader(seqno, count);
    JournalMagic(b);
    Word(b, 8, 1, 0);
    Word(b, 12, 2, 0);
  }

  lemma HeaderWords(seqno: u32, count: u32)
    ensures var b := CommitHeader(seqno, count);
            && LoadU64(b, 0) == JMAGIC && LoadU32(b, 8) == 1 && LoadU32(b, 12) == 2
            && LoadU32(b, 16) == seqno && LoadU32(b, 20) == count
            && LoadU32(b, 24) == Fnv(b[24 := 0][25 := 0][26 := 0][27 := 0])
            && forall k :: 28 <= k < 512 ==> b[k] == 0
  {
    hide LoadU32, Fnv;
    var h := HeaderBlock(Header(JMAGIC, Journal.VERSION, J_COMMITTED, seqno, count, 0));
    var b := CommitHeader(seqno, count);
    ZeroWord(h, 24);
    assert b[24 := 0][25 := 0][26 := 0][27 := 0] == StoreU32(h, 24, 0);
  }

  lemma ZeroWord(b: Block, off: nat)
    requires off + 4 <= 512
    ensures off + 4 <= |b|
    ensures StoreU32(b, off, 0) == b[off := 0][off + 1 := 0][off + 2 := 0][off + 3 := 0]
  {
    hide LoadU32;
    WordBytes(StoreU32(b, off, 0), off, 0, 0, 0, 0);
  }

  /** The descriptor block of a record. */
  lemma DescBytes(r: Rec)
    ensures var b := DescBlock(RecDesc(r));
            && b[..8] == [0x31, 0x4C, 0x4E, 0x52, 0x4A, 0x53, 0x43, 0x4D]
            && LoadU32(b, 8) == r.target && LoadU32(b, 12) == Fnv(r.payload)
            && forall k :: 16 <= k < 512 ==> b[k] == 0
  {
    hide LoadU32, Fnv;
    JournalMagic(DescBlock(RecDesc(r)));
  }

  /** What recovery makes of any header block. */
  lemma ClassifyReads(b: Block)
    ensures Classify(b) ==
              if (forall k :: 0 <= k < 8 ==> b[k] == 0) && forall k :: 12 <= k < 16 ==> b[k] == 0 then Empty
              else if b[..16] == [0x31, 0x4C, 0x4E, 0x52, 0x4A, 0x53, 0x43, 0x4D, 1, 0, 0, 0, 2, 0, 0, 0]
                      && LoadU32(b, 20) <= 8 && LoadU32(b, 24) == Fnv(b[24 := 0][25 := 0][26 := 0][27 := 0])
              then Committed(LoadU32(b, 20)) else Bad
  {
    hide LoadU32, LoadU64, Fnv;
    HeaderFront(b);
    ZeroWord(b, 24);
  }

  lemma HeaderFront(b: Block)
    ensures b[..16] == [0x31, 0x4C, 0x4E, 0x52, 0x4A, 0x53, 0x43, 0x4D, 1, 0, 0, 0, 2, 0, 0, 0] <==>
              LoadU64(b, 0) == JMAGIC && LoadU32(b, 8) == 1 && LoadU32(b, 12) == 2
    ensures (forall k :: 0 <= k < 8 ==> b[k] == 0) <==> LoadU64(b, 0) == 0
    ensures (forall k :: 12 <= k < 16 ==> b[k] == 0) <==> LoadU32(b, 12) == 0
  {
    hide LoadU32, LoadU64;
    JournalMagic(b);
    LoadU64Parts(b, 0, 0);
    Word(b, 0, 0, 0);
    Word(b, 4, 0, 0);
    Word(b, 8, 1, 0);
    Word(b, 12, 0, 0);
    Word(b, 12, 2, 0);
  }

  /** When recovery applies record i: its descriptor in block 2 + 2i names a block below 128 and carries the checksum
      of block 3 + 2i. */
  lemma IntactReads(disk: Blocks, i: nat)
    requires |disk| == 128 && i < 8
    ensures |disk| == MAX_BLOCKS && i < MAX_RECORDS
    ensures var b := disk[2 + 2 * i];
            && LoggedRec(disk, i) == Rec(LoadU32(b, 8), disk[3 + 2 * i])
            && (Intact(disk, i) <==> b[..8] == [0x31, 0x4C, 0x4E, 0x52, 0x4A, 0x53, 0x43, 0x4D]
                                     && LoadU32(b, 8) < 128 && Fnv(disk[3 + 2 * i]) == LoadU32(b, 12))
  {
    hide LoadU32, Fnv;
    JournalMagic(disk[2 + 2 * i]);
  }

  /** The order of a commit's writes: the header is cleared, each record is logged, descriptor before payload, the
      header is written, each record goes home, and the header is cleared again. */
  lemma CommitOrder(recs: seq<Rec>, seqno: u32, i: nat)
    requires |recs| <= 8
    ensures var ws, n := CommitWrites(recs, seqno), |recs|;
            && |ws| == 3 * n + 3 && ws[0] == Write(1, ZERO_BLOCK)
            && ws[2 * n + 1] == Write(1, CommitHeader(seqno, n)) && ws[3 * n + 2] == Write(1, ZERO_BLOCK)
            && (i < n ==> ws[2 * i + 1] == Write(2 + 2 * i, DescBlock(RecDesc(recs[i])))
                          && ws[2 * i + 2] == Write(3 + 2 * i, recs[i].payload)
                          && ws[2 * n + 2 + i] == Write(recs[i].target, recs[i].payload))
    ensures PrepareWrites(recs, seqno) == CommitWrites(recs, seqno)[..2 * |recs| + 2]
  {
    hide CommitHeader, DescBlock, RecDesc, LogWrites;
    if i < |recs| {
      LogWritesAt(recs, i);
    }
  }

  /** The sequence numbers of a creation's two transactions: the generation stored in bytes 52 to 55 of block 0, plus
      one and plus two. */
  lemma SequenceNumbers(b: Block, g: byte)
    requires g < 254 && b[52..56] == [g, 0, 0, 0]
    ensures Seqno(b, 1) == g as int + 1 && Seqno(b, 2) == g as int + 2
  {
    assert b[52] == b[52..56][0] && b[53] == b[52..56][1] && b[54] == b[52..56][2] && b[55] == b[52..56][3];
    hide LoadU32;
    Word(b, 52, g, 0);
  }

  // ----- What a creation writes into the directory and the inode table -----

  lemma SlotLayout(dir: Block, i: nat, ino: byte, name: CString, k: nat)
    requires i < 12 && |name| < 32 && k < 512
    ensures var b, o := SetSlot(dir, i, ino, name), 40 * i;
            b[k] == if k < o || k >= o + 40 then dir[k] else if k == o then 1 else if k == o + 4 then ino
                    else if k < o + 8 then 0 else if k - o - 8 < |name| then name[k - o - 8] else 0
  {
    hide LoadU32, Splice;
    var o := 40 * i;
    var x := StoreU32(dir, o, 1);
    var y := StoreU32(x, o + 4, ino);
    WordBytes(x, o, 1, 0, 0, 0);
    WordBytes(y, o + 4, ino, 0, 0, 0);
  }

  lemma InodeLayout(t: Table, ino: nat, size: nat, block: byte, k: nat)
    requires ino < 16 && size <= 512 && k < 2048
    ensures var b, o := SetInode(t, ino, 1, size, block), 128 * ino;
            b[k] == if k < o || k >= o + 16 then t[k] else if k == o || k == o + 4 then 1
                    else if k == o + 8 then size % 0x100 else if k == o + 9 then size / 0x100
                    else if k == o + 12 then block else 0
  {
    hide LoadU32, SetInode;
    var o := 128 * ino;
    var b := SetInode(t, ino, 1, size, block);
    InodeWords(t, ino, size, block);
    WordBytes(b, o, 1, 0, 0, 0);
    WordBytes(b, o + 4, 1, 0, 0, 0);
    WordBytes(b, o + 8, size % 0x100, size / 0x100, 0, 0);
    WordBytes(b, o + 12, block, 0, 0, 0);
  }

  lemma InodeWords(t: Table, ino: nat, size: u32, block: u32)
    requires ino < 16
    ensures var b, o := SetInode(t, ino, 1, size, block), 128 * ino;
            && o + 16 <= |b| == 2048
            && LoadU32(b, o) == 1 && LoadU32(b, o + 4) == 1 && LoadU32(b, o + 8) == size && LoadU32(b, o + 12) == block
            && forall k :: 0 <= k < 2048 && !(o <= k < o + 16) ==> b[k] == t[k]
  {
    hide LoadU32;
  }

  /** The eight records of a creation, by home block and in the order of the two transactions. */
  lemma CreationTargets(disk: Blocks, p: Plan, name: CString, data: seq<byte>)
    requires |disk| == 128 && p.Place? && p.ino < 16 && p.block < 128 && p.slot < 12 && |name| < 32 && |data| <= 512
    ensures |disk| == MAX_BLOCKS
    ensures var m, c := MetadataRecords(disk, p, |data|), ContentRecords(disk, p, name, data);
            && |m| == 6 && |c| == 2
            && m[0].target == 18 && m[1].target == 19 && m[2].target == 20 && m[3].target == 21 && m[4].target == 22
            && m[5].target == 23 && c[0].target == 24 && c[1].target == p.block
            && m[0].payload == SetBit(disk[18], p.ino) && m[1].payload == SetBit(disk[19], p.block)
            && m[2].payload + m[3].payload + m[4].payload + m[5].payload ==
                 SetInode(InodeTable(disk), p.ino, 1, |data|, p.block)
            && c[0].payload == SetSlot(disk[24], p.slot, p.ino, name)
            && c[1].payload[..|data|] == data && forall k :: |data| <= k < 512 ==> c[1].payload[k] == 0
  {
    hide SetBit, SetInode, InodeTable, SetSlot;
  }
}
