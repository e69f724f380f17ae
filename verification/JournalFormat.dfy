/** Formatting MCSFS1J. */
module JournalFormat {
  import opened Bytes
  import opened Disk
  import opened Journal
  import opened JournalCrash
  import opened JournalFs
  import opened JournalFsCrash

  function SuperBlock(): Block {
    var b := StoreU32(StoreU32(StoreU64(ZERO_BLOCK, 0, MAGIC), 8, VERSION), 12, BLOCK_SIZE);
    var c := StoreU32(StoreU32(StoreU32(b, 16, MAX_BLOCKS), 20, JOURNAL_START), 24, 1 + 2 * MAX_RECORDS);
    var d := StoreU32(StoreU32(StoreU32(c, 28, INODE_BITMAP_LBA), 32, BLOCK_BITMAP_LBA), 36, INODE_TABLE_LBA);
    StoreU32(StoreU32(StoreU32(StoreU32(d, 40, INODE_TABLE_BLOCKS), 44, ROOT_DIR_LBA), 48, DATA_START_LBA), 52, 1)
  }

  function RootTable(): Table {
    SetInode(Zeros(TABLE_SIZE), 0, KIND_DIR, 0, ROOT_DIR_LBA)
  }

  /** The nine writes, in order, for given structures. */
  function FormatLayout(sb: Block, ib: Block, bb: Block, t: Table): (ws: seq<Write>)
    ensures |ws| == 9 && InRange(ws, MAX_BLOCKS)
    ensures forall i, j :: 0 <= i < j < 9 ==> ws[i].lba != ws[j].lba
  {
    [ Write(0, sb), Write(INODE_BITMAP_LBA, ib), Write(BLOCK_BITMAP_LBA, bb),
      Write(INODE_TABLE_LBA, TableBlock(t, 0)), Write(INODE_TABLE_LBA + 1, TableBlock(t, 1)),
      Write(INODE_TABLE_LBA + 2, TableBlock(t, 2)), Write(INODE_TABLE_LBA + 3, TableBlock(t, 3)),
      Write(ROOT_DIR_LBA, ZERO_BLOCK), CLEAR ]
  }

  function FormatWrites(): (ws: seq<Write>)
    ensures |ws| == 9 && InRange(ws, MAX_BLOCKS)
  {
    FormatLayout(SuperBlock(), FirstBits(1), FirstBits(DATA_START_LBA), RootTable())
  }

  const BLANK: Blocks := seq(MAX_BLOCKS, _ => ZERO_BLOCK)

  /** m16_format: the medium is zeroed in memory first, then the structures are written block by block. */
  method Format(dev: BlockDev) returns (rc: Rc)
    requires dev.blocks.Length == MAX_BLOCKS
    modifies dev, dev.blocks
    ensures Outcome(dev.State(), rc) == Run(Dev(BLANK, old(dev.failAfter)), FormatWrites())
  {
    hide SuperBlock, RootTable, SetBit;
    for l := 0 to MAX_BLOCKS
      invariant forall k :: 0 <= k < l ==> dev.blocks[k] == ZERO_BLOCK
      invariant dev.failAfter == old(dev.failAfter)
    {
      dev.blocks[l] := ZERO_BLOCK;
    }
    assert dev.blocks[..] == BLANK;
    var ib := SetBit(ZERO_BLOCK, 0);
    var bb: Block := ZERO_BLOCK;
    for b := 0 to DATA_START_LBA
      invariant bb == FirstBits(b)
    {
      bb := SetBit(bb, b);
    }
    assert ib == FirstBits(1) by { assert FirstBits(0) == ZERO_BLOCK; }
    rc := WriteLayout(dev, SuperBlock(), ib, bb, RootTable());
  }

  /** The writes of m16_format. */
  method WriteLayout(dev: BlockDev, sb: Block, ib: Block, bb: Block, t: Table) returns (rc: Rc)
    modifies dev, dev.blocks
    ensures Outcome(dev.State(), rc) == old(Run(dev.State(), FormatLayout(sb, ib, bb, t)))
  {
    hide *;
    ghost var start, ws := dev.State(), FormatLayout(sb, ib, bb, t);
    LayoutIs(start, sb, ib, bb, t);
    RunStep(start, ws, 0);
    rc := dev.WriteBlock(0, sb);
    if rc != Ok {
      return rc;
    }
    RunStep(start, ws, 1);
    rc := dev.WriteBlock(INODE_BITMAP_LBA, ib);
    if rc != Ok {
      return rc;
    }
    RunStep(start, ws, 2);
    rc := dev.WriteBlock(BLOCK_BITMAP_LBA, bb);
    if rc != Ok {
      return rc;
    }
    for i := 0 to INODE_TABLE_BLOCKS
      invariant Run(start, ws[..3 + i]) == Outcome(dev.State(), Ok)
    {
      LayoutTable(sb, ib, bb, t, i);
      RunStep(start, ws, 3 + i);
      rc := dev.WriteBlock(INODE_TABLE_LBA + i, TableBlock(t, i));
      if rc != Ok {
        return rc;
      }
    }
    RunStep(start, ws, 7);
    rc := dev.WriteBlock(ROOT_DIR_LBA, ZERO_BLOCK);
    if rc != Ok {
      return rc;
    }
    RunStep(start, ws, 8);
    rc := JournalClear(dev);
  }

  lemma LayoutIs(start: Dev, sb: Block, ib: Block, bb: Block, t: Table)
    ensures var ws := FormatLayout(sb, ib, bb, t);
            && |ws| == 9 && ws[..9] == ws && Run(start, ws[..0]) == Outcome(start, Ok) && INODE_TABLE_BLOCKS == 4
            && ws[0] == Write(0, sb) && ws[1] == Write(INODE_BITMAP_LBA, ib) && ws[2] == Write(BLOCK_BITMAP_LBA, bb)
            && ws[7] == Write(ROOT_DIR_LBA, ZERO_BLOCK) && ws[8] == CLEAR
  {
    hide TableBlock;
  }

  lemma LayoutTable(sb: Block, ib: Block, bb: Block, t: Table, i: nat)
    requires i < INODE_TABLE_BLOCKS
    ensures INODE_TABLE_LBA as int + i < 0x1_0000_0000
    ensures FormatLayout(sb, ib, bb, t)[3 + i] == Write(INODE_TABLE_LBA + i, TableBlock(t, i))
  {
    hide TableBlock;
  }

  lemma SuperBlockIsOk()
    ensures SuperOk(SuperBlock())
  {
  }

  /** A completed format gives a good, empty file system. */
  lemma FormatIsGood(power: int)
    ensures var r := Run(Dev(BLANK, power), FormatWrites());
            r.rc == Ok ==> Quiet(r.dev.disk) && Good(r.dev.disk) && forall q: CString :: Contents(r.dev.disk, q) == None
    ensures Run(Dev(BLANK, power), FormatWrites()).rc == Ok <==> power < 0 || power >= 9
  {
    hide Quiet, Good, Contents, SuperBlock, RootTable, FirstBits, SuperOk, FormatLayout;
    var ws := FormatWrites();
    RunIsPrefix(Dev(BLANK, power), ws);
    assert ws[..9] == ws;
    SuperBlockIsOk();
    RootTableIs();
    FormattedDisk(SuperBlock(), FirstBits(1), FirstBits(DATA_START_LBA), RootTable());
  }

  lemma RootTableIs()
    ensures InodeUsed(RootTable(), 0) == 1 && InodeKind(RootTable(), 0) == KIND_DIR
    ensures InodeBlock(RootTable(), 0) == ROOT_DIR_LBA
  {
    SetInodeFields(Zeros(TABLE_SIZE), 0, KIND_DIR, 0, ROOT_DIR_LBA, 0);
  }

  lemma FormattedDisk(sb: Block, ib: Block, bb: Block, t: Table)
    requires SuperOk(sb) && TestBit(ib, 0) && forall b: nat :: b < DATA_START_LBA ==> TestBit(bb, b)
    requires InodeUsed(t, 0) == 1 && InodeKind(t, 0) == KIND_DIR && InodeBlock(t, 0) == ROOT_DIR_LBA
    ensures var e := Apply(BLANK, FormatLayout(sb, ib, bb, t));
            Quiet(e) && Good(e) && forall q: CString :: Contents(e, q) == None
  {
    hide TableBlock, InodeTable, LoadU32, Apply, TestBit, Classify, SuperOk;
    var ws := FormatLayout(sb, ib, bb, t);
    var e := Apply(BLANK, ws);
    forall i | 0 <= i < 9 ensures e[ws[i].lba] == ws[i].data {
      ApplyLast(BLANK, ws, i);
    }
    assert ws[0].lba == 0 && ws[1].lba == INODE_BITMAP_LBA && ws[2].lba == BLOCK_BITMAP_LBA;
    assert ws[3].lba == INODE_TABLE_LBA && ws[4].lba == INODE_TABLE_LBA + 1;
    assert ws[5].lba == INODE_TABLE_LBA + 2 && ws[6].lba == INODE_TABLE_LBA + 3;
    assert ws[7].lba == ROOT_DIR_LBA && ws[8].lba == JOURNAL_START;
    TableFromBlocks(e, t);
    ZeroHeaderIsEmpty();
    QuietIsSettled(e);
    forall i | 0 <= i < DIR_SLOTS ensures SlotUsed(e[ROOT_DIR_LBA], i) == 0 {
      LoadZeros(BLOCK_SIZE, DIRENT_SIZE * i);
    }
    forall q: CString ensures Contents(e, q) == None {
      assert FindSlot(e[ROOT_DIR_LBA], q, 0) == DIR_SLOTS;
    }
  }
}
