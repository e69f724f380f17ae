/** File-level crash safety of MCSFS1J: creating a file is two transactions, yet a crash at any block
    write leaves either the old set of files or the old set plus the complete new file. */
module JournalFsCrash {
  import opened Bytes
  import opened Disk
  import opened Journal
  import opened JournalCrash
  import opened JournalFs

  /** A disk on which fsck succeeds and whose pending journal, if any, aims outside its own log. */
  ghost predicate Good(disk: Blocks) {
    WellFormed(disk) && Consistent(Settled(disk))
  }

  /** The bytes a reader of name gets from a mounted disk, if there is such a file. */
  function Contents(disk: Blocks, name: CString): Option<seq<byte>>
    requires |disk| == MAX_BLOCKS
  {
    var r := ReadResult(disk, name, BLOCK_SIZE);
    if r.0 == Ok then Some(r.1) else None
  }

  ghost predicate SameFiles(d1: Blocks, d2: Blocks) {
    |d1| == |d2| == MAX_BLOCKS && forall q: CString :: Contents(d1, q) == Contents(d2, q)
  }

  /** d2 has the files of d1 and one more. */
  ghost predicate FileAdded(d1: Blocks, d2: Blocks, name: CString, data: seq<byte>) {
    && |d1| == |d2| == MAX_BLOCKS
    && Contents(d1, name) == None
    && forall q: CString :: Contents(d2, q) == if q == name then Some(data) else Contents(d1, q)
  }

  // ----- Field updates -----

  lemma SetInodeFields(t: Table, ino: nat, kind: u32, size: u32, block: u32, k: nat)
    requires ino < MAX_INODES && k < MAX_INODES
    ensures var r := SetInode(t, ino, kind, size, block);
            if k == ino
            then InodeUsed(r, k) == 1 && InodeKind(r, k) == kind && InodeSize(r, k) == size && InodeBlock(r, k) == block
            else InodeUsed(r, k) == InodeUsed(t, k) && InodeKind(r, k) == InodeKind(t, k) &&
                 InodeSize(r, k) == InodeSize(t, k) && InodeBlock(r, k) == InodeBlock(t, k)
  {
    hide LoadU32;
  }

  lemma SetSlotFields(dir: Block, slot: nat, ino: u32, name: CString, k: nat)
    requires slot < DIR_SLOTS && k < DIR_SLOTS && |name| < MAX_NAME
    ensures var r := SetSlot(dir, slot, ino, name);
            if k == slot
            then SlotUsed(r, k) == 1 && SlotIno(r, k) == ino && SlotName(r, k) == name + Zeros(MAX_NAME - |name|)
            else
              && SlotUsed(r, k) == SlotUsed(dir, k) && SlotIno(r, k) == SlotIno(dir, k)
              && SlotName(r, k) == SlotName(dir, k)
  {
    hide LoadU32, Splice;
    SlotFieldsAt(dir, DIRENT_SIZE * slot, ino, name + Zeros(MAX_NAME - |name|), DIRENT_SIZE * k);
  }

  /** The same by byte offsets: a slot written at o, a slot read at m. */
  lemma SlotFieldsAt(dir: Block, o: nat, ino: u32, field: seq<byte>, m: nat)
    requires o + DIRENT_SIZE <= BLOCK_SIZE && m + DIRENT_SIZE <= BLOCK_SIZE && |field| == MAX_NAME
    requires o == m || o + DIRENT_SIZE <= m || m + DIRENT_SIZE <= o
    ensures var r := Splice(StoreU32(StoreU32(dir, o, 1), o + 4, ino), o + 8, field);
            if m == o then LoadU32(r, m) == 1 && LoadU32(r, m + 4) == ino && r[m + 8..m + DIRENT_SIZE] == field
            else LoadU32(r, m) == LoadU32(dir, m) && LoadU32(r, m + 4) == LoadU32(dir, m + 4) &&
                 r[m + 8..m + DIRENT_SIZE] == dir[m + 8..m + DIRENT_SIZE]
  {
    hide LoadU32, Splice;
    var d := StoreU32(StoreU32(dir, o, 1), o + 4, ino);
    var r := Splice(d, o + 8, field);
    SpliceElsewhere(d, o + 8, field, m, m + 4);
    SpliceElsewhere(d, o + 8, field, m + 4, m + 8);
    LoadU32Same(r, d, m);
    LoadU32Same(r, d, m + 4);
    if m == o {
      assert r[m + 8..m + DIRENT_SIZE] == field;
    } else {
      SpliceElsewhere(d, o + 8, field, m + 8, m + DIRENT_SIZE);
      assert d[m + 8..m + DIRENT_SIZE] == dir[m + 8..m + DIRENT_SIZE];
    }
  }

  /** A zero-padded short name is matched by that name only. */
  lemma PaddedNameMatches(name: CString, q: CString)
    requires |name| < MAX_NAME
    ensures NameMatches(name + Zeros(MAX_NAME - |name|), q) <==> q == name
  {
    var field := name + Zeros(MAX_NAME - |name|);
    assert field[..|name|] == name && field[|name|] == 0;
    assert forall i :: 0 <= i < |name| ==> field[i] == name[i] && name[i] in name;
    assert forall i :: 0 <= i < |q| ==> q[i] in q;
    if NameMatches(field, q) {
      var n := if |q| < MAX_NAME then |q| else MAX_NAME;
      assert forall i :: 0 <= i < n ==> field[i] == q[i];
      assert n == |name|;
    }
  }

  lemma {:induction false} FindSlotSame(d1: Block, d2: Block, q: CString, i: nat)
    requires i <= DIR_SLOTS
    requires forall j :: 0 <= j < DIR_SLOTS ==> SlotMatches(d1, j, q) == SlotMatches(d2, j, q)
    ensures FindSlot(d1, q, i) == FindSlot(d2, q, i)
    decreases DIR_SLOTS - i
  {
    if i < DIR_SLOTS {
      FindSlotSame(d1, d2, q, i + 1);
    }
  }

  lemma PlanFacts(d: Blocks, name: CString)
    requires |d| == MAX_BLOCKS && PlanFile(d, name).Place?
    ensures var p := PlanFile(d, name);
            && FindSlot(d[ROOT_DIR_LBA], name, 0) == DIR_SLOTS && SlotUsed(d[ROOT_DIR_LBA], p.slot) == 0
            && !TestBit(d[INODE_BITMAP_LBA], p.ino) && !TestBit(d[BLOCK_BITMAP_LBA], p.block)
  {
    hide LoadU32, TestBit;
  }

  // ----- The static effect of the two transactions -----

  lemma {:induction false} NewContentsHit(disk: Blocks, recs: seq<Rec>, i: nat)
    requires i < |recs| && recs[i].target < |disk|
    requires forall j :: i < j < |recs| ==> recs[j].target != recs[i].target
    ensures NewContents(disk, recs, recs[i].target) == recs[i].payload
    decreases |recs|
  {
    if i < |recs| - 1 {
      NewContentsHit(disk, recs[..|recs| - 1], i);
    }
  }

  lemma {:induction false} NewContentsMiss(disk: Blocks, recs: seq<Rec>, l: nat)
    requires l < |disk| && forall j :: 0 <= j < |recs| ==> recs[j].target != l
    ensures NewContents(disk, recs, l) == disk[l]
    decreases |recs|
  {
    if recs != [] {
      NewContentsMiss(disk, recs[..|recs| - 1], l);
    }
  }

  /** e is d with the records written over its home blocks. */
  ghost predicate Overlaid(d: Blocks, recs: seq<Rec>, e: Blocks) {
    |d| == |e| == MAX_BLOCKS && forall l :: Home(l) ==> e[l] == NewContents(d, recs, l)
  }

  lemma MetadataBlocks(d: Blocks, p: Plan, size: u32, e: Blocks)
    requires |d| == MAX_BLOCKS && p.Place? && p.ino < MAX_INODES && p.block < MAX_BLOCKS
    requires Overlaid(d, MetadataRecords(d, p, size), e)
    ensures e[0] == d[0] && e[ROOT_DIR_LBA] == d[ROOT_DIR_LBA]
    ensures forall l :: DATA_START_LBA <= l < MAX_BLOCKS ==> e[l] == d[l]
    ensures e[INODE_BITMAP_LBA] == SetBit(d[INODE_BITMAP_LBA], p.ino)
    ensures e[BLOCK_BITMAP_LBA] == SetBit(d[BLOCK_BITMAP_LBA], p.block)
    ensures InodeTable(e) == SetInode(InodeTable(d), p.ino, KIND_FILE, size, p.block)
  {
    hide SetBit, SetInode, InodeTable;
    var recs := MetadataRecords(d, p, size);
    var t := SetInode(InodeTable(d), p.ino, KIND_FILE, size, p.block);
    forall l | Home(l) && !(INODE_BITMAP_LBA <= l < ROOT_DIR_LBA) ensures e[l] == d[l] {
      NewContentsMiss(d, recs, l);
    }
    NewContentsHit(d, recs, 0);
    NewContentsHit(d, recs, 1);
    NewContentsHit(d, recs, 2);
    NewContentsHit(d, recs, 3);
    NewContentsHit(d, recs, 4);
    NewContentsHit(d, recs, 5);
    TableFromBlocks(e, t);
  }

  lemma TableFromBlocks(e: Blocks, t: Table)
    requires |e| == MAX_BLOCKS
    requires e[INODE_TABLE_LBA] == TableBlock(t, 0) && e[INODE_TABLE_LBA + 1] == TableBlock(t, 1)
    requires e[INODE_TABLE_LBA + 2] == TableBlock(t, 2) && e[INODE_TABLE_LBA + 3] == TableBlock(t, 3)
    ensures InodeTable(e) == t
  {
  }

  /** The first transaction changes no file. */
  lemma MetadataKeepsFiles(d: Blocks, name: CString, size: u32, e: Blocks)
    requires Consistent(d) && PlanFile(d, name).Place?
    requires Overlaid(d, MetadataRecords(d, PlanFile(d, name), size), e)
    ensures Consistent(e) && SameFiles(d, e)
  {
    hide LoadU32, SetBit, SetInode, InodeTable, TestBit, PlanFile;
    var p := PlanFile(d, name);
    PlanFacts(d, name);
    MetadataBlocks(d, p, size, e);
    SetInodeFields(InodeTable(d), p.ino, KIND_FILE, size, p.block, 0);
    forall i | 0 <= i < DIR_SLOTS && SlotUsed(d[ROOT_DIR_LBA], i) != 0 ensures SlotOk(e, i) {
      assert SlotOk(d, i);
      SetInodeFields(InodeTable(d), p.ino, KIND_FILE, size, p.block, SlotIno(d[ROOT_DIR_LBA], i));
    }
    forall q: CString ensures Contents(d, q) == Contents(e, q) {
      var slot := FindSlot(d[ROOT_DIR_LBA], q, 0);
      if slot < DIR_SLOTS {
        assert SlotOk(d, slot);
        SetInodeFields(InodeTable(d), p.ino, KIND_FILE, size, p.block, SlotIno(d[ROOT_DIR_LBA], slot));
      }
    }
  }

  lemma ContentBlocks(d: Blocks, d1: Blocks, p: Plan, name: CString, data: seq<byte>, e: Blocks)
    requires |d| == |d1| == MAX_BLOCKS && p.Place?
    requires p.ino < MAX_INODES && DATA_START_LBA <= p.block < MAX_BLOCKS && p.slot < DIR_SLOTS
    requires |name| < MAX_NAME && |data| <= BLOCK_SIZE
    requires Overlaid(d1, ContentRecords(d, p, name, data), e)
    ensures e[ROOT_DIR_LBA] == SetSlot(d[ROOT_DIR_LBA], p.slot, p.ino, name)
    ensures e[p.block] == PadBlock(data)
    ensures forall l :: Home(l) && l != ROOT_DIR_LBA && l != p.block ==> e[l] == d1[l]
    ensures InodeTable(e) == InodeTable(d1)
  {
    hide SetSlot;
    var recs := ContentRecords(d, p, name, data);
    NewContentsHit(d1, recs, 0);
    NewContentsHit(d1, recs, 1);
    forall l | Home(l) && l != ROOT_DIR_LBA && l != p.block ensures e[l] == d1[l] {
      NewContentsMiss(d1, recs, l);
    }
  }

  /** The second transaction adds exactly the new file. */
  lemma ContentAddsFile(d: Blocks, d1: Blocks, name: CString, data: seq<byte>, e: Blocks)
    requires Consistent(d) && PlanFile(d, name).Place? && |name| < MAX_NAME && |data| <= BLOCK_SIZE
    requires Overlaid(d, MetadataRecords(d, PlanFile(d, name), |data|), d1)
    requires Overlaid(d1, ContentRecords(d, PlanFile(d, name), name, data), e)
    ensures Consistent(e) && FileAdded(d, e, name, data)
  {
    hide LoadU32, SetBit, SetInode, InodeTable, TestBit, SetSlot, NameMatches, SlotName;
    hide PlanFile, Contents, SlotOk, RootOk, SuperOk, MetadataRecords, ContentRecords, NewContents;
    var p := PlanFile(d, name);
    PlanFacts(d, name);
    MetadataKeepsFiles(d, name, |data|, d1);
    MetadataBlocks(d, p, |data|, d1);
    ContentBlocks(d, d1, p, name, data, e);
    AddedSlotsOk(d, d1, p, name, data, e);
    forall q: CString ensures Contents(e, q) == if q == name then Some(data) else Contents(d, q) {
      AddedContents(d, d1, p, name, data, e, q);
      assert Contents(d, q) == Contents(d1, q);
    }
    NoFileYet(d, name);
  }

  /** The two transactions of a new file, block by block: metadata first, then directory and data. */
  ghost predicate FilePlaced(d: Blocks, d1: Blocks, p: Plan, name: CString, data: seq<byte>, e: Blocks) {
    && |d| == |d1| == |e| == MAX_BLOCKS && |name| < MAX_NAME && |data| <= BLOCK_SIZE
    && p.Place? && 1 <= p.ino < MAX_INODES && DATA_START_LBA <= p.block < MAX_BLOCKS && p.slot < DIR_SLOTS
    && SlotUsed(d[ROOT_DIR_LBA], p.slot) == 0 && FindSlot(d[ROOT_DIR_LBA], name, 0) == DIR_SLOTS
    && !TestBit(d[INODE_BITMAP_LBA], p.ino) && !TestBit(d[BLOCK_BITMAP_LBA], p.block)
    && d1[INODE_BITMAP_LBA] == SetBit(d[INODE_BITMAP_LBA], p.ino)
    && d1[BLOCK_BITMAP_LBA] == SetBit(d[BLOCK_BITMAP_LBA], p.block)
    && InodeTable(d1) == SetInode(InodeTable(d), p.ino, KIND_FILE, |data|, p.block)
    && d1[ROOT_DIR_LBA] == d[ROOT_DIR_LBA]
    && e[ROOT_DIR_LBA] == SetSlot(d[ROOT_DIR_LBA], p.slot, p.ino, name) && e[p.block] == PadBlock(data)
    && (forall l :: Home(l) && l != ROOT_DIR_LBA && l != p.block ==> e[l] == d1[l])
    && InodeTable(e) == InodeTable(d1)
  }

  lemma AddedSlotsOk(d: Blocks, d1: Blocks, p: Plan, name: CString, data: seq<byte>, e: Blocks)
    requires FilePlaced(d, d1, p, name, data, e) && Consistent(d) && Consistent(d1)
    ensures Consistent(e)
  {
    hide LoadU32, SetBit, SetInode, InodeTable, TestBit, SetSlot, SlotName, FindSlot, PadBlock;
    var dir, dir', t := d[ROOT_DIR_LBA], e[ROOT_DIR_LBA], InodeTable(d);
    SetInodeFields(t, p.ino, KIND_FILE, |data|, p.block, 0);
    SetInodeFields(t, p.ino, KIND_FILE, |data|, p.block, p.ino);
    forall i | 0 <= i < DIR_SLOTS && SlotUsed(dir', i) != 0 ensures SlotOk(e, i) {
      SetSlotFields(dir, p.slot, p.ino, name, i);
      if i != p.slot {
        assert SlotOk(d1, i);
      }
    }
  }

  lemma AddedContents(d: Blocks, d1: Blocks, p: Plan, name: CString, data: seq<byte>, e: Blocks, q: CString)
    requires FilePlaced(d, d1, p, name, data, e) && Consistent(d) && Consistent(d1)
    ensures Contents(e, q) == if q == name then Some(data) else Contents(d1, q)
  {
    hide LoadU32, SetBit, SetInode, InodeTable, TestBit, SetSlot, NameMatches, SlotName, RootOk, SuperOk;
    var dir, t := d[ROOT_DIR_LBA], InodeTable(d);
    NewDirectoryLookup(dir, p.slot, p.ino, name, q);
    if q == name {
      SetInodeFields(t, p.ino, KIND_FILE, |data|, p.block, p.ino);
      assert PadBlock(data)[..|data|] == data;
    } else {
      var slot := FindSlot(dir, q, 0);
      if slot < DIR_SLOTS {
        SlotBlockApart(d, d1, p, name, data, e, slot);
        SetSlotFields(dir, p.slot, p.ino, name, slot);
      }
    }
  }

  /** A file that was there keeps its data block: the new file's block was free. */
  lemma SlotBlockApart(d: Blocks, d1: Blocks, p: Plan, name: CString, data: seq<byte>, e: Blocks, i: nat)
    requires FilePlaced(d, d1, p, name, data, e) && Consistent(d) && i < DIR_SLOTS && SlotUsed(d[ROOT_DIR_LBA], i) != 0
    ensures var ino := SlotIno(d[ROOT_DIR_LBA], i);
            ino < MAX_INODES && Home(InodeBlock(InodeTable(d1), ino)) && InodeBlock(InodeTable(d1), ino) != p.block
            && InodeBlock(InodeTable(d1), ino) != ROOT_DIR_LBA
  {
    hide LoadU32, SetBit, SetInode, InodeTable, TestBit, SetSlot, SlotName, FindSlot, PadBlock, RootOk, SuperOk;
    assert SlotOk(d, i);
    SetInodeFields(InodeTable(d), p.ino, KIND_FILE, |data|, p.block, SlotIno(d[ROOT_DIR_LBA], i));
  }

  lemma NoFileYet(d: Blocks, name: CString)
    requires |d| == MAX_BLOCKS && FindSlot(d[ROOT_DIR_LBA], name, 0) == DIR_SLOTS
    ensures Contents(d, name) == None
  {
  }

  lemma NewDirectoryLookup(dir: Block, slot: nat, ino: u32, name: CString, q: CString)
    requires slot < DIR_SLOTS && |name| < MAX_NAME && SlotUsed(dir, slot) == 0 && FindSlot(dir, name, 0) == DIR_SLOTS
    ensures var dir' := SetSlot(dir, slot, ino, name);
            FindSlot(dir', q, 0) == (if q == name then slot else FindSlot(dir, q, 0)) && SlotIno(dir', slot) == ino
  {
    hide LoadU32, SetSlot, NameMatches, SlotName;
    var dir' := SetSlot(dir, slot, ino, name);
    forall j | 0 <= j < DIR_SLOTS
      ensures SlotMatches(dir', j, q) == if j == slot then q == name else SlotMatches(dir, j, q)
    {
      SetSlotFields(dir, slot, ino, name, j);
      PaddedNameMatches(name, q);
    }
    SetSlotFields(dir, slot, ino, name, slot);
    if q != name {
      FindSlotSame(dir', dir, q, 0);
    }
  }

  // ----- The two transactions under a power cut -----

  lemma SameHomeSameFiles(d: Blocks, e: Blocks)
    requires SameHome(e, d) && Consistent(d)
    ensures Consistent(e) && SameFiles(d, e)
  {
    hide LoadU32, TestBit, FindSlot;
    assert InodeTable(d) == InodeTable(e);
    assert forall l :: DATA_START_LBA <= l < MAX_BLOCKS ==> Home(l);
    forall q: CString ensures Contents(d, q) == Contents(e, q) {
      var slot := FindSlot(d[ROOT_DIR_LBA], q, 0);
      assert slot < DIR_SLOTS ==> SlotOk(d, slot);
    }
  }

  /** One transaction from a quiet disk: before its header nothing changes, after it the disk settles
      to the overlaid blocks. */
  lemma TransactionStep(d: Blocks, power: int, recs: seq<Rec>, seqno: u32, stop: bool)
    requires Quiet(d) && Loggable(recs)
    ensures var r := Commit(Dev(d, power), recs, seqno, stop);
            && WellFormed(r.dev.disk)
            && ((SameHome(Settled(r.dev.disk), d) && r.rc == Io)
                || (Overlaid(d, recs, Settled(r.dev.disk)) && (r.rc == Ok || r.rc == Io)))
            && (r.rc == Ok && !stop ==> Quiet(r.dev.disk) && Settled(r.dev.disk) == r.dev.disk)
            && (r.rc == Ok ==> Overlaid(d, recs, Settled(r.dev.disk)))
            && (power < 0 ==> r.rc == Ok && r.dev.power == power)
  {
    hide Commit, CommitWrites, Apply, NewContents, WellFormed, Quiet, Settled;
    CutCommit(d, power, recs, seqno, stop);
    CommittedContents(d, recs, seqno);
    var r := Commit(Dev(d, power), recs, seqno, stop);
    if !HeaderWritten(power, recs) {
      QuietIsSettled(r.dev.disk);
    }
  }

  lemma MetadataLoggable(d: Blocks, p: Plan, size: u32)
    requires |d| == MAX_BLOCKS && p.Place? && p.ino < MAX_INODES && p.block < MAX_BLOCKS
    ensures Loggable(MetadataRecords(d, p, size))
  {
    hide SetBit, SetInode, InodeTable;
  }

  /** What one power-cut creation leaves behind. */
  ghost predicate CreateOutcome(before: Blocks, after: Blocks, name: CString, data: seq<byte>, rc: Rc) {
    && Good(before) && Good(after)
    && (SameFiles(Settled(before), Settled(after)) || FileAdded(Settled(before), Settled(after), name, data))
    && (rc == Ok ==> FileAdded(Settled(before), Settled(after), name, data))
    && (rc != Ok && rc != Io ==> SameFiles(Settled(before), Settled(after)))
  }

  /** How WriteFile ends, branch by branch. */
  lemma WriteFileCases(d: Dev, name: CString, data: seq<byte>, stop: bool)
    requires |d.disk| == MAX_BLOCKS
    ensures var r, m := WriteFile(d, name, data, stop), Recover(d);
            || (r.dev == d && (r.rc == TooLong || r.rc == Inval))
            || (m.rc != Ok && r == m)
            || (m.rc == Ok && !SuperOk(m.dev.disk[0]))
            || (m.rc == Ok && r.dev == m.dev && (r.rc == Exists || r.rc == NoSpc))
            || (m.rc == Ok && |name| < MAX_NAME && |data| <= BLOCK_SIZE && PlanFile(m.dev.disk, name).Place?
                && r == CommitFile(m.dev, PlanFile(m.dev.disk, name), name, data, stop))
  {
    hide Recover, PlanFile, CommitFile, SuperOk;
  }

  /** Crash atomicity of file creation: cut at any block write, including inside the recovery that
      mounting starts with, the disk stays good and settles to the old files or to the old files plus
      the complete new one. */
  lemma CreateIsAtomic(d: Dev, name: CString, data: seq<byte>, stop: bool)
    requires Good(d.disk)
    ensures var r := WriteFile(d, name, data, stop); CreateOutcome(d.disk, r.dev.disk, name, data, r.rc)
  {
    assert |d.disk| == MAX_BLOCKS && WellFormed(d.disk) && Consistent(Settled(d.disk));
    hide *;
    CutRecovery(d);
    WriteFileCases(d, name, data, stop);
    var r, m, s := WriteFile(d, name, data, stop), Recover(d), Settled(d.disk);
    SameFilesReflexive(s);
    ConsistentSuper(s);
    if m.rc == Ok && |name| < MAX_NAME && |data| <= BLOCK_SIZE && PlanFile(s, name).Place?
       && r == CommitFile(m.dev, PlanFile(s, name), name, data, stop) {
      CreateFromMounted(m.dev, name, data, stop);
    }
    CreateOutcomeFrom(d.disk, r.dev.disk, name, data, r.rc);
  }

  lemma CreateOutcomeFrom(before: Blocks, after: Blocks, name: CString, data: seq<byte>, rc: Rc)
    requires WellFormed(before) && WellFormed(after) && Consistent(Settled(before)) && Consistent(Settled(after))
    requires SameFiles(Settled(before), Settled(after)) || FileAdded(Settled(before), Settled(after), name, data)
    requires rc == Ok ==> FileAdded(Settled(before), Settled(after), name, data)
    requires rc != Ok && rc != Io ==> SameFiles(Settled(before), Settled(after))
    ensures CreateOutcome(before, after, name, data, rc)
  {
  }

  lemma ConsistentSuper(s: Blocks)
    requires Consistent(s)
    ensures |s| == MAX_BLOCKS && SuperOk(s[0])
  {
  }

  lemma SameFilesReflexive(d: Blocks)
    requires |d| == MAX_BLOCKS
    ensures SameFiles(d, d)
  {
  }

  lemma SameFilesTransitive(d1: Blocks, d2: Blocks, d3: Blocks)
    requires SameFiles(d1, d2) && SameFiles(d2, d3)
    ensures SameFiles(d1, d3)
  {
    hide Contents;
  }

  /** Two transactions in a row: the disk settles to before, between or after. */
  lemma TwoTransactions(d: Dev, recs1: seq<Rec>, n1: u32, recs2: seq<Rec>, n2: u32, stop: bool)
    requires Quiet(d.disk) && Loggable(recs1) && Loggable(recs2)
    ensures var c := Commit(d, recs1, n1, false);
            var r := if c.rc != Ok then c else Commit(c.dev, recs2, n2, stop);
            && WellFormed(c.dev.disk) && WellFormed(r.dev.disk)
            && (r.rc == Ok || r.rc == Io) && (d.power < 0 ==> r.rc == Ok)
            && var s1, s2 := Settled(c.dev.disk), Settled(r.dev.disk);
               || (r.rc == Io && SameHome(s2, d.disk))
               || (Overlaid(d.disk, recs1, s1) && r.rc == Io && SameHome(s2, s1))
               || (Overlaid(d.disk, recs1, s1) && Overlaid(s1, recs2, s2))
  {
    assert |d.disk| == MAX_BLOCKS;
    hide WellFormed, Settled, Quiet, Commit, Overlaid, Loggable;
    TransactionStep(d.disk, d.power, recs1, n1, false);
    var c := Commit(d, recs1, n1, false);
    if c.rc == Ok {
      TransactionStep(c.dev.disk, c.dev.power, recs2, n2, stop);
    }
  }

  /** The three ways the pair of transactions can end, for a new file. */
  lemma NothingHappened(s: Blocks, s2: Blocks)
    requires Consistent(s) && SameHome(s2, s)
    ensures Consistent(s2) && SameFiles(s, s2)
  {
    hide *;
    SameHomeSameFiles(s, s2);
  }

  lemma OnlyMetadata(s: Blocks, name: CString, size: u32, s1: Blocks, s2: Blocks)
    requires Consistent(s) && PlanFile(s, name).Place? && Overlaid(s, MetadataRecords(s, PlanFile(s, name), size), s1)
    requires SameHome(s2, s1)
    ensures Consistent(s2) && SameFiles(s, s2)
  {
    hide *;
    MetadataKeepsFiles(s, name, size, s1);
    SameHomeSameFiles(s1, s2);
    SameFilesTransitive(s, s1, s2);
  }

  lemma CreateFromMounted(d: Dev, name: CString, data: seq<byte>, stop: bool)
    requires Quiet(d.disk) && Consistent(d.disk) && PlanFile(d.disk, name).Place?
    requires |name| < MAX_NAME && |data| <= BLOCK_SIZE
    ensures var r := CommitFile(d, PlanFile(d.disk, name), name, data, stop);
            && WellFormed(r.dev.disk) && Consistent(Settled(r.dev.disk))
            && (SameFiles(d.disk, Settled(r.dev.disk)) || FileAdded(d.disk, Settled(r.dev.disk), name, data))
            && (r.rc == Ok ==> FileAdded(d.disk, Settled(r.dev.disk), name, data))
            && (r.rc == Ok || r.rc == Io)
            && (d.power < 0 ==> r.rc == Ok)
  {
    hide *;
    BlockSize();
    ConsistentSuper(d.disk);
    var s, p := d.disk, PlanFile(d.disk, name);
    var recs1, recs2 := MetadataRecords(s, p, |data|), ContentRecords(s, p, name, data);
    MetadataLoggable(s, p, |data|);
    ContentLoggable(s, p, name, data);
    TwoTransactions(d, recs1, Seqno(s[0], 1), recs2, Seqno(s[0], 2), stop);
    CommitFileIs(d, p, name, data, stop);
    var s1 := Settled(Commit(d, recs1, Seqno(s[0], 1), false).dev.disk);
    var r := CommitFile(d, p, name, data, stop);
    var s2 := Settled(r.dev.disk);
    if r.rc == Io && SameHome(s2, s) {
      NothingHappened(s, s2);
    } else if r.rc == Io && SameHome(s2, s1) && Overlaid(s, recs1, s1) {
      OnlyMetadata(s, name, |data|, s1, s2);
    } else {
      ContentAddsFile(s, s1, name, data, s2);
    }
  }

  lemma BlockSize()
    ensures BLOCK_SIZE == 512
  {
  }

  lemma CommitFileIs(d: Dev, p: Plan, name: CString, data: seq<byte>, stop: bool)
    requires |d.disk| == MAX_BLOCKS && p.Place? && p.ino < MAX_INODES && p.slot < DIR_SLOTS
    requires DATA_START_LBA <= p.block < MAX_BLOCKS && |name| < MAX_NAME && |data| <= BLOCK_SIZE
    ensures var recs1, recs2 := MetadataRecords(d.disk, p, |data|), ContentRecords(d.disk, p, name, data);
            var c := Commit(d, recs1, Seqno(d.disk[0], 1), false);
            CommitFile(d, p, name, data, stop) ==
              if c.rc != Ok then c else Commit(c.dev, recs2, Seqno(d.disk[0], 2), stop)
  {
    hide MetadataRecords, ContentRecords, Seqno, Commit;
  }

  lemma ContentLoggable(d: Blocks, p: Plan, name: CString, data: seq<byte>)
    requires |d| == MAX_BLOCKS && p.Place?
    requires p.ino < MAX_INODES && DATA_START_LBA <= p.block < MAX_BLOCKS && p.slot < DIR_SLOTS
    requires |name| < MAX_NAME && |data| <= BLOCK_SIZE
    ensures Loggable(ContentRecords(d, p, name, data))
  {
    hide SetSlot;
  }
}
