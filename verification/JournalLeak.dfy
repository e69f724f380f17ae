/** What a creation that is cut between its two transactions costs: its inode and its block stay marked for
    good.  Fifteen such cuts fill the file system without a single file on it. */
module JournalLeak {
  import opened Bytes
  import opened Disk
  import opened Journal
  import opened JournalCrash
  import opened JournalFs
  import opened JournalFsCrash
  import opened JournalFormat
  import opened JournalFsRuns

  /** Arguments that a creation accepts. */
  predicate Proper(name: CString, data: seq<byte>) {
    name != [] && |name| < MAX_NAME && |data| <= BLOCK_SIZE
  }

  /** A commit succeeds exactly when the power lasts for all its writes. */
  lemma CommitPower(d: Dev, recs: seq<Rec>, seqno: u32, stop: bool)
    requires |d.disk| == MAX_BLOCKS && Loggable(recs)
    ensures var n := if stop then 2 + 2 * |recs| else 3 + 3 * |recs|;
            Commit(d, recs, seqno, stop).rc == Ok <==> d.power < 0 || d.power >= n
  {
    hide PrepareWrites, CommitWrites, Run;
    CommitInRange(recs, seqno);
    PreparePlaces(recs, seqno);
    RunIsPrefix(d, if stop then PrepareWrites(recs, seqno) else CommitWrites(recs, seqno));
  }

  /** Two transactions, the power ending after the commit header of the first (six records) and before the
      commit header of the second (two records). */
  lemma CutBetween(d: Blocks, power: int, recs1: seq<Rec>, n1: u32, recs2: seq<Rec>, n2: u32, stop: bool)
    requires Quiet(d) && Loggable(recs1) && Loggable(recs2) && |recs1| == 6 && |recs2| == 2 && 14 <= power < 27
    ensures var c := Commit(Dev(d, power), recs1, n1, false);
            var r := if c.rc != Ok then c else Commit(c.dev, recs2, n2, stop);
            && r.rc == Io && WellFormed(r.dev.disk)
            && exists s1 :: Overlaid(d, recs1, s1) && SameHome(Settled(r.dev.disk), s1)
  {
    hide *;
    CutCommit(d, power, recs1, n1, false);
    CommittedOverlay(d, recs1, n1);
    CommitPower(Dev(d, power), recs1, n1, false);
    HeaderIs(power, recs1);
    var c := Commit(Dev(d, power), recs1, n1, false);
    var s1 := Apply(d, CommitWrites(recs1, n1));
    if c.rc == Ok {
      HeaderIs(c.dev.power, recs2);
      CutCommit(c.dev.disk, c.dev.power, recs2, n2, stop);
      var r := Commit(c.dev, recs2, n2, stop);
      QuietIsSettled(r.dev.disk);
      assert SameHome(Settled(r.dev.disk), s1);
    } else {
      SameHomeReflexive(s1);
      assert SameHome(Settled(c.dev.disk), s1);
    }
  }

  lemma HeaderIs(power: int, recs: seq<Rec>)
    ensures HeaderWritten(power, recs) <==> power < 0 || power >= 2 + 2 * |recs|
  {
  }

  lemma SameHomeReflexive(d: Blocks)
    ensures |d| == MAX_BLOCKS ==> SameHome(d, d)
  {
  }

  lemma CommittedOverlay(d: Blocks, recs: seq<Rec>, n: u32)
    requires Quiet(d) && Loggable(recs)
    ensures |recs| <= MAX_RECORDS && InRange(CommitWrites(recs, n), MAX_BLOCKS) && |d| == MAX_BLOCKS
    ensures Overlaid(d, recs, Apply(d, CommitWrites(recs, n))) && |Apply(d, CommitWrites(recs, n))| == MAX_BLOCKS
  {
    hide CommitWrites, Apply, NewContents;
    CommittedContents(d, recs, n);
  }

  /** The leak: on a quiet, consistent disk with room, a creation cut after 14 to 26 block writes leaves, once
      recovered, every file as it was and one inode bit and one block bit more. */
  lemma CutCreationLeaks(s: Blocks, name: CString, data: seq<byte>, stop: bool, power: int)
    requires Quiet(s) && Consistent(s) && Proper(name, data) && PlanFile(s, name).Place? && 14 <= power < 27
    ensures var r, p := WriteFile(Dev(s, power), name, data, stop), PlanFile(s, name);
            && r.rc == Io && WellFormed(r.dev.disk)
            && var e := Settled(r.dev.disk);
               && Quiet(e) && Consistent(e) && SameFiles(s, e) && e[ROOT_DIR_LBA] == s[ROOT_DIR_LBA]
               && !TestBit(s[INODE_BITMAP_LBA], p.ino) && e[INODE_BITMAP_LBA] == SetBit(s[INODE_BITMAP_LBA], p.ino)
               && !TestBit(s[BLOCK_BITMAP_LBA], p.block) && e[BLOCK_BITMAP_LBA] == SetBit(s[BLOCK_BITMAP_LBA], p.block)
  {
    hide *;
    ProperIs(name, data);
    ConsistentSuper(s);
    PlanFacts(s, name);
    var p := PlanFile(s, name);
    WriteOnQuiet(Dev(s, power), name, data, stop);
    CommitFileIs(Dev(s, power), p, name, data, stop);
    var recs1, recs2 := MetadataRecords(s, p, |data|), ContentRecords(s, p, name, data);
    MetadataLoggable(s, p, |data|);
    ContentLoggable(s, p, name, data);
    CutBetween(s, power, recs1, Seqno(s[0], 1), recs2, Seqno(s[0], 2), stop);
    var e := Settled(WriteFile(Dev(s, power), name, data, stop).dev.disk);
    var s1 :| Overlaid(s, recs1, s1) && SameHome(e, s1);
    SettledIsQuiet(WriteFile(Dev(s, power), name, data, stop).dev.disk);
    MetadataKeepsFiles(s, name, |data|, s1);
    MetadataBlocks(s, p, |data|, s1);
    SameHomeSameFiles(s1, e);
    SameFilesTransitive(s, s1, e);
    HomeBlocks(s1, e);
  }

  /** At any other power nothing leaks: before the first commit header no home block changes, after the second
      the file is complete. */
  lemma OtherCutsDoNot(s: Blocks, name: CString, data: seq<byte>, stop: bool, power: int)
    requires Quiet(s) && Consistent(s) && Proper(name, data) && PlanFile(s, name).Place? && !(14 <= power < 27)
    ensures var r := WriteFile(Dev(s, power), name, data, stop);
            && WellFormed(r.dev.disk)
            && if 0 <= power < 14 then r.rc == Io && SameHome(Settled(r.dev.disk), s)
               else FileAdded(s, Settled(r.dev.disk), name, data)
  {
    hide *;
    ProperIs(name, data);
    ConsistentSuper(s);
    var p := PlanFile(s, name);
    WriteOnQuiet(Dev(s, power), name, data, stop);
    CommitFileIs(Dev(s, power), p, name, data, stop);
    var recs1, recs2 := MetadataRecords(s, p, |data|), ContentRecords(s, p, name, data);
    MetadataLoggable(s, p, |data|);
    ContentLoggable(s, p, name, data);
    CutOutside(s, power, recs1, Seqno(s[0], 1), recs2, Seqno(s[0], 2), stop);
    var s1 := Commit(Dev(s, power), recs1, Seqno(s[0], 1), false).dev.disk;
    if !(0 <= power < 14) {
      ContentAddsFile(s, s1, name, data, Settled(WriteFile(Dev(s, power), name, data, stop).dev.disk));
    }
  }

  lemma CutOutside(d: Blocks, power: int, recs1: seq<Rec>, n1: u32, recs2: seq<Rec>, n2: u32, stop: bool)
    requires Quiet(d) && Loggable(recs1) && Loggable(recs2) && |recs1| == 6 && |recs2| == 2 && !(14 <= power < 27)
    ensures |d| == MAX_BLOCKS
    ensures var c := Commit(Dev(d, power), recs1, n1, false);
            var r := if c.rc != Ok then c else Commit(c.dev, recs2, n2, stop);
            && WellFormed(r.dev.disk)
            && if 0 <= power < 14 then r.rc == Io && SameHome(Settled(r.dev.disk), d)
               else Overlaid(d, recs1, c.dev.disk) && Overlaid(c.dev.disk, recs2, Settled(r.dev.disk))
  {
    hide *;
    CutCommit(d, power, recs1, n1, false);
    CommittedOverlay(d, recs1, n1);
    CommitPower(Dev(d, power), recs1, n1, false);
    HeaderIs(power, recs1);
    var c := Commit(Dev(d, power), recs1, n1, false);
    if c.rc == Ok {
      HeaderIs(c.dev.power, recs2);
      CutCommit(c.dev.disk, c.dev.power, recs2, n2, stop);
      CommittedOverlay(c.dev.disk, recs2, n2);
    } else {
      QuietIsSettled(c.dev.disk);
    }
  }

  lemma ProperIs(name: CString, data: seq<byte>)
    ensures Proper(name, data) <==> name != [] && |name| < MAX_NAME && |data| <= BLOCK_SIZE
    ensures BLOCK_SIZE == 512 && MAX_NAME == 32
  {
  }

  lemma HomeBlocks(d: Blocks, e: Blocks)
    requires SameHome(e, d)
    ensures |d| == |e| == MAX_BLOCKS && e[INODE_BITMAP_LBA] == d[INODE_BITMAP_LBA]
    ensures e[BLOCK_BITMAP_LBA] == d[BLOCK_BITMAP_LBA] && e[ROOT_DIR_LBA] == d[ROOT_DIR_LBA]
  {
  }

  /** On a quiet disk mounting writes nothing. */
  lemma WriteOnQuiet(d: Dev, name: CString, data: seq<byte>, stop: bool)
    requires Quiet(d.disk) && Consistent(d.disk) && Proper(name, data)
    ensures var p := PlanFile(d.disk, name);
            WriteFile(d, name, data, stop) ==
              if p.Refuse? then Outcome(d, p.rc) else CommitFile(d, p, name, data, stop)
  {
    hide PlanFile, CommitFile, SuperOk, RootOk, SlotOk, TestBit, Classify;
  }

  // ----- Filling the file system with nothing -----

  /** No file, but k inodes and k blocks are marked. */
  ghost predicate Leaked(disk: Blocks, k: nat) {
    && Quiet(disk) && Consistent(disk) && k < MAX_INODES
    && disk[INODE_BITMAP_LBA] == FirstBits(1 + k) && disk[BLOCK_BITMAP_LBA] == FirstBits(DATA_START_LBA + k)
    && forall i :: 0 <= i < DIR_SLOTS ==> SlotUsed(disk[ROOT_DIR_LBA], i) == 0
  }

  /** A creation that is cut between its transactions. */
  predicate CutCreate(op: Op) {
    op.Create? && Proper(op.name, op.data) && 14 <= op.power < 27
  }

  lemma LeakedPlan(disk: Blocks, k: nat, name: CString)
    requires Leaked(disk, k)
    ensures |disk| == MAX_BLOCKS
    ensures PlanFile(disk, name) == if k < 15 then Place(1 + k, DATA_START_LBA + k, 0) else Refuse(NoSpc)
  {
    hide FirstBits, FindClearBit, TestBit, Quiet, Consistent, FindFreeSlot, FindSlot, LoadU32;
    ConsistentSuper(disk);
    EmptyDirectory(disk[ROOT_DIR_LBA], name);
    FirstClear(DATA_START_LBA + k, DATA_START_LBA, MAX_BLOCKS);
    if k < 15 {
      FirstClear(1 + k, 1, MAX_INODES);
    } else {
      AllSet(16, 1, MAX_INODES);
    }
  }

  lemma AllSet(n: nat, lo: nat, hi: nat)
    requires lo <= hi <= n <= 8 * BLOCK_SIZE
    ensures FindClearBit(FirstBits(n), lo, hi) == hi
  {
    hide FirstBits, TestBit, FindClearBit;
    var bits := FirstBits(n);
    assert forall b: nat :: b < n ==> TestBit(bits, b);
  }

  lemma EmptyDirectory(dir: Block, name: CString)
    requires forall i :: 0 <= i < DIR_SLOTS ==> SlotUsed(dir, i) == 0
    ensures FindSlot(dir, name, 0) == DIR_SLOTS && FindFreeSlot(dir, 0) == 0
  {
    hide LoadU32;
    assert SlotUsed(dir, 0) == 0;
  }

  /** One more cut creation, recovered: one more of each. */
  lemma LeakStep(disk: Blocks, k: nat, op: Op)
    requires Leaked(disk, k) && k < 15 && CutCreate(op)
    ensures |disk| == MAX_BLOCKS && Leaked(ExecAll(disk, [op, Look(-1)]), k + 1)
  {
    hide *;
    LeakedFacts(disk, k);
    CutCreateIs(op);
    ConsistentSuper(disk);
    LeakedPlan(disk, k, op.name);
    CutCreationLeaks(disk, op.name, op.data, op.stop, op.power);
    var e := WriteFile(Dev(disk, op.power), op.name, op.data, op.stop).dev.disk;
    ExecTwo(disk, op);
    CutRecovery(Dev(e, -1));
    ConsistentSuper(Settled(e));
    NextBit(1 + k);
    NextBit(DATA_START_LBA + k);
    LeakedFrom(disk, Settled(e), k);
  }

  lemma LeakedFacts(disk: Blocks, k: nat)
    requires Leaked(disk, k)
    ensures Quiet(disk) && Consistent(disk) && k < MAX_INODES == 16 && DATA_START_LBA == 25
    ensures BLOCK_SIZE == 512 && MAX_BLOCKS == 128
    ensures |disk| == MAX_BLOCKS && INODE_BITMAP_LBA == 18 && BLOCK_BITMAP_LBA == 19
    ensures disk[INODE_BITMAP_LBA] == FirstBits(1 + k) && disk[BLOCK_BITMAP_LBA] == FirstBits(DATA_START_LBA + k)
  {
    hide Quiet, Consistent, SlotUsed, FirstBits;
    ConsistentSuper(disk);
  }

  lemma LeakedFrom(d: Blocks, e: Blocks, k: nat)
    requires Leaked(d, k) && Quiet(e) && Consistent(e) && k < 15 && |d| == |e| == MAX_BLOCKS
    requires e[INODE_BITMAP_LBA] == FirstBits(2 + k) && e[BLOCK_BITMAP_LBA] == FirstBits(DATA_START_LBA + k + 1)
    requires e[ROOT_DIR_LBA] == d[ROOT_DIR_LBA]
    ensures Leaked(e, k + 1)
  {
    hide Quiet, Consistent, SlotUsed, FirstBits;
  }

  lemma CutCreateIs(op: Op)
    requires CutCreate(op)
    ensures op.Create? && Proper(op.name, op.data) && 14 <= op.power < 27
  {
    hide Proper;
  }

  /** A creation and a look: the settled disk. */
  lemma ExecTwo(disk: Blocks, op: Op)
    requires |disk| == MAX_BLOCKS && op.Create?
    requires var e := WriteFile(Dev(disk, op.power), op.name, op.data, op.stop).dev.disk;
             WellFormed(e) && Consistent(Settled(e))
    ensures ExecAll(disk, [op, Look(-1)]) == Settled(WriteFile(Dev(disk, op.power), op.name, op.data, op.stop).dev.disk)
  {
    hide WriteFile, Recover, Settled, WellFormed, Consistent;
    var e := WriteFile(Dev(disk, op.power), op.name, op.data, op.stop).dev.disk;
    RecoverySurvivesCrashes(e, []);
    assert Exec(disk, op) == e;
    assert Exec(e, Look(-1)) == Settled(e);
    assert [op, Look(-1)][1..] == [Look(-1)] && [Look(-1)][1..] == [];
  }

  /** Every cut creation followed by a recovery. */
  function WithLooks(cuts: seq<Op>): seq<Op>
    decreases |cuts|
  {
    if cuts == [] then [] else [cuts[0], Look(-1)] + WithLooks(cuts[1..])
  }

  lemma {:induction false} LeakRun(disk: Blocks, k: nat, cuts: seq<Op>)
    requires Leaked(disk, k) && k + |cuts| <= 15 && forall i :: 0 <= i < |cuts| ==> CutCreate(cuts[i])
    ensures |disk| == MAX_BLOCKS && Leaked(ExecAll(disk, WithLooks(cuts)), k + |cuts|)
    decreases |cuts|
  {
    hide *;
    LeakedFacts(disk, k);
    WithLooksIs(cuts);
    NoOps(disk);
    if cuts != [] {
      LeakStep(disk, k, cuts[0]);
      ExecAllAppend(disk, [cuts[0], Look(-1)], WithLooks(cuts[1..]));
      LeakRun(ExecAll(disk, [cuts[0], Look(-1)]), k + 1, cuts[1..]);
    }
  }

  lemma WithLooksIs(cuts: seq<Op>)
    ensures WithLooks(cuts) == if cuts == [] then [] else [cuts[0], Look(-1)] + WithLooks(cuts[1..])
  {
  }

  lemma NoOps(disk: Blocks)
    requires |disk| == MAX_BLOCKS
    ensures ExecAll(disk, []) == disk
  {
  }

  lemma FormattedLeaksNothing()
    ensures var start := Run(Dev(BLANK, -1), FormatWrites()).dev.disk; Leaked(start, 0)
  {
    hide *;
    FormatIsGood(-1);
    FormatStart();
    var start := Run(Dev(BLANK, -1), FormatWrites()).dev.disk;
    QuietGood(start);
    LeakedStart(start);
  }

  lemma QuietGood(disk: Blocks)
    requires Quiet(disk) && Good(disk)
    ensures Consistent(disk) && |disk| == MAX_BLOCKS
  {
    hide Settled, Consistent, WellFormed;
    QuietIsSettled(disk);
  }

  lemma FormatStart()
    ensures var e := Run(Dev(BLANK, -1), FormatWrites()).dev.disk;
            && |e| == MAX_BLOCKS && e[INODE_BITMAP_LBA] == FirstBits(1)
            && e[BLOCK_BITMAP_LBA] == FirstBits(DATA_START_LBA)
            && e[ROOT_DIR_LBA] == ZERO_BLOCK
  {
    hide SuperBlock, RootTable, FirstBits, TableBlock, Run, Apply;
    var ws := FormatWrites();
    RunIsPrefix(Dev(BLANK, -1), ws);
    assert ws[..9] == ws;
    ApplyLast(BLANK, ws, 1);
    ApplyLast(BLANK, ws, 2);
    ApplyLast(BLANK, ws, 7);
  }

  lemma LeakedStart(e: Blocks)
    requires Quiet(e) && Consistent(e) && |e| == MAX_BLOCKS && e[ROOT_DIR_LBA] == ZERO_BLOCK
    requires e[INODE_BITMAP_LBA] == FirstBits(1) && e[BLOCK_BITMAP_LBA] == FirstBits(DATA_START_LBA)
    ensures Leaked(e, 0)
  {
    hide Quiet, Consistent, FirstBits, LoadU32;
    forall i | 0 <= i < DIR_SLOTS ensures SlotUsed(e[ROOT_DIR_LBA], i) == 0 {
      LoadZeros(BLOCK_SIZE, DIRENT_SIZE * i);
    }
  }

  /** From format: after fifteen creations cut between their transactions, each followed by a recovery, fsck
      accepts the disk, it holds no file, and every proper creation answers that there is no space. */
  lemma FifteenCutsFill(cuts: seq<Op>, name: CString, data: seq<byte>, stop: bool, power: int)
    requires |cuts| == 15 && 1 <= |name| <= 31 && |data| <= 512
    requires forall i :: 0 <= i < |cuts| ==>
              cuts[i].Create? && 1 <= |cuts[i].name| <= 31 && |cuts[i].data| <= 512 && 14 <= cuts[i].power <= 26
    ensures var start := Run(Dev(BLANK, -1), FormatWrites()).dev.disk;
            |start| == MAX_BLOCKS &&
            var end := ExecAll(start, WithLooks(cuts));
            && Quiet(end) && Consistent(end) && Contents(end, name) == None
            && WriteFile(Dev(end, power), name, data, stop) == Outcome(Dev(end, power), NoSpc)
  {
    hide *;
    FormattedLeaksNothing();
    ProperIs(name, data);
    forall i | 0 <= i < |cuts| ensures CutCreate(cuts[i]) {
      CutCreateIff(cuts[i]);
    }
    var start := Run(Dev(BLANK, -1), FormatWrites()).dev.disk;
    LeakRun(start, 0, cuts);
    var end := ExecAll(start, WithLooks(cuts));
    LeakedFacts(end, 15);
    LeakedPlan(end, 15, name);
    WriteOnQuiet(Dev(end, power), name, data, stop);
    LeakedEmpty(end, 15, name);
  }

  lemma CutCreateIff(op: Op)
    ensures CutCreate(op) <==> op.Create? && 1 <= |op.name| <= 31 && |op.data| <= 512 && 14 <= op.power <= 26
  {
  }

  lemma LeakedEmpty(disk: Blocks, k: nat, name: CString)
    requires Leaked(disk, k) && |disk| == MAX_BLOCKS
    ensures Contents(disk, name) == None
  {
    hide Quiet, Consistent, FirstBits, FindSlot, LoadU32;
    EmptyDirectory(disk[ROOT_DIR_LBA], name);
  }
}
