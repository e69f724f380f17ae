/** Whole runs of MCSFS1J: any sequence of creations, reads, checks and recoveries, each of which the
    power may cut at any block write. */
module JournalFsRuns {
  import opened Bytes
  import opened Disk
  import opened Journal
  import opened JournalCrash
  import opened JournalFs
  import opened JournalFsCrash
  import opened JournalFormat

  /** One operation; power is the number of block writes it gets (negative: all). */
  datatype Op =
    | Create(name: CString, data: seq<byte>, stop: bool, power: int)
    | Look(power: int)     // read, fsck or mount: recover, then only read

  function Exec(disk: Blocks, op: Op): (r: Blocks)
    requires |disk| == MAX_BLOCKS
    ensures |r| == MAX_BLOCKS
  {
    match op
    case Create(name, data, stop, power) => WriteFile(Dev(disk, power), name, data, stop).dev.disk
    case Look(power) => Mount(Dev(disk, power)).dev.disk
  }

  function ExecAll(disk: Blocks, ops: seq<Op>): (r: Blocks)
    requires |disk| == MAX_BLOCKS
    ensures |r| == MAX_BLOCKS
    decreases |ops|
  {
    if ops == [] then disk else ExecAll(Exec(disk, ops[0]), ops[1..])
  }

  /** The file a reader will find once the disk has been recovered. */
  ghost function File(disk: Blocks, q: CString): Option<seq<byte>>
    requires WellFormed(disk)
  {
    Contents(Settled(disk), q)
  }

  lemma StepKeepsGood(disk: Blocks, op: Op, q: CString)
    requires Good(disk)
    ensures Good(Exec(disk, op))
    ensures File(Exec(disk, op), q) != File(disk, q) ==>
              op.Create? && op.name == q && File(disk, q) == None && File(Exec(disk, op), q) == Some(op.data)
  {
    hide WellFormed, Consistent, Settled, Contents, WriteFile, Recover, RecoveryWrites;
    match op
    case Create(name, data, stop, power) =>
      CreateIsAtomic(Dev(disk, power), name, data, stop);
    case Look(power) =>
      CutRecovery(Dev(disk, power));
  }

  lemma GoodIsDisk(disk: Blocks)
    requires Good(disk)
    ensures |disk| == MAX_BLOCKS && WellFormed(disk)
  {
  }

  /** Good disks stay good, files are never lost or altered, and every new file was created whole by
      some operation of the run. */
  lemma {:induction false} RunsAreSafe(disk: Blocks, ops: seq<Op>, q: CString)
    requires Good(disk)
    ensures Good(ExecAll(disk, ops))
    ensures File(disk, q).Some? ==> File(ExecAll(disk, ops), q) == File(disk, q)
    ensures File(disk, q) == None && File(ExecAll(disk, ops), q).Some? ==>
              exists i :: 0 <= i < |ops| && ops[i].Create? && ops[i].name == q
                          && Some(ops[i].data) == File(ExecAll(disk, ops), q)
    decreases |ops|
  {
    hide Consistent, Settled, Contents, Exec, WellFormed;
    assert |disk| == MAX_BLOCKS by { GoodIsDisk(disk); }
    if ops != [] {
      StepKeepsGood(disk, ops[0], q);
      RunsAreSafe(Exec(disk, ops[0]), ops[1..], q);
      var end := File(ExecAll(disk, ops), q);
      if File(disk, q) == None && end.Some? {
        if File(Exec(disk, ops[0]), q) == None {
          var i :| 0 <= i < |ops[1..]| && ops[1..][i].Create? && ops[1..][i].name == q && Some(ops[1..][i].data) == end;
          assert ops[i + 1] == ops[1..][i];
        }
      }
    }
  }

  /** On a good disk, fsck with full power succeeds and a read returns exactly the file. */
  lemma GoodDiskObserved(disk: Blocks, q: CString, cap: u32)
    requires Good(disk)
    ensures Fsck(Dev(disk, -1)) == Outcome(Dev(Settled(disk), -1), Ok)
    ensures Mount(Dev(disk, -1)) == Outcome(Dev(Settled(disk), -1), Ok)
    ensures var r := ReadResult(Settled(disk), q, cap);
            match File(disk, q)
            case None => r.0 == NoEnt
            case Some(c) => if |c| <= cap then r == (Ok, c) else r.0 == Inval
  {
    hide Recover, Settled, LoadU32, TestBit, RecoveryWrites, WellFormed;
    CutRecovery(Dev(disk, -1));
    ConsistentSuper(Settled(disk));
    var s := Settled(disk);
    var slot := FindSlot(s[ROOT_DIR_LBA], q, 0);
    if slot < DIR_SLOTS {
      assert SlotOk(s, slot);
    }
  }

  /** For a disk whose pending journal aims outside itself, good is what fsck reports. */
  lemma FsckDecidesGood(disk: Blocks)
    requires WellFormed(disk)
    ensures Fsck(Dev(disk, -1)).rc == Ok <==> Good(disk)
  {
    hide Recover, Settled, RecoveryWrites, LoadU32, TestBit, InodeTable;
    CutRecovery(Dev(disk, -1));
  }

  // ----- What an accepted disk guarantees -----

  lemma {:induction false} ReplayClears(d: Dev, count: nat, i: nat)
    requires |d.disk| == MAX_BLOCKS && i <= count <= MAX_RECORDS
    ensures Replay(d, count, i).rc == Ok ==> Replay(d, count, i).dev.disk[JOURNAL_START] == ZERO_BLOCK
    decreases count - i
  {
    hide Intact, LoggedRec;
    if i < count && Intact(d.disk, i) {
      var r := LoggedRec(d.disk, i);
      ReplayClears(Put(d, r.target, r.payload).dev, count, i + 1);
    }
  }

  /** Whatever the journal held and wherever its records aimed: a disk that fsck has accepted is good. */
  lemma FsckLeavesGood(d: Dev)
    requires |d.disk| == MAX_BLOCKS && Fsck(d).rc == Ok
    ensures var e := Fsck(d).dev.disk; Quiet(e) && Good(e) && Settled(e) == e
  {
    hide Intact, LoggedRec, Classify, SuperOk, Replay, RootOk, SlotOk, Settled, WellFormed, TestBit;
    ZeroHeaderIsEmpty();
    match Classify(d.disk[JOURNAL_START]) {
      case Committed(n) => ReplayClears(d, n, 0);
      case _ =>
    }
    QuietIsSettled(Fsck(d).dev.disk);
  }

  /** Crash atomicity of file creation, on any disk that fsck has just accepted. */
  lemma CreateAfterFsck(d: Dev, power: int, name: CString, data: seq<byte>, stop: bool)
    requires |d.disk| == MAX_BLOCKS && Fsck(d).rc == Ok
    ensures var e := Fsck(d).dev.disk;
            var r := WriteFile(Dev(e, power), name, data, stop);
            && Good(r.dev.disk)
            && (SameFiles(e, Settled(r.dev.disk)) || FileAdded(e, Settled(r.dev.disk), name, data))
            && (r.rc == Ok ==> FileAdded(e, Settled(r.dev.disk), name, data))
            && (r.rc != Ok && r.rc != Io ==> SameFiles(e, Settled(r.dev.disk)))
  {
    hide *;
    FsckLeavesGood(d);
    var e := Fsck(d).dev.disk;
    CreateIsAtomic(Dev(e, power), name, data, stop);
    OutcomeIs(e, WriteFile(Dev(e, power), name, data, stop).dev.disk, name, data,
              WriteFile(Dev(e, power), name, data, stop).rc);
  }

  lemma OutcomeIs(before: Blocks, after: Blocks, name: CString, data: seq<byte>, rc: Rc)
    requires CreateOutcome(before, after, name, data, rc)
    ensures Good(after) && WellFormed(before) && WellFormed(after)
    ensures SameFiles(Settled(before), Settled(after)) || FileAdded(Settled(before), Settled(after), name, data)
    ensures rc == Ok ==> FileAdded(Settled(before), Settled(after), name, data)
    ensures rc != Ok && rc != Io ==> SameFiles(Settled(before), Settled(after))
  {
    hide WellFormed, Consistent, Settled, SameFiles, FileAdded;
  }

  /** Whole runs from any disk that fsck has just accepted: fsck accepts the end of the run again, no file is
      lost or altered, and every new file was created whole by the run. */
  lemma RunsAfterFsck(d: Dev, ops: seq<Op>, q: CString)
    requires |d.disk| == MAX_BLOCKS && Fsck(d).rc == Ok
    ensures var e := Fsck(d).dev.disk;
            |e| == MAX_BLOCKS && Good(ExecAll(e, ops)) && WellFormed(ExecAll(e, ops)) &&
            var end := File(ExecAll(e, ops), q);
            && Fsck(Dev(ExecAll(e, ops), -1)).rc == Ok
            && (Contents(e, q).Some? ==> end == Contents(e, q))
            && (Contents(e, q) == None && end.Some? ==>
                  exists i :: 0 <= i < |ops| && ops[i].Create? && ops[i].name == q && Some(ops[i].data) == end)
  {
    hide *;
    FsckLeavesGood(d);
    var e := Fsck(d).dev.disk;
    GoodIsDisk(e);
    RunsAreSafe(e, ops, q);
    GoodIsDisk(ExecAll(e, ops));
    GoodDiskObserved(ExecAll(e, ops), q, 0);
    FileIs(e, q);
  }

  lemma FileIs(disk: Blocks, q: CString)
    requires WellFormed(disk)
    ensures File(disk, q) == Contents(Settled(disk), q)
  {
    hide Settled, Contents, WellFormed;
  }

  /** Room for one more file. */
  predicate HasRoom(disk: Blocks)
    requires |disk| == MAX_BLOCKS
  {
    && (exists i :: 1 <= i < MAX_INODES && !TestBit(disk[INODE_BITMAP_LBA], i))
    && (exists b :: DATA_START_LBA <= b < MAX_BLOCKS && !TestBit(disk[BLOCK_BITMAP_LBA], b))
    && (exists s :: 0 <= s < DIR_SLOTS && SlotUsed(disk[ROOT_DIR_LBA], s) == 0)
  }

  /** Without a power cut a creation with legal arguments succeeds exactly when the name is new and
      there is room; otherwise it says why and changes no file. */
  lemma CreateSucceedsIff(disk: Blocks, name: CString, data: seq<byte>, stop: bool)
    requires Good(disk) && name != [] && |name| < MAX_NAME && |data| <= BLOCK_SIZE
    ensures WriteFile(Dev(disk, -1), name, data, stop).rc ==
              if File(disk, name).Some? then Exists else if HasRoom(Settled(disk)) then Ok else NoSpc
  {
    hide Recover, Settled, RecoveryWrites, WellFormed, LoadU32, TestBit, CommitFile, InodeTable, Quiet;
    var d := Dev(disk, -1);
    CutRecovery(d);
    var s := Settled(disk);
    ConsistentSuper(s);
    var slot := FindSlot(s[ROOT_DIR_LBA], name, 0);
    if slot < DIR_SLOTS {
      assert SlotOk(s, slot);
    }
    if PlanFile(s, name).Place? {
      CreateFromMounted(Dev(s, -1), name, data, stop);
    }
  }

  /** Everything together, from a fresh format: after any run, fsck reports OK and a read finds a file
      only if some creation of the run wrote exactly those bytes under that name. */
  lemma RunsFromFormat(ops: seq<Op>, q: CString)
    ensures var disk := ExecAll(Run(Dev(BLANK, -1), FormatWrites()).dev.disk, ops);
            && Fsck(Dev(disk, -1)).rc == Ok
            && var r := ReadResult(Mount(Dev(disk, -1)).dev.disk, q, BLOCK_SIZE);
               && (r.0 == Ok || r.0 == NoEnt)
               && (r.0 == Ok ==> exists i :: 0 <= i < |ops| && ops[i].Create? && ops[i].name == q && ops[i].data == r.1)
  {
    hide Good, WellFormed, Quiet, Settled, Contents, FormatWrites, Run, ExecAll, Exec, Fsck, Mount, ReadResult;
    FormatIsGood(-1);
    var start := Run(Dev(BLANK, -1), FormatWrites()).dev.disk;
    QuietIsSettled(start);
    RunsAreSafe(start, ops, q);
    var end := ExecAll(start, ops);
    GoodIsDisk(end);
    GoodDiskObserved(end, q, BLOCK_SIZE);
    ContentsFit(Settled(end), q);
  }

  lemma {:induction false} ExecAllAppend(disk: Blocks, xs: seq<Op>, ys: seq<Op>)
    requires |disk| == MAX_BLOCKS
    ensures ExecAll(disk, xs + ys) == ExecAll(ExecAll(disk, xs), ys)
    decreases |xs|
  {
    hide Exec;
    if xs == [] {
      assert xs + ys == ys;
    } else {
      assert (xs + ys)[1..] == xs[1..] + ys;
      ExecAllAppend(Exec(disk, xs[0]), xs[1..], ys);
    }
  }

  /** From a fresh format: a creation that returned success is read back, whole, after anything that
      follows it. */
  lemma CreatedStays(before: seq<Op>, name: CString, data: seq<byte>, stop: bool, power: int, after: seq<Op>)
    requires var start := Run(Dev(BLANK, -1), FormatWrites()).dev.disk;
             |start| == MAX_BLOCKS && WriteFile(Dev(ExecAll(start, before), power), name, data, stop).rc == Ok
    ensures var start := Run(Dev(BLANK, -1), FormatWrites()).dev.disk;
            var end := ExecAll(start, before + [Create(name, data, stop, power)] + after);
            ReadResult(Mount(Dev(end, -1)).dev.disk, name, BLOCK_SIZE) == (Ok, data)
  {
    hide *;
    BlockSize();
    var start, op := Run(Dev(BLANK, -1), FormatWrites()).dev.disk, Create(name, data, stop, power);
    FormatIsGood(-1);
    RunsAreSafe(start, before, name);
    var mid := ExecAll(start, before);
    GoodIsDisk(mid);
    CreatedIsThere(mid, name, data, stop, power);
    ExecAllAppend(start, before + [op], after);
    ExecAllAppend(start, before, [op]);
    ExecOne(mid, op);
    RunsAreSafe(Exec(mid, op), after, name);
    var end := ExecAll(start, before + [op] + after);
    GoodIsDisk(end);
    GoodDiskObserved(end, name, BLOCK_SIZE);
    FileIs(end, name);
    ContentsFit(Settled(end), name);
  }

  lemma ExecOne(disk: Blocks, op: Op)
    requires |disk| == MAX_BLOCKS
    ensures ExecAll(disk, [op]) == Exec(disk, op)
  {
    hide Exec;
    assert [op][1..] == [];
  }

  lemma CreatedIsThere(disk: Blocks, name: CString, data: seq<byte>, stop: bool, power: int)
    requires Good(disk) && |disk| == MAX_BLOCKS && WriteFile(Dev(disk, power), name, data, stop).rc == Ok
    ensures var e := Exec(disk, Create(name, data, stop, power));
            Good(e) && WellFormed(e) && File(e, name) == Some(data)
  {
    hide Good, WellFormed, Settled, Contents, WriteFile, Consistent, SameFiles;
    CreateIsAtomic(Dev(disk, power), name, data, stop);
    GoodIsDisk(WriteFile(Dev(disk, power), name, data, stop).dev.disk);
  }

  lemma ContentsFit(disk: Blocks, q: CString)
    requires |disk| == MAX_BLOCKS
    ensures Contents(disk, q).Some? ==> |Contents(disk, q).value| <= BLOCK_SIZE
  {
  }
}
