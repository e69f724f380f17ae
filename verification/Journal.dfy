/** The write-ahead journal of MCSFS1J: on-disk layout, commit and recovery.
    LBA 1 holds the journal header, LBAs 2..17 hold up to eight (descriptor, payload) pairs. */
module Journal {
  import opened Bytes
  import opened Disk
  import opened Checksum

  const MAX_BLOCKS: nat := 128
  const JOURNAL_START: u32 := 1
  const JOURNAL_END: u32 := 18
  const MAX_RECORDS: nat := 8
  const JMAGIC: u64 := 0x4d43534a524e4c31
  const VERSION: u32 := 1
  const J_EMPTY: u32 := 0
  const J_COMMITTED: u32 := 2
  const SUM_OFFSET: nat := 24

  datatype Rec = Rec(target: u32, payload: Block)

  // ----- Header and descriptor blocks -----

  datatype Header = Header(magic: u64, version: u32, state: u32, seqno: u32, count: u32, checksum: u32)

  function ParseHeader(b: Block): Header {
    Header(LoadU64(b, 0), LoadU32(b, 8), LoadU32(b, 12), LoadU32(b, 16), LoadU32(b, 20), LoadU32(b, SUM_OFFSET))
  }

  function HeaderBlock(h: Header): Block {
    var b := StoreU32(StoreU32(StoreU64(ZERO_BLOCK, 0, h.magic), 8, h.version), 12, h.state);
    StoreU32(StoreU32(StoreU32(b, 16, h.seqno), 20, h.count), SUM_OFFSET, h.checksum)
  }

  lemma HeaderRoundTrip(h: Header)
    ensures ParseHeader(HeaderBlock(h)) == h
  {
  }

  /** m16_header_checksum: the sum over the block with its checksum word zeroed. */
  function HeaderSum(b: Block): u32 {
    Fnv(StoreU32(b, SUM_OFFSET, 0))
  }

  function CommitHeader(seqno: u32, count: u32): Block {
    var h := HeaderBlock(Header(JMAGIC, VERSION, J_COMMITTED, seqno, count, 0));
    StoreU32(h, SUM_OFFSET, HeaderSum(h))
  }

  datatype HeaderState = Empty | Committed(count: nat) | Bad

  /** What recovery makes of the header block. */
  function Classify(b: Block): (s: HeaderState)
    ensures s.Committed? ==> s.count <= MAX_RECORDS
  {
    var h := ParseHeader(b);
    if h.magic == 0 && h.state == J_EMPTY then Empty
    else if h.magic != JMAGIC || h.version != VERSION || h.state != J_COMMITTED || h.count > MAX_RECORDS then Bad
    else if HeaderSum(b) != h.checksum then Bad
    else Committed(h.count)
  }

  lemma ZeroHeaderIsEmpty()
    ensures Classify(ZERO_BLOCK) == Empty
  {
    LoadZeros(BLOCK_SIZE, 0);
    LoadZeros(BLOCK_SIZE, 4);
    LoadZeros(BLOCK_SIZE, 12);
  }

  lemma CommitHeaderIsCommitted(seqno: u32, count: u32)
    requires count <= MAX_RECORDS
    ensures Classify(CommitHeader(seqno, count)) == Committed(count)
  {
    var h := Header(JMAGIC, VERSION, J_COMMITTED, seqno, count, 0);
    var b := HeaderBlock(h);
    HeaderRoundTrip(h);
    var c := CommitHeader(seqno, count);
    HeaderRoundTrip(h.(checksum := HeaderSum(b)));
    assert c == HeaderBlock(h.(checksum := HeaderSum(b)));
    assert StoreU32(c, SUM_OFFSET, 0) == StoreU32(b, SUM_OFFSET, 0);
  }

  datatype Desc = Desc(magic: u64, target: u32, checksum: u32)

  function ParseDesc(b: Block): Desc {
    Desc(LoadU64(b, 0), LoadU32(b, 8), LoadU32(b, 12))
  }

  function DescBlock(d: Desc): Block {
    StoreU32(StoreU32(StoreU64(ZERO_BLOCK, 0, d.magic), 8, d.target), 12, d.checksum)
  }

  lemma DescRoundTrip(d: Desc)
    ensures ParseDesc(DescBlock(d)) == d
  {
  }

  function RecDesc(r: Rec): Desc {
    Desc(JMAGIC, r.target, Fnv(r.payload))
  }

  function DescLba(i: nat): u32
    requires i < MAX_RECORDS
  {
    2 + 2 * i
  }

  function DataLba(i: nat): u32
    requires i < MAX_RECORDS
  {
    3 + 2 * i
  }

  // ----- Commit -----

  function LogPair(r: Rec, i: nat): (ws: seq<Write>)
    requires i < MAX_RECORDS
    ensures |ws| == 2
  {
    [Write(DescLba(i), DescBlock(RecDesc(r))), Write(DataLba(i), r.payload)]
  }

  /** The journal copies of recs: block k of the log goes to LBA 2 + k. */
  function LogWrites(recs: seq<Rec>): (ws: seq<Write>)
    requires |recs| <= MAX_RECORDS
    ensures |ws| == 2 * |recs| && forall k :: 0 <= k < |ws| ==> ws[k].lba == 2 + k
    decreases |recs|
  {
    if recs == [] then [] else LogWrites(recs[..|recs| - 1]) + LogPair(recs[|recs| - 1], |recs| - 1)
  }

  lemma {:induction false} LogWritesPrefix(recs: seq<Rec>, i: nat)
    requires i <= |recs| <= MAX_RECORDS
    ensures LogWrites(recs[..i]) == LogWrites(recs)[..2 * i]
    decreases |recs|
  {
    hide LogPair;
    if i < |recs| {
      LogWritesPrefix(recs[..|recs| - 1], i);
      assert recs[..|recs| - 1][..i] == recs[..i];
    } else {
      assert recs[..i] == recs;
    }
  }

  lemma {:induction false} LogWritesAt(recs: seq<Rec>, i: nat)
    requires i < |recs| <= MAX_RECORDS
    ensures LogWrites(recs)[2 * i] == LogPair(recs[i], i)[0]
    ensures LogWrites(recs)[2 * i + 1] == LogPair(recs[i], i)[1]
    decreases |recs|
  {
    hide LogPair;
    if i < |recs| - 1 {
      LogWritesAt(recs[..|recs| - 1], i);
    }
  }

  lemma LogWritesSnoc(recs: seq<Rec>, i: nat)
    requires i < |recs| <= MAX_RECORDS
    ensures LogWrites(recs[..i + 1]) == LogWrites(recs[..i]) + LogPair(recs[i], i)
  {
    hide LogPair;
    assert recs[..i + 1][..i] == recs[..i];
  }

  lemma LogStep(d: Dev, recs: seq<Rec>, i: nat)
    requires i < |recs| <= MAX_RECORDS && Run(d, LogWrites(recs[..i])).rc == Ok
    ensures var r := Run(Run(d, LogWrites(recs[..i])).dev, LogPair(recs[i], i));
            Run(d, LogWrites(recs[..i + 1])) == r && (r.rc != Ok ==> Run(d, LogWrites(recs)) == r)
  {
    hide LogPair;
    LogWritesSnoc(recs, i);
    LogWritesPrefix(recs, i + 1);
    RunAppend(d, LogWrites(recs[..i]), LogPair(recs[i], i));
    if Run(d, LogWrites(recs[..i + 1])).rc != Ok {
      RunStops(d, LogWrites(recs), 2 * i + 2);
    }
  }

  function HomeWrites(recs: seq<Rec>): (ws: seq<Write>)
    ensures |ws| == |recs| && forall i :: 0 <= i < |ws| ==> ws[i] == Write(recs[i].target, recs[i].payload)
  {
    seq(|recs|, i requires 0 <= i < |recs| => Write(recs[i].target, recs[i].payload))
  }

  const CLEAR: Write := Write(JOURNAL_START, ZERO_BLOCK)

  function PrepareWrites(recs: seq<Rec>, seqno: u32): (ws: seq<Write>)
    requires |recs| <= MAX_RECORDS
    ensures |ws| == 2 + 2 * |recs|
  {
    [CLEAR] + LogWrites(recs) + [Write(JOURNAL_START, CommitHeader(seqno, |recs|))]
  }

  /** All writes of an uninterrupted commit, in order. */
  function CommitWrites(recs: seq<Rec>, seqno: u32): (ws: seq<Write>)
    requires |recs| <= MAX_RECORDS
    ensures |ws| == 3 + 3 * |recs|
  {
    PrepareWrites(recs, seqno) + (HomeWrites(recs) + [CLEAR])
  }

  function Commit(d: Dev, recs: seq<Rec>, seqno: u32, stopAfterCommitRecord: bool): (r: Outcome)
    ensures |r.dev.disk| == |d.disk|
  {
    if |recs| > MAX_RECORDS then Outcome(d, Inval)
    else Run(d, if stopAfterCommitRecord then PrepareWrites(recs, seqno) else CommitWrites(recs, seqno))
  }

  method JournalClear(dev: BlockDev) returns (rc: Rc)
    modifies dev, dev.blocks
    ensures Outcome(dev.State(), rc) == old(Put(dev.State(), CLEAR.lba, CLEAR.data))
  {
    rc := dev.WriteBlock(JOURNAL_START, ZERO_BLOCK);
  }

  /** The descriptor and payload writes of one record. */
  method LogRecord(dev: BlockDev, rec: Rec, i: nat) returns (rc: Rc)
    requires i < MAX_RECORDS
    modifies dev, dev.blocks
    ensures Outcome(dev.State(), rc) == old(Run(dev.State(), LogPair(rec, i)))
  {
    var sum := ComputeFnv(rec.payload);
    RunPair(dev.State(), LogPair(rec, i));
    rc := dev.WriteBlock(DescLba(i), DescBlock(Desc(JMAGIC, rec.target, sum)));
    if rc != Ok {
      return rc;
    }
    rc := dev.WriteBlock(DataLba(i), rec.payload);
  }

  /** The loop of m16_journal_commit that fills the journal. */
  method LogRecords(dev: BlockDev, recs: seq<Rec>) returns (rc: Rc)
    requires |recs| <= MAX_RECORDS
    modifies dev, dev.blocks
    ensures Outcome(dev.State(), rc) == old(Run(dev.State(), LogWrites(recs)))
  {
    ghost var start := dev.State();
    for i := 0 to |recs|
      invariant Run(start, LogWrites(recs[..i])) == Outcome(dev.State(), Ok)
    {
      LogStep(start, recs, i);
      rc := LogRecord(dev, recs[i], i);
      if rc != Ok {
        return rc;
      }
    }
    assert recs[..|recs|] == recs;
    rc := Ok;
  }

  /** The loop of m16_journal_commit that writes the home locations. */
  method ApplyRecords(dev: BlockDev, recs: seq<Rec>) returns (rc: Rc)
    modifies dev, dev.blocks
    ensures Outcome(dev.State(), rc) == old(Run(dev.State(), HomeWrites(recs)))
  {
    ghost var start, ws := dev.State(), HomeWrites(recs);
    for i := 0 to |recs|
      invariant Run(start, ws[..i]) == Outcome(dev.State(), Ok)
    {
      RunStep(start, ws, i);
      rc := dev.WriteBlock(recs[i].target, recs[i].payload);
      if rc != Ok {
        return rc;
      }
    }
    assert ws[..|ws|] == ws;
    rc := Ok;
  }

  /** m16_journal_commit. */
  method JournalCommit(dev: BlockDev, recs: seq<Rec>, seqno: u32, stopAfterCommitRecord: bool) returns (rc: Rc)
    modifies dev, dev.blocks
    ensures Outcome(dev.State(), rc) == old(Commit(dev.State(), recs, seqno, stopAfterCommitRecord))
  {
    if |recs| > MAX_RECORDS {
      return Inval;
    }
    ghost var start := dev.State();
    ghost var header := Write(JOURNAL_START, CommitHeader(seqno, |recs|));
    RunAppend(start, [CLEAR], LogWrites(recs));
    RunSnoc(start, [CLEAR] + LogWrites(recs), header);
    RunAppend(start, PrepareWrites(recs, seqno), HomeWrites(recs) + [CLEAR]);
    rc := JournalClear(dev);
    if rc != Ok {
      return rc;
    }
    rc := LogRecords(dev, recs);
    if rc != Ok {
      return rc;
    }
    rc := dev.WriteBlock(JOURNAL_START, CommitHeader(seqno, |recs|));
    if rc != Ok || stopAfterCommitRecord {
      return rc;
    }
    RunSnoc(dev.State(), HomeWrites(recs), CLEAR);
    rc := ApplyRecords(dev, recs);
    if rc != Ok {
      return rc;
    }
    rc := JournalClear(dev);
  }

  // ----- Recovery -----

  /** Record i of the journal passes recovery's checks. */
  predicate Intact(disk: Blocks, i: nat)
    requires |disk| == MAX_BLOCKS && i < MAX_RECORDS
  {
    var desc := ParseDesc(disk[DescLba(i)]);
    desc.magic == JMAGIC && desc.target < MAX_BLOCKS && Fnv(disk[DataLba(i)]) == desc.checksum
  }

  function LoggedRec(disk: Blocks, i: nat): Rec
    requires |disk| == MAX_BLOCKS && i < MAX_RECORDS
  {
    Rec(ParseDesc(disk[DescLba(i)]).target, disk[DataLba(i)])
  }

  /** Replay records i.. of a committed journal, validating and applying them one at a time. */
  function Replay(d: Dev, count: nat, i: nat): (r: Outcome)
    requires |d.disk| == MAX_BLOCKS && i <= count <= MAX_RECORDS
    ensures |r.dev.disk| == MAX_BLOCKS
    decreases count - i
  {
    if i == count then Put(d, CLEAR.lba, CLEAR.data)
    else if !Intact(d.disk, i) then Outcome(d, Corrupt)
    else
      var rec := LoggedRec(d.disk, i);
      var w := Put(d, rec.target, rec.payload);
      if w.rc != Ok then w else Replay(w.dev, count, i + 1)
  }

  function Recover(d: Dev): (r: Outcome)
    requires |d.disk| == MAX_BLOCKS
    ensures |r.dev.disk| == MAX_BLOCKS
  {
    match Classify(d.disk[JOURNAL_START])
    case Empty => Outcome(d, Ok)
    case Bad => Outcome(d, Corrupt)
    case Committed(count) => Replay(d, count, 0)
  }

  /** Read and check record i. */
  method LoadRecord(dev: BlockDev, i: nat) returns (rc: Rc, rec: Rec)
    requires dev.blocks.Length == MAX_BLOCKS && i < MAX_RECORDS
    ensures rc == if Intact(dev.State().disk, i) then Ok else Corrupt
    ensures rc == Ok ==> rec == LoggedRec(dev.State().disk, i)
  {
    var block, payload;
    rec := Rec(0, ZERO_BLOCK);
    rc, block := dev.ReadBlock(DescLba(i));
    var d := ParseDesc(block);
    if d.magic != JMAGIC || d.target >= MAX_BLOCKS {
      return Corrupt, rec;
    }
    rc, payload := dev.ReadBlock(DataLba(i));
    var sum := ComputeFnv(payload);
    if sum != d.checksum {
      return Corrupt, rec;
    }
    return Ok, Rec(d.target, payload);
  }

  /** The replay loop of m16_journal_recover. */
  method ReplayRecords(dev: BlockDev, count: nat) returns (rc: Rc)
    requires dev.blocks.Length == MAX_BLOCKS && count <= MAX_RECORDS
    modifies dev, dev.blocks
    ensures Outcome(dev.State(), rc) == old(Replay(dev.State(), count, 0))
  {
    for i := 0 to count
      invariant Replay(dev.State(), count, i) == old(Replay(dev.State(), count, 0))
    {
      var rec;
      rc, rec := LoadRecord(dev, i);
      if rc != Ok {
        return rc;
      }
      rc := dev.WriteBlock(rec.target, rec.payload);
      if rc != Ok {
        return rc;
      }
    }
    rc := JournalClear(dev);
  }

  /** m16_journal_recover. */
  method JournalRecover(dev: BlockDev) returns (rc: Rc)
    requires dev.blocks.Length == MAX_BLOCKS
    modifies dev, dev.blocks
    ensures Outcome(dev.State(), rc) == old(Recover(dev.State()))
  {
    var header;
    rc, header := dev.ReadBlock(JOURNAL_START);
    var h := ParseHeader(header);
    if h.magic == 0 && h.state == J_EMPTY {
      return Ok;
    }
    if h.magic != JMAGIC || h.version != VERSION || h.state != J_COMMITTED || h.count > MAX_RECORDS {
      return Corrupt;
    }
    var sum := ComputeFnv(StoreU32(header, SUM_OFFSET, 0));
    if sum != h.checksum {
      return Corrupt;
    }
    rc := ReplayRecords(dev, h.count);
  }
}
