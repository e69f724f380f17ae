/** What recovery does with a damaged journal.  Records are validated and applied one at a time, so a
    bad record leaves the records before it applied; and which single-byte damage is detected at all. */
module JournalCorruption {
  import opened Bytes
  import opened Disk
  import opened Checksum
  import opened Journal
  import opened JournalCrash

  /** The records before b are intact and aim outside the log. */
  predicate GoodUpTo(disk: Blocks, b: nat) {
    && |disk| == MAX_BLOCKS
    && b <= |Records(disk)|
    && forall i :: 0 <= i < b ==> Intact(disk, i) && Aside(Records(disk)[i].target, |Records(disk)|)
  }

  lemma {:induction false} ReplayReachesBad(d: Dev, disk: Blocks, i: nat, b: nat)
    requires GoodUpTo(disk, b) && SameLog(d.disk, disk) && i <= b < |Records(disk)| && !Intact(disk, b)
    requires d.power < 0
    ensures var ws := HomeWrites(Records(disk)[..b]);
            InRange(ws, MAX_BLOCKS) &&
            Replay(d, |Records(disk)|, i) == Outcome(Dev(Apply(d.disk, ws[i..]), d.power), Corrupt)
    decreases b - i
  {
    hide Classify, ParseDesc, Fnv, Records, Intact, LoggedRec;
    var recs := Records(disk);
    var ws := HomeWrites(recs[..b]);
    SameLogSameRecords(d.disk, disk);
    if i == b {
      assert ws[i..] == [];
    } else {
      GoodRecord(d.disk, disk, i, b);
      var w := Put(d, recs[i].target, recs[i].payload).dev;
      ReplayReachesBad(w, disk, i + 1, b);
      assert ws[i..][0] == ws[i] && ws[i..][1..] == ws[i + 1..];
    }
  }

  lemma GoodRecord(e: Blocks, disk: Blocks, i: nat, b: nat)
    requires GoodUpTo(disk, b) && SameLog(e, disk) && i < b
    ensures Intact(e, i) && LoggedRec(e, i) == Records(disk)[i] && Aside(Records(disk)[i].target, |Records(disk)|)
    ensures Records(disk)[i].target < MAX_BLOCKS
  {
    hide Classify, ParseDesc, Fnv, Records;
    SameLogSameRecords(e, disk);
    hide Intact;
  }

  /** The first bad record stops recovery with an error; exactly the records before it are applied. */
  lemma FirstBadRecord(disk: Blocks, b: nat)
    requires GoodUpTo(disk, b) && b < |Records(disk)| && !Intact(disk, b)
    ensures InRange(HomeWrites(Records(disk)[..b]), MAX_BLOCKS)
    ensures Recover(Dev(disk, -1)) == Outcome(Dev(Apply(disk, HomeWrites(Records(disk)[..b])), -1), Corrupt)
  {
    hide ParseDesc, Fnv;
    ReplayReachesBad(Dev(disk, -1), disk, 0, b);
    assert HomeWrites(Records(disk)[..b])[0..] == HomeWrites(Records(disk)[..b]);
  }

  /** A committed journal aimed outside its own log is refused exactly when some record is not intact. */
  lemma RefusedIffSomeRecordBad(disk: Blocks)
    requires |disk| == MAX_BLOCKS && Classify(disk[JOURNAL_START]).Committed?
    requires forall i :: 0 <= i < |Records(disk)| && Intact(disk, i) ==> Aside(Records(disk)[i].target, |Records(disk)|)
    ensures Recover(Dev(disk, -1)).rc == Corrupt <==> exists i :: 0 <= i < |Records(disk)| && !Intact(disk, i)
    ensures Recover(Dev(disk, -1)).rc in {Ok, Corrupt}
  {
    hide ParseDesc, Fnv, Classify;
    if i :| 0 <= i < |Records(disk)| && !Intact(disk, i) {
      var b := FirstBad(disk, i);
      FirstBadRecord(disk, b);
    } else {
      CutRecovery(Dev(disk, -1));
    }
  }

  lemma {:induction false} FirstBad(disk: Blocks, i: nat) returns (b: nat)
    requires |disk| == MAX_BLOCKS && i < |Records(disk)| && !Intact(disk, i)
    requires forall i :: 0 <= i < |Records(disk)| && Intact(disk, i) ==> Aside(Records(disk)[i].target, |Records(disk)|)
    ensures b <= i && GoodUpTo(disk, b) && !Intact(disk, b)
  {
    if j :| 0 <= j < i && !Intact(disk, j) {
      b := FirstBad(disk, j);
    } else {
      b := i;
    }
  }

  // ----- Logs with any targets -----

  /** The disk after the first j records of its log were applied, each as it stood when its turn came. */
  function Applied(disk: Blocks, j: nat): (e: Blocks)
    requires |disk| == MAX_BLOCKS && j <= MAX_RECORDS
    ensures |e| == MAX_BLOCKS
  {
    if j == 0 then disk
    else
      var e := Applied(disk, j - 1);
      var rec := LoggedRec(e, j - 1);
      if rec.target < MAX_BLOCKS then e[rec.target := rec.payload] else e
  }

  lemma {:induction false} ReplayAny(disk: Blocks, n: nat, k: nat, b: nat)
    requires |disk| == MAX_BLOCKS && k <= b <= n <= MAX_RECORDS
    requires forall j :: k <= j < b ==> Intact(Applied(disk, j), j)
    requires b < n ==> !Intact(Applied(disk, b), b)
    ensures Replay(Dev(Applied(disk, k), -1), n, k) ==
              if b < n then Outcome(Dev(Applied(disk, b), -1), Corrupt)
              else Outcome(Dev(Applied(disk, n)[JOURNAL_START := ZERO_BLOCK], -1), Ok)
    decreases b - k
  {
    hide LoggedRec, Intact, Applied;
    if k < b {
      TargetOnDevice(Applied(disk, k), k);
      AppliedStep(disk, k);
      ReplayAny(disk, n, k + 1, b);
    }
  }

  lemma AppliedStep(disk: Blocks, k: nat)
    requires |disk| == MAX_BLOCKS && k < MAX_RECORDS && LoggedRec(Applied(disk, k), k).target < MAX_BLOCKS
    ensures var rec := LoggedRec(Applied(disk, k), k);
            Applied(disk, k + 1) == Applied(disk, k)[rec.target := rec.payload]
  {
    hide LoggedRec;
  }

  lemma TargetOnDevice(disk: Blocks, j: nat)
    requires |disk| == MAX_BLOCKS && j < MAX_RECORDS && Intact(disk, j)
    ensures LoggedRec(disk, j).target < MAX_BLOCKS
  {
    hide ParseDesc, Fnv;
  }

  /** For every committed log, wherever its records aim: if b is the first record that is not intact when its
      turn comes, exactly the records before it are applied; if there is none, all are. */
  lemma AnyLog(disk: Blocks, n: nat, b: nat)
    requires |disk| == MAX_BLOCKS && Classify(disk[JOURNAL_START]) == Committed(n) && b <= n <= MAX_RECORDS
    requires forall j :: 0 <= j < b ==> Intact(Applied(disk, j), j)
    requires b < n ==> !Intact(Applied(disk, b), b)
    ensures Recover(Dev(disk, -1)) ==
              if b < n then Outcome(Dev(Applied(disk, b), -1), Corrupt)
              else Outcome(Dev(Applied(disk, n)[JOURNAL_START := ZERO_BLOCK], -1), Ok)
  {
    hide Intact, LoggedRec, Classify, Replay;
    assert Applied(disk, 0) == disk;
    ReplayAny(disk, n, 0, b);
  }

  // ----- Single-byte damage -----

  /** disk with one byte of block l replaced by a different one. */
  predicate ByteChanged(disk: Blocks, bad: Blocks, l: nat, off: nat) {
    && |disk| == |bad| == MAX_BLOCKS && l < MAX_BLOCKS && off < BLOCK_SIZE
    && bad[l][off] != disk[l][off]
    && (forall o :: 0 <= o < BLOCK_SIZE && o != off ==> bad[l][o] == disk[l][o])
    && (forall k :: 0 <= k < MAX_BLOCKS && k != l ==> bad[k] == disk[k])
  }

  lemma WordChanges(s: seq<byte>, t: seq<byte>, off: nat, o: nat)
    requires |s| == |t| && off < |s| && s[off] != t[off] && o + 4 <= |s|
    requires forall i :: 0 <= i < |s| && i != off ==> s[i] == t[i]
    ensures LoadU32(s, o) == LoadU32(t, o) <==> !(o <= off < o + 4)
  {
    if o <= off < o + 4 {
      assert s[o..o + 4][off - o] != t[o..o + 4][off - o];
      if LoadU32(s, o) == LoadU32(t, o) {
        LoadU32Injective(s, t, o);
      }
    } else {
      assert s[o..o + 4] == t[o..o + 4];
      LoadU32Same(s, t, o);
    }
  }

  lemma SplitWord(s: seq<byte>, t: seq<byte>, o: nat)
    requires |s| == |t| && o + 8 <= |s|
    ensures LoadU64(s, o) == LoadU64(t, o) <==> LoadU32(s, o) == LoadU32(t, o) && LoadU32(s, o + 4) == LoadU32(t, o + 4)
  {
    hide LoadU32;
  }

  /** The header's checksum covers every byte outside the checksum word. */
  lemma HeaderSumChanges(s: Block, t: Block, off: nat)
    requires off < BLOCK_SIZE && s[off] != t[off]
    requires forall i :: 0 <= i < BLOCK_SIZE && i != off ==> s[i] == t[i]
    ensures HeaderSum(s) == HeaderSum(t) <==> SUM_OFFSET <= off < SUM_OFFSET + 4
  {
    var a, b := StoreU32(s, SUM_OFFSET, 0), StoreU32(t, SUM_OFFSET, 0);
    LoadU32Injective(a, b, SUM_OFFSET);
    assert forall o :: SUM_OFFSET <= o < SUM_OFFSET + 4 ==> a[o] == a[SUM_OFFSET..SUM_OFFSET + 4][o - SUM_OFFSET];
    assert forall o :: SUM_OFFSET <= o < SUM_OFFSET + 4 ==> b[o] == b[SUM_OFFSET..SUM_OFFSET + 4][o - SUM_OFFSET];
    if SUM_OFFSET <= off < SUM_OFFSET + 4 {
      assert a == b;
    } else {
      OneByteChangesFnv(a, b, off);
    }
  }

  /** Changing any one byte of a commit header makes recovery refuse it and touch nothing. */
  lemma HeaderDamageDetected(disk: Blocks, bad: Blocks, off: nat, power: int)
    requires |disk| == MAX_BLOCKS && Classify(disk[JOURNAL_START]).Committed?
    requires ByteChanged(disk, bad, JOURNAL_START, off)
    ensures Recover(Dev(bad, power)) == Outcome(Dev(bad, power), Corrupt)
  {
    hide HeaderSum;
    var s, t := disk[JOURNAL_START], bad[JOURNAL_START];
    WordChanges(s, t, off, 0);
    WordChanges(s, t, off, 4);
    WordChanges(s, t, off, 8);
    WordChanges(s, t, off, 12);
    WordChanges(s, t, off, SUM_OFFSET);
    HeaderSumChanges(s, t, off);
  }

  /** Changing any one byte of a journalled payload makes recovery stop at that record. */
  lemma PayloadDamageDetected(disk: Blocks, bad: Blocks, i: nat, off: nat)
    requires WellFormed(disk) && i < |Records(disk)| && ByteChanged(disk, bad, DataLba(i), off)
    ensures InRange(HomeWrites(Records(disk)[..i]), MAX_BLOCKS)
    ensures Recover(Dev(bad, -1)) == Outcome(Dev(Apply(bad, HomeWrites(Records(disk)[..i])), -1), Corrupt)
  {
    hide Classify, ParseDesc, Fnv;
    OneByteChangesFnv(disk[DataLba(i)], bad[DataLba(i)], off);
    assert bad[DescLba(i)] == disk[DescLba(i)] && Intact(disk, i);
    DamagedRecord(disk, bad, i, DataLba(i));
  }

  /** A journal block of record i was changed so that the record is no longer intact. */
  lemma DamagedRecord(disk: Blocks, bad: Blocks, i: nat, l: nat)
    requires WellFormed(disk) && i < |Records(disk)| && |bad| == MAX_BLOCKS
    requires l == DescLba(i) || l == DataLba(i)
    requires forall k :: 0 <= k < MAX_BLOCKS && k != l ==> bad[k] == disk[k]
    ensures InRange(HomeWrites(Records(disk)[..i]), MAX_BLOCKS)
    ensures !Intact(bad, i) ==>
              Recover(Dev(bad, -1)) == Outcome(Dev(Apply(bad, HomeWrites(Records(disk)[..i])), -1), Corrupt)
    ensures Intact(bad, i) && Aside(LoggedRec(bad, i).target, |Records(disk)|) ==> WellFormed(bad)
  {
    hide Classify, ParseDesc, Fnv;
    assert |Records(bad)| == |Records(disk)|;
    assert forall j :: 0 <= j < |Records(disk)| && j != i ==>
        LoggedRec(bad, j) == LoggedRec(disk, j) && Intact(bad, j) == Intact(disk, j);
    assert Records(bad)[..i] == Records(disk)[..i];
    if !Intact(bad, i) {
      FirstBadRecord(bad, i);
    }
  }

  /** Where the check of the record itself notices damage to its descriptor: in the magic or the checksum, or
      in the target when the damaged target is off the device.  The descriptor carries no checksum. */
  predicate NoticedInDescriptor(off: nat, target: u32) {
    off < 8 || 12 <= off < 16 || (off < 12 && target >= MAX_BLOCKS)
  }

  lemma DescriptorDamage(disk: Blocks, bad: Blocks, i: nat, off: nat)
    requires WellFormed(disk) && i < |Records(disk)| && ByteChanged(disk, bad, DescLba(i), off)
    ensures InRange(HomeWrites(Records(disk)[..i]), MAX_BLOCKS)
    ensures var target := ParseDesc(bad[DescLba(i)]).target;
            Intact(bad, i) <==> !NoticedInDescriptor(off, target)
    ensures !Intact(bad, i) ==>
              Recover(Dev(bad, -1)) == Outcome(Dev(Apply(bad, HomeWrites(Records(disk)[..i])), -1), Corrupt)
  {
    hide Classify, Fnv;
    var s, t := disk[DescLba(i)], bad[DescLba(i)];
    WordChanges(s, t, off, 0);
    WordChanges(s, t, off, 4);
    WordChanges(s, t, off, 8);
    WordChanges(s, t, off, 12);
    SplitWord(s, t, 0);
    assert bad[DataLba(i)] == disk[DataLba(i)] && Intact(disk, i);
    DamagedRecord(disk, bad, i, DescLba(i));
  }

  /** Descriptor damage that is not noticed and aims outside the log: recovery reports success, and if the
      target word was hit the payload lands on another block. */
  lemma DescriptorDamageUnnoticed(disk: Blocks, bad: Blocks, i: nat, off: nat)
    requires WellFormed(disk) && i < |Records(disk)| && ByteChanged(disk, bad, DescLba(i), off)
    requires !NoticedInDescriptor(off, LoggedRec(bad, i).target) && Aside(LoggedRec(bad, i).target, |Records(disk)|)
    ensures WellFormed(bad) && i < |RecoveryWrites(bad)|
    ensures Recover(Dev(bad, -1)) == Outcome(Dev(Settled(bad), -1), Ok)
    ensures RecoveryWrites(bad)[i] == Write(LoggedRec(bad, i).target, disk[DataLba(i)])
    ensures LoggedRec(bad, i).target == LoggedRec(disk, i).target <==> !(8 <= off < 12)
  {
    hide Classify, Fnv;
    DescriptorDamage(disk, bad, i, off);
    DamagedRecord(disk, bad, i, DescLba(i));
    RecoverySurvivesCrashes(bad, []);
    WordChanges(disk[DescLba(i)], bad[DescLba(i)], off, 8);
  }

  // ----- What recovery answers to a damaged descriptor -----

  /** A block of a record from k on. */
  predicate Ahead(l: int, k: nat, n: nat) {
    2 + 2 * k <= l < 2 + 2 * n
  }

  /** The records from k on, except b, are intact and aim outside the log. */
  predicate RestOk(disk: Blocks, n: nat, k: nat, b: nat) {
    && |disk| == MAX_BLOCKS && k <= n <= MAX_RECORDS
    && forall j :: k <= j < n && j != b ==> Intact(disk, j) && Aside(LoggedRec(disk, j).target, n)
  }

  lemma RestOkAfter(disk: Blocks, n: nat, k: nat, b: nat, l: nat, data: Block)
    requires RestOk(disk, n, k, b) && l < MAX_BLOCKS && k < n
    requires !Ahead(l, k + 1, n) || (k < b < n && (l == DescLba(b) || l == DataLba(b)))
    ensures RestOk(disk[l := data], n, k + 1, b)
  {
    hide Fnv, ParseDesc;
    var e := disk[l := data];
    forall j | k + 1 <= j < n && j != b ensures Intact(e, j) && Aside(LoggedRec(e, j).target, n) {
      assert Intact(disk, j) && Aside(LoggedRec(disk, j).target, n);
      assert e[DescLba(j)] == disk[DescLba(j)] && e[DataLba(j)] == disk[DataLba(j)];
    }
  }

  /** Intact records that aim outside the log are all applied. */
  lemma {:induction false} ReplayAccepts(d: Dev, n: nat, k: nat)
    requires RestOk(d.disk, n, k, n) && d.power < 0
    ensures Replay(d, n, k).rc == Ok
    decreases n - k
  {
    hide Intact, LoggedRec;
    if k < n {
      var rec := LoggedRec(d.disk, k);
      TargetOk(d.disk, n, k);
      RestOkAfter(d.disk, n, k, n, rec.target, rec.payload);
      ReplayAccepts(Put(d, rec.target, rec.payload).dev, n, k + 1);
    }
  }

  lemma TargetOk(disk: Blocks, n: nat, j: nat)
    requires |disk| == MAX_BLOCKS && j < n <= MAX_RECORDS && Aside(LoggedRec(disk, j).target, n)
    ensures LoggedRec(disk, j).target < MAX_BLOCKS && !Ahead(LoggedRec(disk, j).target, 0, n)
  {
    hide ParseDesc;
  }

  /** A record that is not intact is reached and refused. */
  lemma {:induction false} ReplayRefuses(d: Dev, n: nat, k: nat, b: nat)
    requires RestOk(d.disk, n, k, b) && k <= b < n && !Intact(d.disk, b) && d.power < 0
    ensures Replay(d, n, k).rc == Corrupt
    decreases n - k
  {
    hide Intact, LoggedRec;
    if k < b {
      var rec := LoggedRec(d.disk, k);
      TargetOk(d.disk, n, k);
      RestOkAfter(d.disk, n, k, b, rec.target, rec.payload);
      SameRecord(d.disk, d.disk[rec.target := rec.payload], b);
      ReplayRefuses(Put(d, rec.target, rec.payload).dev, n, k + 1, b);
    }
  }

  lemma SameRecord(d: Blocks, e: Blocks, b: nat)
    requires |d| == |e| == MAX_BLOCKS && b < MAX_RECORDS
    requires d[DescLba(b)] == e[DescLba(b)] && d[DataLba(b)] == e[DataLba(b)]
    ensures Intact(d, b) == Intact(e, b) && LoggedRec(d, b) == LoggedRec(e, b)
  {
    hide Fnv, ParseDesc;
  }

  /** Does recovery refuse a log whose record i aims at t and is otherwise fine?  Off the device: at once.  On
      the payload of a later record: when the checksums differ.  On the descriptor of a later record j: when
      the payload of i, read as a descriptor, does not fit the payload of j or is refused in its turn. */
  predicate Refuses(disk: Blocks, n: nat, i: nat, t: u32)
    requires |disk| == MAX_BLOCKS && i < n <= MAX_RECORDS
    decreases n - i
  {
    if t >= MAX_BLOCKS then true
    else if !Ahead(t, i + 1, n) then false
    else
      var j: nat := (t as int - 2) / 2;
      if t == DataLba(j) then Fnv(disk[DataLba(i)]) != Fnv(disk[DataLba(j)])
      else
        var q := ParseDesc(disk[DataLba(i)]);
        q.magic != JMAGIC || q.checksum != Fnv(disk[DataLba(j)]) || Refuses(disk, n, j, q.target)
  }

  lemma {:induction false} RefusesSame(d: Blocks, e: Blocks, n: nat, i: nat, t: u32)
    requires |d| == |e| == MAX_BLOCKS && i < n <= MAX_RECORDS
    requires forall j :: i <= j < n ==> d[DataLba(j)] == e[DataLba(j)]
    ensures Refuses(d, n, i, t) == Refuses(e, n, i, t)
    decreases n - i
  {
    hide Fnv, ParseDesc;
    if Ahead(t, i + 1, n) {
      var j: nat := (t as int - 2) / 2;
      RefusesSame(d, e, n, j, ParseDesc(d[DataLba(i)]).target);
    }
  }

  /** Record i is whole but aims at t. */
  predicate Aimed(disk: Blocks, i: nat, t: u32)
    requires |disk| == MAX_BLOCKS && i < MAX_RECORDS
  {
    ParseDesc(disk[DescLba(i)]) == Desc(JMAGIC, t, Fnv(disk[DataLba(i)]))
  }

  /** The answer to a log with one misdirected record. */
  lemma {:induction false} ReplayAimed(d: Dev, n: nat, k: nat, i: nat, t: u32)
    requires RestOk(d.disk, n, k, i) && k <= i < n && Aimed(d.disk, i, t) && d.power < 0
    ensures Replay(d, n, k).rc == if Refuses(d.disk, n, i, t) then Corrupt else Ok
    decreases n - k
  {
    hide Intact, LoggedRec, Refuses, Aimed;
    AimedIs(d.disk, i, t);
    RefusesIs(d.disk, n, i, t);
    if k < i {
      var rec := LoggedRec(d.disk, k);
      TargetOk(d.disk, n, k);
      RestOkAfter(d.disk, n, k, i, rec.target, rec.payload);
      var w := Put(d, rec.target, rec.payload).dev;
      AimedSame(d.disk, w.disk, i, t);
      RefusesSame(d.disk, w.disk, n, i, t);
      ReplayAimed(w, n, k + 1, i, t);
    } else if t < MAX_BLOCKS {
      var p := d.disk[DataLba(i)];
      var w := Put(d, t, p).dev;
      if !Ahead(t, i + 1, n) {
        RestOkAfter(d.disk, n, i, i, t, p);
        ReplayAccepts(w, n, i + 1);
      } else {
        HitsLater(d, n, i, t, w);
        var j: nat := (t as int - 2) / 2;
        var q := ParseDesc(p);
        if t == DescLba(j) && q.magic == JMAGIC && q.checksum == Fnv(d.disk[DataLba(j)]) {
          AimedFrom(w.disk, j, q);
          RefusesSame(d.disk, w.disk, n, j, q.target);
          ReplayAimed(w, n, i + 1, j, q.target);
        }
      }
    }
  }

  lemma AimedIs(disk: Blocks, i: nat, t: u32)
    requires |disk| == MAX_BLOCKS && i < MAX_RECORDS && Aimed(disk, i, t)
    ensures (Intact(disk, i) <==> t < MAX_BLOCKS) && LoggedRec(disk, i) == Rec(t, disk[DataLba(i)])
  {
    hide Fnv, ParseDesc;
  }

  lemma AimedFrom(disk: Blocks, i: nat, q: Desc)
    requires |disk| == MAX_BLOCKS && i < MAX_RECORDS && ParseDesc(disk[DescLba(i)]) == q
    requires q.magic == JMAGIC && q.checksum == Fnv(disk[DataLba(i)])
    ensures Aimed(disk, i, q.target)
  {
    hide Fnv, ParseDesc;
  }

  lemma AimedSame(d: Blocks, e: Blocks, i: nat, t: u32)
    requires |d| == |e| == MAX_BLOCKS && i < MAX_RECORDS
    requires d[DescLba(i)] == e[DescLba(i)] && d[DataLba(i)] == e[DataLba(i)]
    ensures Aimed(d, i, t) == Aimed(e, i, t)
  {
    hide Fnv, ParseDesc;
  }

  lemma RefusesIs(disk: Blocks, n: nat, i: nat, t: u32)
    requires |disk| == MAX_BLOCKS && i < n <= MAX_RECORDS
    ensures t >= MAX_BLOCKS ==> Refuses(disk, n, i, t)
    ensures t < MAX_BLOCKS && !Ahead(t, i + 1, n) ==> !Refuses(disk, n, i, t)
    ensures Ahead(t, i + 1, n) ==>
              var j: nat, q := (t as int - 2) / 2, ParseDesc(disk[DataLba(i)]);
              && i < j < n && (t == DescLba(j) || t == DataLba(j))
              && (t == DataLba(j) ==> (Refuses(disk, n, i, t) <==> Fnv(disk[DataLba(i)]) != Fnv(disk[DataLba(j)])))
              && (t == DescLba(j) ==>
                    (Refuses(disk, n, i, t) <==>
                     q.magic != JMAGIC || q.checksum != Fnv(disk[DataLba(j)]) || Refuses(disk, n, j, q.target)))
  {
    hide Fnv, ParseDesc;
  }

  /** A payload that lands on record j ahead: on its own payload the checksums decide; on its descriptor the
      record is refused unless the payload reads as a descriptor for it. */
  lemma HitsLater(d: Dev, n: nat, i: nat, t: u32, w: Dev)
    requires |d.disk| == MAX_BLOCKS && i < n <= MAX_RECORDS && RestOk(d.disk, n, i, i) && Ahead(t, i + 1, n)
    requires d.power < 0 && t < MAX_BLOCKS
    requires w == Put(d, t, d.disk[DataLba(i)]).dev
    ensures var j: nat, q := (t as int - 2) / 2, ParseDesc(d.disk[DataLba(i)]);
            && i < j < n && RestOk(w.disk, n, i + 1, j) && w.disk == d.disk[t := d.disk[DataLba(i)]] && w.power < 0
            && (t == DataLba(j) ==>
                  Replay(w, n, i + 1).rc == if Fnv(d.disk[DataLba(i)]) != Fnv(d.disk[DataLba(j)]) then Corrupt else Ok)
            && (t == DescLba(j) && (q.magic != JMAGIC || q.checksum != Fnv(d.disk[DataLba(j)])) ==>
                  Replay(w, n, i + 1).rc == Corrupt)
  {
    hide *;
    var j := LaterRecord(t, i, n);
    var p := d.disk[DataLba(i)];
    PutOnDevice(d, t, p);
    OtherRest(d.disk, n, i, j, t, p);
    if t == DataLba(j) {
      HitPayload(d.disk, n, i, j, t, p);
      if Fnv(p) == Fnv(d.disk[DataLba(j)]) {
        ReplayAccepts(w, n, i + 1);
      } else {
        ReplayRefuses(w, n, i + 1, j);
      }
    } else {
      HitDescriptor(d.disk, w.disk, j, p);
      if !Intact(w.disk, j) {
        ReplayRefuses(w, n, i + 1, j);
      }
    }
  }

  /** The record that a block ahead belongs to. */
  lemma LaterRecord(t: u32, i: nat, n: nat) returns (j: nat)
    requires i < n <= MAX_RECORDS && Ahead(t, i + 1, n)
    ensures j == (t as int - 2) / 2 && i < j < n <= MAX_RECORDS && (t == DescLba(j) || t == DataLba(j))
    ensures DescLba(j) as int + 1 == DataLba(j) < MAX_BLOCKS && DataLba(i) < MAX_BLOCKS
  {
    j := (t as int - 2) / 2;
  }

  lemma PutOnDevice(d: Dev, t: u32, p: Block)
    requires t < |d.disk| && d.power < 0
    ensures Put(d, t, p).dev.disk == d.disk[t := p] && Put(d, t, p).dev.power < 0
  {
  }

  lemma HitDescriptor(d: Blocks, e: Blocks, j: nat, p: Block)
    requires |d| == |e| == MAX_BLOCKS && j < MAX_RECORDS && e[DescLba(j)] == p && e[DataLba(j)] == d[DataLba(j)]
    ensures ParseDesc(p).magic != JMAGIC || ParseDesc(p).checksum != Fnv(d[DataLba(j)]) ==> !Intact(e, j)
  {
    hide Fnv, ParseDesc;
  }

  lemma OtherRest(disk: Blocks, n: nat, i: nat, j: nat, t: nat, p: Block)
    requires RestOk(disk, n, i, i) && i < j < n && (t == DescLba(j) || t == DataLba(j))
    ensures RestOk(disk[t := p], n, i + 1, j)
  {
    hide Fnv, ParseDesc;
    var e := disk[t := p];
    forall k | i + 1 <= k < n && k != j ensures Intact(e, k) && Aside(LoggedRec(e, k).target, n) {
      assert Intact(disk, k) && Aside(LoggedRec(disk, k).target, n);
      assert e[DescLba(k)] == disk[DescLba(k)] && e[DataLba(k)] == disk[DataLba(k)];
    }
  }

  lemma HitPayload(disk: Blocks, n: nat, i: nat, j: nat, t: nat, p: Block)
    requires RestOk(disk, n, i, i) && i < j < n && t == DataLba(j)
    ensures Intact(disk[t := p], j) <==> Fnv(p) == Fnv(disk[DataLba(j)])
    ensures Intact(disk[t := p], j) ==> RestOk(disk[t := p], n, i + 1, n)
  {
    hide Fnv, ParseDesc;
    OtherRest(disk, n, i, j, t, p);
    var e := disk[t := p];
    assert e[DescLba(j)] == disk[DescLba(j)] && Intact(disk, j);
  }

  /** The exact answer to one changed byte in a descriptor: recovery refuses it if and only if the byte lies in
      the magic or in the checksum, or it lies in the target and the new target is one that recovery refuses. */
  lemma DescriptorDamageAnswer(disk: Blocks, bad: Blocks, i: nat, off: nat)
    requires WellFormed(disk) && i < |Records(disk)| && ByteChanged(disk, bad, DescLba(i), off)
    ensures Recover(Dev(bad, -1)).rc ==
              if off < 8 || 12 <= off < 16
                 || (8 <= off < 12 && Refuses(disk, |Records(disk)|, i, LoggedRec(bad, i).target))
              then Corrupt else Ok
  {
    hide Classify, Fnv, ParseDesc, Refuses, Intact, Replay, LoggedRec;
    var n := |Records(disk)|;
    DamagedDescriptor(disk, bad, i, off);
    SameCount(disk, bad);
    DescriptorDamageIntact(disk, bad, i, off);
    if off < 8 || 12 <= off < 16 {
      ReplayRefuses(Dev(bad, -1), n, 0, i);
    } else {
      ReplayAimed(Dev(bad, -1), n, 0, i, LoggedRec(bad, i).target);
      RefusesSame(disk, bad, n, i, LoggedRec(bad, i).target);
      if off >= 16 {
        OldTarget(disk, bad, i, off);
        RefusesIs(bad, n, i, LoggedRec(bad, i).target);
      }
    }
  }

  lemma SameCount(disk: Blocks, bad: Blocks)
    requires |disk| == |bad| == MAX_BLOCKS && Records(disk) != [] && bad[JOURNAL_START] == disk[JOURNAL_START]
    ensures Recover(Dev(bad, -1)) == Replay(Dev(bad, -1), |Records(disk)|, 0) && |Records(disk)| <= MAX_RECORDS
  {
    hide Classify, Replay;
  }

  lemma DamagedDescriptor(disk: Blocks, bad: Blocks, i: nat, off: nat)
    requires WellFormed(disk) && i < |Records(disk)| && ByteChanged(disk, bad, DescLba(i), off)
    ensures RestOk(bad, |Records(disk)|, 0, i) && bad[JOURNAL_START] == disk[JOURNAL_START] && Records(disk) != []
    ensures forall j :: 0 <= j < |Records(disk)| ==> bad[DataLba(j)] == disk[DataLba(j)]
    ensures !(off < 8 || 12 <= off < 16) ==> Aimed(bad, i, LoggedRec(bad, i).target)
  {
    hide Classify, Fnv;
    forall j | 0 <= j < |Records(disk)| && j != i
      ensures Intact(bad, j) && Aside(LoggedRec(bad, j).target, |Records(disk)|)
    {
      assert bad[DescLba(j)] == disk[DescLba(j)] && bad[DataLba(j)] == disk[DataLba(j)];
      assert LoggedRec(bad, j) == Records(disk)[j];
    }
    var s, t := disk[DescLba(i)], bad[DescLba(i)];
    WordChanges(s, t, off, 0);
    WordChanges(s, t, off, 4);
    WordChanges(s, t, off, 12);
    SplitWord(s, t, 0);
    assert Intact(disk, i);
  }

  lemma DescriptorDamageIntact(disk: Blocks, bad: Blocks, i: nat, off: nat)
    requires WellFormed(disk) && i < |Records(disk)| && ByteChanged(disk, bad, DescLba(i), off)
    ensures off < 8 || 12 <= off < 16 ==> !Intact(bad, i)
  {
    hide Classify, ParseDesc, Fnv, Intact;
    DescriptorDamage(disk, bad, i, off);
  }

  /** A byte behind the three words changes nothing that is read. */
  lemma OldTarget(disk: Blocks, bad: Blocks, i: nat, off: nat)
    requires WellFormed(disk) && i < |Records(disk)| && ByteChanged(disk, bad, DescLba(i), off) && off >= 16
    ensures LoggedRec(bad, i).target < MAX_BLOCKS && !Ahead(LoggedRec(bad, i).target, i + 1, |Records(disk)|)
  {
    hide Classify, Fnv;
    WordChanges(disk[DescLba(i)], bad[DescLba(i)], off, 8);
    assert LoggedRec(bad, i).target == Records(disk)[i].target;
  }

  /** For a payload that does not itself start like a descriptor the condition is plain. */
  lemma RefusesPlain(disk: Blocks, n: nat, i: nat, t: u32)
    requires |disk| == MAX_BLOCKS && i < n <= MAX_RECORDS && ParseDesc(disk[DataLba(i)]).magic != JMAGIC
    ensures Refuses(disk, n, i, t) <==>
              || t >= MAX_BLOCKS
              || exists j :: i < j < n
                   && (t == DescLba(j) || (t == DataLba(j) && Fnv(disk[DataLba(i)]) != Fnv(disk[DataLba(j)])))
  {
    hide Fnv, ParseDesc, Refuses;
    RefusesIs(disk, n, i, t);
  }

  /** Damage that the record's own check does not notice and recovery still refuses: two records for blocks 18
      and 19, the target byte 18 turned into 5, which is the logged payload of the second record. */
  lemma InLogDamage(disk: Blocks, seqno: u32)
    requires Quiet(disk)
    ensures var recs := [Rec(18, ZERO_BLOCK), Rec(19, ZERO_BLOCK[0 := 1])];
            var c := Commit(Dev(disk, -1), recs, seqno, true).dev.disk;
            && |c| == MAX_BLOCKS && WellFormed(c) &&
            var bad := c[DescLba(0) := c[DescLba(0)][8 := 5]];
            && ByteChanged(c, bad, DescLba(0), 8) && !NoticedInDescriptor(8, LoggedRec(bad, 0).target)
            && Intact(bad, 0) && Recover(Dev(bad, -1)).rc == Corrupt
  {
    hide *;
    Places();
    var recs := [Rec(18, ZERO_BLOCK), Rec(19, ZERO_BLOCK[0 := 1])];
    StoppedCommit(disk, recs, seqno);
    var c := Commit(Dev(disk, -1), recs, seqno, true).dev.disk;
    var bad := c[DescLba(0) := c[DescLba(0)][8 := 5]];
    LoggedTarget(c, 0);
    LowByte(c[DescLba(0)], 18, 5);
    ByteChangedFrom(c, bad, DescLba(0), 8);
    LoggedTarget(bad, 0);
    LoggedTarget(c, 1);
    DescriptorDamage(c, bad, 0, 8);
    NotNoticed(5);
    DescriptorDamageAnswer(c, bad, 0, 8);
    OneByteChangesFnv(ZERO_BLOCK, ZERO_BLOCK[0 := 1], 0);
    ZeroIsNoDescriptor();
    RefusesPlain(c, 2, 0, 5);
    assert DataLba(1) == 5;
  }

  lemma Places()
    ensures MAX_BLOCKS == 128 && MAX_RECORDS == 8 && BLOCK_SIZE == 512 && DescLba(0) == 2 && DataLba(0) == 3
    ensures DescLba(1) == 4 && DataLba(1) == 5 && forall i :: 0 <= i < 512 ==> ZERO_BLOCK[i] == 0
  {
  }

  /** A commit that stops before applying anything leaves a well-formed log of its records. */
  lemma StoppedCommit(disk: Blocks, recs: seq<Rec>, seqno: u32)
    requires Quiet(disk) && |recs| == 2 && recs[0].target == 18 && recs[1].target == 19
    ensures var c := Commit(Dev(disk, -1), recs, seqno, true).dev.disk;
            && |c| == MAX_BLOCKS && WellFormed(c) && Records(c) == recs
            && LoggedRec(c, 0) == recs[0] && LoggedRec(c, 1) == recs[1]
  {
    hide *;
    BothLoggable(disk, recs);
    AfterHeader(disk, recs, seqno);
    StoppedIs(disk, recs, seqno);
    var c := Commit(Dev(disk, -1), recs, seqno, true).dev.disk;
    assert Records(c)[0] == recs[0] && Records(c)[1] == recs[1];
  }

  lemma BothLoggable(disk: Blocks, recs: seq<Rec>)
    requires Quiet(disk) && |recs| == 2 && recs[0].target == 18 && recs[1].target == 19
    ensures Loggable(recs) && OnDevice(recs) && |recs| <= MAX_RECORDS && |disk| == MAX_BLOCKS
  {
  }

  lemma StoppedIs(disk: Blocks, recs: seq<Rec>, seqno: u32)
    requires |disk| == MAX_BLOCKS && |recs| <= MAX_RECORDS && InRange(PrepareWrites(recs, seqno), MAX_BLOCKS)
    ensures Commit(Dev(disk, -1), recs, seqno, true).dev.disk == Apply(disk, PrepareWrites(recs, seqno))
  {
    hide PrepareWrites, Run, Apply;
    var ws := PrepareWrites(recs, seqno);
    RunIsPrefix(Dev(disk, -1), ws);
    assert ws[..|ws|] == ws;
  }

  lemma LoggedTarget(disk: Blocks, i: nat)
    requires |disk| == MAX_BLOCKS && i < MAX_RECORDS
    ensures LoggedRec(disk, i).target == LoadU32(disk[DescLba(i)], 8) == ParseDesc(disk[DescLba(i)]).target
    ensures LoggedRec(disk, i).payload == disk[DataLba(i)]
  {
    hide LoadU32;
  }

  /** The low byte of a small word. */
  lemma LowByte(b: Block, was: byte, now: byte)
    requires LoadU32(b, 8) as int == was as int
    ensures b[8] == was && LoadU32(b[8 := now], 8) as int == now as int
  {
    Decode4(b[8..12]);
    Decode4(b[8 := now][8..12]);
  }

  lemma ByteChangedFrom(disk: Blocks, bad: Blocks, l: nat, off: nat)
    requires |disk| == MAX_BLOCKS && l < MAX_BLOCKS && off < BLOCK_SIZE && disk[l][off] != 5
    requires bad == disk[l := disk[l][off := 5]]
    ensures ByteChanged(disk, bad, l, off)
  {
  }

  lemma NotNoticed(target: u32)
    requires target < MAX_BLOCKS
    ensures !NoticedInDescriptor(8, target)
  {
  }

  lemma ZeroIsNoDescriptor()
    ensures ParseDesc(ZERO_BLOCK).magic != JMAGIC
  {
    LoadZeros(BLOCK_SIZE, 0);
    LoadZeros(BLOCK_SIZE, 4);
  }
}
