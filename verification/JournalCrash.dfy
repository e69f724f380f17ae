/** Crash safety of the journal: what is left when the power fails between any two block writes
    of a commit or of a recovery. */
module JournalCrash {
  import opened Bytes
  import opened Disk
  import opened Checksum
  import opened Journal

  /** A block outside the journal. */
  predicate Home(l: int) {
    0 <= l < MAX_BLOCKS && !(JOURNAL_START <= l < JOURNAL_END)
  }

  ghost predicate SameHome(d1: Blocks, d2: Blocks) {
    |d1| == |d2| == MAX_BLOCKS && forall l :: Home(l) ==> d1[l] == d2[l]
  }

  /** A block outside the part of the journal that a log of n records uses. */
  predicate Aside(l: int, n: nat) {
    0 <= l < MAX_BLOCKS && !(JOURNAL_START <= l < JOURNAL_START + 1 + 2 * n)
  }

  /** The records of a committed journal; none otherwise. */
  function Records(disk: Blocks): (recs: seq<Rec>)
    requires |disk| == MAX_BLOCKS
    ensures |recs| <= MAX_RECORDS
    ensures forall i :: 0 <= i < |recs| ==> recs[i] == LoggedRec(disk, i)
  {
    var n := match Classify(disk[JOURNAL_START]) case Committed(n) => n case _ => 0;
    seq(n, i requires 0 <= i < n => LoggedRec(disk, i))
  }

  /** d1 has the header of d2 and its records. */
  predicate SameLog(d1: Blocks, d2: Blocks) {
    && |d1| == |d2| == MAX_BLOCKS && d1[JOURNAL_START] == d2[JOURNAL_START]
    && forall l :: JOURNAL_START <= l < JOURNAL_START + 1 + 2 * |Records(d2)| ==> d1[l] == d2[l]
  }

  /** The header is empty, or committed with intact records whose targets lie outside the log they are in. */
  predicate WellFormed(disk: Blocks) {
    && |disk| == MAX_BLOCKS
    && !Classify(disk[JOURNAL_START]).Bad?
    && forall i :: 0 <= i < |Records(disk)| ==> Intact(disk, i) && Aside(Records(disk)[i].target, |Records(disk)|)
  }

  predicate Quiet(disk: Blocks) {
    |disk| == MAX_BLOCKS && Classify(disk[JOURNAL_START]).Empty?
  }

  /** What a recovery that is not cut writes to this disk. */
  function RecoveryWrites(disk: Blocks): (ws: seq<Write>)
    requires WellFormed(disk)
    ensures InRange(ws, MAX_BLOCKS)
    ensures |ws| == if Quiet(disk) then 0 else |Records(disk)| + 1
    ensures forall i :: 0 <= i < |ws| && i < |Records(disk)| ==> Aside(ws[i].lba, |Records(disk)|)
    ensures ws != [] ==> ws[|ws| - 1] == CLEAR
  {
    if Quiet(disk) then [] else HomeWrites(Records(disk)) + [CLEAR]
  }

  /** The disk once its journal has been replayed and cleared. */
  function Settled(disk: Blocks): (r: Blocks)
    requires WellFormed(disk)
    ensures |r| == MAX_BLOCKS
  {
    Apply(disk, RecoveryWrites(disk))
  }

  /** Recovery after recovery, the i-th cut after powers[i] block writes. */
  function RecoverEach(disk: Blocks, powers: seq<nat>): (r: Blocks)
    requires |disk| == MAX_BLOCKS
    ensures |r| == MAX_BLOCKS
    decreases |powers|
  {
    if powers == [] then disk else RecoverEach(Recover(Dev(disk, powers[0])).dev.disk, powers[1..])
  }

  /** One more recovery, cut after p writes, starts from what the ones before it left. */
  lemma {:induction false} OneMoreRecovery(disk: Blocks, powers: seq<nat>, p: nat)
    requires |disk| == MAX_BLOCKS
    ensures RecoverEach(disk, powers + [p]) == Recover(Dev(RecoverEach(disk, powers), p)).dev.disk
    decreases |powers|
  {
    hide Recover;
    if powers == [] {
      assert ([] + [p])[1..] == [];
    } else {
      assert (powers + [p])[1..] == powers[1..] + [p];
      OneMoreRecovery(Recover(Dev(disk, powers[0])).dev.disk, powers[1..], p);
    }
  }

  // ----- Recovery of a well-formed journal -----

  lemma SameLogSameRecords(d1: Blocks, d2: Blocks)
    requires SameLog(d1, d2)
    ensures Records(d1) == Records(d2) && Quiet(d1) == Quiet(d2) && WellFormed(d1) == WellFormed(d2)
    ensures forall i :: 0 <= i < |Records(d2)| ==> Intact(d1, i) == Intact(d2, i)
  {
    hide Classify, ParseDesc, Fnv;
    assert |Records(d1)| == |Records(d2)|;
    forall i | 0 <= i < |Records(d2)| ensures LoggedRec(d1, i) == LoggedRec(d2, i) && Intact(d1, i) == Intact(d2, i) {
      assert d1[DescLba(i)] == d2[DescLba(i)] && d1[DataLba(i)] == d2[DataLba(i)];
    }
  }

  lemma {:induction false} ReplayIsRun(d: Dev, disk: Blocks, i: nat)
    requires WellFormed(disk) && !Quiet(disk) && SameLog(d.disk, disk) && i <= |Records(disk)|
    ensures Replay(d, |Records(disk)|, i) == Run(d, RecoveryWrites(disk)[i..])
    decreases |Records(disk)| - i
  {
    hide Classify, ParseDesc, Fnv, RecoveryWrites, Quiet, Records, Intact, LoggedRec;
    var recs, ws := Records(disk), RecoveryWrites(disk);
    WritesOfRecovery(disk);
    SameLogSameRecords(d.disk, disk);
    assert ws[i..][0] == ws[i] && ws[i..][1..] == ws[i + 1..];
    if i == |recs| {
      assert ws[i + 1..] == [];
      assert Run(d, ws[i..]) == Put(d, CLEAR.lba, CLEAR.data);
    } else {
      assert Intact(d.disk, i) && LoggedRec(d.disk, i) == recs[i] by { RecordsAgree(d.disk, disk, i); }
      var w := Put(d, recs[i].target, recs[i].payload);
      if w.rc == Ok {
        ReplayIsRun(w.dev, disk, i + 1);
      }
    }
  }

  lemma WritesOfRecovery(disk: Blocks)
    requires WellFormed(disk) && !Quiet(disk)
    ensures RecoveryWrites(disk) == HomeWrites(Records(disk)) + [CLEAR]
  {
    hide Classify, Records, Intact, HomeWrites;
  }

  lemma RecordsAgree(d: Blocks, disk: Blocks, i: nat)
    requires WellFormed(disk) && SameLog(d, disk) && i < |Records(disk)|
    ensures Intact(d, i) && LoggedRec(d, i) == Records(disk)[i]
  {
    hide Classify, ParseDesc, Fnv;
  }

  lemma RecoverIsRun(d: Dev)
    requires WellFormed(d.disk)
    ensures Recover(d) == Run(d, RecoveryWrites(d.disk))
  {
    if !Quiet(d.disk) {
      ReplayIsRun(d, d.disk, 0);
      assert RecoveryWrites(d.disk)[0..] == RecoveryWrites(d.disk);
    }
  }

  lemma QuietIsSettled(disk: Blocks)
    requires Quiet(disk)
    ensures WellFormed(disk) && RecoveryWrites(disk) == [] && Settled(disk) == disk
  {
    hide Classify;
    assert Records(disk) == [];
  }

  lemma SettledIsQuiet(disk: Blocks)
    requires WellFormed(disk)
    ensures Quiet(Settled(disk))
  {
    hide Classify, Apply, Intact;
    var ws := RecoveryWrites(disk);
    if Quiet(disk) {
      QuietIsSettled(disk);
    } else {
      ApplyLast(disk, ws, |ws| - 1);
      ZeroHeaderIsEmpty();
    }
  }

  /** Any prefix of a recovery leaves a disk that settles to the same state. */
  lemma RecoveryPrefix(disk: Blocks, k: nat)
    requires WellFormed(disk) && k <= |RecoveryWrites(disk)|
    ensures var e := Apply(disk, RecoveryWrites(disk)[..k]); WellFormed(e) && Settled(e) == Settled(disk)
    ensures Quiet(Settled(disk)) && Settled(Settled(disk)) == Settled(disk)
  {
    hide Classify, Apply, Intact, WellFormed, Quiet, RecoveryWrites;
    var ws := RecoveryWrites(disk);
    SettledIsQuiet(disk);
    QuietIsSettled(Settled(disk));
    assert ws[..|ws|] == ws;
    if k < |ws| {
      RecoveryPrefixBeforeClear(disk, k);
    }
  }

  lemma RecoveryPrefixBeforeClear(disk: Blocks, k: nat)
    requires WellFormed(disk) && k < |RecoveryWrites(disk)|
    ensures var e := Apply(disk, RecoveryWrites(disk)[..k]); WellFormed(e) && Settled(e) == Settled(disk)
  {
    hide Classify, ParseDesc, Fnv;
    var ws := RecoveryWrites(disk);
    var e := Apply(disk, ws[..k]);
    forall l | JOURNAL_START <= l < JOURNAL_START + 1 + 2 * |Records(disk)| ensures e[l] == disk[l] {
      ApplyUntouched(disk, ws[..k], l);
    }
    SameLogSameRecords(e, disk);
    forall l | 0 <= l < MAX_BLOCKS ensures Apply(e, ws)[l] == Apply(disk, ws)[l] {
      if i :| 0 <= i < k && ws[i].lba == l {
      } else {
        ApplyUntouched(disk, ws[..k], l);
      }
      ApplyForgets(e, disk, ws, l);
    }
  }

  /** A recovery cut anywhere keeps the settled state; it reports success exactly when it reached it. */
  lemma CutRecovery(d: Dev)
    requires WellFormed(d.disk)
    ensures var r := Recover(d);
            && WellFormed(r.dev.disk) && Settled(r.dev.disk) == Settled(d.disk)
            && r.rc == (if 0 <= d.power < |RecoveryWrites(d.disk)| then Io else Ok)
            && (r.rc == Ok ==> r.dev.disk == Settled(d.disk) && Quiet(r.dev.disk))
            && (d.power < 0 ==> r.dev.power == d.power)
  {
    hide Recover, Run, Apply, RecoveryWrites, WellFormed, Quiet;
    var ws := RecoveryWrites(d.disk);
    RecoverIsRun(d);
    RunIsPrefix(d, ws);
    RecoveryPrefix(d.disk, Reach(d.power, |ws|));
    assert ws[..|ws|] == ws;
    assert Settled(d.disk) == Apply(d.disk, ws);
  }

  /** Recovery survives crashes of itself: any number of cut recoveries followed by a complete one
      ends in exactly the disk of one uninterrupted recovery. */
  lemma {:induction false} RecoverySurvivesCrashes(disk: Blocks, powers: seq<nat>)
    requires WellFormed(disk)
    ensures Recover(Dev(RecoverEach(disk, powers), -1)) == Recover(Dev(disk, -1))
    ensures Recover(Dev(disk, -1)) == Outcome(Dev(Settled(disk), -1), Ok)
    ensures WellFormed(RecoverEach(disk, powers)) && Settled(RecoverEach(disk, powers)) == Settled(disk)
    decreases |powers|
  {
    CutRecovery(Dev(disk, -1));
    if powers != [] {
      CutRecovery(Dev(disk, powers[0]));
      var next := Recover(Dev(disk, powers[0])).dev.disk;
      CutRecovery(Dev(next, -1));
      RecoverySurvivesCrashes(next, powers[1..]);
    }
  }

  // ----- Crash atomicity of commit -----

  ghost predicate Loggable(recs: seq<Rec>) {
    |recs| <= MAX_RECORDS && forall i :: 0 <= i < |recs| ==> Home(recs[i].target)
  }

  /** Block l after recs: the last record for l wins. */
  function NewContents(disk: Blocks, recs: seq<Rec>, l: nat): Block
    requires l < |disk|
    decreases |recs|
  {
    if recs == [] then disk[l]
    else
      var last := recs[|recs| - 1];
      if last.target == l then last.payload else NewContents(disk, recs[..|recs| - 1], l)
  }

  lemma {:induction false} HomeWritesGiveNewContents(disk: Blocks, recs: seq<Rec>, l: nat)
    requires InRange(HomeWrites(recs), |disk|) && l < |disk|
    ensures Apply(disk, HomeWrites(recs))[l] == NewContents(disk, recs, l)
    decreases |recs|
  {
    if recs != [] {
      var n := |recs| - 1;
      var last := Write(recs[n].target, recs[n].payload);
      assert HomeWrites(recs) == HomeWrites(recs[..n]) + [last];
      assert HomeWrites(recs)[n].lba < |disk|;
      assert forall i :: 0 <= i < n ==> HomeWrites(recs[..n])[i] == HomeWrites(recs)[i];
      ApplyAppend(disk, HomeWrites(recs[..n]), [last]);
      HomeWritesGiveNewContents(disk, recs[..n], l);
      var before := Apply(disk, HomeWrites(recs[..n]));
      assert Apply(before, [last]) == before[last.lba := last.data];
    }
  }

  /** Up to the commit header the journal stays quiet and no home block changes. */
  lemma BeforeHeader(disk: Blocks, recs: seq<Rec>, seqno: u32, k: nat)
    requires Quiet(disk) && Loggable(recs) && k < |PrepareWrites(recs, seqno)|
    ensures InRange(PrepareWrites(recs, seqno)[..k], MAX_BLOCKS)
    ensures var e := Apply(disk, PrepareWrites(recs, seqno)[..k]); Quiet(e) && WellFormed(e) && SameHome(e, disk)
  {
    hide Classify, ParseDesc, Fnv, LogPair, CommitHeader, LogWrites;
    ZeroHeaderIsEmpty();
    var ws := PrepareWrites(recs, seqno)[..k];
    assert forall i :: 0 <= i < k ==> ws[i].lba == 1 + i;
    var e := Apply(disk, ws);
    if k > 0 {
      ApplyLast(disk, ws, 0);
    }
    forall l | Home(l) ensures e[l] == disk[l] {
      ApplyUntouched(disk, ws, l);
    }
    assert Records(e) == [];
  }

  /** Targets on the device, the journal included: what the commit accepts. */
  ghost predicate OnDevice(recs: seq<Rec>) {
    |recs| <= MAX_RECORDS && forall i :: 0 <= i < |recs| ==> recs[i].target < MAX_BLOCKS
  }

  /** Once the commit header is written the journal holds exactly recs. */
  lemma AfterHeader(disk: Blocks, recs: seq<Rec>, seqno: u32)
    requires Quiet(disk) && OnDevice(recs)
    ensures InRange(PrepareWrites(recs, seqno), MAX_BLOCKS)
    ensures var e := Apply(disk, PrepareWrites(recs, seqno));
            && Records(e) == recs && !Quiet(e) && SameHome(e, disk) && (forall i :: 0 <= i < |recs| ==> Intact(e, i))
            && (Loggable(recs) ==> WellFormed(e))
  {
    hide Classify, ParseDesc, Fnv, CommitHeader, DescBlock, LogWrites;
    PreparePlaces(recs, seqno);
    var ws := PrepareWrites(recs, seqno);
    var e := Apply(disk, ws);
    ApplyLast(disk, ws, |ws| - 1);
    CommitHeaderIsCommitted(seqno, |recs|);
    forall i | 0 <= i < |recs| ensures LoggedRec(e, i) == recs[i] && Intact(e, i) {
      LoggedAfter(disk, recs, seqno, i);
    }
    forall l | Home(l) ensures e[l] == disk[l] {
      ApplyUntouched(disk, ws, l);
    }
    assert |Records(e)| == |recs|;
  }

  lemma PreparePlaces(recs: seq<Rec>, seqno: u32)
    requires |recs| <= MAX_RECORDS
    ensures var ws := PrepareWrites(recs, seqno);
            && InRange(ws, MAX_BLOCKS) && |ws| == 2 + 2 * |recs|
            && (forall i :: 0 < i < |ws| - 1 ==> ws[i] == LogWrites(recs)[i - 1])
            && (forall i :: 0 <= i < |ws| - 1 ==> ws[i].lba == 1 + i) && ws[|ws| - 1].lba == 1
  {
    hide CommitHeader, LogPair;
  }

  lemma LoggedAfter(disk: Blocks, recs: seq<Rec>, seqno: u32, i: nat)
    requires Quiet(disk) && OnDevice(recs) && i < |recs| && InRange(PrepareWrites(recs, seqno), MAX_BLOCKS)
    ensures var e := Apply(disk, PrepareWrites(recs, seqno)); LoggedRec(e, i) == recs[i] && Intact(e, i)
  {
    hide Classify, ParseDesc, Fnv, DescBlock, PrepareWrites, LogWrites;
    PreparePlaces(recs, seqno);
    var ws := PrepareWrites(recs, seqno);
    LogWritesAt(recs, i);
    ApplyLast(disk, ws, 1 + 2 * i);
    ApplyLast(disk, ws, 2 + 2 * i);
    DescRoundTrip(RecDesc(recs[i]));
  }

  lemma CommitInRange(recs: seq<Rec>, seqno: u32)
    requires Loggable(recs)
    ensures InRange(CommitWrites(recs, seqno), MAX_BLOCKS)
  {
    hide LogPair, CommitHeader, LogWrites;
  }

  /** Every prefix of a commit's writes. */
  lemma CommitCut(disk: Blocks, recs: seq<Rec>, seqno: u32, k: nat)
    requires Quiet(disk) && Loggable(recs) && k <= |CommitWrites(recs, seqno)|
    ensures InRange(CommitWrites(recs, seqno), MAX_BLOCKS)
    ensures var e := Apply(disk, CommitWrites(recs, seqno)[..k]);
            && WellFormed(e)
            && (k < 2 + 2 * |recs| ==> Quiet(e) && SameHome(e, disk))
            && (k >= 2 + 2 * |recs| ==> Settled(e) == Apply(disk, CommitWrites(recs, seqno)))
  {
    hide LogPair, CommitHeader, LogWrites, Classify, ParseDesc, Fnv;
    CommitInRange(recs, seqno);
    var ps, ts, ws := PrepareWrites(recs, seqno), HomeWrites(recs) + [CLEAR], CommitWrites(recs, seqno);
    if k < |ps| {
      BeforeHeader(disk, recs, seqno, k);
      assert ws[..k] == ps[..k];
    } else {
      AfterHeader(disk, recs, seqno);
      var e := Apply(disk, ps);
      ApplyAppend(disk, ps, ts);
      ApplyAppend(disk, ps, ts[..k - |ps|]);
      assert ws[..k] == ps + ts[..k - |ps|];
      RecoveryPrefix(e, k - |ps|);
    }
  }

  /** The home blocks of a completed commit are the old ones overlaid with every record. */
  lemma CommittedContents(disk: Blocks, recs: seq<Rec>, seqno: u32)
    requires Quiet(disk) && Loggable(recs)
    ensures InRange(CommitWrites(recs, seqno), MAX_BLOCKS)
    ensures var s := Apply(disk, CommitWrites(recs, seqno));
            Quiet(s) && forall l :: Home(l) ==> s[l] == NewContents(disk, recs, l)
  {
    hide LogPair, CommitHeader, LogWrites, Classify, ParseDesc, Fnv;
    CommitInRange(recs, seqno);
    var ps, hs, ws := PrepareWrites(recs, seqno), HomeWrites(recs), CommitWrites(recs, seqno);
    AfterHeader(disk, recs, seqno);
    var e := Apply(disk, ps);
    ApplyAppend(disk, ps, hs + [CLEAR]);
    RecoveryPrefix(e, 0);
    ApplyAppend(e, hs, [CLEAR]);
    forall l | Home(l) ensures Apply(disk, ws)[l] == NewContents(disk, recs, l) {
      assert Apply(Apply(e, hs), [CLEAR]) == Apply(e, hs)[CLEAR.lba := CLEAR.data];
      HomeWritesGiveNewContents(e, recs, l);
      NewContentsSame(e, disk, recs, l);
    }
  }

  lemma {:induction false} NewContentsSame(d1: Blocks, d2: Blocks, recs: seq<Rec>, l: nat)
    requires l < |d1| && l < |d2| && d1[l] == d2[l]
    ensures NewContents(d1, recs, l) == NewContents(d2, recs, l)
    decreases |recs|
  {
    if recs != [] {
      NewContentsSame(d1, d2, recs[..|recs| - 1], l);
    }
  }

  /** Did the commit header reach the medium? */
  predicate HeaderWritten(power: int, recs: seq<Rec>) {
    power < 0 || power >= 2 + 2 * |recs|
  }

  /** A commit cut at any power, as a disk: it is well formed, and it settles to the old contents or
      to the complete new ones, new exactly when the commit header was written. */
  lemma CutCommit(disk: Blocks, power: int, recs: seq<Rec>, seqno: u32, stop: bool)
    requires Quiet(disk) && Loggable(recs)
    ensures InRange(CommitWrites(recs, seqno), MAX_BLOCKS)
    ensures var r := Commit(Dev(disk, power), recs, seqno, stop);
            && WellFormed(r.dev.disk)
            && (!HeaderWritten(power, recs) ==>
                  r.rc == Io && Quiet(r.dev.disk) && SameHome(r.dev.disk, disk))
            && (HeaderWritten(power, recs) ==> Settled(r.dev.disk) == Apply(disk, CommitWrites(recs, seqno)))
            && (r.rc == Ok && !stop ==> r.dev.disk == Settled(r.dev.disk) && Quiet(r.dev.disk))
            && (r.rc == Ok ==> HeaderWritten(power, recs) && r.dev.power == if power < 0 then power
                  else power - if stop then 2 + 2 * |recs| else 3 + 3 * |recs|)
            && (r.rc == Ok || r.rc == Io)
            && (power < 0 ==> r.rc == Ok)
  {
    hide LogPair, CommitHeader, LogWrites, Classify, ParseDesc, Fnv;
    CommitInRange(recs, seqno);
    var all := CommitWrites(recs, seqno);
    var ws := if stop then PrepareWrites(recs, seqno) else all;
    assert ws == all[..|ws|];
    RunIsPrefix(Dev(disk, power), ws);
    var k := Reach(power, |ws|);
    assert ws[..k] == all[..k];
    CommitCut(disk, recs, seqno, k);
    CommittedContents(disk, recs, seqno);
    if k == |all| {
      assert all[..k] == all;
      var e := Apply(disk, all);
      assert RecoveryWrites(e) == [];
    }
  }

  /** Crash atomicity: a commit cut at any point, then any number of cut recoveries, then a complete
      one, leaves every home block old, or every home block overlaid with all records. */
  lemma CommitIsAtomic(disk: Blocks, power: int, recs: seq<Rec>, seqno: u32, stop: bool, powers: seq<nat>)
    requires Quiet(disk) && Loggable(recs)
    ensures InRange(CommitWrites(recs, seqno), MAX_BLOCKS)
    ensures var crashed := Commit(Dev(disk, power), recs, seqno, stop).dev.disk;
            var end := Recover(Dev(RecoverEach(crashed, powers), -1));
            && end.rc == Ok
            && (forall l :: Home(l) ==>
                  end.dev.disk[l] == if HeaderWritten(power, recs) then NewContents(disk, recs, l) else disk[l])
            && (HeaderWritten(power, recs) ==> end.dev.disk == Apply(disk, CommitWrites(recs, seqno)))
  {
    hide LogPair, CommitHeader, LogWrites, Classify, ParseDesc, Fnv, PrepareWrites, CommitWrites;
    CutCommit(disk, power, recs, seqno, stop);
    CommittedContents(disk, recs, seqno);
    var crashed := Commit(Dev(disk, power), recs, seqno, stop).dev.disk;
    RecoverySurvivesCrashes(crashed, powers);
    if Quiet(crashed) {
      assert RecoveryWrites(crashed) == [];
    }
  }

  /** Why targets must lie outside the log: a pending record aimed at the journal header is replayed
      over it, and a crash right there leaves a journal that no later recovery accepts. */
  lemma SelfTargetBreaksRecovery(disk: Blocks)
    requires |disk| == MAX_BLOCKS && Records(disk) != [] && Intact(disk, 0)
    requires LoggedRec(disk, 0).target == JOURNAL_START && Classify(LoggedRec(disk, 0).payload).Bad?
    ensures var cut := Recover(Dev(disk, 1));
            cut.rc != Ok && cut.dev.disk == disk[JOURNAL_START := LoggedRec(disk, 0).payload]
            && forall power :: Recover(Dev(cut.dev.disk, power)) == Outcome(Dev(cut.dev.disk, power), Corrupt)
  {
    hide Classify, Intact, LoggedRec;
    var rec := LoggedRec(disk, 0);
    var after := Dev(disk[JOURNAL_START := rec.payload], 0);
    assert Recover(Dev(disk, 1)) == Replay(after, |Records(disk)|, 1);
    PowerlessReplay(after, |Records(disk)|, 1);
  }

  /** Such a disk is one call away: commit one record for the header with a payload that is no header, stop
      before it is applied, and lose the power after the first write of the recovery. */
  lemma SelfTargetRun(disk: Blocks, bad: Block, seqno: u32)
    requires Quiet(disk) && Classify(bad).Bad?
    ensures var c := Commit(Dev(disk, -1), [Rec(JOURNAL_START, bad)], seqno, true);
            c.rc == Ok && |c.dev.disk| == MAX_BLOCKS &&
            var cut := Recover(Dev(c.dev.disk, 1));
            && cut.rc != Ok
            && forall power :: Recover(Dev(cut.dev.disk, power)) == Outcome(Dev(cut.dev.disk, power), Corrupt)
  {
    hide Classify, ParseDesc, Fnv, LogPair, CommitHeader, LogWrites, Intact, LoggedRec, PrepareWrites, Recover, Run;
    hide Apply;
    var recs := [Rec(JOURNAL_START, bad)];
    var ws := PrepareWrites(recs, seqno);
    AfterHeader(disk, recs, seqno);
    RunIsPrefix(Dev(disk, -1), ws);
    assert ws[..|ws|] == ws;
    var e := Apply(disk, ws);
    assert LoggedRec(e, 0) == Records(e)[0];
    SelfTargetBreaksRecovery(e);
  }

  /** A concrete one: the payload has a state word but no magic. */
  lemma LockedJournal(disk: Blocks, seqno: u32)
    requires Quiet(disk)
    ensures var c := Commit(Dev(disk, -1), [Rec(JOURNAL_START, StoreU32(ZERO_BLOCK, 12, 1))], seqno, true);
            c.rc == Ok && |c.dev.disk| == MAX_BLOCKS &&
            var cut := Recover(Dev(c.dev.disk, 1));
            forall power :: Recover(Dev(cut.dev.disk, power)) == Outcome(Dev(cut.dev.disk, power), Corrupt)
  {
    hide Commit, Recover, Classify, Quiet, StoreU32;
    BadHeader();
    SelfTargetRun(disk, StoreU32(ZERO_BLOCK, 12, 1), seqno);
  }

  /** A block with a state but no magic is no header. */
  lemma BadHeader()
    ensures Classify(StoreU32(ZERO_BLOCK, 12, 1)).Bad?
  {
    LoadZeros(BLOCK_SIZE, 0);
    LoadZeros(BLOCK_SIZE, 4);
  }

  lemma PowerlessReplay(d: Dev, count: nat, i: nat)
    requires |d.disk| == MAX_BLOCKS && i <= count <= MAX_RECORDS && d.power == 0
    ensures Replay(d, count, i).dev == d && Replay(d, count, i).rc != Ok
  {
    hide Intact, LoggedRec;
  }
}
