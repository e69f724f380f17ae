/** MCSFS1 as a map from names to byte strings.  The name scan reads one byte past a 27-byte field, so
    the map is exact for names of at most 26 bytes; what happens to 27-byte names is stated last. */
module Mcsfs1Files {
  import opened Bytes
  import opened Disk
  import opened Mcsfs1
  import opened Mcsfs1Inv
  import opened Mcsfs1Ops

  const SHORT_NAME: nat := 26

  /** The characters of slot i from k up to the first zero or the end of the field. */
  function NameFrom(dir: Block, i: nat, k: nat): (r: CString)
    requires i < DIRENT_COUNT && k <= MAX_NAME
    ensures |r| <= MAX_NAME - k
    decreases MAX_NAME - k
  {
    if k == MAX_NAME || NameChar(dir, 0, i, k) == 0 then [] else [NameChar(dir, 0, i, k)] + NameFrom(dir, i, k + 1)
  }

  function SlotName(dir: Block, i: nat): CString
    requires i < DIRENT_COUNT
  {
    NameFrom(dir, i, 0)
  }

  /** Slot i holds a file called q. */
  ghost predicate Named(disk: Blocks, i: nat, q: CString)
    requires Device(disk)
  {
    i < DIRENT_COUNT && Live(disk, i) && SlotName(disk[ROOT_DIR_LBA], i) == q
  }

  /** The invariant, and live names are short and distinct. */
  ghost predicate NameInv(disk: Blocks) {
    && Inv(disk)
    && (forall i :: 0 <= i < DIRENT_COUNT && Live(disk, i) ==> |SlotName(disk[ROOT_DIR_LBA], i)| <= SHORT_NAME)
    && forall i, k :: 0 <= i < DIRENT_COUNT && 0 <= k < DIRENT_COUNT && i != k && Live(disk, i) && Live(disk, k) ==>
         SlotName(disk[ROOT_DIR_LBA], i) != SlotName(disk[ROOT_DIR_LBA], k)
  }

  /** The contents of the file called q, if there is one. */
  ghost function File(disk: Blocks, q: CString): Option<seq<byte>>
    requires Inv(disk)
  {
    if exists i :: Named(disk, i, q) then
      var i :| Named(disk, i, q);
      Some(SlotContents(disk, i))
    else None
  }

  ghost function SlotContents(disk: Blocks, i: nat): seq<byte>
    requires Inv(disk) && i < DIRENT_COUNT && Live(disk, i)
  {
    LiveSize(disk, i);
    ReadFrom(disk, FileInode(disk, i), 0).1
  }

  lemma LiveSize(disk: Blocks, i: nat)
    requires Inv(disk) && i < DIRENT_COUNT && Live(disk, i)
    ensures Size(FileInode(disk, i)) <= MAX_FILE
  {
    hide LoadU32, LoadU16, FileInode, BaseOk, TestBit;
    assert Entry(disk, i);
  }

  // ----- Names -----

  ghost predicate CharsAre(dir: Block, i: nat, k: nat, q: CString)
    requires i < DIRENT_COUNT && k + |q| <= MAX_NAME
  {
    forall m :: k <= m < k + |q| ==> NameChar(dir, 0, i, m) == q[m - k]
  }

  lemma CharsAreStep(dir: Block, i: nat, k: nat, q: CString)
    requires i < DIRENT_COUNT && k + |q| <= MAX_NAME && q != []
    ensures 0 !in q[1..]
    ensures CharsAre(dir, i, k, q) <==> NameChar(dir, 0, i, k) == q[0] && CharsAre(dir, i, k + 1, q[1..])
  {
    hide NameChar;
    if NameChar(dir, 0, i, k) == q[0] && CharsAre(dir, i, k + 1, q[1..]) {
      forall m | k <= m < k + |q| ensures NameChar(dir, 0, i, m) == q[m - k] {
        assert m > k ==> q[m - k] == q[1..][m - (k + 1)];
      }
    }
    if CharsAre(dir, i, k, q) {
      forall m | k + 1 <= m < k + |q| ensures NameChar(dir, 0, i, m) == q[1..][m - (k + 1)] {
      }
    }
  }

  lemma {:induction false} NameFromIs(dir: Block, i: nat, k: nat, q: CString)
    requires i < DIRENT_COUNT && k <= MAX_NAME && k + |q| <= MAX_NAME
    ensures NameFrom(dir, i, k) == q <==>
              CharsAre(dir, i, k, q) && (k + |q| < MAX_NAME ==> NameChar(dir, 0, i, k + |q|) == 0)
    decreases MAX_NAME - k
  {
    hide NameChar, CharsAre;
    if q == [] {
      assert CharsAre(dir, i, k, q) by { NoChars(dir, i, k); }
    } else {
      CharsAreStep(dir, i, k, q);
      var t: CString := q[1..];
      assert q[0] in q;
      assert q == [q[0]] + t;
      NameFromIs(dir, i, k + 1, t);
    }
  }

  lemma NoChars(dir: Block, i: nat, k: nat)
    requires i < DIRENT_COUNT && k <= MAX_NAME
    ensures CharsAre(dir, i, k, [])
  {
  }

  /** For short names find_dirent's scan is exactly equality of names. */
  lemma HoldsIffNamed(disk: Blocks, past: byte, i: nat, q: CString)
    requires Device(disk) && i < DIRENT_COUNT && |q| <= SHORT_NAME
    ensures SlotHolds(disk[ROOT_DIR_LBA], past, i, q) <==> Named(disk, i, q)
  {
    hide LoadU32, NameFrom;
    var dir := disk[ROOT_DIR_LBA];
    NameFromIs(dir, i, 0, q);
    assert forall k :: 0 <= k < MAX_NAME ==> NameChar(dir, past, i, k) == NameChar(dir, 0, i, k);
  }

  /** A 27-byte name is never found among short ones. */
  lemma LongIsAbsent(disk: Blocks, past: byte, i: nat, q: CString)
    requires Device(disk) && i < DIRENT_COUNT && |q| == MAX_NAME && |SlotName(disk[ROOT_DIR_LBA], i)| <= SHORT_NAME
    ensures !SlotHolds(disk[ROOT_DIR_LBA], past, i, q)
  {
    hide LoadU32, NameFrom;
    var dir := disk[ROOT_DIR_LBA];
    NameFromIs(dir, i, 0, q);
    assert forall k :: 0 <= k < MAX_NAME ==> NameChar(dir, past, i, k) == NameChar(dir, 0, i, k);
  }

  lemma {:induction false} SameChars(d1: Block, d2: Block, i: nat, k: nat)
    requires i < DIRENT_COUNT && k <= MAX_NAME
    requires forall m :: 0 <= m < MAX_NAME ==> NameChar(d1, 0, i, m) == NameChar(d2, 0, i, m)
    ensures NameFrom(d1, i, k) == NameFrom(d2, i, k)
    decreases MAX_NAME - k
  {
    hide NameChar;
    if k < MAX_NAME {
      SameChars(d1, d2, i, k + 1);
    }
  }

  lemma OnlyOne(disk: Blocks, i: nat, k: nat, q: CString)
    requires NameInv(disk) && Named(disk, i, q) && Named(disk, k, q)
    ensures i == k
  {
    hide Inv, SlotName, Live;
  }

  lemma FileAt(disk: Blocks, i: nat, q: CString)
    requires NameInv(disk) && Named(disk, i, q)
    ensures File(disk, q) == Some(SlotContents(disk, i))
  {
    assert Inv(disk);
    hide NameInv, Inv, SlotName, SlotContents;
    var k :| Named(disk, k, q) && File(disk, q) == Some(SlotContents(disk, k));
    OnlyOne(disk, i, k, q);
  }

  // ----- Lookup and read -----

  /** Resolve finds exactly the named slot. */
  lemma ResolveIsNamed(disk: Blocks, past: byte, q: CString)
    requires NameInv(disk)
    ensures var t := Resolve(disk, past, q);
            if ValidName(q) != Ok then t == Refused(ValidName(q))
            else if exists i :: Named(disk, i, q) then t.Found? && Named(disk, t.slot, q)
            else t == Refused(NoEnt)
  {
    if ValidName(q) == Ok {
      var slot := FindSlot(disk[ROOT_DIR_LBA], past, q, 0);
      forall i | 0 <= i < DIRENT_COUNT
        ensures SlotHolds(disk[ROOT_DIR_LBA], past, i, q) <==> Named(disk, i, q)
      {
        if |q| <= SHORT_NAME {
          HoldsIffNamed(disk, past, i, q);
        } else {
          if Live(disk, i) {
            LongIsAbsent(disk, past, i, q);
          } else {
            NotLiveNotHeld(disk, past, i, q);
          }
        }
      }
      if slot < DIRENT_COUNT {
        assert Named(disk, slot, q);
        NamedEntry(disk, slot, q);
      }
    }
  }

  lemma NotLiveNotHeld(disk: Blocks, past: byte, i: nat, q: CString)
    requires Device(disk) && i < DIRENT_COUNT && |q| <= MAX_NAME && !Live(disk, i)
    ensures !SlotHolds(disk[ROOT_DIR_LBA], past, i, q)
  {
  }

  lemma NamedEntry(disk: Blocks, i: nat, q: CString)
    requires Inv(disk) && Named(disk, i, q)
    ensures 2 <= Ino(disk, i) <= MAX_INODES && Mode(InodeAt(disk, Ino(disk, i))) == MODE_FILE
    ensures FileInode(disk, i) == InodeAt(disk, Ino(disk, i))
  {
    hide LoadU32, LoadU16, InodeAt, BaseOk, TestBit, SlotName;
    assert Entry(disk, i);
  }

  lemma {:induction false} FineReads(disk: Blocks, inode: InodeBuf, i: nat)
    requires Device(disk) && InodeFine(disk, inode) && i <= DIRECT_BLOCKS
    ensures ReadFrom(disk, inode, i).0 == Ok
    ensures |ReadFrom(disk, inode, i).1| == if BLOCK_SIZE * i < Size(inode) then Size(inode) - BLOCK_SIZE * i else 0
    decreases DIRECT_BLOCKS - i
  {
    hide LoadU32, LoadU16, TestBit, NoRepeats;
    if BLOCK_SIZE * i < Size(inode) {
      assert i < BlocksFor(Size(inode));
      FineReads(disk, inode, i + 1);
    }
  }

  /** A read returns exactly the file, whatever byte follows the buffer. */
  lemma ReadRefines(disk: Blocks, past: byte, q: CString, cap: u32)
    requires NameInv(disk)
    ensures var r := ReadFile(disk, past, q, cap);
            if ValidName(q) != Ok then r.0 == ValidName(q)
            else match File(disk, q)
                 case None => r.0 == NoEnt
                 case Some(c) => if |c| <= cap then r == (Ok, c) else r.0 == Range
  {
    hide NameInv, Resolve, Named, SlotContents, ReadFrom, Size, FileInode;
    NameInvDevice(disk);
    ResolveIsNamed(disk, past, q);
    if ValidName(q) == Ok && exists i :: Named(disk, i, q) {
      var t := Resolve(disk, past, q);
      FileAt(disk, t.slot, q);
      ReadOfSlot(disk, past, q);
    }
  }

  lemma NameInvDevice(disk: Blocks)
    requires NameInv(disk)
    ensures Device(disk) && Inv(disk)
  {
  }

  lemma ReadOfSlot(disk: Blocks, past: byte, q: CString)
    requires NameInv(disk) && Resolve(disk, past, q).Found? && Named(disk, Resolve(disk, past, q).slot, q)
    ensures var t := Resolve(disk, past, q);
            && t.inode == FileInode(disk, t.slot) && Size(t.inode) <= MAX_FILE
            && ReadFrom(disk, t.inode, 0) == (Ok, SlotContents(disk, t.slot))
            && |SlotContents(disk, t.slot)| == Size(t.inode)
  {
    ResolvedIsLive(disk, past, q);
    var t := Resolve(disk, past, q);
    hide LoadU32, LoadU16, TestBit, Resolve, BaseOk, SlotName, FileInode;
    assert Entry(disk, t.slot);
    FineReads(disk, t.inode, 0);
  }

  // ----- Keeping files -----

  /** A kept slot keeps its name and contents. */
  lemma KeptFile(d: Blocks, e: Blocks, i: nat, q: CString)
    requires Inv(d) && Inv(e) && i < DIRENT_COUNT && Live(d, i) && Live(e, i) && Kept(d, e, i)
    ensures Named(d, i, q) <==> Named(e, i, q)
    ensures SlotContents(d, i) == SlotContents(e, i)
  {
    SameChars(d[ROOT_DIR_LBA], e[ROOT_DIR_LBA], i, 0);
    KeptInode(d, e, i);
    LiveSize(d, i);
    hide Inv, LoadU32, NameFrom, SlotType, NameChar;
    SameReads(d, e, FileInode(d, i), 0);
  }

  lemma {:induction false} SameReads(d: Blocks, e: Blocks, inode: InodeBuf, i: nat)
    requires |d| == |e| && Size(inode) <= MAX_FILE && i <= DIRECT_BLOCKS
    requires forall j :: 0 <= j < DIRECT_BLOCKS && 0 != Direct(inode, j) < |d| ==>
              d[Direct(inode, j)] == e[Direct(inode, j)]
    ensures ReadFrom(d, inode, i) == ReadFrom(e, inode, i)
    decreases DIRECT_BLOCKS - i
  {
    hide LoadU32;
    if BLOCK_SIZE * i < Size(inode) {
      SameReads(d, e, inode, i + 1);
    }
  }

  /** Named slots other than `but` are the same files before and after. */
  lemma OtherNames(d: Blocks, e: Blocks, but: nat, i: nat, q: CString)
    requires Inv(d) && Inv(e) && KeptBut(d, e, but) && i != but
    ensures Named(d, i, q) <==> Named(e, i, q)
    ensures Named(d, i, q) ==> SlotContents(d, i) == SlotContents(e, i)
  {
    hide Inv, Kept, SlotContents, Live;
    if i < DIRENT_COUNT && Live(d, i) {
      KeptFile(d, e, i, q);
    }
  }

  /** Nothing changed at all. */
  lemma AllKept(d: Blocks, e: Blocks)
    requires NameInv(d) && Inv(e) && KeptBut(d, e, NOBODY)
    ensures NameInv(e) && forall q: CString :: File(e, q) == File(d, q)
  {
    forall i | 0 <= i < DIRENT_COUNT && Live(e, i)
      ensures Live(d, i) && SlotName(e[ROOT_DIR_LBA], i) == SlotName(d[ROOT_DIR_LBA], i)
    {
      OtherNames(d, e, NOBODY, i, SlotName(e[ROOT_DIR_LBA], i));
      assert Named(e, i, SlotName(e[ROOT_DIR_LBA], i));
    }
    hide Inv, SlotName, Live, Kept, SlotContents;
    assert NameInv(e);
    forall q: CString ensures File(e, q) == File(d, q) {
      hide NameInv;
      if i :| Named(d, i, q) {
        OtherNames(d, e, NOBODY, i, q);
        FileAt(d, i, q);
        FileAt(e, i, q);
      } else if i :| Named(e, i, q) {
        OtherNames(d, e, NOBODY, i, q);
      }
    }
  }

  /** One slot s changed but keeps its name: only that file may differ. */
  lemma OneFileChanged(d: Blocks, e: Blocks, s: nat, name: CString)
    requires NameInv(d) && Inv(e) && KeptBut(d, e, s) && Named(d, s, name) && Named(e, s, name)
    ensures NameInv(e) && File(e, name) == Some(SlotContents(e, s))
    ensures forall q: CString :: q != name ==> File(e, q) == File(d, q)
  {
    forall i | 0 <= i < DIRENT_COUNT && Live(e, i)
      ensures Live(d, i) && SlotName(e[ROOT_DIR_LBA], i) == SlotName(d[ROOT_DIR_LBA], i)
    {
      if i != s {
        OtherNames(d, e, s, i, SlotName(e[ROOT_DIR_LBA], i));
        assert Named(e, i, SlotName(e[ROOT_DIR_LBA], i));
      }
    }
    hide Inv, SlotName, Live, Kept, SlotContents;
    assert NameInv(e);
    FileAt(e, s, name);
    forall q: CString | q != name ensures File(e, q) == File(d, q) {
      OtherFile(d, e, s, q);
    }
  }

  /** A name that slot s carries neither before nor after. */
  lemma OtherFile(d: Blocks, e: Blocks, s: nat, q: CString)
    requires NameInv(d) && NameInv(e) && KeptBut(d, e, s) && !Named(d, s, q) && !Named(e, s, q)
    ensures File(e, q) == File(d, q)
  {
    assert Inv(d) && Inv(e);
    hide NameInv, Inv, Named, SlotContents, KeptBut;
    if i :| Named(d, i, q) {
      OtherNames(d, e, s, i, q);
      FileAt(d, i, q);
      FileAt(e, i, q);
    } else if i :| Named(e, i, q) {
      OtherNames(d, e, s, i, q);
    }
  }

  // ----- The operations refine the map -----

  /** A created slot is named as asked. */
  lemma CreatedName(d: Blocks, e: Blocks, s: nat, name: CString)
    requires Device(d) && Device(e) && |name| <= MAX_NAME && CreatedAt(d, e, s, name)
    ensures Named(e, s, name)
  {
    hide NameFrom, NameChar, LoadU32, KeptBut, FileInode;
    NameFromIs(e[ROOT_DIR_LBA], s, 0, name);
  }

  /** The map after a successful create: one more, empty file. */
  lemma CreatedFile(d: Blocks, e: Blocks, s: nat, name: CString)
    requires NameInv(d) && Inv(e) && |name| <= SHORT_NAME && CreatedAt(d, e, s, name)
    requires !(exists i :: Named(d, i, name))
    ensures NameInv(e) && File(d, name) == None && File(e, name) == Some([])
    ensures forall q: CString :: q != name ==> File(e, q) == File(d, q)
  {
    CreatedName(d, e, s, name);
    forall i | 0 <= i < DIRENT_COUNT && Live(e, i) && i != s
      ensures Live(d, i) && SlotName(e[ROOT_DIR_LBA], i) == SlotName(d[ROOT_DIR_LBA], i)
      ensures SlotName(e[ROOT_DIR_LBA], i) != name
    {
      OtherNames(d, e, s, i, SlotName(e[ROOT_DIR_LBA], i));
      assert Named(e, i, SlotName(e[ROOT_DIR_LBA], i));
    }
    hide Inv, SlotName, Live, Kept, SlotContents;
    assert NameInv(e);
    FileAt(e, s, name);
    EmptyContents(e, s);
    forall q: CString | q != name ensures File(e, q) == File(d, q) {
      OtherFile(d, e, s, q);
    }
  }

  lemma EmptyContents(e: Blocks, s: nat)
    requires Inv(e) && s < DIRENT_COUNT && Live(e, s) && Size(FileInode(e, s)) == 0
    ensures SlotContents(e, s) == []
  {
    hide Inv, LoadU32, FileInode;
  }

  /** Room for one more file. */
  predicate HasRoom(disk: Blocks)
    requires Device(disk)
  {
    && FindFreeSlot(disk[ROOT_DIR_LBA], 0) < DIRENT_COUNT
    && FindClearBit(disk[INODE_BMAP_LBA], 2, MAX_INODES + 1) <= MAX_INODES
    && FindClearBit(disk[BLOCK_BMAP_LBA], DATA_START_LBA, |disk|) < |disk|
  }

  /** Create, cut anywhere, for a short name. */
  lemma CreateRefines(d: Dev, past: byte, name: CString)
    requires NameInv(d.disk) && |name| <= SHORT_NAME
    ensures var r := Create(d, past, name);
            && NameInv(r.dev.disk)
            && (forall q: CString :: q != name ==> File(r.dev.disk, q) == File(d.disk, q))
            && (r.rc != Ok ==> File(r.dev.disk, name) == File(d.disk, name))
            && (r.rc == Ok ==> File(d.disk, name) == None && File(r.dev.disk, name) == Some([]))
            && (d.power < 0 ==> r.rc == if ValidName(name) != Ok then ValidName(name)
                                        else if File(d.disk, name).Some? then Exists
                                        else if HasRoom(d.disk) then Ok else NoSpc)
  {
    CreateKeeps(d, past, name);
    CreateCode(d, past, name);
    var r := Create(d, past, name);
    assert Inv(d.disk);
    hide Inv, Create, KeptBut, CreatedAt, Named, SlotContents, HasRoom;
    if r.rc == Ok {
      var s :| CreatedAt(d.disk, r.dev.disk, s, name);
      CreatedFile(d.disk, r.dev.disk, s, name);
    } else {
      AllKept(d.disk, r.dev.disk);
    }
  }

  lemma CreateCode(d: Dev, past: byte, name: CString)
    requires NameInv(d.disk) && |name| <= SHORT_NAME
    ensures var r := Create(d, past, name);
            && (r.rc == Ok ==> !(exists i :: Named(d.disk, i, name)))
            && (d.power < 0 ==> r.rc == if ValidName(name) != Ok then ValidName(name)
                                        else if exists i :: Named(d.disk, i, name) then Exists
                                        else if HasRoom(d.disk) then Ok else NoSpc)
  {
    hide NameInv, Named, AddFile, SlotHolds, TestBit, LoadU32, Inv, Live, KeptBut, CreatedAt;
    var disk := d.disk;
    NameInvDevice(disk);
    FoundIffNamed(disk, past, name);
    FreeSlotIsNotLive(disk);
    var slot := FindFreeSlot(disk[ROOT_DIR_LBA], 0);
    var ino := FindClearBit(disk[INODE_BMAP_LBA], 2, MAX_INODES + 1);
    var lba := FindClearBit(disk[BLOCK_BMAP_LBA], DATA_START_LBA, |disk|);
    if HasRoom(disk) {
      AddFileKeeps(d, slot, ino, lba, name);
    }
  }

  lemma FoundIffNamed(disk: Blocks, past: byte, name: CString)
    requires NameInv(disk) && |name| <= SHORT_NAME
    ensures Device(disk)
    ensures (FindSlot(disk[ROOT_DIR_LBA], past, name, 0) < DIRENT_COUNT <==> exists i :: Named(disk, i, name))
  {
    hide NameInv, SlotHolds;
    NameInvDevice(disk);
    forall i | 0 <= i < DIRENT_COUNT
      ensures SlotHolds(disk[ROOT_DIR_LBA], past, i, name) <==> Named(disk, i, name)
    {
      HoldsIffNamed(disk, past, i, name);
    }
    if i :| Named(disk, i, name) {
      assert SlotHolds(disk[ROOT_DIR_LBA], past, i, name);
    }
  }

  lemma FreeSlotIsNotLive(disk: Blocks)
    requires Device(disk)
    ensures var slot := FindFreeSlot(disk[ROOT_DIR_LBA], 0); slot < DIRENT_COUNT ==> !Live(disk, slot)
  {
  }

  /** Write, cut anywhere: other files are untouched; Ok means the contents are exactly data; a full
      device changes no file. */
  lemma WriteRefines(d: Dev, past: byte, name: CString, data: seq<byte>)
    requires NameInv(d.disk)
    ensures var r := WriteFile(d, past, name, data);
            && NameInv(r.dev.disk)
            && (forall q: CString :: q != name ==> File(r.dev.disk, q) == File(d.disk, q))
            && (File(r.dev.disk, name).Some? <==> File(d.disk, name).Some?)
            && (r.rc == Ok ==> File(d.disk, name).Some? && File(r.dev.disk, name) == Some(data))
            && (r.rc != Ok && r.rc != Io ==> File(r.dev.disk, name) == File(d.disk, name))
            && (d.power < 0 ==>
                  if |data| > MAX_FILE then r.rc == Range
                  else if ValidName(name) != Ok then r.rc == ValidName(name)
                  else if File(d.disk, name) == None then r.rc == NoEnt
                  else r.rc == Ok || (r.rc == NoSpc && DeviceFull(r.dev.disk)))
  {
    WriteFileKeeps(d, past, name, data);
    ResolveIsNamed(d.disk, past, name);
    var r, t := WriteFile(d, past, name, data), Resolve(d.disk, past, name);
    assert Inv(d.disk);
    if |data| <= MAX_FILE && t.Found? {
      WrittenFile(d.disk, r.dev.disk, t.slot, name, data, r.rc);
    }
  }

  lemma WrittenFile(d: Blocks, e: Blocks, s: nat, name: CString, data: seq<byte>, rc: Rc)
    requires NameInv(d) && WriteOutcome(d, e, s, data, rc) && Named(d, s, name)
    ensures NameInv(e) && File(d, name).Some? && File(e, name).Some?
    ensures forall q: CString :: q != name ==> File(e, q) == File(d, q)
    ensures rc == Ok ==> File(e, name) == Some(data)
    ensures rc == NoSpc ==> File(e, name) == File(d, name)
  {
    assert Named(e, s, name);
    hide Inv, KeptBut, SlotName, Live, LoadU32, FileInode;
    OneFileChanged(d, e, s, name);
    FileAt(d, s, name);
    if rc == NoSpc {
      AllKept(d, e);
    }
  }

  /** Unlink, cut anywhere: other files are untouched, and the name is gone or as before. */
  lemma UnlinkRefines(d: Dev, past: byte, name: CString)
    requires NameInv(d.disk)
    ensures var r := Unlink(d, past, name);
            && NameInv(r.dev.disk)
            && (forall q: CString :: q != name ==> File(r.dev.disk, q) == File(d.disk, q))
            && (File(r.dev.disk, name) == None || File(r.dev.disk, name) == File(d.disk, name))
            && (r.rc == Ok ==> File(d.disk, name).Some? && File(r.dev.disk, name) == None)
            && (r.rc != Ok && r.rc != Io ==> File(r.dev.disk, name) == File(d.disk, name))
            && (d.power < 0 ==> r.rc == if ValidName(name) != Ok then ValidName(name)
                                        else if File(d.disk, name) == None then NoEnt else Ok)
  {
    UnlinkKeeps(d, past, name);
    ResolveIsNamed(d.disk, past, name);
    var r, t := Unlink(d, past, name), Resolve(d.disk, past, name);
    assert Inv(d.disk);
    if t.Found? {
      UnlinkedFile(d.disk, r.dev.disk, t.slot, name, r.rc);
    }
  }

  lemma UnlinkedFile(d: Blocks, e: Blocks, s: nat, name: CString, rc: Rc)
    requires NameInv(d) && UnlinkOutcome(d, e, s, rc) && Named(d, s, name)
    ensures NameInv(e) && File(d, name).Some? && (File(e, name) == None || File(e, name) == File(d, name))
    ensures forall q: CString :: q != name ==> File(e, q) == File(d, q)
    ensures rc == Ok ==> File(e, name) == None
  {
    FileAt(d, s, name);
    if KeptBut(d, e, NOBODY) && Live(e, s) {
      hide Inv, KeptBut, SlotName, SlotContents, Kept, Live;
      AllKept(d, e);
    } else if KeptBut(d, e, NOBODY) {
      StillLive(d, e, s);
    } else {
      NameGone(d, e, s, name);
    }
    if rc == Ok {
      NameGone(d, e, s, name);
    }
  }

  lemma StillLive(d: Blocks, e: Blocks, s: nat)
    requires s < DIRENT_COUNT && KeptBut(d, e, NOBODY) && Live(d, s)
    ensures Live(e, s)
  {
    hide Kept, Live;
  }

  lemma NameGone(d: Blocks, e: Blocks, s: nat, name: CString)
    requires NameInv(d) && Inv(e) && KeptBut(d, e, s) && Named(d, s, name) && !Live(e, s)
    ensures NameInv(e) && File(e, name) == None
    ensures forall q: CString :: q != name ==> File(e, q) == File(d, q)
  {
    forall i | 0 <= i < DIRENT_COUNT && Live(e, i)
      ensures Live(d, i) && SlotName(e[ROOT_DIR_LBA], i) == SlotName(d[ROOT_DIR_LBA], i)
    {
      OtherNames(d, e, s, i, SlotName(e[ROOT_DIR_LBA], i));
      assert Named(e, i, SlotName(e[ROOT_DIR_LBA], i));
    }
    hide Inv, SlotName, Live, Kept, SlotContents;
    assert NameInv(e);
    if i :| Named(e, i, name) {
      OtherNames(d, e, s, i, name);
      OnlyOne(d, i, s, name);
    }
    forall q: CString | q != name ensures File(e, q) == File(d, q) {
      OtherFile(d, e, s, q);
    }
  }

  // ----- Names of exactly 27 bytes -----

  /** The byte that follows slot i's name field. */
  function ByteAfter(dir: Block, past: byte, i: nat): byte
    requires i < DIRENT_COUNT
  {
    if i + 1 < DIRENT_COUNT then dir[DIRENT_SIZE * (i + 1)] else past
  }

  /** A 27-byte name stored in slot i is found there exactly when the next byte happens to be zero:
      the low byte of the next slot's inode number. */
  lemma LongNameFoundIff(dir: Block, past: byte, i: nat, ino: u32, name: CString)
    requires i < DIRENT_COUNT && |name| == MAX_NAME && ino != 0
    ensures SlotHolds(SetSlot(dir, i, ino, name), past, i, name) <==> ByteAfter(dir, past, i) == 0
  {
    hide LoadU32, SlotBytes;
    NewSlotFields(dir, i, ino, name);
    var r := SetSlot(dir, i, ino, name);
    assert forall k :: 0 <= k < MAX_NAME ==> NameChar(r, past, i, k) == NameChar(r, 0, i, k);
    assert NameChar(r, past, i, MAX_NAME) == ByteAfter(dir, past, i);
  }

  /** So a file with a 27-byte name disappears from lookup while the next slot is in use. */
  lemma LongNameHidden(dir: Block, past: byte, i: nat, ino: u32, name: CString)
    requires i + 1 < DIRENT_COUNT && |name| == MAX_NAME && ino != 0 && 0 < SlotIno(dir, i + 1) < 0x100
    ensures !SlotHolds(SetSlot(dir, i, ino, name), past, i, name)
  {
    Decode4(dir[DIRENT_SIZE * (i + 1)..DIRENT_SIZE * (i + 1) + 4]);
    LongNameFoundIff(dir, past, i, ino, name);
  }

  // ----- Names of any length -----

  /** Slot i holds a file called q, and the scan sees it: a 27-byte name needs a zero behind its field. */
  ghost predicate Visible(disk: Blocks, past: byte, i: nat, q: CString)
    requires Device(disk)
  {
    Named(disk, i, q) && (|q| == MAX_NAME ==> ByteAfter(disk[ROOT_DIR_LBA], past, i) == 0)
  }

  /** For every name find_dirent's scan is visibility. */
  lemma HoldsIffVisible(disk: Blocks, past: byte, i: nat, q: CString)
    requires Device(disk) && i < DIRENT_COUNT && |q| <= MAX_NAME
    ensures SlotHolds(disk[ROOT_DIR_LBA], past, i, q) <==> Visible(disk, past, i, q)
  {
    if |q| <= SHORT_NAME {
      HoldsIffNamed(disk, past, i, q);
    } else {
      hide LoadU32, NameFrom;
      var dir := disk[ROOT_DIR_LBA];
      NameFromIs(dir, i, 0, q);
      assert forall k :: 0 <= k < MAX_NAME ==> NameChar(dir, past, i, k) == NameChar(dir, 0, i, k);
      assert NameChar(dir, past, i, MAX_NAME) == ByteAfter(dir, past, i);
    }
  }

  /** Write, read and unlink find exactly the visible files, whatever names are on the disk. */
  lemma ResolveFinds(disk: Blocks, past: byte, q: CString)
    requires Inv(disk)
    ensures var t := Resolve(disk, past, q);
            if ValidName(q) != Ok then t == Refused(ValidName(q))
            else if exists i :: Visible(disk, past, i, q) then t.Found? && Visible(disk, past, t.slot, q)
            else t == Refused(NoEnt)
  {
    InvDevice(disk);
    hide Inv, SlotHolds, Visible, InodeAt, LoadU32, LoadU16;
    if ValidName(q) == Ok {
      var slot := FindSlot(disk[ROOT_DIR_LBA], past, q, 0);
      forall i | 0 <= i < DIRENT_COUNT
        ensures SlotHolds(disk[ROOT_DIR_LBA], past, i, q) <==> Visible(disk, past, i, q)
      {
        HoldsIffVisible(disk, past, i, q);
      }
      if slot < DIRENT_COUNT {
        VisibleEntry(disk, past, slot, q);
      } else if i :| Visible(disk, past, i, q) {
        VisibleEntry(disk, past, i, q);
        assert false;
      }
    }
  }

  lemma VisibleEntry(disk: Blocks, past: byte, i: nat, q: CString)
    requires Inv(disk) && Visible(disk, past, i, q)
    ensures i < DIRENT_COUNT && Named(disk, i, q) && 2 <= SlotIno(disk[ROOT_DIR_LBA], i) <= MAX_INODES
    ensures Mode(InodeAt(disk, SlotIno(disk[ROOT_DIR_LBA], i))) == MODE_FILE
  {
    hide LoadU32, LoadU16, InodeAt, SlotName, Inv;
    NamedEntry(disk, i, q);
  }

  /** A slot that was free holds a file of this name. */
  ghost predicate NewlyNamed(d: Blocks, e: Blocks, name: CString)
    requires Device(d) && Device(e)
  {
    exists slot: nat :: slot < DIRENT_COUNT && Named(e, slot, name) && !Live(d, slot)
  }

  /** Creating a file of any name: refused exactly when a visible file has it, so a file that is not visible
      is created a second time, in another slot. */
  lemma CreateAnyName(d: Dev, past: byte, name: CString)
    requires Inv(d.disk) && d.power < 0
    ensures var r := Create(d, past, name);
            && Inv(r.dev.disk)
            && r.rc == (if ValidName(name) != Ok then ValidName(name)
                        else if exists i :: Visible(d.disk, past, i, name) then Exists
                        else if HasRoom(d.disk) then Ok else NoSpc)
            && (r.rc == Ok ==> NewlyNamed(d.disk, r.dev.disk, name))
  {
    hide *;
    InvDevice(d.disk);
    CreateKeeps(d, past, name);
    CreateCodeAny(d, past, name);
    var r := Create(d, past, name);
    InvDevice(r.dev.disk);
    if r.rc == Ok {
      NamedAfterCreate(d.disk, r.dev.disk, name);
      CreatedNameIsValid(d, past, name);
    }
  }

  lemma CreatedNameIsValid(d: Dev, past: byte, name: CString)
    requires Device(d.disk) && Create(d, past, name).rc == Ok
    ensures ValidName(name) == Ok
  {
    hide AddFile, FindSlot, FindFreeSlot;
  }

  lemma NamedAfterCreate(d: Blocks, e: Blocks, name: CString)
    requires Device(d) && Device(e) && |name| <= MAX_NAME && exists slot :: CreatedAt(d, e, slot, name)
    ensures NewlyNamed(d, e, name)
  {
    hide KeptBut, Live, NameChar, FileInode, Size, SlotName;
    var slot :| CreatedAt(d, e, slot, name);
    CreatedName(d, e, slot, name);
  }

  lemma CreateCodeAny(d: Dev, past: byte, name: CString)
    requires Inv(d.disk) && d.power < 0
    ensures Create(d, past, name).rc ==
              if ValidName(name) != Ok then ValidName(name)
              else if exists i :: Visible(d.disk, past, i, name) then Exists
              else if HasRoom(d.disk) then Ok else NoSpc
  {
    hide AddFile, SlotHolds, TestBit, LoadU32, Inv, Live, KeptBut, CreatedAt, Visible;
    var disk := d.disk;
    InvDevice(disk);
    FreeSlotIsNotLive(disk);
    if ValidName(name) == Ok {
      FoundIffVisible(disk, past, name);
    }
    var slot := FindFreeSlot(disk[ROOT_DIR_LBA], 0);
    var ino := FindClearBit(disk[INODE_BMAP_LBA], 2, MAX_INODES + 1);
    var lba := FindClearBit(disk[BLOCK_BMAP_LBA], DATA_START_LBA, |disk|);
    if HasRoom(disk) && ValidName(name) == Ok {
      AddFileKeeps(d, slot, ino, lba, name);
    }
  }

  lemma FoundIffVisible(disk: Blocks, past: byte, name: CString)
    requires Device(disk) && |name| <= MAX_NAME
    ensures FindSlot(disk[ROOT_DIR_LBA], past, name, 0) < DIRENT_COUNT <==> exists i :: Visible(disk, past, i, name)
  {
    hide SlotHolds, SlotName, Live;
    forall i | 0 <= i < DIRENT_COUNT
      ensures SlotHolds(disk[ROOT_DIR_LBA], past, i, name) <==> Visible(disk, past, i, name)
    {
      HoldsIffVisible(disk, past, i, name);
    }
    if i :| Visible(disk, past, i, name) {
      assert SlotHolds(disk[ROOT_DIR_LBA], past, i, name);
    }
  }
}
