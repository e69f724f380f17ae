# MCSOS kernel models

Dafny models of the state machines inside the MCSOS teaching kernel, with proofs of what they promise over
every crash point, every run and every interleaving. `dafny verify dfyconfig.toml` checks everything.

| files | what they model |
|---|---|
| `Bytes`, `Disk` | bytes, little-endian words, bitmaps; the block device whose counter cuts the power after n writes |
| `Checksum`, `Journal`, `JournalCrash`, `JournalCorruption` | the MCSFS1J write-ahead journal: commit, recovery, crashes of both, damaged journals |
| `JournalFs`, `JournalFsCrash`, `JournalFormat`, `JournalFsRuns`, `JournalLeak` | the file system on that journal: create, read, fsck, format, whole runs with power cuts, and the space that cuts cost |
| `JournalLayout`, `Mcsfs1Layout` | both file systems on raw bytes: what each structure looks like on the disk, and which bytes and names are refused |
| `Mcsfs1`, `Mcsfs1Inv`, `Mcsfs1Ops`, `Mcsfs1Files`, `Mcsfs1Runs` | MCSFS1: write ordering without a journal, the invariant behind fsck, refinement of a map from names to bytes |
| `Mcsfs1Torn`, `Mcsfs1Cases` | its contents after a power cut, two concrete runs that go wrong, and the life of a first file |
| `Pmm`, `PageTable`, `PageBits`, `Vmm`, `VmmRuns` | the frame allocator, the four-level page-table tree over it and its entries bit by bit, map, query and unmap, and runs shared with other users of the frames |
| `Heap`, `KmemList`, `Kmem` | the kernel heap as a layout, its linked headers in the bytes of memory, and the allocator |
| `LockDep`, `Spinlock`, `SpinlockProgress`, `Mutex` | the lock-order checker, and spinlock and mutex as interleaved atomic accesses |
| `BlockCache`, `RamDisk`, `RamDriver` | the write-back cache over failing devices, the memory-backed device, and the one as the other |
| `Scheduler` | the intrusive ready queue |

How to read a module: C functions are methods, their loops kept, proved equal to functions of the old state
(for example `JournalCommit` against `Commit`); the properties are lemmas about those functions. A crash is a
number: an operation run with `power` n performs its first n block writes and then fails, so a statement about all
values of `power` is a statement about all crash points. Machine words whose range
matters are subset types, and their wrap-arounds and masks are written out.

## Main results

* A file creation in MCSFS1J is two journal transactions. Cut at any block write, and followed by any number of cut
  recoveries, it leaves a file system that fsck accepts, with every earlier file unchanged and the new one absent or
  complete, from any disk that fsck has just accepted (`JournalFsRuns.CreateAfterFsck`, `JournalFsRuns.RunsAfterFsck`, on
  top of `JournalCrash.CommitIsAtomic` and `JournalCrash.RecoverySurvivesCrashes`); a creation that returned success is
  still there after everything that follows (`JournalFsRuns.CreatedStays`).
* One changed byte in a journal header or payload is always caught; in a descriptor exactly the damage decided by
  `JournalCorruption.DescriptorDamageAnswer` is. A damaged record leaves the records before it applied.
* MCSFS1 has no journal. Its write order keeps fsck true at every prefix of every run
  (`Mcsfs1Runs.RunsFromFormatPassFsck`), and with names of at most 26 bytes it is a map from names to byte strings, codes
  included (`Mcsfs1Runs.RunsRefineMap`), and over runs with cuts a map that follows them
  (`Mcsfs1Runs.CutRunsRefineMap`), because the contents that a cut write leaves are known (`Mcsfs1Torn.WriteCut`).
* The page tables refine a partial map from pages to frames and flags, over the real frame allocator, with exact
  result codes (`Vmm.Space.MapPage`), also while others allocate, free and reserve frames
  (`VmmRuns.SharedRuns`).
* The heap tiles its arena, hands out disjoint aligned payloads and returns to one block when all are freed, exactly as
  long as no request makes the needed space wrap and no calloc zeroes past its payload into a header
  (`Heap.RunsRestore`, `Kmem.Kmem.Alloc`, `Kmem.Kmem.Calloc`, `Kmem.Kmem.FreeChecked`).
* Spinlocks taken under the lock-order checker exclude each other and never deadlock (`Spinlock.NeverDeadlocks`); every
  waiting thread can be served by unlock calls alone (`SpinlockProgress.WaiterGetsItsLock`), which drain all locks under
  every schedule (`SpinlockProgress.UnlocksDrain`). The mutex answers correctly at every interleaving of its accesses
  (`Mutex.AnswersAreRight`, `Mutex.TryLockAnswers`).
* Mount and fsck of both file systems accept exactly given bytes and refuse all others (`JournalLayout.FsckReads`,
  `Mcsfs1Layout.FsckReads`); canonical page addresses are in bijection with quadruples of table indices
  (`PageTable.PathOnto`).
* Frames and threads are conserved: what is taken is held by someone, and what is given back restores the bitmap
  (`Pmm.RunsConserve`, `VmmRuns.RunsAccount`); no thread is lost (`Scheduler.NobodyIsLost`).
* The cache shows the same contents as the plain device through evictions and failing transfers
  (`BlockCache.Cache.WriteBlock`, `BlockCache.Cache.FlushAll`).
* A queued thread at index k runs at exactly the (k+1)-th switch (`Scheduler.WaitsExactly`).

## Where the code falls short

These are properties of the code as written; each has a lemma with the exact condition or a concrete input.

* A journal descriptor has no checksum: a changed target byte redirects a payload unnoticed
  (`JournalCorruption.DescriptorDamageUnnoticed`), unless it is one of those that recovery refuses
  (`JournalCorruption.DescriptorDamageAnswer`).
* A creation in MCSFS1J that is cut between its transactions marks its inode and block for good
  (`JournalLeak.CutCreationLeaks`, `JournalLeak.FifteenCutsFill`).
* A journal record aimed at the journal header can lock recovery out (`JournalCrash.LockedJournal`); targets outside the
  log itself are safe (`JournalCrash.RecoverySurvivesCrashes`).
* MCSFS1 accepts 27-byte names but its lookup reads 28 bytes, so such a file is found iff the next byte is zero
  (`Mcsfs1Files.ResolveFinds`); it can vanish and be created a second time (`Mcsfs1Cases.LongNameIsLost`).
* A write in MCSFS1 overwrites in place and can be torn by a crash (`Mcsfs1Torn.WriteAtomicIff`,
  `Mcsfs1Cases.TornRun`).
* Boot-map ranges that end in the last page of the address space wrap when rounded (`Pmm.UsableExactIff`,
  `Pmm.OtherExactIff`, `Pmm.WrappedUsableFreesAll`).
* Mapping a frame at or above 2^52 loses address bits (`PageTable.LeafBits`).
* The heap's rounding mask is 32 bits wide (`Heap.RoundingExactIff`, `Heap.HugeRequestIsCut`): larger requests get
  payloads that are too small (`Heap.PayloadEnoughIff`), some destroy the block list (`KmemList.WrappedSplitDestroys`,
  `KmemList.DestroyedHeader`), and zeroing runs over what follows (`KmemList.CallocOutcome`).
* A heap that ends with the address space refuses every free and fails validation (`Kmem.Kmem.Validate`).
* Enqueueing a thread that is already queued breaks the ready list (`Scheduler.Sched.Enqueue`).
* The cache accepts writes beyond the end of a device and can then never flush them
  (`BlockCache.Cache.WriteBlock`, `BlockCache.Cache.FlushAll`).

## Model

| member | source | states |
|---|---|---|
| `Disk.BlockDev.ReadBlock` | kernel/fs/mcsfs1j/m16_mcsfs_journal.c:155-161 | reads exactly the blocks in range |
| `Disk.BlockDev.WriteBlock` | kernel/fs/mcsfs1j/m16_mcsfs_journal.c:163-176 | range check first, then the power counter: a write is refused and changes nothing once the counter is zero, else it stores the block and spends one unit |
| `Disk.RunIsPrefix` | kernel/fs/mcsfs1j/m16_mcsfs_journal.c:163-176 | whatever list of writes an operation issues, a power cut leaves exactly a prefix of it on the medium, and the list succeeds iff the power suffices |
| `Checksum.ComputeFnv` | kernel/fs/mcsfs1j/m16_mcsfs_journal.c:141-149 | the checksum loop computes FNV-1a from its recursive definition |
| `Checksum.OneByteChangesFnv` | kernel/fs/mcsfs1j/m16_mcsfs_journal.c:141-149 | buffers of any length that differ in exactly one byte have different checksums |
| `Checksum.SumSteps` | kernel/fs/mcsfs1j/m16_mcsfs_journal.c:141-149 | the sum starts at 0x811C9DC5, and each byte goes by exclusive or into the low byte before a multiplication by 16777619 modulo 2^32 |
| `Checksum.XorDigits` | kernel/fs/mcsfs1j/m16_mcsfs_journal.c:145 | binary digit k of the exclusive or is the sum of the two digits modulo 2 |
| `Checksum.KnownSums` | kernel/fs/mcsfs1j/m16_mcsfs_journal.c:141-149 | the published sums of "a" and "foobar" |
| `Bytes.ByteBitIs` | kernel/fs/mcsfs1j/m16_mcsfs_journal.c:187-193 | bit k of a bitmap byte is its binary digit k, the lowest first, as 1u << (bit % 8) selects it |
| `Journal.HeaderRoundTrip` | kernel/fs/mcsfs1j/m16_mcsfs_journal.c:76-84 | a header block parses back to the header it was built from |
| `Journal.DescRoundTrip` | kernel/fs/mcsfs1j/m16_mcsfs_journal.c:86-91 | a descriptor block parses back to its descriptor |
| `Journal.CommitHeaderIsCommitted` | kernel/fs/mcsfs1j/m16_mcsfs_journal.c:268-275 | the header that commit writes is accepted by recovery as committed with the same record count, its checksum word included |
| `JournalLayout.HeaderBytes` | kernel/fs/mcsfs1j/m16_mcsfs_journal.c:268-276 | the header that a commit writes, byte by byte: magic, version 1, state 2, sequence number, count, the sum over the block with bytes 24 to 27 zeroed, and zeros |
| `JournalLayout.DescBytes` | kernel/fs/mcsfs1j/m16_mcsfs_journal.c:254-258 | the descriptor of a record, byte by byte: magic, target, payload sum, and zeros |
| `JournalLayout.ClassifyReads` | kernel/fs/mcsfs1j/m16_mcsfs_journal.c:292-309 | for every header block: empty iff bytes 0 to 7 and 12 to 15 are zero; else committed iff the literal first sixteen bytes, a count of at most 8 and the right sum are there; else refused |
| `JournalLayout.IntactReads` | kernel/fs/mcsfs1j/m16_mcsfs_journal.c:311-328 | record i passes iff block 2 + 2i starts with the literal magic, names a block below 128 and carries the sum of block 3 + 2i |
| `JournalLayout.CommitOrder` | kernel/fs/mcsfs1j/m16_mcsfs_journal.c:243-290 | write k of a commit, for every k: block 1 cleared, the pairs in blocks 2 and 3, 4 and 5 and so on, the header in block 1, the home blocks, block 1 cleared; a commit cut short after the header is the part up to it |
| `Journal.LogRecords` | kernel/fs/mcsfs1j/m16_mcsfs_journal.c:251-267 | the descriptor/payload loop issues exactly the log writes, stopping at the first failure |
| `Journal.JournalCommit` | kernel/fs/mcsfs1j/m16_mcsfs_journal.c:243-290 | commit issues clear, log, header, home writes, clear in this order and stops where the power ends |
| `Journal.ReplayRecords` | kernel/fs/mcsfs1j/m16_mcsfs_journal.c:310-334 | records are validated and applied one at a time; the first bad one ends the replay |
| `Journal.JournalRecover` | kernel/fs/mcsfs1j/m16_mcsfs_journal.c:292-335 | empty, bad and committed headers are treated as the source does |
| `JournalCrash.RecoverIsRun` | kernel/fs/mcsfs1j/m16_mcsfs_journal.c:292-335 | on a well-formed journal recovery is exactly the home writes of the records followed by the clear |
| `JournalCrash.CutRecovery` | kernel/fs/mcsfs1j/m16_mcsfs_journal.c:292-335 | a recovery cut at any write keeps the state the disk will settle to, and reports success iff it got there; pending targets lie outside LBAs 1 to 1 + 2 * count |
| `JournalCrash.OneMoreRecovery` | kernel/fs/mcsfs1j/m16_mcsfs_journal.c:292-335 | repeated recoveries, each cut anywhere, start one from what the other left |
| `JournalCrash.RecoverySurvivesCrashes` | kernel/fs/mcsfs1j/m16_mcsfs_journal.c:276-335 | any number of recoveries cut anywhere, then a complete one, end in the disk of one uninterrupted recovery |
| `JournalCrash.CommitCut` | kernel/fs/mcsfs1j/m16_mcsfs_journal.c:243-290 | every prefix of the writes of a commit is well formed; it settles to the old home blocks before the header write and to the disk of a complete commit after it |
| `JournalCrash.CommittedContents` | kernel/fs/mcsfs1j/m16_mcsfs_journal.c:283-289 | a complete commit overlays the home blocks with the last record for each target |
| `JournalCrash.CutCommit` | kernel/fs/mcsfs1j/m16_mcsfs_journal.c:243-290 | a commit cut at any power: new iff the commit header was written, success only in that case |
| `JournalCrash.CommitIsAtomic` | kernel/fs/mcsfs1j/m16_mcsfs_journal.c:243-335 | commit cut anywhere, then any number of cut recoveries, then a complete one: all home blocks old, or all overlaid, the second exactly when the header write went through |
| `JournalCrash.SelfTargetBreaksRecovery` | kernel/fs/mcsfs1j/m16_mcsfs_journal.c:276-335 | a pending record aimed at the header, cut after its first write, leaves a journal that every later recovery refuses |
| `JournalCrash.SelfTargetRun` | kernel/fs/mcsfs1j/m16_mcsfs_journal.c:243-335 | such a disk is reached from any quiet one by one commit, stopped before it is applied, and one cut recovery |
| `JournalCrash.LockedJournal` | kernel/fs/mcsfs1j/m16_mcsfs_journal.c:243-335 | the same with a concrete payload, from any quiet disk |
| `JournalCorruption.FirstBadRecord` | kernel/fs/mcsfs1j/m16_mcsfs_journal.c:311-333 | if record b is the first bad one and the records before it aim outside their log, recovery applies exactly records 0..b-1 and returns the corruption code |
| `JournalCorruption.RefusedIffSomeRecordBad` | kernel/fs/mcsfs1j/m16_mcsfs_journal.c:311-333 | when the intact records aim outside their log, recovery of a committed journal returns the corruption code iff some record fails its checks |
| `JournalCorruption.AnyLog` | kernel/fs/mcsfs1j/m16_mcsfs_journal.c:311-333 | for every committed journal, wherever its records aim: if b is the first record that fails its checks when its turn comes, exactly the records before it are applied and the corruption code is returned; if there is none, all are applied and the journal is cleared |
| `JournalCorruption.HeaderDamageDetected` | kernel/fs/mcsfs1j/m16_mcsfs_journal.c:297-309 | any single changed byte of a committed header makes recovery refuse it without writing a block |
| `JournalCorruption.PayloadDamageDetected` | kernel/fs/mcsfs1j/m16_mcsfs_journal.c:311-333 | in a log whose records aim outside it, any single changed byte of a payload is caught; the records before it are applied, nothing else |
| `JournalCorruption.DescriptorDamage` | kernel/fs/mcsfs1j/m16_mcsfs_journal.c:311-321 | the check of the record itself notices a changed descriptor byte iff it hits the magic, the checksum, or turns the target into an invalid block number |
| `JournalCorruption.DescriptorDamageUnnoticed` | kernel/fs/mcsfs1j/m16_mcsfs_journal.c:311-333 | unnoticed damage that aims outside the log: recovery succeeds, and a changed target byte sends the payload to the wrong block |
| `JournalCorruption.DescriptorDamageAnswer` | kernel/fs/mcsfs1j/m16_mcsfs_journal.c:292-335 | the answer of recovery to any single changed byte of a descriptor, exactly: the corruption code iff the byte lies in the magic or the checksum, or in the target and Refuses holds of the new target; success otherwise |
| `JournalCorruption.RefusesPlain` | kernel/fs/mcsfs1j/m16_mcsfs_journal.c:311-333 | for a payload that does not start like a descriptor: a target is refused iff it is off the device, a descriptor block of a later record, or the payload block of a later record with another checksum |
| `JournalCorruption.InLogDamage` | kernel/fs/mcsfs1j/m16_mcsfs_journal.c:243-335 | a concrete log of two records: target 18 turned into 5 passes the check of its record and is refused by the next |
| `JournalFs.StrEq` | kernel/fs/mcsfs1j/m16_mcsfs_journal.c:129-139 | the character loop is equality up to the terminator or 32 characters |
| `JournalFs.FindDirent` | kernel/fs/mcsfs1j/m16_mcsfs_journal.c:438-446 | the first used slot with that name |
| `JournalFs.FindFreeDirent` | kernel/fs/mcsfs1j/m16_mcsfs_journal.c:448-456 | the first unused slot |
| `JournalFs.LoadInodeTable` | kernel/fs/mcsfs1j/m16_mcsfs_journal.c:195-204 | the four table blocks in order |
| `JournalFs.MountDevice` | kernel/fs/mcsfs1j/m16_mcsfs_journal.c:399-418 | recovers, then checks the superblock; on literal bytes in `JournalLayout.MountReads` and `JournalLayout.ForeignSuperRefused` |
| `JournalFs.WriteFileEx` | kernel/fs/mcsfs1j/m16_mcsfs_journal.c:458-552 | name, size, mount, lookup, allocation and the two commits, with every error exit in the order of the source; on a device that was never formatted, see `JournalLayout.BlankRefused` |
| `JournalFs.ReadFile` | kernel/fs/mcsfs1j/m16_mcsfs_journal.c:558-597 | recovers, then returns the contents or the error code that the lookup yields |
| `JournalFs.FsckDevice` | kernel/fs/mcsfs1j/m16_mcsfs_journal.c:599-653 | recovers, then decides exactly the listed consistency conditions |
| `JournalLayout.MountReads` | kernel/fs/mcsfs1j/m16_mcsfs_journal.c:399-418 | on every disk: mount recovers and then accepts iff bytes 0 to 15 and 44 to 51 of block 0 are the literal ones |
| `JournalLayout.ForeignSuperRefused` | kernel/fs/mcsfs1j/m16_mcsfs_journal.c:399-418 | with nothing logged, a block 0 that differs anywhere in those bytes makes mount, write, read and fsck answer corrupt and leaves the disk as it was; a write looks at its name and size first |
| `JournalLayout.BlankRefused` | kernel/fs/mcsfs1j/m16_mcsfs_journal.c:178-185 | a zeroed device that was never formatted is refused by every operation and left as it was |
| `JournalLayout.CreationAnswers` | kernel/fs/mcsfs1j/m16_mcsfs_journal.c:458-552 | names of 1 to 31 bytes and contents of up to 512 are accepted, all others refused with no block touched; on a good disk without a power cut the code is exists, no space or Ok, by what is on it |
| `JournalLayout.ReadReads` | kernel/fs/mcsfs1j/m16_mcsfs_journal.c:558-597 | on every disk: the answer of a read, from the words of the slot and the inode and the size of the buffer |
| `JournalLayout.FsckReads` | kernel/fs/mcsfs1j/m16_mcsfs_journal.c:599-653 | on every disk: fsck recovers and then accepts iff the literal bytes and bits of superblock, root inode, system blocks and every used slot are there |
| `JournalLayout.DamagedRootRefused` | kernel/fs/mcsfs1j/m16_mcsfs_journal.c:629-636 | with nothing logged, a changed root inode, an unmarked root inode number or an unmarked block below 25 makes fsck answer corrupt and leaves the disk as it was |
| `JournalLayout.SlotLayout` | kernel/fs/mcsfs1j/m16_mcsfs_journal.c:517-521 | every byte of a new directory entry, and no other byte of the directory changes |
| `JournalLayout.InodeLayout` | kernel/fs/mcsfs1j/m16_mcsfs_journal.c:513-516 | every byte of a new inode, and no other byte of the inode table changes |
| `JournalLayout.CreationTargets` | kernel/fs/mcsfs1j/m16_mcsfs_journal.c:522-552 | the eight records of a creation, with their home blocks and contents, in the order of the two transactions |
| `JournalLayout.SequenceNumbers` | kernel/fs/mcsfs1j/m16_mcsfs_journal.c:538-551 | the two transactions carry the stored generation plus one and plus two |
| `JournalFsCrash.PaddedNameMatches` | kernel/fs/mcsfs1j/m16_mcsfs_journal.c:129-139 | a zero-padded stored name is matched by that name and no other |
| `JournalFsCrash.MetadataKeepsFiles` | kernel/fs/mcsfs1j/m16_mcsfs_journal.c:510-541 | after the first of the two transactions alone the file system is consistent and every file reads as before |
| `JournalFsCrash.ContentAddsFile` | kernel/fs/mcsfs1j/m16_mcsfs_journal.c:542-552 | after both transactions it is consistent and has exactly one more file, with the given bytes |
| `JournalFsCrash.TransactionStep` | kernel/fs/mcsfs1j/m16_mcsfs_journal.c:243-290 | one transaction cut anywhere, seen from the settled disk |
| `JournalFsCrash.CreateFromMounted` | kernel/fs/mcsfs1j/m16_mcsfs_journal.c:498-552 | creation on a mounted disk, cut anywhere in either transaction |
| `JournalFsCrash.CreateIsAtomic` | kernel/fs/mcsfs1j/m16_mcsfs_journal.c:458-653 | from any good disk, whatever its pending journal holds, creation cut at any block write leaves a good disk, all other files unchanged, and the new name absent or complete; success means complete |
| `JournalFormat.Format` | kernel/fs/mcsfs1j/m16_mcsfs_journal.c:337-397 | zeroes the device, then issues the nine writes in order |
| `JournalFormat.FormatIsGood` | kernel/fs/mcsfs1j/m16_mcsfs_journal.c:337-397 | a format that returns success leaves a consistent empty file system; it succeeds iff nine writes get through |
| `JournalLayout.FormattedSuper` | kernel/fs/mcsfs1j/m16_mcsfs_journal.c:342-356 | the formatted superblock, byte by byte |
| `JournalLayout.FormattedBytes` | kernel/fs/mcsfs1j/m16_mcsfs_journal.c:337-397 | every byte of every other block after a format |
| `JournalFsRuns.StepKeepsGood` | kernel/fs/mcsfs1j/m16_mcsfs_journal.c:458-653 | each operation cut anywhere keeps the disk good and changes no file except adding the created one whole |
| `JournalFsRuns.RunsAreSafe` | kernel/fs/mcsfs1j/m16_mcsfs_journal.c:458-653 | over every run of cut operations: files once there keep their bytes, new ones hold the bytes of some creation of that name |
| `JournalFsRuns.GoodDiskObserved` | kernel/fs/mcsfs1j/m16_mcsfs_journal.c:558-653 | on a good disk fsck and mount succeed and read returns the file, the missing-name code or the too-small-buffer code |
| `JournalFsRuns.FsckDecidesGood` | kernel/fs/mcsfs1j/m16_mcsfs_journal.c:599-653 | before any recovery: with a pending journal that aims outside its own log, fsck returns success iff the disk is good |
| `JournalFsRuns.FsckLeavesGood` | kernel/fs/mcsfs1j/m16_mcsfs_journal.c:292-335 | any disk that fsck accepts, with no assumption on the journal it held, is good and has an empty journal afterwards |
| `JournalFsRuns.CreateAfterFsck` | kernel/fs/mcsfs1j/m16_mcsfs_journal.c:458-653 | from any disk that fsck has just accepted, creation cut at any block write leaves a good disk, all other files unchanged, and the new name absent or complete; success means complete |
| `JournalFsRuns.RunsAfterFsck` | kernel/fs/mcsfs1j/m16_mcsfs_journal.c:458-653 | from any disk that fsck has just accepted, after any run of cut operations fsck accepts again, no file is lost or altered, and a new one holds the bytes of some creation of that name |
| `JournalFsRuns.CreateSucceedsIff` | kernel/fs/mcsfs1j/m16_mcsfs_journal.c:458-552 | with power, the result code of a creation: exists, no space or success, exactly when |
| `JournalFsRuns.RunsFromFormat` | kernel/fs/mcsfs1j/m16_mcsfs_journal.c:337-653 | after format and any run of cut operations fsck succeeds and every read finds nothing or bytes that some creation wrote under that name |
| `JournalFsRuns.CreatedStays` | kernel/fs/mcsfs1j/m16_mcsfs_journal.c:337-653 | from format: a creation that returned success, anywhere in a run of cut operations, is read back whole at the end |
| `JournalLeak.CutCreationLeaks` | kernel/fs/mcsfs1j/m16_mcsfs_journal.c:510-552 | a creation cut after 14 to 26 block writes leaves, once recovered, every file as it was and exactly one inode bit and one block bit more |
| `JournalLeak.OtherCutsDoNot` | kernel/fs/mcsfs1j/m16_mcsfs_journal.c:510-552 | at any other power nothing leaks: no home block changed, or the file is complete |
| `JournalLeak.LeakRun` | kernel/fs/mcsfs1j/m16_mcsfs_journal.c:458-552 | over any run of k such cuts and recoveries, k inodes and k blocks are marked and there is no file |
| `JournalLeak.FifteenCutsFill` | kernel/fs/mcsfs1j/m16_mcsfs_journal.c:337-653 | from format: after fifteen such cuts fsck accepts the disk, no file is on it, and every creation answers that there is no space |
| `Mcsfs1.CheckName` | fs/mcsfs1/mcsfs1.c:83-98 | empty, too long, slash or accepted, in the order of the source; on literal bytes in `Mcsfs1Layout.BadNamesRefused` and `Mcsfs1Layout.GoodNamesCreated` |
| `Mcsfs1Layout.BadNamesRefused` | fs/mcsfs1/mcsfs1.c:83-98 | the empty name and every name with byte 47 are invalid and every name from 28 bytes on is too long, for create, write, read and unlink, with no block touched; only a write over 4096 bytes is refused earlier |
| `Mcsfs1Layout.GoodNamesCreated` | fs/mcsfs1/mcsfs1.c:397-450 | a new name of 1 to 26 bytes without byte 47 is created iff a slot, an inode number and a block are free and four block writes get through |
| `Mcsfs1Layout.AnyGoodNameCreated` | fs/mcsfs1/mcsfs1.c:397-450 | names of up to 27 bytes: exists iff a visible file has the name, else created iff there is room |
| `Mcsfs1Layout.GoodNamesFound` | fs/mcsfs1/mcsfs1.c:452-587 | read, write and unlink of a name of 1 to 27 bytes without byte 47 act on the file of that name, or answer that there is none |
| `Mcsfs1Layout.LookupAnswers` | fs/mcsfs1/mcsfs1.c:452-587 | on every disk: no such file, an inode number above 32, or an inode that is no file makes write, read and unlink answer so with no block touched; a write over 4096 bytes is out of range |
| `Mcsfs1Layout.ReadAnswers` | fs/mcsfs1/mcsfs1.c:507-545 | on every disk: a found file is out of range if the buffer is smaller, corrupt if a block that it needs is missing, and else read with its whole size |
| `Mcsfs1.FindDirent` | fs/mcsfs1/mcsfs1.c:212-236 | the first slot whose 28-byte length scan and characters agree with the name |
| `Mcsfs1.LoadInode` | fs/mcsfs1/mcsfs1.c:156-174 | the inode bytes at the computed block and offset, or the range error |
| `Mcsfs1.StoreInode` | fs/mcsfs1/mcsfs1.c:176-194 | patches those bytes and no others |
| `Mcsfs1.CreateFile` | fs/mcsfs1/mcsfs1.c:397-450 | creation: checks, allocation, inode write, then the directory write; on literal names in `Mcsfs1Layout.GoodNamesCreated` |
| `Mcsfs1.AllocateBlocks` | fs/mcsfs1/mcsfs1.c:476-483 | fills every hole below the needed count, storing the bitmaps each time |
| `Mcsfs1.WriteDataBlocks` | fs/mcsfs1/mcsfs1.c:484-498 | writes the zero-padded chunks in order |
| `Mcsfs1.WriteNamed` | fs/mcsfs1/mcsfs1.c:452-505 | write with every error exit in the order of the source |
| `Mcsfs1.ReadData` | fs/mcsfs1/mcsfs1.c:527-545 | the copy loop returns the concatenated chunks or the corruption code |
| `Mcsfs1.ReadNamed` | fs/mcsfs1/mcsfs1.c:507-545 | read with every error exit in the order of the source |
| `Mcsfs1.UnlinkNamed` | fs/mcsfs1/mcsfs1.c:547-587 | clears the name first, then the bits, then the inode |
| `Mcsfs1.Mount` | fs/mcsfs1/mcsfs1.c:374-395 | accepts exactly the disks whose superblock and root inode pass |
| `Mcsfs1.Fsck` | fs/mcsfs1/mcsfs1.c:589-653 | answers Ok iff the conditions that fsck tests hold, else corrupt |
| `Mcsfs1Layout.MountReads` | fs/mcsfs1/mcsfs1.c:374-395 | mount accepts iff the literal bytes of superblock and root inode are there |
| `Mcsfs1Layout.FsckReads` | fs/mcsfs1/mcsfs1.c:589-653 | fsck accepts iff the literal bytes and bits of superblock, bitmaps, root inode and every used slot are there |
| `Mcsfs1Layout.DamagedSuperRefused` | tests/m15/test_mcsfs1.c:82-83 | one changed byte among bytes 0 to 31 and 36 to 47 of block 0 makes mount and fsck refuse a disk they accepted |
| `Mcsfs1Layout.InodeLayout` | fs/mcsfs1/mcsfs1.c:426-435 | every byte of a new inode |
| `Mcsfs1Layout.SlotLayout` | fs/mcsfs1/mcsfs1.c:441-444 | every byte of a new directory entry, and no other byte of the directory changes |
| `Mcsfs1Layout.UnlinkLeaves` | fs/mcsfs1/mcsfs1.c:547-587 | after an unlink the slot and the inode are zeroed, the bits of the inode and of its blocks are clear, and all other bytes and bits are as before, the data blocks included |
| `Mcsfs1Layout.FormattedSuper` | fs/mcsfs1/mcsfs1.c:326-340 | the formatted superblock, byte by byte |
| `Mcsfs1Layout.FormattedBytes` | fs/mcsfs1/mcsfs1.c:313-372 | every byte of every other block after a format |
| `Mcsfs1Layout.SizeRefused` | fs/mcsfs1/mcsfs1.c:313-316 | devices of fewer than 16 or more than 4096 blocks are refused |
| `Mcsfs1Inv.InvPassesFsck` | fs/mcsfs1/mcsfs1.c:589-653 | the inductive invariant (distinct inodes, disjoint blocks, everything owned is marked) implies fsck success |
| `Mcsfs1Inv.BitmapStep` | fs/mcsfs1/mcsfs1.c:204-210 | new bitmaps that still cover everything in use keep the invariant and every file |
| `Mcsfs1Inv.DataStep` | fs/mcsfs1/mcsfs1.c:484-498 | a data block write can change only the file that may own the block |
| `Mcsfs1Inv.FreeInodeStep` | fs/mcsfs1/mcsfs1.c:176-194 | writing an inode no live slot uses keeps the invariant and every file |
| `Mcsfs1Inv.LiveInodeStep` | fs/mcsfs1/mcsfs1.c:499-503 | writing a live inode with fine, unshared contents keeps the invariant and the other files |
| `Mcsfs1Inv.LinkStep` | fs/mcsfs1/mcsfs1.c:441-448 | linking a name to a prepared inode adds exactly that file |
| `Mcsfs1Inv.UnlinkStep` | fs/mcsfs1/mcsfs1.c:571-575 | clearing a slot removes exactly that file |
| `Mcsfs1Ops.CreateKeeps` | fs/mcsfs1/mcsfs1.c:397-450 | creation cut at any write keeps the invariant; the file exists iff success was returned |
| `Mcsfs1Ops.AllocBlocksKeeps` | fs/mcsfs1/mcsfs1.c:276-295 | allocation cut anywhere adds bits only: no file changes |
| `Mcsfs1Ops.WriteBlocksKeeps` | fs/mcsfs1/mcsfs1.c:484-498 | the data loop cut anywhere touches no other file |
| `Mcsfs1Ops.ReadBack` | fs/mcsfs1/mcsfs1.c:527-545 | blocks holding the padded chunks read back as the data |
| `Mcsfs1Ops.WriteFileKeeps` | fs/mcsfs1/mcsfs1.c:452-505 | write cut anywhere keeps the invariant and every other file; success means the contents are the data |
| `Mcsfs1Ops.RemoveFileKeeps` | fs/mcsfs1/mcsfs1.c:565-586 | removal cut anywhere keeps the invariant and every other file |
| `Mcsfs1Ops.UnlinkKeeps` | fs/mcsfs1/mcsfs1.c:547-587 | unlink cut anywhere, by name |
| `Mcsfs1Files.HoldsIffNamed` | fs/mcsfs1/mcsfs1.c:223-234 | among names of at most 26 bytes the scan finds a slot iff its name is equal |
| `Mcsfs1Files.ReadRefines` | fs/mcsfs1/mcsfs1.c:507-545 | read returns exactly the named file, or the code for a missing name, a bad name or a small buffer |
| `Mcsfs1Files.CreateRefines` | fs/mcsfs1/mcsfs1.c:397-450 | creation adds an empty file or changes none; the result code is decided by name, presence and room |
| `Mcsfs1Files.WriteRefines` | fs/mcsfs1/mcsfs1.c:452-505 | write touches no other file; success means the contents are the data; no-space and every error but a power cut change no file |
| `Mcsfs1Files.UnlinkRefines` | fs/mcsfs1/mcsfs1.c:547-587 | unlink removes the name and nothing else |
| `Mcsfs1Files.LongNameFoundIff` | fs/mcsfs1/mcsfs1.c:225 | a 27-byte name just stored in a slot is found there iff the byte after the field is zero |
| `Mcsfs1Files.LongNameHidden` | fs/mcsfs1/mcsfs1.c:225 | so it is not found while the next slot is in use by an inode below 256 |
| `Mcsfs1Files.ResolveFinds` | fs/mcsfs1/mcsfs1.c:212-236 | write, read and unlink find a name of any legal length iff some live slot stores it and, for 27 bytes, the byte after the field is zero; otherwise the missing-name code |
| `Mcsfs1Files.CreateAnyName` | fs/mcsfs1/mcsfs1.c:397-450 | creation of a name of any length is refused as existing iff such a visible slot exists, so a hidden 27-byte name is created again in a second slot |
| `Mcsfs1Torn.AllocExact` | fs/mcsfs1/mcsfs1.c:276-295 | filling h holes succeeds iff h blocks are free and the power lasts for 2 * h writes; pointers that were there stay |
| `Mcsfs1Torn.WriteBlocksExact` | fs/mcsfs1/mcsfs1.c:484-498 | with power for k blocks exactly the first k take their padded chunks |
| `Mcsfs1Torn.WriteCut` | fs/mcsfs1/mcsfs1.c:452-505 | the contents after a write with any power: unchanged without blocks for its holes; the data once all 2 * h + need + 1 writes went through; else the old contents overlaid on the k blocks reached by the zero-padded data, cut to the old length |
| `Mcsfs1Torn.WriteAtomicIff` | fs/mcsfs1/mcsfs1.c:452-505 | old or new at every power iff there are too few free blocks for the holes or every overlay equals the old contents or the data |
| `Mcsfs1Torn.OverlayIs` | fs/mcsfs1/mcsfs1.c:484-505 | an overlay is the old contents iff those agree with the padded data on its blocks, and the data iff the lengths agree and so do the bytes behind |
| `Mcsfs1Torn.AppendIsAtomic` | fs/mcsfs1/mcsfs1.c:452-505 | a write that only appends is old or new at every power |
| `Mcsfs1Torn.OneBlockIsAtomic` | fs/mcsfs1/mcsfs1.c:452-505 | so is the replacement of at most one block by as many bytes |
| `Mcsfs1Cases.TornRun` | fs/mcsfs1/mcsfs1.c:313-505 | a run from format: create, write 1024 bytes, write 1024 others and lose power after one block; the file is half new and half old |
| `Mcsfs1Cases.FirstFile` | tests/m15/test_mcsfs1.c:50-80 | the host test for every name of 1 to 26 bytes without byte 47 and every contents of up to 3584 bytes: format, create, create again, write, read with any buffer, read another name, unlink, read, with fsck in between, and every code |
| `Mcsfs1Cases.LongNameIsLost` | fs/mcsfs1/mcsfs1.c:212-450 | a run from format: create a 27-byte name and find it; create another; reading the first gives the missing-name code, creating it again succeeds, and two live slots carry the name |
| `Mcsfs1Runs.Format` | fs/mcsfs1/mcsfs1.c:313-372 | format with every write in order, cut where the power ends |
| `Mcsfs1Runs.FormattedIsEmpty` | fs/mcsfs1/mcsfs1.c:313-372 | a formatted disk satisfies the invariant and holds no file |
| `Mcsfs1Runs.RunsPassFsck` | fs/mcsfs1/mcsfs1.c:238-653 | over every run of create, write and unlink, arbitrary names, each cut anywhere, fsck succeeds |
| `Mcsfs1Runs.RunsFromFormatPassFsck` | fs/mcsfs1/mcsfs1.c:313-653 | the same from format, and no two live files share an inode or a block |
| `Mcsfs1Runs.RunsRefineMap` | fs/mcsfs1/mcsfs1.c:397-587 | with names of at most 26 bytes on a device that does not fail, every run is the run of a map from names to byte strings, and every code is the one that the map and the room left call for |
| `Mcsfs1Runs.ReadsAfterRun` | fs/mcsfs1/mcsfs1.c:313-587 | from format to read: a read after any such run returns exactly what the map says |
| `Mcsfs1Runs.RunsTouchNamedFilesOnly` | fs/mcsfs1/mcsfs1.c:397-587 | even with cuts, a run changes only files that one of its operations names |
| `Mcsfs1Runs.UnlinkCut` | fs/mcsfs1/mcsfs1.c:547-587 | an unlink removes the name with its first block write and succeeds with its fourth |
| `Mcsfs1Runs.CreateNeedsFour` | fs/mcsfs1/mcsfs1.c:397-450 | a creation succeeds iff the name is legal and new, there is room, and the power lasts for four block writes |
| `Mcsfs1Runs.CutRunsRefineMap` | fs/mcsfs1/mcsfs1.c:397-587 | over every run with names of at most 26 bytes, each operation cut anywhere, the files are exactly those of a map that follows the cuts: created or not, gone or not, and written, unchanged or overlaid on the blocks reached |
| `Pmm.Pmm.MarkFrameFree` | src/pmm.c:35-49 | clears one bit and keeps the counters and the hint true |
| `Pmm.Pmm.MarkFrameUsed` | src/pmm.c:51-62 | sets one bit and keeps the counters and the hint true |
| `Pmm.Pmm.MarkRangeFree` | src/pmm.c:64-84 | frees exactly the frames of the rounded, clamped range |
| `Pmm.Pmm.MarkRangeUsed` | src/pmm.c:86-109 | takes exactly the frames of the rounded, clamped range |
| `Pmm.Pmm.InitFromMap` | src/pmm.c:127-175 | refuses exactly the bad arguments; otherwise a frame is free iff some usable region frees it and neither frame 0 nor another region takes it |
| `Pmm.Pmm.AllocFrame` | src/pmm.c:177-196 | the lowest free frame, whatever the hint; fails iff none is free |
| `Pmm.Pmm.FreeFrame` | src/pmm.c:198-211 | frees exactly a used, aligned, managed frame other than frame 0 |
| `Pmm.Pmm.ReserveRange` | src/pmm.c:213-219 | takes exactly the frames of the range |
| `Pmm.BootMapMeaning` | src/pmm.c:127-175 | when every region ends at most at 2^64 - 4096: free iff not frame 0, inside one usable region and touching no other region |
| `Pmm.BootOrderIrrelevant` | src/pmm.c:158-171 | the result depends on the set of regions only |
| `Pmm.UsableExactIff` | src/pmm.c:64-84 | the exact condition under which a usable region frees precisely the frames inside it |
| `Pmm.OtherExactIff` | src/pmm.c:86-109 | the exact condition under which another region takes precisely the frames it touches |
| `Pmm.WrappedUsableFreesAll` | src/pmm.c:11-13 | the rounding wraps at the top of the address space: one usable byte there frees every frame |
| `Pmm.RunsAreSafe` | src/pmm.c:177-219 | over every run frames held at once are distinct, never frame 0, and allocation fails only when all frames are used |
| `Pmm.RunsConserve` | src/pmm.c:177-219 | conservation: over every run in which only held frames are freed, the frames in use that nobody holds stay the same, so giving everything back restores the bitmap |
| `Pmm.RunSnoc` | src/pmm.c:177-219 | a run takes its operations one after the other |
| `PageTable.PathInjective` | src/vmm.c:13-22 | the four indices and canonical form determine an aligned address |
| `PageTable.CanonicalIff` | src/vmm.c:13-17 | an address is canonical iff it is below 2^47 or at least 0xFFFF800000000000 |
| `PageTable.PathOnto` | src/vmm.c:13-22 | every sequence of four indices below 512 is that of a canonical page address, given by its digits |
| `PageTable.AddressBack` | src/vmm.c:13-22 | and putting the indices of a page address together gives it back, so the two are in bijection |
| `PageTable.LeafBits` | src/vmm.c:106-108 | a leaf entry gives back PRESENT plus the allowed flags, and the mapped frame iff it lies below 2^52 |
| `PageBits.LeafEntryBits` | src/vmm.c:106-108 | the stored entry bit by bit: bit 0 set, bits 1, 2, 3, 4, 8 and 63 from the flags, bits 12 to 51 from the frame, all others clear |
| `PageBits.LinkEntryBits` | src/vmm.c:61 | the entry of a new table bit by bit: bits 0 and 1 set, bits 12 to 51 from its address, all others clear |
| `PageBits.FieldsAreBits` | src/vmm.c:112-136 | the address of an entry is its bits 12 to 51, the flags are the rest, bit 0 is present and bit 7 is huge |
| `PageTable.OneParent` | src/vmm.c:31-64 | no table is linked from two entries |
| `PageTable.RootHasNoParent` | src/vmm.c:31-64 | no link leads back to the root table |
| `PageTable.LeafUpdate` | src/vmm.c:102-109 | writing a last-level entry keeps the tree and changes the walk of that page only |
| `PageTable.LinkKeeps` | src/vmm.c:46-63 | linking a zeroed fresh table keeps the tree and every walk |
| `Vmm.HugeEntryStops` | src/vmm.c:30-35 | a present huge entry above the last level, wherever it comes from, makes map answer exists, and query and unmap find nothing, with no table or frame touched |
| `Vmm.Space.GetOrAllocNextTable` | src/vmm.c:31-64 | follows a present link or links a fresh frame; out of memory iff the link is absent and no frame is free; no walk changes |
| `Vmm.Space.MapPage` | src/vmm.c:83-110 | the result code exactly (invalid iff the address is between 2^47 and 0xFFFF800000000000 or an address is not a multiple of 4096, no memory iff more tables are missing than frames are free, exists iff mapped); success updates the view at that page only, failure leaves it; tables and frames are those of MapEffect, and the frames taken are exactly the new tables |
| `Vmm.Space.QueryPage` | src/vmm.c:112-136 | answers exactly the view; invalid iff the address is between 2^47 and 0xFFFF800000000000 or no multiple of 4096 |
| `Vmm.Space.UnmapPage` | src/vmm.c:138-161 | removes exactly that page from the view, invalid on the same addresses; the tables are those of UnmapEffect |
| `Vmm.AllocationAvoidsTables` | src/pmm.c:177-196 | whoever allocates next gets neither a table frame nor frame 0, and the tree stays sound |
| `VmmRuns.DescendSound` | src/vmm.c:31-64 | the table steps keep the tree and every walk, take free frames only, and fail iff more tables are missing than frames are free |
| `VmmRuns.MapSound` | src/vmm.c:83-110 | MapEffect keeps the tree, takes exactly the frames of the new tables, and its code and view are those a map from pages calls for |
| `VmmRuns.UnmapSound` | src/vmm.c:138-161 | UnmapEffect keeps the tree and removes exactly that page |
| `VmmRuns.OthersKeep` | src/pmm.c:177-219 | an allocation, a free of a held frame or a reservation by another user keeps the tree sound and tables and held frames apart |
| `VmmRuns.NextKeeps` | src/vmm.c:83-161 | one call of either kind keeps tables and held frames apart and answers right; only the own successful calls change the view |
| `VmmRuns.SharedRuns` | src/vmm.c:83-161 | over every run mixing maps and unmaps with allocations, frees and reservations by others: the tree stays sound, no held frame is a table, and the view is what the own successful calls make of it |
| `VmmRuns.RunsAccount` | src/vmm.c:33-64 | conservation: over every such run without reservations, each frame taken is a table of the space or held by another user |
| `Heap.RoundingExactIff` | kernel/mm/kmem.c:65-74 | both roundings are right iff the request is at most 2^32 - 64 bytes |
| `Heap.HugeRequestIsCut` | kernel/mm/kmem.c:65 | a request of 2^32 + 1 bytes is rounded to 16 |
| `Heap.RequestNeedsNothing` | kernel/mm/kmem.c:73-74 | a request just under 4 GiB computes a needed space of zero |
| `Heap.TakeKeeps` | kernel/mm/kmem.c:72-87 | when the needed space does not wrap, taking and splitting a block keeps the tiling, the 16-byte grid and the absence of free neighbours |
| `Heap.SplitIff` | kernel/mm/kmem.c:72-87 | a block is split iff it is at least 104 bytes larger than the rounded request; a payload is never more than 103 bytes larger than it, and no rest is smaller than 16 |
| `Heap.LiveTake` | kernel/mm/kmem.c:72-87 | then the payload handed out is new and at least the rounded size; no other payload changes |
| `Heap.PayloadEnoughIff` | kernel/mm/kmem.c:65-87 | the payload has the size asked for iff the request is at most 2^32 - 64 bytes |
| `Heap.MergeConverges` | kernel/mm/kmem.c:125-129 | merging free neighbours early or late gives the same layout |
| `Heap.ReleaseKeeps` | kernel/mm/kmem.c:120-131 | giving a payload back removes it and nothing else and restores the invariant |
| `Heap.PayloadsDisjoint` | kernel/mm/kmem.c:62-92 | live payloads never overlap each other or a header |
| `Heap.PayloadAligned` | kernel/mm/kmem.c:40-44 | every payload address is a multiple of 16 |
| `Heap.AllFreed` | kernel/mm/kmem.c:106-133 | with nothing live the heap is one free block of its full size |
| `Heap.TallyConserves` | kernel/mm/kmem.c:143-156 | used + free + 40 per block is the total, and the largest free block is the largest |
| `Heap.TallyCounts` | kernel/mm/kmem.c:143-156 | the free counters are the number and the sum of the free blocks |
| `Heap.RunsRestore` | kernel/mm/kmem.c:62-133 | over every run of alloc, calloc and free: the list survives iff no call meets a fitting block with a needed space that wraps, or zeroes past its payload into a header; then the heap is well-formed over the same bytes, and once nothing is live it is the block it started as |
| `Heap.StepKeeps` | kernel/mm/kmem.c:62-133 | one call: an allocation adds one new payload, changes nothing or destroys the list, exactly when; a free removes one payload |
| `Heap.SmallRequestsSpare` | kernel/mm/kmem.c:62-104 | requests and products of at most 2^32 - 64 bytes never destroy the list |
| `Heap.DestroyedRun` | kernel/mm/kmem.c:62-92 | a concrete heap and request that destroy the list |
| `Heap.DestroyedByZeroing` | kernel/mm/kmem.c:94-104 | a concrete heap that a calloc destroys and an alloc of as many bytes does not |
| `KmemList.HeaderBytes` | kernel/mm/kmem.c:8-14 | a block header in memory, byte by byte: magic, size, next, the free flag as a word, and twelve bytes that are never written |
| `KmemList.ChainReplace` | kernel/mm/kmem.c:72-87 | list blocks replaced by others over the same bytes leave the rest of the linked list intact |
| `KmemList.RestStores` | kernel/mm/kmem.c:77-80 | the four stores of the rest header, in the bytes of memory, give that header when it does not overlap the block being split |
| `KmemList.ChainTake` | kernel/mm/kmem.c:72-87 | when the needed space does not wrap, the stores leave the list of the split layout |
| `KmemList.WrappedSplitDestroys` | kernel/mm/kmem.c:72-87 | when it wraps, the stores leave a header that points into itself, and no layout describes the list any more |
| `KmemList.DestroyedHeader` | kernel/mm/kmem.c:62-92 | a concrete heap and request: the stores leave a header that links to itself and claims 2^64 - 40 bytes |
| `KmemList.ChainAbsorb` | kernel/mm/kmem.c:125-129 | the two stores of a merge leave the list of the merged layout |
| `KmemList.PayloadStores` | kernel/mm/kmem.c:62-92 | a caller that writes inside its payload never disturbs the list or another payload |
| `KmemList.CallocOutcome` | kernel/mm/kmem.c:94-104 | the zeroing after an allocation breaks the list in exactly the cases of CallocBreaks: a wrapped split, or a product above 2^32 - 64 whose zeroes run over the next header or, past the top of memory, over the first |
| `Kmem.Kmem.Init` | kernel/mm/kmem.c:36-60 | the aligned single free block in the bytes of memory, or the error code; nothing outside its header is written |
| `Kmem.Kmem.Alloc` | kernel/mm/kmem.c:62-92 | for every request: first fit over the linked headers, NULL iff no free block has the rounded size; the list is destroyed iff the needed space wraps; else a new aligned payload of at least the size asked for up to 2^32 - 64, and no byte of another payload changes |
| `Kmem.Kmem.Split` | kernel/mm/kmem.c:76-85 | the six stores of a split, in order, overlapping or not |
| `Kmem.Kmem.Memset` | kernel/mm/kmem.c:20-26 | zeroes exactly n bytes from p on, wrapping at the top of memory |
| `Kmem.Kmem.Calloc` | kernel/mm/kmem.c:94-104 | refuses exactly zero and overflowing products and misses; breaks the list exactly under CallocBreaks; up to 2^32 - 64 the payload holds the product in zero bytes and no other payload changes |
| `Kmem.Kmem.FreeChecked` | kernel/mm/kmem.c:106-133 | result codes for NULL, outside, live, already free and foreign addresses; a live payload is removed, all neighbours merged, and no byte of another payload changes; a foreign address behind bytes that read as a used header is answered with success and changes four bytes and no block |
| `Kmem.Kmem.CoalesceAll` | kernel/mm/kmem.c:122-131 | the nested loops terminate and merge every pair of free neighbours |
| `Kmem.Kmem.GetStats` | kernel/mm/kmem.c:135-157 | the counters of the layout, adding up to the total |
| `Kmem.Kmem.Validate` | kernel/mm/kmem.c:159-175 | accepts every valid heap, except one that ends with the address space, whose end wraps to zero |
| `LockDep.StackAscends` | kernel/sync/lockdep.c:18-43 | accepted acquisitions keep the stack strictly ascending; a class is accepted iff it is above everything held and there is room; release undoes acquire |
| `LockDep.AcquireAnswers` | kernel/sync/lockdep.c:18-32 | the one reason for each code: class zero, sixteen held, or a class held that is not below it; a refusal leaves the stack and counts |
| `LockDep.ReleaseAnswers` | kernel/sync/lockdep.c:33-43 | a release is accepted iff it undoes an accepted acquisition, and gives back the state before it; every other one leaves the stack, counts unless the class is zero, and names its reason |
| `LockDep.State.BeforeAcquire` | kernel/sync/lockdep.c:18-32 | the result code, the stack and the violation count, which wraps at 2^32 |
| `LockDep.State.AfterRelease` | kernel/sync/lockdep.c:33-43 | the result code, the stack and the violation count |
| `LockDep.State.IsHeld` | kernel/sync/lockdep.c:11-17 | membership in the stack |
| `Spinlock.MutualExclusion` | kernel/sync/spinlock.c:15-28 | over every interleaving no lock is held by two threads, and a lock word is set iff someone holds the lock |
| `Spinlock.ChainEnds` | kernel/sync/lockdep.c:24-27 | a wait-for chain climbs strictly through the classes to a thread that holds a lock and is not blocked |
| `Spinlock.NeverDeadlocks` | kernel/sync/spinlock.c:15-28 | in every reachable state with a waiting thread some lock holder can move; what its moves achieve is in `SpinlockProgress` |
| `SpinlockProgress.LockIsTried` | kernel/sync/lockdep.c:18-32 | a lock call goes to the gate iff the class is nonzero, above all classes held, and fewer than sixteen are held; else nothing but the violation count changes |
| `SpinlockProgress.WaiterEnters` | kernel/sync/spinlock.c:15-24 | a thread at the gate of an open lock holds it after its next own step, after two if it was spinning |
| `SpinlockProgress.BlockedSpins` | kernel/sync/spinlock.c:20-24 | at the gate of a taken lock a step changes nothing but that the thread is spinning |
| `SpinlockProgress.ReleaseTakesPlace` | kernel/sync/spinlock.c:25-28 | from every reachable state: an unlock call opens the last lock taken with its second own step and pops its class with the third, whatever the others do in between |
| `SpinlockProgress.WaiterGetsItsLock` | kernel/sync/spinlock.c:15-28 | from every reachable state with a waiting thread, unlock calls alone lead to that thread holding its lock |
| `SpinlockProgress.UnlocksDrain` | kernel/sync/spinlock.c:15-28 | under every schedule unlock calls drain the locks: such runs are bounded, and where they end every lock is open, nobody waits and every stack is empty |
| `Mutex.MutualExclusion` | kernel/sync/mutex.c:9-26 | over every interleaving of single accesses at most one thread is between its winning exchange and its store of locked = 0, and the mutex reads locked iff there is one |
| `Mutex.AnswersAreRight` | kernel/sync/mutex.c:9-26 | in every reachable state: the deadlock code only to the holder, busy and permission codes only to others, a refused unlock changes nothing, a completed unlock leaves no holder; when each call succeeds is in `Mutex.TryLockAnswers` and `Mutex.UnlockAnswers` |
| `Mutex.TryLockAnswers` | kernel/sync/mutex.c:9-18 | a whole try-lock from every reachable state, others running in between: Ok with the caller as owner iff nobody held the mutex at its exchange, the deadlock code iff the caller did, busy iff another did |
| `Mutex.UnlockAnswers` | kernel/sync/mutex.c:19-26 | a whole unlock by the holder, others running in between: Ok with its third access, and then nobody holds the mutex |
| `Mutex.RunSnoc` | kernel/sync/mutex.c:9-26 | a run takes its accesses one after the other |
| `Mutex.Handover` | tests/m12_sync_host_test.c:64-74 | the run of two threads from a free mutex: lock, busy, unlock, lock, with every state on the way |
| `RamDisk.InitAccepts` | kernel/block/ramblk.c:43-56 | the device is accepted iff the block size is a power of two from 512 on and the storage is a positive multiple of it |
| `RamDisk.NoSharedDigit` | kernel/block/ramblk.c:9-11 | v & (v - 1) is zero iff v is a power of two |
| `RamDisk.Init` | kernel/block/ramblk.c:43-56 | the code, and the device over that storage |
| `RamDisk.OffsetIsExact` | kernel/block/ramblk.c:13-18 | inside a validated range the 64-bit offset does not wrap |
| `RamDisk.OffsetWraps` | kernel/block/ramblk.c:16 | past the end it does, and only the range check of the block layer keeps such a block out |
| `RamDisk.Disk.Put` | kernel/block/ramblk.c:13-22 | the copy into storage, or the range error |
| `RamDisk.Disk.Get` | kernel/block/ramblk.c:13-22 | the copy out of storage, or the range error |
| `RamDisk.Disk.Write` | kernel/block/blk.c:31-35 | accepted iff the range is nonempty and inside the device, an empty range being invalid; then exactly those blocks become the buffer |
| `RamDisk.Disk.Read` | kernel/block/blk.c:25-29 | accepted under the same condition; then the buffer holds the range |
| `RamDriver.OneBlockWritten` | kernel/block/blk.c:31-35 | writing one block of a storage area writes that block of the disk it stands for |
| `RamDriver.Drivers.Read` | kernel/block/blk.c:25-29 | one block read through the real driver meets the contract that the cache assumes of a device |
| `RamDriver.Drivers.Write` | kernel/block/blk.c:31-35 | one block written through the real driver meets it too: exactly that block of that device changes |
| `BlockCache.Cache.Lookup` | kernel/block/bcache.c:9-15 | the first entry that holds the block |
| `BlockCache.Cache.FlushEntry` | kernel/block/bcache.c:17-23 | writes a dirty entry back; the view never changes, even when a failing driver leaves garbage in the block |
| `BlockCache.Cache.FindInvalid` | kernel/block/bcache.c:27-35 | the first invalid entry on the way once around from the hand, if there is one |
| `BlockCache.Cache.SelectVictim` | kernel/block/bcache.c:25-42 | an entry that is safe to overwrite: the first unused one from the hand, else the one under the hand; the hand moves behind it; eviction and failed eviction keep the view |
| `BlockCache.Cache.ReadBlock` | kernel/block/bcache.c:66-78 | returns the view; a read never changes it, whatever fails; a cached block is answered without touching a device, and while an entry is unused no device is written |
| `BlockCache.Cache.WriteBlock` | kernel/block/bcache.c:80-91 | changes the view at that block only, and only on success; the block is then cached and dirty; a cached block, or any while an entry is unused, is accepted without touching a device; it leaves an unflushable entry iff the block is beyond the device |
| `BlockCache.Cache.FlushAll` | kernel/block/bcache.c:93-100 | keeps the view; success means devices equal the view; it fails whenever a dirty entry lies beyond its device, and on devices that do not fail only then |
| `BlockCache.CleanMeansEqual` | kernel/block/bcache.c:93-100 | with nothing dirty the device is the view |
| `Scheduler.WaitsExactly` | kernel/mcsos_thread.c:144-203 | a thread at queue index k has moved up exactly by the number of successful switches and becomes current at switch k + 1 |
| `Scheduler.NobodyIsLost` | kernel/mcsos_thread.c:105-203 | conservation: over every run the threads known are those known before and those enqueued, less those that blocked |
| `Scheduler.GoneHasBlocked` | kernel/mcsos_thread.c:105-203 | and a thread that is gone was current when a block came |
| `Scheduler.RunKeepsWf` | kernel/mcsos_thread.c:105-203 | over every run the ready list has no duplicates and contains neither current nor idle |
| `Scheduler.Sched.Enqueue` | kernel/mcsos_thread.c:105-123 | result code by magic and state; success appends; a queued thread is accepted as well, and validation still succeeds afterwards iff the thread was not queued |
| `Scheduler.CutIsCorrupt` | kernel/mcsos_thread.c:112-121 | the list that enqueueing a queued thread leaves, truncated or going round in its tail, is never accepted |
| `Scheduler.Sched.PickNext` | kernel/mcsos_thread.c:125-142 | removes and returns the head, or idle |
| `Scheduler.Sched.YieldTo` | kernel/mcsos_thread.c:144-173 | the switch on the intrusive list, thread states included |
| `Scheduler.Sched.BlockCurrent` | kernel/mcsos_thread.c:184-193 | idle may not block; anyone else leaves the processor and the queue |
| `Scheduler.Sched.MarkReady` | kernel/mcsos_thread.c:195-203 | wakes exactly blocked threads, so no thread is queued twice |
| `Scheduler.Sched.Validate` | kernel/mcsos_thread.c:218-246 | terminates on every list of known threads and answers what its walk finds |
| `Scheduler.LinkedVerdict` | kernel/mcsos_thread.c:218-246 | a well-linked scheduler is accepted iff its current thread is not queued |
| `Scheduler.ValidVerdict` | kernel/mcsos_thread.c:218-246 | validation succeeds on every valid scheduler |

## Left out

- Devices of other sizes in MCSFS1J: `total_blocks` is 128, as `m16_dev_init` sets it.
- JournalCrash.CutRecovery: assumes that pending records aim outside LBAs 1 to 1 + 2 * count, their own log, which every operation of the code keeps; `JournalCrash.SelfTargetRun` shows what happens otherwise. `JournalCrash.RecoverySurvivesCrashes` and `JournalFsRuns.FsckDecidesGood` assume the same; `JournalFsRuns.FsckLeavesGood` needs no assumption.
- JournalCorruption.FirstBadRecord: assumes that the records before the bad one aim outside their own log; `JournalCorruption.RefusedIffSomeRecordBad`, `JournalCorruption.PayloadDamageDetected` and the descriptor results assume it of all intact records. `JournalCorruption.AnyLog` states the outcome of one recovery without it.
- Torn block writes and failing reads in both file systems: a block write happens or does not, and flushing always succeeds.
- JournalFs.ReadFile: reports an inode size over one block as corrupt, where the C code would copy past its buffer; fsck refuses such disks.
- Mcsfs1.ReadNamed: reports an inode size over eight blocks as corrupt, where the C code would index past the pointers; fsck refuses such disks.
- NULL-pointer checks, uninitialised schedulers, and a current thread with a damaged magic number, which the invariant excludes: not modelled, except where a NULL result or argument is part of the interface.
- The byte behind MCSFS1's directory buffer on the stack: a parameter (`past`), over which every statement ranges.
- Blocks leaked by a no-space write or a crash in MCSFS1: allowed by the model as by the code; nothing claims that every marked block is owned.
- The generation number and the sequence numbers of the journal: written, never used to decide anything.
- `reserved_frames` and `ignored_frames` of the frame allocator: statistics that freeing does not maintain.
- Pmm.Pmm.AllocFrame: does not contain the second, wrapped-around search loop, because with a true hint the first loop always finds a frame when one is free; the method proves that point unreachable.
- Pmm.Pmm.InitFromMap: models region types as usable or not, which is all the function distinguishes.
- Physical addresses at or above 2^52 and a partial or aliasing `phys_to_virt`: the page tables live at distinct addresses below 2^52, so the error exits for a null translation are not modelled.
- `vmm_space_init`: its argument checks; the constructor takes an aligned root in a frame the allocator marked used, zeroed by the caller. TLB invalidation is a no-op.
- Kmem.Kmem.Init: takes a region inside the address space; a region that wraps around it is no memory.
- Kmem.Kmem.Alloc: is stated on a list that is intact; what a call does on a list that an earlier wrapped split has destroyed is not modelled, since the walk may never end.
- Kmem.Kmem.FreeChecked: covers every address except an arena address that is no current payload, whose preceding 40 bytes read as the header of a used block and whose flag word meets a real header; there the store damages that header.
- Wrap-around of 64-bit block counts and scheduler counters: counters are natural numbers there.
- Weak memory order: atomic accesses are sequentially consistent, one step each.
- Lock names, and lock or mutex initialisation: no property depends on them.
- Spinlock.MutualExclusion: assumes that threads ask the checker first and release in LIFO order, as the checker demands.
- BlockCache.Devices.Read: stands for any driver; a device is identified by its index instead of its address, and transfers of more than one block are left to `RamDisk`; `RamDriver` shows that the memory-backed driver meets the contract.
- The device registry, stack preparation of threads, context switching, and the reporting of switch counts per thread.
- Scheduler.Sched.YieldTo: is stated on a list that is intact; runs that go on after a queued thread was enqueued are not modelled.
- Interrupts, drivers, the VFS, the ELF loader and the system calls: chains of independent checks or hardware access.
