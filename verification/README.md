# xv6 kernel, file system and shell: a verification model

This project models the hard parts of an xv6-riscv kernel that has been extended with copy-on-write
fork, page reference counts and several schedulers, together with its user-level allocator, its shell
parser and the program that builds its file system image. `dafny verify dfyconfig.toml` checks it.

Each part comes in two layers. A value layer defines the state, the steps and the invariants, and
proves what holds over every input and every run. A code layer (modules whose names end in `Code`,
and the classes `LogDevice`, `Log`, `Bcache`, `Image`, `Allocator`, `Scheduler`) follows the C code
statement by statement, with fields updated in place and loops, and is proved to compute what the
value layer says; its contracts also give the outcome on the class's own fields, with the source's
numbers.

| files | part of the system |
|---|---|
| `Log`, `LogReservation` | the redo log: crash atomicity, group commit, log space |
| `BufferCache`, `LruList` | the block cache and its LRU list |
| `FsBlocks`, `FsTruncate`, `FsFiles`, `FsCode`, `Mkfs`, `FsTorn` | block ownership, files as byte arrays, the log budget of a write, the initial image, a torn write |
| `FsCrash` | the file system on disk blocks over the redo log: crash consistency |
| `CowMemory`, `CowFork`, `CowRun`, `CowInvisible`, `CowConservation`, `CowCode` | page reference counts and copy-on-write fork |
| `PageTable`, `PageTableCode` | the three-level Sv39 page table as a flat map (section 4.4 of the RISC-V Privileged Architecture) |
| `SleepWakeup`, `SleepLock` | sleep and wakeup, and sleep locks built on them |
| `ProcessTree`, `ProcessTableCode` | fork, exit, reparent and wait |
| `Mlfq`, `Lottery` | two of the schedulers |
| `Virtio`, `VirtioCode` | the disk driver's descriptor protocol (sections 2.6 and 5.2 of VIRTIO 1.1) |
| `Heap`, `Malloc` | malloc and free (section 8.7 of The C Programming Language, second edition) |
| `Shell`, `ShellGrammar`, `ShellCode` | the shell's parser, its language as a relation, and its printer |

Conventions. Concurrent code is a machine whose steps are the stretches a lock makes atomic, taken in
any order; a run is any finite sequence of steps, and an action that is not possible leaves the state
alone. A panic is a result value, so that its being unreachable is a statement. Integers are unbounded
and 16-bit or 32-bit wrap is written out where it matters. Device, clock, `rand` and `sbrk` are
parameters or free choices of a step. Constants such as LOGSIZE, NBUF, NPROC, NUM, the page size and
the number of blocks are parameters; the block size and the shape of an inode are the source's.

Where the code does not have a property that its comments or its design suggest, the model keeps the
code and states the exact condition:

- mkfs makes a log region of LOGSIZE blocks, header included, and log_write tests for a full log before it
  looks for the block. Whether a log_write can panic depends on how many new blocks an operation adds at
  most (`LogReservation.LogRegionCondition`, `LogReservation.AbsorptionCondition`): on mkfs's images none can
  exactly if that is less than MAXOPBLOCKS (`LogReservation.MkfsLogCondition`). An operation of filewrite
  adds at most seven there, as they have one bitmap block (`FsCode.FileSystem.WriteOp`).
- mkfs rounds the root directory's size up even when it fills its last block, and then the size covers
  a block that was never allocated (`Mkfs.RootFixedCondition`, `Mkfs.MakeImage`, `Mkfs.SixtyTwoFiles`).
- A writei whose user copy fails half-way leaves bytes in the file that it does not count
  (`FsFiles.CleanCondition`, `FsFiles.FileCleanCondition`, `FsTorn.TornWrite`).
- A store to address 0 that succeeds before a fork is fatal after it (`CowInvisible.KillCondition`,
  `CowInvisible.ForkKillsAtZero`).
- copyout gives the process its own copy of the first page only (`CowRun.CopyoutCondition`).
- uvmcopy marks read-only pages copy-on-write as well, so a store to one after fork is let through
  (`CowInvisible.ReadOnlyStoreCondition`, `CowInvisible.ForkUnlocksReadOnly`).
- A turn in MLFQ queue 4 is charged from a dispatch that happened before the process came there
  (`Mlfq.ChargeCondition`).

## Model

| member | source | states |
|---|---|---|
| RedoLog.HeadRoundTrip | kernel/log.c:85-114 | A header written by write_head is read back unchanged by read_head, whatever stood in the rest of the block. |
| RedoLog.RedoAfterPrefix | kernel/log.c:68-83 | Redoing a list of block writes after any prefix of it was already done gives the same disk as doing it once. |
| RedoLog.InstallKeepsLog | kernel/log.c:68-83 | install_trans writes home blocks only: the log region, header included, stays as it was. |
| RedoLog.PartialRecovery | kernel/log.c:116-123 | A recovery cut after any number of its writes leaves a disk that recovers to the same home blocks. |
| RedoLog.CompleteRecovery | kernel/log.c:116-123 | A recovery that completes empties the log and leaves exactly the recovered home blocks. |
| RedoLog.AfterWriteLog | kernel/log.c:177-191 | write_log cut after k writes has changed log blocks only, and the first k hold the cached contents of the first k logged blocks. |
| RedoLog.InstallGivesCache | kernel/log.c:67-83 | Installing every logged block turns the old home blocks into the cached ones. |
| RedoLog.CommitEndsAsRecovery | kernel/log.c:193-203 | Everything commit does after its header write is exactly what recovery would do on that disk. |
| RedoLog.CommitPoint | kernel/log.c:193-203 | Cut commit after any k disk writes: the disk recovers to the new home blocks if the non-empty header is among them and to the old ones otherwise. |
| RedoLog.CrashAtomicity | kernel/log.c:116-203 | Cut commit anywhere, let recovery crash any number of times at any points, then complete once: home blocks are all new exactly if the header write reached the disk, and all old otherwise. |
| RedoLog.CommitInstalls | kernel/log.c:193-203 | A commit that is not interrupted empties the log and leaves the cached contents in the home blocks. |
| RedoLog.HistoryKeepsLastDurable | kernel/log.c:116-203 | Over every history of commits, cut commits and crashed recoveries, the home blocks are those of the last transaction whose header reached the disk. |
| RedoLog.LogDevice.constructor | kernel/log.c:54-65 | A machine just started: nothing cached, no write issued. |
| RedoLog.LogDevice.CopyBlock | kernel/log.c:72-82 | The body of both copying loops issues one write, of the source block's cached contents to the destination. |
| RedoLog.LogDevice.WriteLog | kernel/log.c:177-191 | The loop issues exactly the writes of LogWrites for the in-memory header, in order. |
| RedoLog.LogDevice.WriteHead | kernel/log.c:99-114 | One write, of the in-memory header into the header block. |
| RedoLog.LogDevice.InstallTrans | kernel/log.c:67-83 | The loop issues exactly the writes of InstallWrites, in order, from what the log blocks hold. |
| RedoLog.LogDevice.Commit | kernel/log.c:193-203 | The disk writes of commit are those of CommitWrites in order, and for every k the disk after k of them, which is what a crash there leaves, is the one CrashAtomicity speaks of. |
| RedoLog.LogDevice.ReadHeader | kernel/log.c:85-97 | The in-memory header becomes the one on disk, block numbers and count. |
| RedoLog.LogDevice.Recover | kernel/log.c:116-123 | The writes of recover_from_log are those of RecoverWrites, the disk after any k of them is the one PartialRecovery speaks of, and it leaves an empty log. |
| LogReservation.StepKeepsInv | kernel/log.c:126-175 | begin_op, log_write, end_op and the end of commit keep: logged blocks plus unused reservations at most LOGSIZE, block numbers distinct, no operation active during a commit. |
| LogReservation.ReservationHolds | kernel/log.c:126-235 | Over every interleaving of operations that stay within MAXOPBLOCKS, the reservation holds and commit runs with no operation outstanding. |
| LogReservation.EndOpNeverPanics | kernel/log.c:146-175 | end_op never finds a commit under way: its panic is unreachable. |
| LogReservation.NewBlockFits | kernel/log.c:214-235 | With log.size > LOGSIZE, a log_write of a block not yet logged, inside its operation's budget, never panics. |
| LogReservation.PanicMeansLogFull | kernel/log.c:214-235 | With log.size > LOGSIZE, a log_write that panics is of a block already logged, in a log that holds LOGSIZE blocks. |
| LogReservation.PeakHolds | kernel/log.c:126-235 | Over every interleaving the log holds no more than the peak, and an operation below its budget finds it below the peak. |
| LogReservation.FillLog | kernel/log.c:126-142 | Two operations that use their budgets beside each other can fill the log with any number of blocks up to the peak, LOGSIZE less twice what a reservation exceeds the budget by. |
| LogReservation.LogRegionCondition | kernel/log.c:214-235 | For every budget of new blocks per operation up to MAXOPBLOCKS and every log.size: no log_write of a new block panics if and only if the peak is less than log.size. |
| LogReservation.AbsorptionCondition | kernel/log.c:220-229 | For every budget and every log.size: no log_write at all panics if and only if the peak is less than LOGSIZE and less than log.size - 1, because the full test comes before absorption. |
| LogReservation.MkfsLogCondition | mkfs/mkfs.c:25 | On the images mkfs makes, where log.size is LOGSIZE = 3 * MAXOPBLOCKS, no log_write panics if and only if every operation adds fewer than MAXOPBLOCKS new blocks. |
| LogReservation.AdmissionCondition | kernel/log.c:126-142 | A state with k operations admitted can be reached if and only if k * MAXOPBLOCKS <= LOGSIZE: begin_op neither admits too many nor holds back one that fits. |
| LogReservation.Log.Begin | kernel/log.c:126-142 | One turn of begin_op's loop, on the log's own fields: the operation is admitted exactly if no commit is under way and the logged blocks plus MAXOPBLOCKS for each admitted operation and for this one fit in LOGSIZE; otherwise it sleeps. |
| LogReservation.Log.Write | kernel/log.c:214-235 | Panics exactly outside an operation or if the header holds LOGSIZE or size - 1 blocks; otherwise the block is appended exactly if it is not in the header yet. |
| LogReservation.Log.End | kernel/log.c:146-166 | One operation fewer; the panic exactly during a commit; the caller commits exactly if it was the last. |
| LogReservation.Log.FinishCommit | kernel/log.c:167-174 | After commit the log is empty and open again. |
| BufferCache.VictimIsClean | kernel/bio.c:76-87 | A buffer nobody refers to and the log does not pin is never the only copy of new contents, so recycling it loses nothing. |
| BufferCache.StepKeepsInv | kernel/bio.c:58-151 | Every step of bget, bread, bwrite, brelse, bpin, bunpin, log_write and install_trans keeps the agreement between cache, disk and logical disk. |
| BufferCache.LogWriteKeepsInv | kernel/log.c:214-235 | log_write pins a block it adds to the header, so a dirty block stays protected after its lock is released. |
| BufferCache.WriteBackKeepsInv | kernel/log.c:72-82 | Writing a pinned block home makes disk and cache agree on it. |
| BufferCache.UnpinKeepsInv | kernel/bio.c:146-151 | Unpinning an installed block keeps the agreement: it no longer differs from the disk. |
| BufferCache.CacheAgreement | kernel/bio.c:58-103 | Over every interleaving: a block is in at most one buffer, a valid buffer holds the newest contents, and an unlocked one that differs from disk is named in the log header and pinned. |
| BufferCache.BlockStaysInUse | kernel/bio.c:58-151 | Over every interleaving, a buffer keeps its block as long as one bread call has not released it. |
| BufferCache.LockedStays | kernel/bio.c:92-103 | Over every interleaving, nobody but the holder of a buffer's sleep-lock changes its block or contents. |
| BufferCache.BreadDelivers | kernel/bio.c:92-103 | Over every interleaving, bread of a block whose buffer is not locked returns it locked, valid and with the newest contents of that block, whether it was cached or not. |
| BufferCache.LoggedIsKept | kernel/log.c:214-235 | Over every interleaving, a change passed to log_write is the newest contents, named in the log header and pinned, and may be released. |
| BufferCache.WrittenIsKept | kernel/bio.c:105-112 | A change passed to bwrite is on the disk. |
| LruList.Unlink | kernel/bio.c:126-129 | Taking a node out of the doubly linked ring leaves the other nodes linked in their order. |
| LruList.PushFront | kernel/bio.c:129-132 | Putting a node at the head of the ring links it before all others. |
| LruList.LeastRecent | kernel/bio.c:76-79 | The unreferenced buffer nearest the tail is the one released longest ago. |
| LruList.Bcache.constructor | kernel/bio.c:36-53 | binit builds one ring of all buffers. |
| LruList.Bcache.FindCached | kernel/bio.c:65-73 | The forward scan finds the buffer of the block if there is one. |
| LruList.Bcache.FindUnused | kernel/bio.c:76-87 | The backward scan finds the least recently released unreferenced buffer, or shows all are in use. |
| LruList.Bcache.Bget | kernel/bio.c:58-89 | The buffer of the block with its count raised, or the least recently used free buffer reassigned; no other buffer changes. |
| LruList.Bcache.MoveFirst | kernel/bio.c:126-132 | The six pointer writes move one buffer to the front and keep the ring. |
| LruList.Bcache.Brelse | kernel/bio.c:116-137 | The count drops, and a buffer that becomes free becomes the most recently used. |
| FsBlocks.SetWordReads | kernel/fs.c:409-412 | An indirect entry stored as four little-endian bytes is read back, and no other entry of the block changes. |
| FsBlocks.OwnedExactlyOnce | kernel/fs.c:65-105 | Under the invariant, a data block whose bit is set is in exactly one slot, a clear one in none, and no slot names a bitmap or inode block. |
| FsBlocks.StoreReads | kernel/fs.c:382-421 | Storing a freshly allocated block in a slot changes that slot and no other. |
| FsBlocks.StoreKeepsInv | kernel/fs.c:382-421 | balloc followed by storing the address keeps the ownership invariant, for direct, indirect-pointer and indirect-entry slots. |
| FsBlocks.StoreKeepsBytes | kernel/fs.c:50-88 | Allocation is invisible in every file: new blocks read as zeros. |
| FsBlocks.BmapResult | kernel/fs.c:382-421 | bmap, also when the disk fills up half-way: invariant kept, no file changed, the address in the slot returned, 0 only from a full disk, and no change at all if the block was there. |
| FsBlocks.BmapLogs | kernel/fs.c:382-421 | One bmap hands the log at most a bitmap block for the data block and one for the indirect block, the data block and the indirect block. |
| FsBlocks.BmapLogged | kernel/fs.c:382-421 | Every block whose contents on disk one bmap changes, the inode's own apart, is logged: bitmap, new blocks, indirect block. |
| FsTruncate.ClearDirectKeepsOwned | kernel/fs.c:432-437 | Freeing one direct block empties its slot, clears its bit, and changes no other slot; the bit was set. |
| FsTruncate.FreeEntriesResult | kernel/fs.c:439-446 | After j rounds exactly the blocks in entries below j are free and no other bit has moved. |
| FsTruncate.EntryStillAllocated | kernel/fs.c:91-105 | Each entry's block is still allocated when its turn comes: the freeing-free-block panic is unreachable. |
| FsTruncate.TruncateResult | kernel/fs.c:423-453 | itrunc keeps the invariant, empties the file, frees exactly the blocks that belonged to it and leaves every other file and inode alone. |
| FsTruncate.TruncateLogged | kernel/fs.c:423-453 | Every bitmap bit and inode that itrunc changes is in a block it has logged. |
| FsFiles.PokeBytes | kernel/fs.c:511-525 | Writing part of a data block changes just those bytes of the one file it belongs to. |
| FsFiles.SpliceSplice | kernel/fs.c:505-539 | Writing two adjacent pieces is writing them as one. |
| FsFiles.WriteRound | kernel/fs.c:515-527 | One round of writei extends what is written, keeps all other bytes of all files, and stays within the log budget. |
| FsFiles.BudgetTotal | kernel/fs.c:505-539 | A write logs at most two blocks for every block it reaches into, plus three, less one if it starts inside a block; and at most one for each, plus the bitmap blocks there are, plus two. |
| FsFiles.ChunkFits | kernel/file.c:148-175 | That bound is at most MAXOPBLOCKS for every filewrite chunk, at any offset and for any number of bitmap blocks; a chunk reaches into four blocks at most. |
| FsFiles.WriteDone | kernel/fs.c:505-539 | A finished write is a splice of the file's bytes, also when the last copy failed half-way, with its size, inode copy, other files and log as they should be. |
| FsFiles.TearRound | kernel/fs.c:519-525 | A copy that fails leaves the bytes before the fault in the buffer, logs nothing more and counts nothing. |
| FsFiles.TornCondition | kernel/fs.c:519-539 | A write that counts tot bytes but has put down more leaves what a write of tot bytes would, whatever the bytes are, if and only if nothing was spilled or it lies past the end of the file. |
| FsFiles.EndsWhere | kernel/fs.c:515-529 | What writei counts and what it leaves in the buffers follow from offset, length and readable bytes; on a full disk it may stop sooner, but only past the end of the file and with nothing left over. |
| FsFiles.CleanCondition | kernel/fs.c:505-539 | However writei ends, it leaves what a write of the bytes it counts would have left, for all bytes, if and only if all bytes can be read, or the fault is at the start of a block, or that block starts at or past the end of the file: a condition on offset, length, readable bytes and file size. |
| FsFiles.FileCleanCondition | kernel/file.c:135-181 | The same for filewrite, where the fault may also be at the start of an operation. |
| FsTorn.TornWrite | kernel/fs.c:519-525 | On an image mkfs makes, a writei of one block over a file of one block, of which 100 bytes can be read, returns 0 and leaves those 100 bytes in the file. |
| FsCode.FileSystem.Balloc | kernel/fs.c:62-88 | The first clear bit of the bitmap, marked, zeroed and logged; 0 and no change if there is none. |
| FsCode.FileSystem.Bfree | kernel/fs.c:90-105 | Clears one set bit; the panic on a clear one. |
| FsCode.FileSystem.BmapTo | kernel/fs.c:382-421 | The code computes Bmap: state and address, on every path. |
| FsCode.FileSystem.Itrunc | kernel/fs.c:423-453 | The two loops compute Truncate, and no panic is reached. |
| FsCode.FileSystem.Readi | kernel/fs.c:471-496 | Returns exactly the slice of the file asked for, clipped to its size, or fails exactly if the user's buffer cannot take that much; although it calls bmap it changes nothing on disk or in memory. |
| FsCode.FileSystem.Writei | kernel/fs.c:505-539 | Rejected exactly past the end or past the maximum size; otherwise a splice that is complete, or stops at the first block a full disk cannot give, past the end of the file, or stops in the round where the user's bytes cannot be read, counting the rounds before it; every block it changes is logged, but for the bytes a failed copy leaves. |
| FsCode.FileSystem.WriteOp | kernel/file.c:161-166 | One begin_op to end_op of filewrite: it fails exactly if writei rejects it, otherwise it ends as writei does; it hands the log at most MAXOPBLOCKS distinct blocks, at most seven where there is one bitmap block, and those cover everything it changed; the offset advances by what was counted. |
| FsCode.FileSystem.Filewrite | kernel/file.c:135-181 | The bytes go in at the file offset, all of them exactly if the write is accepted, can be read and the disk does not fill up; otherwise how many are counted and left in the file follows from offset, length and readable bytes unless the disk fills up; every operation fits its reservation. |
| FsCode.FileSystem.Fileread | kernel/file.c:104-131 | The next bytes of the file, with no change to the disk, so it needs no transaction; the offset stays where it was if the copy fails. |
| FsCrash.HoldsOne | kernel/fs.h:8-48 | Laid out in 32-bit words of disk blocks, two file systems on the same disk have the same bitmap, inodes and data blocks. |
| FsCrash.FormatConsistent | mkfs/mkfs.c:92-173 | A file system that satisfies the invariant, laid out on a disk with a log of zeros, is a state histories start from. |
| FsCrash.NextConsistent | kernel/log.c:116-203 | A transaction that commits, or is cut after any write with any number of cut recoveries, takes a disk that holds a sound file system to one that does. |
| FsCrash.CrashConsistent | kernel/log.c:116-203 | Over every history of committed and cut transactions and cut recoveries, the log is empty and the disk holds a file system that satisfies the invariant, with bitmap, inodes and block addresses as the last transaction that reached the disk left them, even if user copies failed half-way. |
| FsCrash.CrashKeepsFiles | kernel/log.c:116-203 | If no user copy failed half-way, every byte of every file on the recovered disk is as the last transaction that reached the disk left it. |
| FsCrash.OperationsTogether | kernel/log.c:126-175 | Operations admitted to one commit log together everything they changed together. |
| FsCrash.WriteTransaction | kernel/file.c:161-166 | A filewrite operation from a consistent state is such a transaction, also with a user copy that fails, and logs the file's bytes too if all can be read. |
| FsCrash.TruncateTransaction | kernel/fs.c:423-453 | An itrunc whose blocks fit the log is such a transaction. |
| Mkfs.RootFixedCondition | mkfs/mkfs.c:163-168 | Rounding the root directory's size up keeps the invariant if and only if its size is not already a multiple of the block size. |
| Mkfs.SixtyFourEntries | mkfs/mkfs.c:163-168 | A directory of 64 entries, rounded up, covers a second block that was never allocated. |
| Mkfs.SixtyTwoFiles | mkfs/mkfs.c:92-173 | mkfs with its own FSSIZE, NINODES and LOGSIZE and any 62 files of at most one block succeeds, and the image breaks the invariant. |
| Mkfs.WithInodeKeepsInv | mkfs/mkfs.c:220-232 | A new empty inode keeps the invariant and every file. |
| Mkfs.Image.constructor | mkfs/mkfs.c:92-115 | The zeroed image with the computed layout satisfies the invariant, with every inode free and every byte of every file 0. |
| Mkfs.Image.Ialloc | mkfs/mkfs.c:220-232 | The next inode number, with an empty inode of that type. |
| Mkfs.Image.TakeTo | mkfs/mkfs.c:266-283 | Computes what the kernel's bmap would, and has room exactly if the blocks missing, data and indirect, are left in the image. |
| Mkfs.NeedIsGrowth | mkfs/mkfs.c:266-283 | The blocks missing at the end of a file are those by which its block count, a function of its size, grows. |
| Mkfs.Image.Iappend | mkfs/mkfs.c:252-294 | Succeeds exactly if the file stays within MAXFILE blocks and the image has the blocks its new size takes; then it is what the kernel's writei at the end of the file would have built, and no other byte of any file has changed. |
| Mkfs.Image.FixRoot | mkfs/mkfs.c:163-168 | The new size, and when the invariant survives it. |
| Mkfs.Image.WriteBitmap | mkfs/mkfs.c:234-248 | The bitmap has exactly the first freeblock bits set; the assertion holds exactly if they fit in one block. |
| Mkfs.AddFile | mkfs/mkfs.c:150-158 | Succeeds exactly if the directory takes one entry more, the file is not too long and there are blocks for both; then the image holds what it held, the entry and the file's bytes. |
| Mkfs.RoomNext | mkfs/mkfs.c:92-173 | Room for all files is room for the first ones and, in what they left, for the next. |
| Mkfs.MakeImage | mkfs/mkfs.c:92-173 | The whole of mkfs succeeds exactly if every file and the directory are short enough, the blocks they take fit FSSIZE and one bitmap block covers them; the image then holds exactly the directory and the files, and satisfies the file system's invariant if and only if two plus the number of files is not a multiple of 64. |
| CowMemory.KallocKeepsInv | kernel/kalloc.c:102-126 | kalloc keeps page conservation: counts equal leaf mappings plus kernel references and the free list holds exactly the count-0 pages, once each. |
| CowMemory.FreeKernelKeepsInv | kernel/kalloc.c:68-97 | kfree of a kernel reference keeps it; the page is freed exactly when the count reaches 0. |
| CowMemory.UnmapKeepsInv | kernel/vm.c:186-190 | Removing a leaf mapping and its reference keeps it. |
| CowMemory.MapFreshKeepsInv | kernel/vm.c:236-246 | Mapping a page just allocated keeps it. |
| CowMemory.DowngradeKeepsInv | kernel/vm.c:319-322 | Clearing PTE_W and setting PTE_COW keeps it. |
| CowMemory.LinkKeepsInv | kernel/vm.c:325-329 | Mapping the parent's page in the child with incRef keeps it. |
| CowMemory.ResolveKeepsInv | kernel/trap.c:106-121 | Giving a faulting process its own copy keeps it, and no process reads anything different. |
| CowFork.UnmapRangeRemoves | kernel/vm.c:170-192 | uvmunmap removes exactly the mappings of the range and keeps conservation. |
| CowFork.CopyLoopResult | kernel/vm.c:305-336 | uvmcopy over every way memory can run out: the child reads what the parent does or has no pages, and nobody's contents change. It succeeds if and only if there is a free page for each page-table page the copy needs, and then takes exactly those; a failure has used up the free list. |
| CowFork.CopyLoopMarks | kernel/vm.c:305-336 | The PTEs outside the child: all of the parent's on success, those up to the page it failed at otherwise, have PTE_COW for PTE_W, and every other PTE is untouched; it fails at the first page whose page-table pages are not to be had. |
| CowFork.FailedCopyRestores | kernel/vm.c:333-336 | A failed uvmcopy leaves every leaf mapping of every process (write permission aside) and every data page's count as they were. |
| CowFork.GrowLoopResult | kernel/vm.c:225-249 | uvmalloc over every way memory can run out: all new pages zero and with the permission asked for, or none of them, and all else as it was. It succeeds if and only if the new pages and the page-table pages they need are free, and then takes exactly that many. |
| CowFork.FailedGrowRestores | kernel/vm.c:236-245 | A failed uvmalloc leaves the page table, contents and counts as they were. |
| CowRun.StoreKeeps | kernel/trap.c:71-122 | A store either kills the process or changes what it alone reads at that address; conservation is kept. |
| CowRun.CopyBytesOwn | kernel/vm.c:403-416 | copyout's loop delivers the bytes to the copying process and touches no frame it does not map. |
| CowRun.UnsharedDelivers | kernel/vm.c:354-418 | If no page written after the first is shared, copyout changes what the right process reads and nobody else. |
| CowRun.SharedLeaks | kernel/vm.c:403-416 | If one is shared, there are bytes for which another process sees the write. |
| CowRun.CopiesPrefix | kernel/vm.c:403-416 | A copyout that fails on the way is one of the bytes up to the first page it cannot reach. |
| CowRun.CopyoutCondition | kernel/vm.c:354-418 | Any copyout, also one that fails on the way, is private for all contents of the bytes it writes if and only if every later page it writes is unshared; how many it writes, and whether it succeeds, follows from the page table and the length. |
| CowInvisible.StepAgrees | kernel/vm.c:305-336 | Given the outcome, each step of the copy-on-write machine leaves the same contents as in a machine that copies at fork. |
| CowInvisible.CopyOnWriteIsInvisible | kernel/vm.c:305-418 | Over every run of forks, stores to pages that were writable, single-page copyouts, growth and shrinking, every process reads what it would under eager copying; a PTE with PTE_W maps a page with one mapping. |
| CowInvisible.StoreSurvives | kernel/trap.c:71-122 | A store survives if and only if the page is a user page with PTE_W, or with PTE_COW when a page is free and the address is not 0. |
| CowInvisible.KillCondition | kernel/trap.c:71-122 | In a run, an action kills its process if and only if it is a store to a shared page with no page free, or to address 0 of a shared page. |
| CowInvisible.ForkKillsAtZero | kernel/trap.c:78-82 | A store to address 0 that succeeds before a fork is fatal after it, in parent and child, and copyout to page 0 always fails: two ways in which the fork shows. |
| CowInvisible.ReadOnlyStoreCondition | kernel/trap.c:92-104 | With memory to spare, a store to a user page without PTE_W is let through if and only if the page is marked copy-on-write. |
| CowInvisible.ForkUnlocksReadOnly | kernel/vm.c:319-322 | After a successful fork even pages that were read-only accept stores: the counterexample to equal permissions. |
| CowConservation.StepKeepsInv | kernel/kalloc.c:31-126 | Any fork, store, copyout of any length, growth, unmapping, kalloc or kfree keeps page conservation, also when memory runs out or the process is killed. |
| CowConservation.ConservedInEveryRun | kernel/kalloc.c:31-126 | Over every run of those from the memory kinit leaves: each count is the leaf mappings plus the kernel's references, the free list holds exactly the pages with count 0 and each once, the panics of kalloc and of kfree on a page somebody holds cannot happen next, and when everything has been given back every page is free again. |
| CowCode.Memory.constructor | kernel/kalloc.c:45-62 | kinit and freerange leave every managed page on the free list once, with count 0. |
| CowCode.Memory.IncRef | kernel/kalloc.c:31-43 | Raises one count; panics on a bad address. |
| CowCode.Memory.Kfree | kernel/kalloc.c:68-97 | The panic exactly on a page that is not managed or has no reference; otherwise the count drops by one, and exactly from 1 the page is filled with ones and becomes the head of the free list. |
| CowCode.Memory.Kalloc | kernel/kalloc.c:102-126 | The head of the free list with count 1 and filled with fives, None exactly if there is none; its panic is unreachable under conservation. |
| CowCode.Memory.Uvmunmap | kernel/vm.c:170-192 | The loop computes UnmapRange. |
| CowCode.Memory.Uvmcopy | kernel/vm.c:305-336 | Succeeds if and only if the free pages are at least the page-table pages needed, and takes exactly that many. On success parent and child map the pages through the same PTEs, with PTE_COW for PTE_W; on failure the child maps nothing. No PTE of another process changes. The loop and its error path compute CopyLoop. |
| CowCode.Memory.Uvmalloc | kernel/vm.c:225-249 | Succeeds if and only if the free pages are at least the new pages plus the page-table pages they need, and takes exactly that many; a failure leaves the page table as it was. The loop and both error paths compute GrowLoop. |
| CowCode.Memory.HandleStoreFault | kernel/trap.c:71-122 | The process survives exactly if the address is not 0, the page is a user page with PTE_COW and without PTE_W, and there is a free page; then its PTE points at that page, writable and without PTE_COW. The branch computes StoreFault. |
| CowCode.Memory.CopyoutToUser | kernel/vm.c:354-418 | The code computes Copyout. |
| PageTable.PteWordRoundTrip | kernel/riscv.h:348-353 | On 64-bit words, PA2PTE with ten flag bits gives back the page address and the flags. |
| PageTable.EncodeDecodes | kernel/riscv.h:348-353 | The arithmetic form of an entry gives back page number and flags, and tells leaf from pointer. |
| PageTable.Unshared | kernel/vm.c:271-287 | No page-table page hangs in two places. |
| PageTable.AttachTables | kernel/vm.c:95-99 | A new page-table page adds one place to the tree and moves no other. |
| PageTable.AttachKeepsInv | kernel/vm.c:95-99 | The tree stays an unshared tree apart from the free pages. |
| PageTable.AttachLookup | kernel/vm.c:95-99 | A new page-table page changes no translation. |
| PageTable.SetEntryLookup | kernel/vm.c:156-158 | Writing the entry walk returned changes that page's translation and no other. |
| PageTable.SetEntryKeepsInv | kernel/vm.c:156-158 | Writing a leaf entry, or clearing one, keeps the tree. |
| PageTableCode.AddressSpace.constructor | kernel/vm.c:194-205 | An empty table maps nothing. |
| PageTableCode.AddressSpace.Walk | kernel/vm.c:85-103 | Returns the entry of the page, or none; no translation changes even when an allocation fails, and without alloc nothing changes. With alloc it succeeds if and only if there is a free page for each missing level, and takes exactly those. |
| PageTableCode.AddressSpace.MapOne | kernel/vm.c:154-158 | One page of mappages: remap exactly if the page is mapped, out of memory exactly if the free pages are fewer than the missing levels; otherwise the one entry is written. |
| PageTableCode.AddressSpace.Mappages | kernel/vm.c:142-165 | Writes the entries of a prefix of the range, all of it on success, and no other translation changes however it ends; no page is lost between the free list and the tree. |
| PageTableCode.AddressSpace.Uvmunmap | kernel/vm.c:170-192 | Gets through exactly if the range is aligned and fully mapped; then those translations are gone, no other changed, and the frames were freed in order. |
| PageTableCode.AddressSpace.Freewalk | kernel/vm.c:269-287 | Gets through exactly if nothing below is mapped, and then each page-table page there has been freed once. |
| PageTableCode.AddressSpace.Uvmfree | kernel/vm.c:289-297 | Gets through exactly if the pages mapped are the first npages; then every page-table page has been freed exactly once. |
| SleepWakeup.StepKeepsInv | kernel/proc.c:1028-1078 | Every statement of sleep and wakeup, dispatch and kill keeps: each lock has the holder its place says, and a wakeup leaves nobody asleep behind it. |
| SleepWakeup.WakeKeepsWoken | kernel/proc.c:1065-1077 | Holding a process's lock, wakeup cannot catch it half-way to sleep. |
| SleepWakeup.NoLostWakeup | kernel/proc.c:1026-1078 | Over every interleaving, when wakeup returns no process that entered sleep on the channel is asleep or on its way. |
| SleepWakeup.NoEarlyReturn | kernel/proc.c:1026-1104 | Over every interleaving, a process that has entered sleep stays there until it is killed or wakeup's loop on the channel comes to it. |
| SleepWakeup.LocksExclude | kernel/proc.c:1040-1055 | Over every interleaving at most one process holds the condition's lock. |
| SleepLock.StepKeepsOk | kernel/sleeplock.c:21-41 | acquiresleep and releasesleep keep: one owner, and every sleeper has an owner or a waker to wait for. |
| SleepLock.MutualExclusion | kernel/sleeplock.c:21-52 | Over every interleaving at most one process owns the sleep lock, and holdingsleep is true exactly for it. |
| SleepLock.NoSleeperOnFreeLock | kernel/sleeplock.c:21-41 | Over every interleaving nobody sleeps on a lock that is free. |
| ProcessTree.ExitKeepsInv | kernel/proc.c:446-485 | exit keeps the tree. On the table: every child of the caller has init as its parent, everybody else keeps theirs, the caller keeps its pid and is a zombie with the status, and nothing else changes. |
| ProcessTree.ReapKeepsInv | kernel/proc.c:531-543 | Freeing a zombie child keeps the tree. |
| ProcessTree.LaunchKeepsInv | kernel/proc.c:415-426 | A child starts to run only after its parent is set. |
| ProcessTree.StepKeepsInv | kernel/proc.c:377-558 | fork, exit and wait keep the tree, distinct pids and the history of exits. |
| ProcessTree.Ancestors | kernel/proc.c:377-490 | The chain of parents of any process ends at init and its pids strictly decrease. |
| ProcessTree.EveryoneHasAParent | kernel/proc.c:377-490 | Over every run, a process that runs or is a zombie has a live parent with a smaller pid, and its ancestor chain ends at init. |
| ProcessTree.ReapedAtMostOnce | kernel/proc.c:513-558 | Over every run no pid is returned by two waits. |
| ProcessTree.ReapedAfterExit | kernel/proc.c:446-558 | Over every run wait returns only a process that called exit before, with the status it passed. |
| ProcessTree.NoZombieLost | kernel/proc.c:431-490 | Over every run a process that exited and was not reaped keeps its slot and status, and has a live parent. |
| ProcessTree.ParentHistory | kernel/proc.c:431-485 | Over every run, a process keeps its parent until that parent exits, and from then on, until it is reaped, its parent is init. |
| ProcessTree.ForkMakesChild | kernel/proc.c:377-426 | fork's steps in a row turn the first unused slot into a live child of the caller with the next pid, and change nothing else. |
| ProcessTree.FailedForkRestores | kernel/proc.c:389-394 | A fork that fails after allocproc leaves the table as it was; only a pid is used up. |
| ProcessTableCode.ProcTable.Allocproc | kernel/proc.c:110-128 | The first unused slot gets the next pid and no parent, and nothing else changes; none exactly if every slot is in use. |
| ProcessTableCode.ProcTable.Reparent | kernel/proc.c:431-444 | Exactly the slots whose parent is the caller get init as their parent; every other slot is as it was. |
| ProcessTableCode.ProcTable.Exit | kernel/proc.c:446-485 | Panics exactly for init. Otherwise the caller's children are init's, all other slots keep their parents, and the caller is a zombie with the status. |
| ProcessTableCode.ProcTable.WaitScan | kernel/proc.c:513-553 | One pass frees the first zombie child and returns its pid and status, or leaves it alone exactly if the status cannot be copied out, or reports whether there are children. |
| Mlfq.AgingBound | kernel/proc.c:561-595 | A process that waits from its entry into queue 1, 2, 3 or 4 is in queue 0 by entry + 40, 70, 95 or 115 plus 1, 2, 3 or 4 times the largest gap between passes: by then, even if the last pass was up to one gap before. |
| Mlfq.AgingInRuns | kernel/proc.c:770-799 | The same bound, with the same numbers, for a process of the whole machine, over every run in which it is not dispatched. |
| Mlfq.PassMoves | kernel/proc.c:776-799 | A pass demotes a process exactly if it has run 1, 2, 4 or 8 ticks in queues 0 to 3, otherwise promotes it exactly if it has waited 40, 30, 25 or 20 ticks in queues 1 to 4, and otherwise leaves it as it is. |
| Mlfq.StaysUntilDue | kernel/proc.c:561-595 | The converse: while a process has waited for fewer than 40, 30, 25 or 20 ticks in queue 1, 2, 3 or 4, no pass has moved it. |
| Mlfq.AgingNotBefore | kernel/proc.c:770-799 | The converse over every run in which it is not dispatched: with fewer ticks than that since its entry it is still in its queue, with the same entry time. |
| Mlfq.StepKeepsInv | kernel/proc.c:770-955 | Ticks, passes, dispatch, yield, sleep, wakeup, exit and creation keep what is known of run times. |
| Mlfq.RanAtMostInQueue | kernel/proc.c:989-1003 | Over every run, timeRanInQueue of a process in queues 0 to 3 never exceeds ticks - entryTime. |
| Mlfq.ChargeCondition | kernel/proc.c:936-954 | Over every run, the charge for a turn stays within ticks - entryTime if and only if the queue is below 4, since queue 4 does not refresh lastScheduled. |
| Mlfq.Queue4Overcharged | kernel/proc.c:944-946 | A run of one process that ends in queue 4 with a charge of 8 ticks after 0 ticks there. |
| Mlfq.Scheduler.Demote | kernel/proc.c:776-798 | The loop demotes exactly the runnable and running processes that have run 1, 2, 4 or 8 ticks in queues 0 to 3, with a fresh entry time, and leaves the others as they were. |
| Mlfq.Scheduler.Age | kernel/proc.c:561-595 | The loop promotes exactly the runnable and sleeping processes that have waited 40, 30, 25 or 20 ticks in queues 1 to 4, with a fresh entry time, and leaves the others as they were. |
| Mlfq.Scheduler.ScanQueue | kernel/proc.c:803-828 | The earliest entry of one queue, the first in the table on a tie. |
| Mlfq.Scheduler.Select | kernel/proc.c:801-918 | The runnable process of the lowest queue below 4 with the earliest entry, or none exactly if there is none. |
| Mlfq.Scheduler.SchedulerPass | kernel/proc.c:770-918 | A pass is demotion, aging, then that choice. |
| Lottery.ElectsByShare | kernel/proc.c:680-695 | A number elects p exactly if it lies in p's stretch of tickets. |
| Lottery.EveryDrawElects | kernel/proc.c:678-695 | Every number below the total elects exactly one runnable process. |
| Lottery.FairShare | kernel/proc.c:665-695 | Exactly p->tickets of the numbers that can be drawn elect p. |
| Lottery.Scheduler.CountTickets | kernel/proc.c:666-676 | The total of the runnable processes' tickets, with every lock taken. |
| Lottery.Scheduler.Draw | kernel/proc.c:665-695 | The winner is the one elected by rand modulo the total, and only its lock is still held. |
| Lottery.Scheduler.SetTickets | kernel/sysproc.c:106-126 | Sets the tickets unless fewer than one, so everyone always has at least one. |
| Virtio.RingsShort | kernel/virtio_disk.c:226-277 | Neither ring ever holds more entries than there are requests in flight, at most a third of the descriptors. |
| Virtio.WrapKeepsSlot | kernel/virtio_disk.c:272-277 | An index kept in 16 bits selects the same ring slot as the full count. |
| Virtio.SubmitAvail | kernel/virtio_disk.c:271-277 | The slot the driver writes is not one the device has yet to read. |
| Virtio.SubmitKeepsInv | kernel/virtio_disk.c:215-279 | Submitting keeps the protocol. |
| Virtio.TakesOldest | kernel/virtio_disk.c:271-277 | What the device reads from the avail ring is the oldest request offered and not yet taken. |
| Virtio.UseKeepsInv | kernel/virtio_disk.c:309-314 | A completion by the device, in any order, keeps the protocol. |
| Virtio.SeesNext | kernel/virtio_disk.c:312-324 | The loop runs exactly while there are unseen entries, across 16-bit wrap; each is the next in order, with the status the device reported and the buffer it was submitted with. |
| Virtio.SeeKeepsInv | kernel/virtio_disk.c:312-324 | Handling a used entry completes one buffer and keeps the protocol. |
| Virtio.FinishKeepsInv | kernel/virtio_disk.c:288-289 | Freeing a completed chain keeps the protocol. |
| Virtio.PickFinds | kernel/virtio_disk.c:199-213 | Three descriptors are found exactly if three are free. |
| Virtio.ProtocolHolds | kernel/virtio_disk.c:156-327 | Over every run, whatever the device reports: free + 3 * in flight = NUM, chains are disjoint triples, both rings hold what was put in, buffers come back exactly as often as they went out, and only requests with status 0 are completed. |
| VirtioCode.Disk.AllocDesc | kernel/virtio_disk.c:155-166 | The first free descriptor, or -1. |
| VirtioCode.Disk.FreeDesc | kernel/virtio_disk.c:168-182 | Marks it free and clears it; panics exactly on a bad or free one. |
| VirtioCode.Disk.Alloc3Desc | kernel/virtio_disk.c:199-213 | All three or none: on failure the free array is as before. |
| VirtioCode.Disk.Submit | kernel/virtio_disk.c:215-279 | Takes the submit step exactly if three descriptors are free, and otherwise changes nothing that is in use. |
| VirtioCode.Disk.IntrOne | kernel/virtio_disk.c:312-324 | One round of the loop; it panics exactly if the next used entry reports a status other than 0. |
| VirtioCode.Disk.Intr | kernel/virtio_disk.c:294-327 | While the device goes on reporting requests, with any status and at any point between rounds: the handler panics on the first entry with a status other than 0, and otherwise no finished request is left unnoticed when it returns. |
| VirtioCode.Disk.FreeChain | kernel/virtio_disk.c:184-197 | Follows the links and frees exactly the three descriptors, with no panic. |
| VirtioCode.Disk.Finish | kernel/virtio_disk.c:288-289 | Takes the finish step. |
| Heap.Tiling | user/umalloc.c:24-90 | Under the invariant every unit of memory from sbrk is in exactly one block, and free blocks never touch. |
| Heap.FreedKeepsInv | user/umalloc.c:33-42 | Linking a block in and merging both ways keeps the list sorted, coalesced and the blocks tiling the memory. |
| Heap.FreedLive | user/umalloc.c:24-44 | free ends one live block and leaves every other as it was. |
| Heap.TakeAllKeepsInv | user/umalloc.c:76-77 | Handing out a whole free block keeps the invariant and all live blocks. |
| Heap.TakeTailKeepsInv | user/umalloc.c:78-82 | Handing out the tail of a free block keeps the invariant and all live blocks. |
| Heap.GrownKeepsInv | user/umalloc.c:54-58 | A fresh region from sbrk comes in as one live block. |
| Heap.SearchTest | user/umalloc.c:30-32 | The two tests of free's search loop succeed at the block's place in the list and nowhere else. |
| Heap.FreedBig | user/umalloc.c:57-60 | After free some free block is at least as big as the one freed. |
| Malloc.Allocator.FindPlace | user/umalloc.c:30-32 | The search terminates, from wherever freep is, at the last node below the block. |
| Malloc.Allocator.Free | user/umalloc.c:24-44 | The invariant, the same memory, and one live block fewer; freep is left at the block's predecessor. |
| Malloc.Allocator.Morecore | user/umalloc.c:46-61 | The memory grows by the region, a free block is big enough, and no live block changes; or nothing changes. |
| Malloc.Allocator.Take | user/umalloc.c:75-84 | The block handed out is the end of the free block found, was not live, has exactly the size, and no other live block changes. |
| Malloc.Allocator.Malloc | user/umalloc.c:63-90 | Terminates, asks sbrk at most once, for 64 KiB or more and only if no free block is big enough, and fails only if sbrk does. The block was not in use, holds the bytes asked for rounded up to 16 and a header, no other block in use changes, and it is the end of the first free block after freep that is big enough. |
| Shell.ParsesLine | user/sh.c:345-360 | Parsing a command's tokens at line level gives the command back with what followed left over. |
| Shell.ParsesExec | user/sh.c:400-447 | The same at the lowest level: words and redirections, or a parenthesised line and redirections. |
| Shell.ParsesSpelling | user/sh.c:328-343 | Any string whose tokens are the command's parses to that command. |
| Shell.LexRender | user/sh.c:266-309 | Tokens spelled out with spaces between them are read back as those tokens. |
| Shell.RoundTrip | user/sh.c:266-447 | For every command tree with words that can stand in a C string and at most nine arguments per exec, the printout is a C string and parsing it gives the tree back. |
| Shell.PrintsFewest | user/sh.c:266-447 | Every C string that parses to a command has at least as many parentheses as its printout. |
| Shell.ParserRange | user/sh.c:266-447 | The commands the parser can return for C strings are exactly the legal ones. |
| ShellGrammar.LexSplits | user/sh.c:266-309 | The tokens of a text are white space, whole words, symbols and the longest redirection symbols, in the text's own order and with nothing left out. |
| ShellGrammar.SplitsOnce | user/sh.c:266-309 | No other token sequence splits the text. |
| ShellGrammar.LineSound | user/sh.c:345-447 | The tokens parseline consumes stand for the command it returns, in a grammar given as a relation: lines of background pipelines of simple commands, parentheses anywhere, redirections among the words. |
| ShellGrammar.LineComplete | user/sh.c:345-447 | Tokens that stand for a command, before the end or a closing parenthesis, are parsed as that command and nothing more is consumed. |
| ShellGrammar.ParseIsTheGrammar | user/sh.c:328-447 | For every text and command: parsecmd accepts the text with that command if and only if the whole text stands for it. |
| ShellGrammar.RejectedHasNoMeaning | user/sh.c:328-447 | parsecmd rejects a text if and only if it stands for no command. |
| ShellGrammar.Unambiguous | user/sh.c:328-447 | No text stands for two commands. |
| ShellCode.Parser.Peek | user/sh.c:311-321 | Skips white space and tells whether the next token starts with one of the characters. |
| ShellCode.Parser.Gettoken | user/sh.c:266-309 | Consumes exactly the next token and returns its code and place. |
| ShellCode.Parser.Parseredirs | user/sh.c:375-398 | Agrees with TakeRedirs, the missing-file panic included. |
| ShellCode.Parser.ParseArgs | user/sh.c:430-443 | Agrees with TakeArgs, the panics for syntax and too many arguments included. |
| ShellCode.Parser.Parseblock | user/sh.c:400-414 | Agrees with the grammar on a parenthesised line, the panic for a missing parenthesis included. |
| ShellCode.Parser.Parseexec | user/sh.c:416-447 | Agrees with ParseExec and terminates on every string. |
| ShellCode.Parser.Parsepipe | user/sh.c:362-373 | Agrees with ParsePipe. |
| ShellCode.Parser.Parseline | user/sh.c:345-360 | Agrees with ParseLine. |
| ShellCode.Parser.Parsecmd | user/sh.c:328-340 | Succeeds if and only if the whole text stands for a command in the grammar, leftovers included, and returns that command. |
| ShellCode.StringsSurvive | user/sh.c:449-494 | No NUL lands inside another token, even when tokens touch: every string of the command is its token. |
| ShellCode.Nulterminate | user/sh.c:449-494 | Writes NUL at the end of every string of the command and nowhere else. |
| ShellCode.ParseBuffer | user/sh.c:328-343 | On the whole: fails exactly on texts that stand for no command; otherwise returns the command the text stands for, and every argv and file string in the buffer is its C string. |

## Left out

- Assembly, trap entry and return, CSRs, the PLIC, the UART and the boot sequence; swtch is a step that hands over control.
- The TLB and memory ordering: steps are sequentially consistent and translations fresh on return to user space.
- Virtio device initialisation and MMIO registers, and the address, length and write flags of descriptors: the device is any that takes requests in ring order and completes them in any order.
- Store addresses that do not fit an int in the store-fault branch, and walk's panic for addresses at or above MAXVA.
- Permissions across fork: only contents are compared, since the code grants write and execute when it resolves a fault.
- Bit operations on bitmap bytes: the bitmap is one boolean per block; how the bits lie in the words of a bitmap block is in FsCrash. Device and link numbers of inodes are not modelled.
- ialloc, iput, directories, link counts, path names and the file system calls; pipes, the console and device files.
- Spinlock implementation, interrupt enabling, trap-time yields inside kernel code, and deadlock freedom.
- sigalarm and sigreturn, tracing, procdump, and the FCFS, PBS and round-robin schedulers.
- sbrk with a negative argument and other callers of sbrk between two mallocs that would return overlapping regions; header garbage inside merged blocks is kept but never read.
- Overflow of ticks, pids and the ticket total: they are unbounded here, and the statements are for values that fit an int.
- LogReservation.FillLog: assumes operations that use their whole budget; which budget the system calls other than write need is not modelled.
- CowInvisible.CopyOnWriteIsInvisible: is about runs in which no process is killed and every copyout stays in one page, as the other cases change contents by design.
- VirtioCode.Disk.Intr: the device reports requests it held when the interrupt began; requests it takes from the avail ring meanwhile are in Virtio.ProtocolHolds only.
- ShellCode.Parser.ParseArgs: collects the words and redirections of one command and builds the nested redirection nodes at the end, where the source fills in an exec node it has already wrapped.
- Mlfq.AgingBound: is stated for a process that enters its queue with no run time charged, as demotion, promotion and creation leave it.
- FsCode.FileSystem.Filewrite: counts the blocks one operation hands to log_write; that they are then absorbed or pinned is in LogReservation and BufferCache. No other process writes the file between two operations.
- FsCode.FileSystem.Writei: shows the bytes of a failed copy in the buffers; as their block need not be logged they can be gone after eviction or a crash, which is why FsCrash.CrashKeepsFiles excludes such copies.
- Mkfs.MakeImage: an image that needs more than FSSIZE blocks is a failure, as mkfs dies reading the first block past the end; more files than inodes, which mkfs does not check for, are excluded.
