# micro86, verified in part

micro86 is an xv6-derived kernel for the i386 with 2048-byte blocks, a 30-block redo log, a Linux-like
system call layer and a Kernighan and Ritchie `malloc` for its C library. This project models the parts
of it where being wrong is easy and costly, and proves what they are for. `dafny verify dfyconfig.toml`
checks all of it.

**Storage, bottom to top.**

- `BlockDevice` is the disk: ordered block writes, and what a power failure can leave. A block is four
  512-byte sectors and an interrupted write may leave any of the four old or new.
- `IdeDriver` is the request queue and the interrupt handler, proved against the driver for a disk in
  memory, which copies at once.
- `BufferRing`, `BufferCache` and `BufferList` are the block cache: the linked list, the protocol over
  any interleaving, and the code that walks the list.
- `RedoLog` proves crash atomicity of a commit and of recovery, torn writes included. `LogManager` is the
  code whose writes those are. `GroupCommit` is the whole log over every run of many callers, with
  crashes anywhere, and `LogRefinement` shows that the code takes its steps.
- `FileSystem`, `FreeBlocks` and `FileOps` are block allocation, the block map, `readi`, `writei`, `itrunc`,
  `iput` and the chunked `file_write`, with exact ownership of blocks, files as byte sequences, and the exact
  number of blocks that an operation takes. `InodeCache` is the table of in-memory inodes. `Mkfs` builds the
  first image.
- `DiskFormat` is how inodes, bits and bytes lie in the words of a block, and that they can be read back.
- `CrashSafety` puts the file system on the log: an operation that logs every block it changes, after it
  changed it for the last time, is on the recovered disk wholly or not at all. That file writes and freeing
  do so is proved in `FileOps`, down to the list of `log_write` calls. Any encoding will do in which two
  different contents of one block differ; the kernel's does (`DiskFormat.KernelEncodes`). Then the disk
  determines every file.
- `FileRuns` takes whole runs of many operations whose changes and `log_write` calls interleave in any way:
  crash the group-committing log at any moment, and the recovered disk has the files as they were at a
  moment of the run at which no operation was under way, no earlier than the last commit.

**Memory.** `PageTables` and `AddressSpace` are the page allocator and two-level paging (32-bit paging,
section 4.3 of the Intel SDM, volume 3A): every page is free or has exactly one use, whatever succeeds or
fails. `FreeList` and `Malloc` are the user-level allocator (section 8.7 of The C Programming Language, 2nd
edition).

**Processes.** `SleepWakeup` interleaves `sleep`, `wakeup` and `kill` at the level of single lock
operations. `Pipes` is the ring buffer of a pipe, with counters that wrap. `Descriptors` counts references
to open files through `pipe`, `dup`, `dup2`, `close`, `fork` and `exit`.

**Arithmetic.** `Division` is 64-bit division by shift and subtract.

How the models are made:

- Code that changes state in place is a class whose methods are proved against functions on values. What
  the source promises is proved about those functions, for every input or every run.
- A `panic` over what an operation finds (no free block, no buffer, a remapped page, a full log) is an
  outcome, and the contract says exactly when it happens or that it cannot. Some panics over a mistake
  of the caller are left to the caller instead: `kfree` of something that is not an allocated page, `ilock`
  of an entry without references or of a free inode, a request to the driver for a block beyond the disk.
- Where processes interleave, a step is what runs under one lock. Runs are arbitrary sequences of steps.
- What the environment decides is a parameter: the time, what `sbrk` or the page allocator answers, where
  a crash strikes and which sectors tear.
- Each layer is a model of its own, over what the layer below is proved to provide. The log, for example,
  is not stated on top of the buffer cache's list, but on a map of pinned buffers, which is what the cache
  provides (`BufferCache.PinnedStep`); the file system meets the log in `CrashSafety`.

What does not hold, with the exact condition:

- `log_write` can panic on an operation that keeps to MAXOPBLOCKS blocks: with mkfs's log it happens for
  some run if and only if operations may log ten blocks or more (`GroupCommit.OverflowsExactlyFromTen`).
  File writes log at most six and truncation at most five.
- `allocuvm` succeeds if and only if the free list holds the pages and the missing page tables of the range
  (`AddressSpace.Machine.AllocUvm`). A failed one keeps the page tables it added, and nothing else: the free
  pages are as before if and only if every directory entry it reached before running out was present
  (`AddressSpace.FailureCost`, `AddressSpace.LeftIff`; `AddressSpace.GrowthLeavesTable` is an input that
  loses a page).
- `uva2ka` does not test the result of its table walk: `copyout` reads through a null pointer if and only if
  the directory entry of the first inaccessible byte is absent (`AddressSpace.Machine.CopyOut`; any address
  of an empty address space is an input, `AddressSpace.CopyOutOfEmpty`).
- mkfs rounds the root directory up to one more block: it stays fully mapped, so that reading it cannot
  allocate, if and only if its size was not already a multiple of the block size (`Mkfs.RootRounding`).
- `malloc`'s rounding wraps: a block is large enough if and only if the request is at most 2^32 - 8 bytes
  (`Malloc.NUnitsFits`). Its byte count for `sbrk` is a signed 32-bit number: memory obtained from the system
  backs the block if and only if the request is at most 2^31 - 16 bytes (`Malloc.ServedIff`;
  `Malloc.NotServed` has an input of each failing kind). `Overrun` is the answer for a block whose
  header claims more than was obtained.
- Reading can allocate: a read that succeeds leaves the volume as it was if and only if every block it reads
  is mapped, and it panics if and only if it needs a block beyond the largest file, or more blocks than are
  free (`FileOps.Volume.ReadI`). The directory that mkfs rounded up is an input of both kinds
  (`Mkfs.RootReadAllocates`).
- `writei` and `file_write` panic when blocks run out: if and only if the range lacks more blocks, the
  indirect block included, than are free before the call (`FileOps.Volume.WriteI`,
  `FileOps.Volume.FileWrite`).
- The signed 64-bit quotient is the truncated one if and only if it is not the smallest number divided by
  -1 (`Division.DivMod`). `__udivdi3` by zero gives 2^64 - 1 where `__udivmoddi4` gives 0.
- `iupdate` is documented as copying a modified inode to disk; it leaves out the creation time, so inodes
  in memory and on disk are compared without it.

## Model

| member | source | states |
|---|---|---|
| BlockDevice.ApplyConcat | kernel/fs/log.c:163-184 | Writing one batch after another is writing their concatenation |
| BlockDevice.CrashIsTorn | drivers/ide/ide.c:77-102 | A crash between two writes is a torn write that changed nothing |
| BlockDevice.AnySectorTears | drivers/ide/ide.c:77-102 | Every combination of old and new sectors is a possible torn write |
| IdeDriver.QueueRefinesSync | drivers/ide/ide.c:77-163 | Over any interleaving of submissions, interrupts and uses of unqueued buffers, requests wait in order with untouched buffers for blocks within the disk, only the first is started, and the disk is what the synchronous driver makes of the finished ones in order |
| IdeDriver.InterruptIsSync | drivers/memide.c:38-60 | An interrupt leaves the oldest request's buffer, flags and disk block exactly as the synchronous copy would, and its caller's wait is over |
| IdeDriver.ReadBack | drivers/memide.c:38-60 | A read after a write gets what was written exactly if it is for the same block of the same drive, and otherwise what it would have got without the write |
| IdeDriver.ReadsLastWrite | drivers/memide.c:38-60 | After any requests, a read gets the last write to its block of its drive, or else what the disk had |
| IdeDriver.CompletesRight | drivers/ide/ide.c:105-163 | Over any run, a read that completes has what the last completed write to that block and drive put there, or else what the first disk had; a write keeps its data; the buffer is valid and clean and no other changes |
| IdeDriver.InterruptCompletes | drivers/ide/ide.c:105-131 | An interrupt adds the oldest request to those completed |
| IdeDriver.OthersComplete | drivers/ide/ide.c:105-163 | No other step completes a request |
| IdeDriver.GivenUntilSubmitted | drivers/ide/ide.c:136-155 | A request is for what its buffer was last given before it was submitted |
| IdeDriver.SubmitServes | drivers/ide/ide.c:146-155 | Submitting keeps the order and starts the drive only when it was idle |
| IdeDriver.InterruptServes | drivers/ide/ide.c:105-131 | Completing the head keeps the others queued and starts the next |
| IdeDriver.Driver.Append | drivers/ide/ide.c:148-151 | Walking to the null link and setting it appends to the linked queue |
| IdeDriver.Driver.constructor | drivers/ide/ide.c:50-75 | An idle drive with no request waiting satisfies the invariant |
| IdeDriver.Driver.Enqueue | drivers/ide/ide.c:136-155 | The code is the submission step of the state machine; each of its two panics happens exactly on its condition and changes nothing |
| IdeDriver.Driver.IdeInterrupt | drivers/ide/ide.c:105-131 | The handler is the completion step, spurious interrupts included, and the woken buffer has nothing left to do |
| BufferRing.UnlinkKeepsRing | kernel/fs/bio.c:148-149 | Two pointer writes take an entry out of the doubly linked list |
| BufferRing.LinkKeepsRing | kernel/fs/bio.c:150-153 | Four pointer writes put an entry right after the head |
| BufferCache.StepKeepsInv | kernel/fs/bio.c:85-157 | Every step keeps one buffer for a block, exact reference counts, valid buffers equal to the flat store, and blocks without a newer buffer on disk |
| BufferCache.ReadsLatest | kernel/fs/bio.c:118-126 | After any interleaved run since boot, a valid buffer holds what was last written to its block by anyone, and no other valid buffer holds that block |
| BufferCache.FlatIsLatest | kernel/fs/bio.c:118-134 | The flat store is the last value the run gave to each block |
| BufferCache.RunFollows | kernel/fs/bio.c:85-157 | After any run since boot a buffer is held by whoever locked it last and has not unlocked it, counts those who got it and have not released it, and is for the block it was last taken for |
| BufferCache.OneHolder | kernel/cpu/sleeplock.c:22-42 | Mutual exclusion over any run: between two locks of one buffer there is an unlock |
| BufferCache.OnlyWhileHeld | kernel/fs/bio.c:118-142 | In any run a buffer is filled, changed, logged and written only between a lock of it and the next unlock |
| BufferCache.NeededStays | kernel/fs/bio.c:100-113 | Over any run, a buffer that is referenced or dirty throughout stays with its block |
| BufferCache.CleanIsFlat | kernel/fs/bio.c:128-134 | When no buffer is ahead of the disk, the disk has every latest value |
| BufferCache.PinnedOverDisk | kernel/fs/bio.c:100-113 | Outside a change, a block is what a dirty buffer holds for it, or else what is on disk |
| BufferCache.PinnedStep | kernel/fs/bio.c:128-134 | Over every step: logging pins a block, writing it out unpins it, and nothing else, reuse of buffers included, touches what is pinned |
| BufferCache.BootInv | kernel/fs/bio.c:65-80 | The zeroed cache satisfies the invariant |
| BufferList.LinkAll | kernel/fs/bio.c:65-80 | The boot loop links all NBUF buffers into a doubly linked permutation |
| BufferList.ToFront | kernel/fs/bio.c:148-153 | A release moves the buffer to the front and keeps a doubly linked permutation with the rest in order |
| BufferList.FirstIsRight | kernel/fs/bio.c:91-98 | The first buffer found for a block is the one in use for it, block 0 of device 0 and zeroed buffers included |
| BufferList.Cache.constructor | kernel/fs/bio.c:65-80 | Boot gives the empty cache on a valid list |
| BufferList.Cache.Find | kernel/fs/bio.c:91-98 | The forward walk finds the right buffer or shows there is none |
| BufferList.Cache.Victim | kernel/fs/bio.c:103-113 | The backward walk finds the least recently used buffer that nobody needs, and fails if and only if all are needed |
| BufferList.Cache.BufferGet | kernel/fs/bio.c:85-115 | The panic happens exactly when the block is not cached and every buffer is referenced or dirty; otherwise one enabled step of the protocol, and the buffer is for the block with one more reference |
| BufferList.Cache.AcquireSleep | kernel/cpu/sleeplock.c:22-32 | The caller has the lock afterwards exactly when it was free, someone who refers to the buffer; otherwise nothing changes; it is the lock step of the protocol |
| BufferList.Cache.ReadIn | kernel/fs/bio.c:118-126 | The reader ends up with the block's latest value |
| BufferList.Cache.BufferWrite | kernel/fs/bio.c:129-134 | The write step of the protocol: disk and buffer agree and the buffer is clean; the panic exactly when the caller does not hold the buffer |
| BufferList.Cache.Pin | kernel/fs/log.c:211 | The step that keeps a logged buffer in memory: it is dirty and nothing else changes |
| BufferList.Cache.ReleaseSleep | kernel/fs/bio.c:139-142 | The lock is free afterwards; the panic exactly when the caller does not hold the buffer |
| BufferList.Cache.BufferRelease | kernel/fs/bio.c:138-157 | One reference less; with the last one the buffer becomes the most recently used |
| RedoLog.TearHeader | kernel/fs/log.c:95-105 | A torn header write either took effect or did not, because the header is in one sector |
| RedoLog.RecoverCrash | kernel/fs/log.c:67-112 | A crash anywhere in a recovery, inside a block write or between two, loses nothing |
| RedoLog.RecoverComplete | kernel/fs/log.c:107-112 | A recovery that ends leaves the promised home blocks and an empty log |
| RedoLog.CommitIsLogThenRecover | kernel/fs/log.c:176-184 | From its header on, a commit does what a recovery of that disk would do |
| RedoLog.CommitCrash | kernel/fs/log.c:163-184 | A crash anywhere in a commit leaves a disk that recovers to all old or all new contents |
| RedoLog.CommitComplete | kernel/fs/log.c:163-184 | An uninterrupted commit leaves the new contents home and the log empty |
| RedoLog.CommitIsAtomic | kernel/fs/log.c:66-112 | Crash anywhere in a commit, then anywhere in each of any number of recoveries, then finish one: every home block is old or every one is new |
| LogManager.Log.WriteLog | kernel/fs/log.c:163-174 | The loop writes the pinned blocks, in header order, to the log area |
| LogManager.Log.WriteHead | kernel/fs/log.c:95-105 | The header block gets the count and block numbers, and keeps its other words |
| LogManager.Log.ReadHead | kernel/fs/log.c:81-91 | The loop reads back exactly the stored header |
| LogManager.Log.InstallTrans | kernel/fs/log.c:67-78 | The loop copies every logged block home and unpins it |
| LogManager.Log.RecoverFromLog | kernel/fs/log.c:107-112 | The writes are exactly those of the recovery proved crash-safe |
| LogManager.Log.Commit | kernel/fs/log.c:176-184 | The writes are exactly those of the commit proved atomic |
| LogManager.Log.BeginOp | kernel/fs/log.c:115-129 | Admission if and only if no commit runs and the reservation fits |
| LogManager.Log.EndOp | kernel/fs/log.c:133-160 | The last operation out commits, and only it |
| LogManager.Log.LogWrite | kernel/fs/log.c:195-213 | Absorb or append, pin, and the exact condition of each panic |
| LogManager.Log.WriteTransaction | kernel/fs/log.c:176-180 | The blocks go to the log and then the header |
| GroupCommit.InvStep | kernel/fs/log.c:115-213 | Every step, crash and recovery included, keeps disk, log, pinned buffers and history in agreement |
| GroupCommit.CallsAreTheRuns | kernel/fs/log.c:115-213 | In any run the operations under way are those begun and neither ended nor crashed, numbered as they began, and the recorded calls are every `log_write` made, by the operation that made it |
| GroupCommit.CrashHolds | kernel/fs/log.c:176-184 | The disk a crash leaves carries exactly the durable history, or that and the whole current group |
| GroupCommit.CrashedRunIsPrefix | kernel/fs/log.c:115-213 | Over every run of many callers: crash anywhere, and recovery gives a prefix of the history with every operation wholly in or wholly out |
| GroupCommit.DurableGrows | kernel/fs/log.c:133-184 | What is durable stays, whatever happens |
| GroupCommit.LogNeverOverflows | kernel/fs/log.c:115-129 | With at most nine blocks an operation, at most 28 are ever logged, so neither size panic is reachable on a 30-block log |
| GroupCommit.OverflowsExactlyFromTen | kernel/fs/log.c:195-199 | On mkfs's log the panic is reachable if and only if operations may log ten blocks or more |
| LogRefinement.BeginRefines | kernel/fs/log.c:115-129 | The code admits an operation exactly when the step is enabled, and takes it |
| LogRefinement.LogWriteRefines | kernel/fs/log.c:195-213 | The code takes the step of logging a block, and its size panic is that of the state machine |
| LogRefinement.EndRefines | kernel/fs/log.c:133-184 | Leaving is a step, and the last one out takes every step of the commit, one block write each |
| LogRefinement.RecoverRefines | kernel/fs/log.c:107-112 | Recovery at boot takes every step of the recovery |
| LogRefinement.FinishedIs | kernel/fs/log.c:176-184 | Advancing write by write ends with all writes done and an empty log |
| FileSystem.WordRoundTrip | kernel/fs/fs.c:372-377 | An address stored in an indirect block reads back, and no other entry changes |
| FileSystem.AllocAtOwned | kernel/fs/fs.c:52-72 | A free block put in an empty slot belongs to that slot alone; a fresh indirect block is all zero |
| FileSystem.AllocAtBytes | kernel/fs/fs.c:357-383 | Allocation is invisible in the contents of every file |
| FileSystem.WriteBlockBytes | kernel/fs/fs.c:476-483 | Writing a file block changes those bytes of that file and nothing else |
| FreeBlocks.FillCost | kernel/fs/fs.c:357-383 | Mapping a range block by block takes its absent blocks and once the indirect block |
| FreeBlocks.FillForMore | kernel/fs/fs.c:469-483 | Mapping a range in two goes, that may share a block, takes what mapping it at once does |
| FreeBlocks.LackingNothing | kernel/fs/fs.c:357-383 | A range lacks nothing if and only if all its blocks are mapped |
| DiskFormat.KernelEncodes | include/fs.h:31-53 | In any layout, two different contents of one block are encoded by different words |
| DiskFormat.InodeLayout | include/fs.h:31-47 | Every field of inode `i` of a block is in the word where the C structure has it, 80 bytes an inode |
| DiskFormat.BitLayout | kernel/fs/fs.c:57-69 | The bit of block `i` is bit `i` of the bit map block, low bits first |
| DiskFormat.InodesReadBack | include/fs.h:31-47 | Inodes of 80 bytes, 25 to a block, can be read back |
| DiskFormat.BitsReadBack | kernel/fs/fs.c:57-69 | Bits can be read back from the words they are packed in |
| DiskFormat.BytesReadBack | kernel/fs/fs.c:476-483 | Bytes can be read back from the words they make |
| DiskFormat.WordFits | include/fs.h:31-53 | Every word of an encoded block is a 32-bit word |
| DiskFormat.ZerosAlike | kernel/mkfs/mkfs.c:253-254 | A zeroed block stands for no inodes, for no bits and for zero bytes alike, so blocks are told apart only by their place |
| FileOps.Volume.Balloc | kernel/fs/fs.c:52-72 | The first free block, marked and zeroed; failure exactly when the bit map is full |
| FileOps.Volume.FirstClear | kernel/fs/fs.c:57-69 | The scan of one bit map block finds its first clear bit, or there is none |
| FileOps.Volume.constructor | kernel/fs/fs.c:163-180 | A mounted volume with exact ownership and mapped files is in order |
| FileOps.Volume.LogWrite | kernel/fs/log.c:195-213 | After the call every logged block has been logged with what it stores now |
| FileOps.Volume.PutBlock | kernel/fs/fs.c:476-483 | Storing and logging one block changes those bytes of that file and nothing else |
| FileOps.Volume.SetInode | kernel/fs/fs.c:484-489 | Changing an inode's fields changes no byte and no address, and it is written through and logged |
| FileOps.Volume.Bfree | kernel/fs/fs.c:75-87 | Clears the bit; the panic exactly when it was clear |
| FileOps.Volume.Bmap | kernel/fs/fs.c:357-383 | The block's address, allocated with its indirect block if need be; addresses already there are neither moved nor logged; it takes exactly the blocks that are lacking, and fails if and only if they are not free or the block number is too large |
| FileOps.Volume.Iupdate | kernel/fs/fs.c:212-229 | The copy on disk equals the inode but for the creation time |
| FileOps.Volume.WriteI | kernel/fs/fs.c:461-491 | Exactly the written bytes change, the inode gets the size and no other field but its addresses changes, ownership and mapping hold again, every changed block was logged and few others; refusals are exact, and it runs out of blocks if and only if the range lacks more than are free before |
| FileOps.Volume.ReadI | kernel/fs/fs.c:435-458 | It returns as many bytes as asked for or as are left, byte for byte those of the file from the offset on, mapped or not; a read that succeeds changes nothing if and only if its blocks are mapped, and no byte of any file in any case; it panics if and only if it needs a block beyond the largest file or more blocks than are free |
| FileOps.Volume.WriteThenRead | kernel/fs/fs.c:435-491 | A read of exactly the range just written returns what was written |
| FileOps.Volume.FreeDirect | kernel/fs/fs.c:395-400 | Frees exactly the direct blocks of one inode, and clears their addresses |
| FileOps.Volume.FreeIndirect | kernel/fs/fs.c:402-412 | Frees exactly what the indirect block names, and it |
| FileOps.Volume.ITrunc | kernel/fs/fs.c:390-416 | One file empty, the others untouched, ownership exact again, files mapped and written through again if they were, every change logged and current, "freeing free block" out of reach |
| FileOps.Volume.IPut | kernel/fs/fs.c:320-339 | The last reference to an unlinked inode that has been read empties and frees it, and only that does; the volume is in order again |
| FileOps.Volume.WriteChunk | kernel/fs/file.c:146-168 | One transaction of a file write: the bytes and the time of change are stored, in memory and on disk, every changed block is logged, and at most six are; it panics if and only if the chunk lacks more blocks than are free |
| FileOps.Volume.FileWrite | kernel/fs/file.c:132-179 | The chunks amount to one write, stamped with the time if any byte was written, which ends exactly where the largest file, in whole chunks, and the owner test allow; a short write means the whole could not be written, and it aborts if and only if what it would write lacks more blocks than are free before |
| FileOps.Volume.EnsureSlot | kernel/fs/fs.c:361-379 | A block for one slot, taken only if it is empty; no other address moves |
| FileOps.LogsMore | kernel/fs/log.c:186-194 | Covering every change by a logged block carries over from step to step |
| FileOps.CallMore | kernel/fs/log.c:195-213 | Logging the one block that changed makes every logged block current again |
| FileOps.WriteIsSplice | kernel/fs/fs.c:461-491 | A write is an overwrite or extension of one byte sequence, and no other file changes |
| FileOps.UnchangedIff | kernel/fs/fs.c:435-458 | A read that succeeds leaves the file system as it was if and only if its blocks were mapped |
| FileOps.MappedRange | kernel/fs/fs.c:435-458 | A read within a fully mapped file neither allocates nor panics |
| FileOps.ChunkAttempted | kernel/fs/file.c:146-160 | A chunk may be written exactly if the write does not end before it |
| FileOps.FittingIs | kernel/fs/file.c:139-168 | Where a write ends that the largest file cuts short: after the last whole chunk that fits |
| FileOps.ReadAfterWrite | kernel/fs/fs.c:435-491 | What was written reads back, at every offset and length |
| FileOps.TruncIsEmpty | kernel/fs/fs.c:390-416 | Truncation empties one byte sequence and no other |
| FileOps.ChunkBound | kernel/fs/file.c:139-148 | A chunk logs the inode, at most two file blocks, the indirect block and two bit map blocks |
| FileOps.TruncBound | kernel/fs/fs.c:390-416 | Truncating logs at most every bit map block and the inode: five blocks on a 50000-block disk |
| FileOps.TruncOwned | kernel/fs/fs.c:390-416 | With all its blocks freed and addresses cleared, ownership is exact for everyone |
| CrashSafety.UnloggedKept | kernel/fs/log.c:186-213 | A block that an operation did not log stores what it stored before |
| CrashSafety.HeaderAndPins | kernel/fs/log.c:201-211 | The header that the calls of `log_write` build names exactly the blocks called for, each pinned with its last contents |
| CrashSafety.ValuesAreImages | kernel/fs/log.c:163-174 | The blocks a commit writes are what the file system stores in them after the operation |
| CrashSafety.OwnedIsGood | kernel/fs/fs.c:357-383 | With exact ownership and inodes written through, every address on disk is that of a data block |
| CrashSafety.GoodFits | include/fs.h:31-53 | What a file system in good order has to store in a block fits there |
| CrashSafety.StoredUnique | kernel/fs/fs.c:276-303 | A disk determines the contents of every file: all file systems in good order that it stores have the same |
| CrashSafety.CommitStores | kernel/fs/log.c:163-184 | Committing the header and values that the calls built turns the stored file system into the one after the operation |
| CrashSafety.OperationIsAtomic | kernel/fs/log.c:66-112 | Crash anywhere in an operation's commit and in any number of recoveries: the disk then stores the file system before or after it, nothing between |
| CrashSafety.StoredIsContent | kernel/fs/fs.c:212-229 | With inodes written through, the files on disk are the files in memory |
| CrashSafety.WriteSurvivesCrash | kernel/fs/file.c:146-168 | After a power failure in a chunk of a file write the disk determines that the file has its old contents or the whole chunk, and that every other file is untouched |
| CrashSafety.MkfsFits | kernel/mkfs/mkfs.c:234-243 | mkfs's log, inode blocks, bit map and data are laid out as the theorem needs |
| FileRuns.FileStepKeepsInv | kernel/fs/log.c:115-213 | Every step keeps: what has been logged amounts to the file system in memory but for blocks changed since, and what is durable to the file system as of the last commit |
| FileRuns.WorkingIs | kernel/fs/log.c:115-160 | In any run the number of operations under way is that of those begun and not ended since the last crash |
| FileRuns.SavedMoment | kernel/fs/log.c:133-184 | The last commit is the file system of a quiet moment, with exactly the history of that moment |
| FileRuns.OperationEndsClean | kernel/fs/log.c:186-213 | An operation as file writes and freeing are proved to be leaves no changed block unlogged, whatever others have under way |
| FileRuns.RunSurvivesCrash | kernel/fs/log.c:66-213 | Over every run, operations interleaved in any way and crashed any number of times: crash at any moment, and the recovered disk stores the file system of a moment at which no operation was under way, with exactly the history of that moment, all that was durable included |
| FileRuns.FilesSurviveCrash | kernel/fs/log.c:66-213 | If the file system was in good order then, the recovered disk determines every file to be as it was at that moment |
| InodeCache.StepKeepsInv | kernel/fs/fs.c:212-339 | Every step keeps one entry for an inode, exact counts, and loaded entries equal to disk outside a change |
| InodeCache.WrittenThrough | kernel/fs/fs.c:212-303 | Over any interleaving, an inode has one entry, and a loaded entry not being changed is the inode on disk but for the creation time |
| InodeCache.EntryFollows | kernel/fs/fs.c:234-339 | After any run since boot an entry is held by whoever locked it last and has not unlocked it, counts those who refer to it, is for the inode it was last taken for, and is valid if it was loaded since |
| InodeCache.MemoryFollows | kernel/fs/fs.c:276-303 | An entry holds the inode as it was last loaded from disk or changed |
| InodeCache.DiskFollows | kernel/fs/fs.c:187-229 | Over any run the disk holds what the last update or allocation put there: an update copies memory to disk but for the creation time, and touches no other inode |
| InodeCache.ChangeReachesDisk | kernel/fs/fs.c:212-229 | Over any run a change that was followed by an update is on disk until the inode is written again |
| InodeCache.Exclusive | kernel/cpu/sleeplock.c:22-42 | In any run a lock is taken only when nobody holds it, and loading, changing, writing back and unlocking happen only while somebody does |
| InodeCache.UpdateHitsItsOwn | kernel/fs/fs.c:187-229 | In any run, the entry being written back is of the same generation as the inode on disk: it was not freed and allocated again meanwhile |
| InodeCache.NotReallocated | kernel/fs/fs.c:187-339 | In any run, no inode is allocated between its load into an entry and an update from that entry |
| InodeCache.CanOpen | kernel/fs/fs.c:234-303 | An inode in use can be taken, locked and loaded whenever an entry is free |
| InodeCache.CanChange | kernel/fs/fs.c:212-339 | Its holder can change it, write it and let it go, and then the change is on disk and the entry free |
| InodeCache.CanFree | kernel/fs/fs.c:320-339 | One without links can be freed by the only one to refer to it, and then its number can be allocated again |
| InodeCache.Icache.constructor | kernel/fs/fs.c:158-169 | The zeroed table satisfies the invariant |
| InodeCache.Icache.Iget | kernel/fs/fs.c:234-263 | The entry of the inode or a free one; the panic exactly when it has none and all are in use |
| Mkfs.LayoutFits | kernel/mkfs/mkfs.c:30-34 | Inode blocks, bit map and data do not overlap |
| Mkfs.Image.constructor | kernel/mkfs/mkfs.c:251-254 | A zeroed disk without files satisfies ownership |
| Mkfs.Image.Iappend | kernel/mkfs/mkfs.c:376-421 | Appends to one byte sequence, leaves the others, maps exactly the blocks below the size; it fails if and only if the file gets too long or the blocks and indirect block it needs are not there |
| Mkfs.PayNext | kernel/mkfs/mkfs.c:387-407 | A piece costs its block if it is the first in it, and the indirect block with the first indirect piece |
| Mkfs.IndirectThere | kernel/mkfs/mkfs.c:393-404 | A file with more than the direct blocks has its indirect block |
| Mkfs.Image.Finish | kernel/mkfs/mkfs.c:270-277 | The image has exact ownership, the root directory gets the rounded size with zero bytes after its contents, every other file is as it was, and every file is mapped but perhaps the root directory |
| Mkfs.RootRounding | kernel/mkfs/mkfs.c:270-275 | The root directory stays mapped if and only if its size was not a multiple of the block size |
| Mkfs.RootReadAllocates | kernel/mkfs/mkfs.c:270-275 | Reading the first byte of an empty directory so rounded allocates a block if there is one, and panics if there is none |
| PageTables.AddTableOwned | kernel/mm/vm.c:42-54 | Hanging an empty table under a directory entry keeps every page at one use and every mapping |
| PageTables.SetPteMaps | kernel/mm/vm.c:61-79 | Writing one entry changes one mapping of one address space |
| PageTables.AddFrameOwned | kernel/mm/vm.c:242-248 | Mapping a page taken for it makes it that page's frame |
| PageTables.DropFrameOwned | kernel/mm/vm.c:269-276 | Unmapping a page and freeing its frame keeps every page at one use |
| PageTables.DropSpaceOwned | kernel/mm/vm.c:283-296 | Releasing the pages of one address space leaves all others as they were |
| PageTables.TableOnce | kernel/mm/vm.c:42-54 | A page needs a new table exactly if no earlier page of the range brought it |
| PageTables.TablesFrom | kernel/mm/vm.c:42-54 | The tables a range needs, counted page by page, are its directory entries that are absent |
| AddressSpace.Machine.constructor | kernel/mm/kalloc.c:46-53 | Boot puts exactly the whole pages of the range on the free list |
| AddressSpace.Machine.Kalloc | kernel/mm/kalloc.c:81-94 | The head of the free list, or nothing if and only if it is empty |
| AddressSpace.Machine.WalkPgDir | kernel/mm/vm.c:38-56 | The table for an address, created on demand; no mapping changes |
| AddressSpace.Machine.MapPages | kernel/mm/vm.c:61-79 | Consecutive pages mapped, nothing outside the range; all of it if and only if the entries are absent and the free pages cover the tables missing; the remap panic exactly on a present entry reached before they run out |
| AddressSpace.Machine.SetupKvm | kernel/mm/vm.c:113-148 | Physical memory is mapped from KERNBASE on, writable but for the kernel text, device pages map to themselves, nothing else is mapped, and all is hidden from user code, if and only if the directory and its tables can be had; otherwise every page given back |
| AddressSpace.RegionsAreKernel | kernel/mm/vm.c:113-130 | The four rows of the kernel map, taken together, are that mapping |
| AddressSpace.Machine.AllocUvm | kernel/mm/vm.c:224-251 | Every byte of the new pages reads as zero, and is accessible and writable by the user, if and only if the free pages cover the range and its missing tables; otherwise every mapping and frame as before with only tables kept |
| AddressSpace.Machine.DeallocUvm | kernel/mm/vm.c:257-279 | Exactly the pages in the range are unmapped and freed, skipped directory entries included |
| AddressSpace.Machine.FreeVm | kernel/mm/vm.c:283-296 | Everything the address space owns goes back and nothing else |
| AddressSpace.Machine.CopyUvm | kernel/mm/vm.c:311-339 | The child reads the same byte with the same flags at every address and has the kernel mapped as `setupkvm` does and hidden; success, the panic on a missing page and lack of memory, which gives everything back, each exactly on a condition of the state before |
| AddressSpace.Machine.Abandon | kernel/mm/vm.c:335-338 | Freeing an address space that was being built gives back all that was taken for it |
| AddressSpace.Machine.UserPage | kernel/mm/vm.c:343-352 | The frame of a user-accessible page; a missing table is the null dereference |
| AddressSpace.Machine.CopyOut | kernel/mm/vm.c:357-376 | Exactly the target bytes up to the first inaccessible one read back as the source and no other byte of any address space changes; complete if and only if all are accessible, a null dereference if and only if the first that is not has no table |
| AddressSpace.FramesDisjoint | kernel/mm/vm.c:311-339 | Different user pages, of one address space or two, have different frames |
| AddressSpace.PagesInIs | kernel/mm/vm.c:233-248 | The pages of a size are those that begin below it |
| AddressSpace.FailureCost | kernel/mm/vm.c:233-248 | A failed growth costs exactly its new page tables; the free pages are restored if and only if every directory entry it reached was present before |
| AddressSpace.LeftIff | kernel/mm/vm.c:233-248 | Ownership after a failed growth is as before if and only if it reached no absent directory entry |
| AddressSpace.ReachedIff | kernel/mm/vm.c:233-248 | That condition read entry by entry: each one reached while pages and tables could still be had |
| AddressSpace.GrowthLeavesTable | kernel/mm/vm.c:233-248 | With two free pages and an empty directory, growing by two pages fails and a page is lost to a table |
| AddressSpace.CopyDecides | kernel/mm/vm.c:311-339 | Where the copy loop stops decides its outcome: each one is equivalent to its condition on the state before |
| AddressSpace.BlockedOnce | kernel/mm/vm.c:357-376 | A copy can be stopped at one byte only |
| AddressSpace.CopyOutOfEmpty | kernel/mm/vm.c:343-352 | In an empty address space every address is stopped at its first byte by a missing table |
| AddressSpace.FreeIsUnowned | kernel/mm/kalloc.c:58-94 | Equal ownership means equal free pages, so giving back ownership gives back pages |
| FreeList.InsertSound | muslpatch/xv6malloc/malloc.c:44-49 | Linking a block in keeps order, circle and partition; it may touch only its neighbours |
| FreeList.MergeSound | muslpatch/xv6malloc/malloc.c:40-48 | Merging a block with its touching successor keeps all of it |
| FreeList.FreeKeepsInv | muslpatch/xv6malloc/malloc.c:31-51 | Freeing keeps the list circular, sorted, without touching blocks, and a partition of the memory obtained; live contents stay |
| FreeList.TakeWholeInv | muslpatch/xv6malloc/malloc.c:83-84 | Unlinking an exact fit keeps the invariant |
| FreeList.TakeTailInv | muslpatch/xv6malloc/malloc.c:85-89 | Splitting a larger block keeps the invariant |
| FreeList.AddRegionInv | muslpatch/xv6malloc/malloc.c:61-66 | Memory from the system joins as one live block |
| Malloc.NUnitsFits | muslpatch/xv6malloc/malloc.c:76 | The rounding gives enough room if and only if it does not wrap |
| Malloc.BackedIff | muslpatch/xv6malloc/malloc.c:53-68 | The signed byte count asked of the system covers the block if and only if it has fewer than 2^28 units; otherwise it is zero or negative |
| Malloc.ServedIff | muslpatch/xv6malloc/malloc.c:53-97 | A request met from new memory gets enough room if and only if it is at most 2^31 - 16 bytes |
| Malloc.NotServed | muslpatch/xv6malloc/malloc.c:53-76 | 2^32 - 8 bytes ask the system for none, 2^31 - 15 bytes for a negative number |
| Malloc.OneCircle | muslpatch/xv6malloc/malloc.c:37 | From any free block the links lead to any other |
| Malloc.FitIsFirst | muslpatch/xv6malloc/malloc.c:81-96 | A block that fits, found after passing only blocks that do not, comes first of all that fit |
| Malloc.CodeIsFreeBlock | muslpatch/xv6malloc/malloc.c:40-50 | The assignments of free are linking in and merging on both sides |
| Malloc.Allocator.Search | muslpatch/xv6malloc/malloc.c:37-39 | The circular search ends, at the place in address order |
| Malloc.Allocator.constructor | muslpatch/xv6malloc/malloc.c:28-29 | Before the first call there is no block |
| Malloc.Allocator.Claim | muslpatch/xv6malloc/malloc.c:61-66 | A region from the system becomes one live block, all other contents stay |
| Malloc.Allocator.Relocate | muslpatch/xv6malloc/malloc.c:125-137 | Allocate, copy and free move the contents, unit by unit, and keep every other live block; on failure the old block stays |
| Malloc.Allocator.Free | muslpatch/xv6malloc/malloc.c:31-51 | The block is no longer live, all other live contents stay, its room can be found again, and the next search starts at the place where it went |
| Malloc.Allocator.Morecore | muslpatch/xv6malloc/malloc.c:53-68 | The list gains what the system granted, coalesced, and then has a large enough block; null exactly without a grant, overrun exactly when the byte count was not positive |
| Malloc.Allocator.FirstFit | muslpatch/xv6malloc/malloc.c:81-96 | The search ends, after asking for memory once at most, with the tail of the first block after the starting point that is large enough; null exactly when nothing fits and nothing is granted, overrun exactly when nothing fits and the grant does not back the block |
| Malloc.Allocator.TakeFirst | muslpatch/xv6malloc/malloc.c:82-92 | Taking from the block found: an exact fit whole, the tail of a larger one, and the search resumes before it |
| Malloc.Allocator.Malloc | muslpatch/xv6malloc/malloc.c:70-97 | A block that was not live before, of the rounded size, large enough if and only if the rounding did not wrap, from the first free block that fits; other contents stay; memory grows only if nothing fitted; null and overrun exactly on their conditions |
| Malloc.Allocator.Copy | muslpatch/xv6malloc/malloc.c:129-134 | Every unit of the payload is copied and no other live block changes |
| Malloc.Allocator.Unlink | muslpatch/xv6malloc/malloc.c:83-84 | An exact fit leaves the list whole |
| Malloc.Allocator.Split | muslpatch/xv6malloc/malloc.c:85-89 | The tail of a larger block becomes live, the list keeps its blocks |
| Malloc.Allocator.Realloc | muslpatch/xv6malloc/malloc.c:99-138 | The old contents are in the new block, which is large enough for any request the rounding does not wrap; a block that already fits is kept as it is; null, zero and failure behave as documented |
| SleepWakeup.UnblockingWakes | kernel/fs/log.c:133-160 | Every operation that ends a wait wakes the waiters |
| SleepWakeup.StepKeepsInv | kernel/cpu/proc.c:478-534 | Each lock operation keeps: who sleeps, or has decided to, is still blocked or about to be woken |
| SleepWakeup.NoLostWakeup | kernel/cpu/proc.c:478-534 | In any interleaving with kills, asleep on a sleep lock means it is held, asleep in begin_op that an operation or commit runs, or someone is about to wake them |
| SleepWakeup.WakeReachesAll | kernel/cpu/proc.c:519-534 | A wakeup leaves nobody asleep or on the way to sleep |
| SleepWakeup.OneHolder | kernel/cpu/sleeplock.c:22-42 | Between two entries to a sleep lock its first holder released it |
| SleepWakeup.EndOpFindsNoCommit | kernel/fs/log.c:133-139 | The panic in end_op is unreachable |
| SleepWakeup.RunKeepsVars | kernel/fs/log.c:115-160 | In any run the log is idle and empty, or has operations, or commits with none |
| SleepWakeup.CountersMean | kernel/fs/log.c:115-213 | In any run the counters of the log are the operations begun and not ended, the blocks logged since the last commit ended, and whether one is under way; nobody gets past a wait or an operation without having done it |
| SleepWakeup.EntersExactly | kernel/fs/log.c:115-129 | A waiter goes on exactly if the lock is free, or if no commit is under way and ten blocks for every operation fit in the log |
| SleepWakeup.GoesToSleep | kernel/cpu/proc.c:478-501 | Who finds it must wait, left alone, is asleep on the channel with both spin locks free |
| SleepWakeup.WakesEveryone | kernel/cpu/proc.c:519-534 | Who has to wake the channel, left alone, has woken every sleeper and freed both spin locks |
| SleepWakeup.ComesBack | kernel/cpu/proc.c:503-511 | Who was woken, left alone, tests the condition again, off the channel and with the spin lock |
| SleepWakeup.LeavesThemAsleep | kernel/fs/log.c:133-160 | `log_write` wakes nobody, nor does the last operation out, which begins a commit |
| SleepWakeup.MakesForWaking | kernel/fs/log.c:133-160 | Any other end of an operation, and the end of a commit, wake everyone |
| SleepWakeup.KilledRuns | kernel/cpu/proc.c:563-571 | A killed sleeper can run again |
| Pipes.Wraps | kernel/fs/pipe.c:77-106 | The full and empty tests on wrapping counters mean what they should |
| Pipes.Pipe.constructor | kernel/fs/pipe.c:31-35 | A new pipe is empty and open at both ends |
| Pipes.Pipe.Write | kernel/fs/pipe.c:72-90 | The bytes join the stream in order, until done, full, or no reader is left |
| Pipes.Pipe.Read | kernel/fs/pipe.c:92-111 | The bytes read are always a prefix of the bytes written, however often the counters wrapped; at most 512 are in flight |
| Descriptors.PipeLivesWithDescriptors | kernel/fs/pipe.c:56-70 | A pipe's page is in use, and each end open, exactly as long as some descriptor names it |
| Descriptors.NamedIsAlive | kernel/fs/file.c:68-84 | A file with a descriptor has a positive count, so neither panic can happen |
| Descriptors.CloseKeepsPipes | kernel/fs/file.c:78-100 | Closing keeps files, ends and pages in step |
| Descriptors.Kernel.FileAlloc | kernel/fs/file.c:52-65 | A free file, or none if and only if all are in use |
| Descriptors.Kernel.constructor | kernel/fs/file.c:19-26 | With no open file the invariant holds |
| Descriptors.Kernel.PipeClose | kernel/fs/pipe.c:56-70 | The end is closed, and with the second one the page freed |
| Descriptors.Kernel.FileClose | kernel/fs/file.c:78-100 | One reference less; the last one frees the file, its end, and with the second end the page |
| Descriptors.Kernel.FdAlloc | kernel/sys/sys.c:37-48 | The lowest free descriptor |
| Descriptors.Kernel.PipeAlloc | kernel/fs/pipe.c:22-54 | A pipe on two files that were free, if and only if there are two and a page; otherwise everything as before |
| Descriptors.Kernel.SysClose | kernel/sys/sys.c:333-343 | The descriptor is gone and counts are exact |
| Descriptors.Kernel.SysDup | kernel/sys/sys.c:993-1005 | A second descriptor for the file, the lowest one free, or nothing changed |
| Descriptors.Kernel.SysPipe | kernel/sys/sys.c:1007-1029 | The two lowest free descriptors, for a new pipe, if and only if two files, a page and two descriptors are free; otherwise nothing changed |
| Descriptors.Kernel.SysDup2 | kernel/sys/sys.c:1333-1360 | The new descriptor names the old one's file, what it named before is closed, counts are exact |
| Descriptors.Kernel.ForkFiles | kernel/cpu/proc.c:236-238 | The child's descriptors name the parent's files and counts are exact |
| Descriptors.Kernel.ExitFiles | kernel/cpu/proc.c:264-270 | All descriptors of the process are closed, everybody else's are kept |
| Division.NoOverflow | kernel/lib/type64.c:29-31 | The shifted remainder never overflows, divisors above 2^63 included |
| Division.SetBitIs | kernel/lib/type64.c:33-36 | Or-ing in a quotient bit sets that bit and no other |
| Division.LongDivision | kernel/lib/type64.c:77-92 | The loop gives quotient and remainder, and all ones for divisor zero |
| Division.UDivMod | kernel/lib/type64.c:4-43 | The unique quotient and remainder; zeros for divisor zero |
| Division.UDiv | kernel/lib/type64.c:77-92 | The quotient, or 2^64 - 1 for divisor zero |
| Division.DivIs | kernel/lib/type64.c:4-43 | Quotient and remainder are unique |
| Division.DivMod | kernel/lib/type64.c:45-67 | Truncation toward zero if and only if the quotient fits |
| Division.TruncatedUnique | kernel/lib/type64.c:45-67 | There is only one truncated quotient and remainder |

## Left out

- The driver, the buffer cache and the log are separate models; file system and log are composed, and of the cache the log uses what is proved of pinned buffers.
- `sync` and raw block device writes, which write home blocks outside the log: crash properties are stated for runs without them.
- Device inodes in `readi` and `writei`, directories, path walk, link counts, permission checks other than `file_write`'s owner test, and `ialloc`'s scan for a free inode.
- `clearpteu`, `inituvm`, `loaduvm` and switching address spaces; `copyuvm` is proved for pages with any flags, the guard page's included.
- Disk errors, device selection and port I/O in the disk driver; a command takes effect on the disk when it interrupts.
- Wakeups of pipe readers and writers: the pipe's contents are modelled, its sleepers are not.
- Spin locks, interrupt nesting and the scheduler's choice: a spin lock is held or free, and any runnable process may run next.
- exit's branch for an ignored SIGCHLD, signals, alarms, exec, the out-of-memory killer's choice.
- TTY, console, keyboard, timers, boot code, string and printing helpers.
- `__moddi3` and `__divdi3`, which only call `__divmoddi4`.
- IdeDriver.Driver.Enqueue: the lock test, and the panic of `ide_start` for a block number beyond the disk, are left to the caller; that no queued request makes the interrupt handler panic is proved.
- BufferList.Cache.AcquireSleep: is one turn of the waiting loop; that the waiters are woken is proved in `SleepWakeup`.
- BufferList.Cache.ReadIn: the disk request is one step, because the driver's queue is proved to behave so.
- GroupCommit.LogNeverOverflows: assumes at most nine distinct blocks an operation, which is proved of file writes, truncation and freeing, and not of directory operations.
- FileOps.Volume.IPut: takes the reference count and the valid flag as parameters; the table of entries is in `InodeCache`.
- FileOps.Volume.WriteI: says nothing of the state after running out of blocks, where the source panics.
- Mkfs.Image.Iappend: says nothing of the image after a failure, where the source stops.
- AddressSpace.Machine.AllocUvm: gives the page it could not map back before the others, and the source after them; only the order of the free list differs. Sizes are at most KERNBASE, which the source does not test, and no page of the range is mapped yet, where the source would panic.
- AddressSpace.Machine.SetupKvm: the kernel's data starts on a page boundary and memory ends below the devices, where the source panics.
- Malloc.Allocator.Malloc: what `sbrk` would answer is a parameter, a fresh region above the base or failure; failure is what `morecore` tests for, -1, where `sys_sbrk` returns -ENOMEM. What a caller does to memory beyond an overrun block is not modelled.
- Malloc.Allocator.Copy: copies header-sized units of eight bytes, where the source copies bytes.
- SleepWakeup.NoLostWakeup: one channel at a time, and wakeups that do not concern it are kills.
- Division.DivMod: negating the smallest number wraps, which C leaves undefined.
- Descriptors.Kernel.SysDup2: does not model the close-on-exec bits.
