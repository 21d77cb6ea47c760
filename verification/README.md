# Verified models of the xv6 lottery kernel

This project models the parts of the teaching kernel whose correctness is not visible in any one function, and
proves what they are for. Each component is one group of modules:

| files | component |
|---|---|
| `BlockWords`, `Log`, `LogProtocol`, `LogReservation`, `LogDevice` | the write-ahead log: crash atomicity over every interleaving, its recovery, when its reservations keep it from a panic, and the C loops that run it |
| `CacheModel`, `BufferCache`, `LogCache` | the buffer cache: one buffer per block, the LRU ring, reads that always see the latest contents, and the log running on it: which buffers a transaction pins and when none is left |
| `FileModel`, `FileTrunc`, `DiskLayout`, `FileState`, `FileSystem` | bitmap, inodes on disk, direct and indirect blocks, read, write, truncate |
| `WriteTrace`, `FileCost`, `LogCost`, `LogFit`, `FileWrite` | the record of what the file layer passes to `log_write`, what a write costs the log, when `log_write` refuses it, and the chunked writes of `filewrite` |
| `DiskImage`, `CrashConsistency`, `DiskFormat` | the log under the file layer: a crash leaves the file system from before an operation or the one after it; and the format of the disk byte by byte |
| `Directory`, `DirectoryOps`, `Path`, `InodeCache`, `Namei` | directories as finite maps, path components, the walk of a path, and inode reference counts |
| `HeapModel`, `Umalloc` | the circular coalescing allocator (section 8.7 of *The C Programming Language*, 2nd edition) |
| `PageTable`, `Vm`, `ForkIsolation` | two-level page tables over a page free list: page conservation, the copy made by fork, and what parent and child see of each other's stores |
| `Proc` | fork, exit and wait over every interleaving, and the loops that run them |
| `MersenneTwister`, `Lottery` | MT19937, rejection sampling, and the exact share of each process in the lottery |
| `Pipe` | the ring buffer with wrapping counters as a FIFO stream without lost wakeups |
| `ShellGrammar`, `ShellParse`, `ShellLayout`, `Shell` | the shell's scanner and recursive-descent parser against its grammar, where each part of the command stands in the line, and the cutting of the line into strings |
| `Regex` | the regular-expression matcher against the language of its patterns |
| `Common`, `KernelNumbers` | an option type, duplicate-free sequences and the sizes of sets; the numbers of the headers side by side |

Values come first: a state is a datatype, a protocol a set of actions with guards, a run a sequence of states, and
the theorems are about all runs or all inputs. The C functions that change things in place are then methods with
loops, proved to refine those values. Their `ensures` name the value-level step, and the lemmas about the values
say what the step is worth. Where a function of the model says what a method computes, a lemma or a further clause says the
same without it: in bytes and block numbers for the disk, in linear addresses for the page tables, in places of the line
for the shell.

A panic of the kernel appears in one of four ways. It is a value returned, with what must hold when it happens; or, for
the "too big" panic of `log_write`, the field `refused` of the file layer, which every operation returns as a result of
its own; or it is proved unreachable; or a `requires` excludes it, as the caller's duty that it is in the source:
`mappages` on a page that is mapped already ("remap"), `copyuvm` of a size below which a page is missing ("pte should
exist"), `brelse` or `bwrite` of a buffer not held.

Integers are unbounded except where the source depends on their width, and there the wrap-around is written out: the
pipe's counters, `malloc`'s rounding, the offset checks of `readi` and `writei`, the sixteen bits of a directory entry's
inode number, and the generator's 32-bit words.

Hypotheses that the code really needs are stated as such:

- single-block writes are atomic, and logged blocks lie outside the log area;
- in the file layer, `bread` finds a buffer. NBUF is LOGSIZE, so this can fail: `LogCache.NoBuffersIff` says exactly when,
  `BuffersSuffice` that it does not while a transaction's blocks and the buffers held are fewer than NBUF, and
  `CommitFindsNone` leads to a commit that panics. In the log layer the failure is a result (`LogDevice`);
- a changed buffer has gone to `log_write` or `bwrite` before it is released;
- a file has exactly the blocks below its size, which every write and truncation keeps;
- an inode in use that a name in a directory leads to has a link or a reference, and one not in use has no reference;
- nobody is inside a pipe call on an end that is being closed (the descriptor holds a reference);
- a generator output below the rejection limit comes some time. No bound on the wait follows from the recurrence.

The "too big" panic of `log_write` is no hypothesis anywhere. Crash atomicity holds however many blocks an operation
logs. Held to k new blocks each, operations never meet the panic on a block new to the log exactly when k is at most
MAXOPBLOCKS and `log.size > MAXOPBLOCKS + 2k` (`NewBlocksFitIff`); for k = MAXOPBLOCKS that is `log.size > LOGSIZE`, which
mkfs.c:25 (`nlog = LOGSIZE`) does not give. A write costs what `WriteCosts` says before it starts, and from an empty log,
with enough free blocks, `writei` meets the panic if and only if that is more than the smaller of LOGSIZE and
`log.size - 1` (`RefusedIff`). A chunk of
`filewrite` always costs more than the reservation if it is full (`ChunkExceedsReservation`) but never more than LOGSIZE,
nor more than 17 on a disk with one bitmap block (`ChunkFitsLog`), so it fits a log of its own, not one shared with
other operations.

Where the code does not do what its comments or names say, the model follows the code. The "too big" test of
`log_write` also refuses a block that is already in the log (`AbsorbedWriteCanPanic`; `AbsorbedBlocksFitIff` says
exactly when it does not), `deallocuvm`'s jump over an absent page table can miss a page when it does not start on a
4MB boundary (`SkipCanMiss`; `NoSkipFromBoundary` and `NoSkipWhenContiguous` say when it cannot), and the shell opens
`>>` exactly as it opens `>`.

The file layer records the calls of `log_write` since the last `begin_op`: `trace` lists every block passed on with its
contents, `touched` their numbers, `lh` the blocks in the log with those that were there before, and `refused` whether
the test for "too big" was ever met. After a refusal the kernel has stopped; the model's methods run on to their end, and
return the panic. The disk is always the recorded writes applied to the disk at `begin_op`, which is how the theorems
about the log reach the bytes of a file. `Known` in a contract states its argument; it only keeps the verifier from taking
a long predicate apart at every call.

## Model

| member | source | states |
|---|---|---|
| `BlockWords.SetWordAt` | fs.c:371-380 | storing a 32-bit word in a block changes that word and no other, for the little-endian byte layout |
| `Log.StampReads` | log.c:84-112 | reading back a written log header gives exactly the list that was written, whatever was in the block before |
| `Log.TooManyIs` | log.c:215-216 | the "too big" test: thirty blocks in the transaction, or one fewer than the log has |
| `Log.ReplayAt` | log.c:67-81 | after installation every home block holds the last log copy made for it and every other block is unchanged |
| `Log.ReplayAfterPartial` | log.c:67-81 | an installation cut off after any number of blocks and then run whole equals one whole installation |
| `Log.RecoveryInterrupted` | log.c:114-121 | recovering a disk on which recovery crashed at any single-block write gives what recovering the original would have given |
| `Log.RecoveryAfterRepeatedCrashes` | log.c:114-121 | any number of crashes during recovery, anywhere, leave its outcome unchanged, and recovering again changes nothing |
| `LogProtocol.BeginKeepsInv` | log.c:123-140 | begin_op adds an operation to the open transaction only, and keeps the invariant |
| `LogProtocol.LogWriteKeepsInv` | log.c:209-230 | log_write keeps the header list free of duplicates and within the log, and the pinned buffers exactly those listed, however many blocks an operation logs |
| `LogProtocol.EndKeepsInv` | log.c:142-171 | end_op starts a commit only when the last operation leaves |
| `LogProtocol.InvStep` | log.c:123-230 | every action, every single-block write of a commit or recovery, and every crash keeps the log's invariant: no commit with an operation outstanding, no block joining during a commit, no duplicates, log copies equal to the pending blocks |
| `LogProtocol.CommitPoint` | log.c:98-112 | the one write of the header makes exactly all pending contents durable |
| `LogProtocol.InstallInvisible` | log.c:67-81 | copying a block home does not change what recovery would leave |
| `LogProtocol.OverlayIs` | log.c:209-230 | the contents of a block are what is pending for it, or else what the disk has |
| `LogProtocol.MaskIs` | log.c:52-65 | the contents of two disks are the same exactly if they agree on every block outside the log |
| `LogProtocol.ClearInvisible` | log.c:190-199 | clearing the header after installation does not change what recovery would leave |
| `LogProtocol.StepRefines` | log.c:123-230 | each step of the concrete log, crashes in any phase included, is a step of an atomic disk whose durable contents change only when no operation is in progress |
| `LogProtocol.RunSafe` | log.c:123-230 | the invariant holds in every state of every run from boot |
| `LogProtocol.RunRefines` | log.c:123-230 | every run of the log is a run of the atomic disk |
| `LogProtocol.AbsRun` | log.c:123-230 | the whole sequence of abstract states of a run is itself a run of the atomic disk |
| `LogProtocol.DurableIsQuiescent` | log.c:67-230 | crash atomicity: at every moment of every run, what recovery would leave is exactly what the file system held at some earlier moment with no operation in progress |
| `LogProtocol.DurableWhenIdle` | log.c:190-199 | after a commit with nothing newly logged, everything written is durable |
| `LogProtocol.DiskWritesInvisible` | log.c:67-199 | the writes of a commit or of recovery never change what the file system reads |
| `LogReservation.ReservedStep` | log.c:123-230 | begin_op's test, log_write's spending and end_op's return keep logged plus still unspent blocks within MAXOPBLOCKS + 2k while operations keep to k <= MAXOPBLOCKS new blocks, for every k |
| `LogReservation.RunReserved` | log.c:123-230 | so it is in every state of every such run |
| `LogReservation.NoPanicWithinReservation` | log.c:211-218 | with log.size > LOGSIZE no operation that has not used up its reservation meets the size test of log_write in any state reachable within the reservations |
| `LogReservation.NoPanicInOperation` | log.c:148-152 | in no run, whatever it logs, does an operation find its transaction closed or a commit under way |
| `LogReservation.NewBlocksFitIff` | log.c:215-216 | for every bound k on new blocks per operation and every log size: a newly logged block never meets the panic if and only if k is 0, or k <= MAXOPBLOCKS and log.size > MAXOPBLOCKS + 2k |
| `LogReservation.AbsorbedWriteCanPanic` | log.c:215-225 | on every log with room for a block, a reachable state in which rewriting a block that is already in the log panics although no space is needed |
| `LogReservation.AbsorbedBlocksFitIff` | log.c:215-225 | for every bound k and every log size: no block already in the log is ever refused if and only if k is 0, the log has no room at all, or k < MAXOPBLOCKS and log.size > MAXOPBLOCKS + 2k + 1 |
| `LogDevice.Device.constructor` | log.c:52-95 | booting reads the header list from the disk and starts a run of the protocol |
| `LogDevice.Device.WriteLog` | log.c:173-187 | the loop is exactly n single-block writes of the protocol and ends with every pending block in the log; it panics for want of a buffer, before the first write, exactly if n and the buffers held elsewhere leave none of NBUF |
| `LogDevice.Device.InstallTrans` | log.c:67-81 | the loop is exactly n single-block writes of the protocol and ends with every logged block installed; in a commit that got through write_log it always finds its buffers, and in recovery exactly with two to spare |
| `LogDevice.Device.WriteHead` | log.c:98-112 | the header write is one step of the protocol, the commit point |
| `LogDevice.Device.BuildHeader` | log.c:100-112 | the loop over the list produces the header that reads back as the list |
| `LogDevice.Device.Commit` | log.c:189-199 | a commit is 2n + 2 single-block writes and leaves on the home blocks the disk overlaid with every pending block; it panics, with nothing written, exactly if n > 0 and n and the buffers held elsewhere reach NBUF |
| `LogDevice.Device.RecoverFromLog` | log.c:114-121 | recovery leaves the home blocks exactly as the durable contents of the disk it started from, and always finds its buffers |
| `LogDevice.Device.BRead` | bio.c:60-109 | a pinned buffer hides the disk; the panic happens exactly if the block is not pinned and the pinned blocks and the buffers held are all NBUF |
| `LogDevice.Device.BeginOp` | log.c:123-140 | begin_op goes ahead exactly when no commit runs and ten blocks for every operation with those logged are at most thirty, and is then the protocol's step |
| `LogDevice.Device.LogWrite` | log.c:209-230 | log_write with its absorption loop is the protocol's step, and refuses exactly on its size test |
| `LogDevice.Device.EndOp` | log.c:142-171 | the last operation out commits, after which every write of the transaction is on its home block, or panics exactly as commit does; the "log.committing" panic is unreachable |
| `CacheModel.InvStep` | bio.c:60-142 | every action on a buffer keeps: one buffer per block, dirty implies valid, buffers and disk agree with the flat block map, LRU order |
| `CacheModel.RunSafe` | bio.c:39-142 | that invariant holds throughout every run from binit |
| `CacheModel.FlatIsLast` | bio.c:111-119 | over every run, the latest contents of a block are the data with which it was last passed to log_write or bwrite |
| `CacheModel.ReadsLatest` | bio.c:98-109 | a buffer delivered by bread, from the cache or the disk, holds the latest contents of its block |
| `CacheModel.RecycleLosesNothing` | bio.c:83-94 | the contents of a recycled buffer are on the disk already |
| `CacheModel.ReleaseKeepsLru` | bio.c:122-142 | moving a released buffer to the front keeps the list a permutation of all buffers ordered by last release |
| `BufferCache.Unlinked` | bio.c:131-132 | the two pointer stores take a buffer out of the doubly linked ring and leave a ring of the rest |
| `BufferCache.Inserted` | bio.c:133-136 | the four pointer stores put a buffer behind the head of the ring |
| `BufferCache.Bcache.constructor` | bio.c:39-57 | binit builds a ring of all buffers and the boot state of the cache |
| `BufferCache.Bcache.FindBlock` | bio.c:69-81 | the forward scan finds the buffer of the block, and reports none only if there is none |
| `BufferCache.Bcache.FindVictim` | bio.c:83-95 | the backward scan finds the least recently released buffer that is neither busy nor dirty, and none only if there is none |
| `BufferCache.Bcache.BGet` | bio.c:60-96 | bget is a hit on the block's one buffer, a recycling of the least recent reusable one, a sleep on a busy one, or the panic, exactly when no buffer has the block and none is reusable |
| `BufferCache.Bcache.BRead` | bio.c:98-109 | bread returns a busy buffer with the latest contents of the block |
| `BufferCache.Bcache.BWrite` | bio.c:111-119 | exactly the buffer's block of the disk becomes the buffer's data, which is then its latest contents, and the buffer is clean |
| `BufferCache.Bcache.Pin` | log.c:228 | log_write's dirty mark pins the buffer and makes its data the latest contents |
| `BufferCache.Bcache.BRelse` | bio.c:122-142 | the buffer goes to the front of the ring, the others keep their order, and it is free |
| `LogCache.AgreesStep` | log.c:67-230 | log and cache together: every step of either keeps the dirty buffers exactly the blocks of the transaction with their pending contents, and the cache's latest contents those the log reads |
| `LogCache.RunAgrees` | log.c:67-230 | so it is throughout every run of the two, crashes included |
| `LogCache.NoBuffersIff` | bio.c:83-95 | a bread of a block that nobody holds panics if and only if the block is not in the transaction and the transaction's pinned blocks plus the other buffers held are all the buffers there are |
| `LogCache.BuffersSuffice` | bio.c:83-95 | while the blocks of the transaction and the buffers held are fewer than the buffers, no bread panics |
| `LogCache.WriteLogFindsIff` | log.c:173-187 | in a commit the bread of a log block panics if and only if the transaction and the buffers held by others are all there are; the bread of the cached block never does |
| `LogCache.SmallLogSuffices` | mkfs.c:25 | with a log of at most LOGSIZE blocks and nobody else holding a buffer, no bread panics in any reachable state |
| `LogCache.CommitFindsNone` | param.h:10-12 | with a larger log, from every disk with an empty one, three operations within their reservations reach a commit of NBUF blocks whose first bread panics |
| `DiskLayout.SetMarkAt` | fs.c:63-65 | setting or clearing a bit of a bitmap block changes that bit and no other |
| `DiskLayout.StoreRoundTrip` | fs.c:199-215 | an inode stored in its place of a block reads back as it was, and the seven others in the block are untouched |
| `FileModel.OwnershipMeans` | fs.c:52-93 | an owner map exists only if the bitmap marks exactly the metadata and the reachable blocks and no block is reachable twice |
| `FileModel.GiveOwned` | fs.c:361-380 | giving a free block to an empty direct, indirect or second-level slot keeps ownership |
| `FileModel.GiveGrew` | fs.c:361-380 | doing so changes no other slot and no block of any file |
| `FileModel.PutBlock` | fs.c:484-485 | storing a data block of a file changes that block of that file and no block of any other |
| `FileModel.PatchTwice` | fs.c:481-486 | a write that starts where the last one ended makes one longer write with it |
| `FileModel.RoundGood` | fs.c:481-486 | a round of writei keeps ownership, and every file keeps exactly the blocks below its size |
| `FileModel.RoundContents` | fs.c:481-486 | a round of writei patches its bytes into the file, across the boundary to the indirect block |
| `FileModel.RoundAllOthers` | fs.c:481-486 | a round of writei leaves the bytes and the inode of every other file alone |
| `FileSystem.FileSys.FindFree` | fs.c:58-73 | the two loops over the bitmap find the first free block, or prove that there is none |
| `FileSystem.FileSys.BAlloc` | fs.c:50-75 | the first free block is marked and zeroed and nothing else changes; the panic happens only when every block is in use |
| `FileSystem.FileSys.BFree` | fs.c:77-93 | exactly that bit is cleared; the panic happens exactly when it was clear |
| `FileSystem.FileSys.IUpdate` | fs.c:198-215 | the inode on disk is the one in memory, and no other inode on disk changes |
| `FileSystem.FileSys.BMap` | fs.c:354-384 | exactly the missing slots among the block's own and the indirect block are filled; ownership is kept; nothing changes if the block is there; out of range and out of blocks are told apart |
| `FileState.WordFilled` | fs.c:369-381 | allocating the indirect block and then the data block fills exactly the missing slots, takes the first free blocks, and passes to log_write exactly what filling those slots takes |
| `FileSystem.FileSys.Put` | log.c:209-230 | one block handed to log_write: the disk stays the recorded writes applied to the disk at begin_op, and the call is refused exactly on the test that log_write makes before absorption |
| `FileSystem.FileSys.Make` | mkfs.c:237-251 | a zeroed disk with the blocks before the data marked is a valid file system without files |
| `FileCost.MissingIs` | fs.c:354-384 | the slots bmap fills for a stretch of a file are exactly those between the slot counts of the old and the new size |
| `FileSystem.FileSys.ReadI` | fs.c:432-458 | the result is the slice of the file's bytes, cut at its end; -1 exactly for an offset past the end or a wrapping length; nothing changes |
| `FileSystem.FileSys.WriteRound` | fs.c:481-486 | one round of the loop, allocation included, patches the chunk in, without growth changes no inode, fails only if it grows the file with every block in use, and passes to log_write exactly its data block and what its new slots take; a round inside the file is refused exactly on the log's size |
| `FileSystem.FileSys.WriteI` | fs.c:460-492 | the file becomes old[..off] + src + old[off+n..]; every other file is unchanged; every inode on disk equals the one in memory although iupdate runs only on growth; -1 exactly if the bytes do not fit; exactly which blocks went to log_write, and whether the log refused one of them, by the blocks before the last; the panic of balloc only for a write past the end with every block in use |
| `FileState.WriteEnds` | fs.c:476-491 | over all rounds, with the inode at the end: log_write refuses somewhere exactly if the log is full before the last call, the blocks of the earlier ones counted once each |
| `FileState.SpentStep` | fs.c:481-486 | what the rounds have passed to log_write adds up: the data blocks touched, each once, and what the new slots take |
| `FileState.SyncedAfter` | fs.c:488-491 | updating the one inode that changed is enough for all inodes on disk to equal those in memory |
| `FileState.WrapTest` | fs.c:447-448 | the test for a wrapped 32-bit sum is exact |
| `FileTrunc.FreeSlot` | fs.c:397-416 | the block of the next slot is still marked, so bfree's panic is unreachable in itrunc |
| `FileTrunc.EmptiedGood` | fs.c:391-419 | ownership and all other files survive a truncation |
| `FileSystem.FileSys.ITrunc` | fs.c:391-419 | exactly the blocks of that inode are freed; in memory and on disk its size and its addresses are zero and its other fields as they were; nothing else changes; log_write refuses only if the log is full with the bitmap in it |
| `FileSystem.FileSys.IFree` | fs.c:327-330 | iput's freeing of an inode: in memory and on disk its type, its size and its addresses are zero and its other fields as they were |
| `LogCost.TakenAreFirst` | fs.c:58-73 | which blocks a run of allocations takes depends on their number alone: they are the first free ones |
| `LogCost.WriteParts` | fs.c:354-384 | what a write passes on is its data blocks, the bitmap blocks of the blocks it takes, and the indirect block if a slot behind it is filled |
| `LogCost.WriteCosts` | fs.c:460-492 | every write, growing or not, passes to log_write exactly as many different blocks as its offset, length, the file's size and the bitmap say beforehand |
| `LogCost.InsideCosts` | fs.c:460-492 | a write inside the file costs its data blocks and nothing more |
| `LogCost.OneBitmapFits` | mkfs.c:244 | on a disk with one bitmap block it fits if and only if its data blocks do, with one more for the inode on growth, one for the bitmap on a new block, one for the indirect block past the direct ones |
| `LogCost.SmallWriteFits` | file.c:126-132 | up to the bound that the comment describes, computed from MAXOPBLOCKS, every write on every disk keeps to the reservation |
| `LogCost.ShortMeans` | fs.c:50-75 | a write that ran out of blocks had fewer free ones than the slots it had to fill |
| `LogCost.DoneMeans` | fs.c:50-75 | a write that was done had enough, so the bitmap decides beforehand |
| `LogCost.RefusedIff` | log.c:215-216 | from an empty log, writei meets the "too big" panic if and only if its cost is more than min(LOGSIZE, log.size - 1) |
| `LogCost.CostAtMost` | file.c:126-132 | m whole blocks of data cost at most 2m + 4 log blocks, on every disk and at every offset |
| `LogCost.OneBitmapAtMost` | file.c:126-132 | and at most m + 4 on a disk with one bitmap block |
| `LogFit.CallsThrough` | log.c:209-230 | the calls of log_write of any record, made by an operation of the log protocol, go through exactly if the record says that none is refused, and leave the list it says |
| `LogFit.RefusedIsPanic` | log.c:209-230 | so what the file layer calls refused is the panic of the protocol, from every state of the log |
| `FileWrite.ChunkFitsLog` | file.c:126-132 | a chunk never costs more than LOGSIZE blocks, nor more than 17 on a disk with one bitmap block, and so fits a log of its own; the log that mkfs makes takes 29 |
| `FileWrite.ChunkExceedsReservation` | file.c:126-132 | the bound is computed from LOGSIZE, so a full chunk always exceeds the reservation, wherever it starts and whether or not the file grows |
| `FileWrite.WriteOp` | file.c:139-144 | one transaction of filewrite from an empty log: the effect of writei, done with exactly the computed cost in the log; with enough free blocks the "too big" panic only if that cost exceeds the log; without, a panic |
| `FileWrite.WroteTwice` | file.c:133-151 | two adjacent writes to a file are one |
| `FileWrite.ChunkRefused` | file.c:133-147 | a chunk is refused only if the whole write does not fit |
| `FileWrite.File.WriteChunk` | file.c:133-151 | one transaction extends the prefix of the source that is in the file |
| `FileWrite.File.Write` | file.c:114-155 | the chunks compose to one write of the whole source exactly when it fits; otherwise a prefix as long as the offset moved is in the file; on a log that takes every chunk, a panic only for a write past the end with every block in use |
| `CrashConsistency.CrashLeavesConsistent` | log.c:67-230 | if the file system is consistent whenever no operation is in progress, then recovery after a crash at any moment of any run leaves bitmap, inodes and ownership consistent on the disk |
| `CrashConsistency.OperationIsAtomic` | log.c:123-230 | an operation run from an idle machine is durable as a whole or not at all, whatever single-block writes and crashes follow, and not before end_op |
| `CrashConsistency.OperationLeavesConsistent` | log.c:123-230 | an operation that takes one consistent image to another leaves a consistent disk wherever a crash cuts it off |
| `CrashConsistency.UpdatedIsStored` | log.c:209-230 | the log_write calls of an operation do to what the log layer reads what they do to the file layer's blocks |
| `CrashConsistency.OperationSurvives` | log.c:67-230 | wherever a crash cuts off an operation of the file layer that reaches end_op, recovery leaves the file system from before it or the one after it, and the first until end_op |
| `CrashConsistency.StoppedSurvives` | log.c:67-230 | of an operation that never reaches end_op, as one that panics, nothing survives: at every moment recovery leaves the file system from before it |
| `CrashConsistency.FileOperationSurvives` | fs.c:354-492 | every file operation that ends valid is such an operation, by the blocks it passed to log_write since begin_op: after a crash all files are as before it or all as after it |
| `CrashConsistency.WriteSurvives` | fs.c:460-492 | after a crash at any moment of a write the file reads its old bytes or old[..off] + src + old[off+n..], and every other file its own |
| `DiskImage.HoldsOne` | fs.c:354-458 | a disk holds one file system: its inodes and the bytes of all files are determined by the blocks |
| `DiskImage.DirRecovered` | fs.c:531-559 | after a crash in dirlink or unlink the directory has its old bytes or its new ones |
| `DiskImage.TruncRecovered` | fs.c:391-419 | after a crash in itrunc the file has its old bytes or none |
| `DiskFormat.SetWordFormat` | fs.c:371-380 | a stored word is four bytes, the lowest first, and no other byte of the block changes |
| `DiskFormat.LogFormat` | log.c:30-50 | the header of the log is a count and block numbers of four bytes each; the blocks follow it |
| `DiskFormat.InodeFormat` | fs.h:28-41 | which of the 64 bytes of an inode holds which field, and in which block inode i is |
| `DiskFormat.BitmapFormat` | fs.h:43-47 | which bit of which byte of which block marks block b |
| `DiskFormat.FileFormat` | fs.c:354-384 | read from the raw blocks of the disk: the size of a file, and every byte of it through the twelve direct or 128 indirect addresses |
| `DiskFormat.ImageFormat` | fs.c:354-384 | so it is on every disk that holds a file system, such as one that recovery has left |
| `DiskFormat.EntryFormat` | fs.h:49-55 | which bytes of a directory are the number and the name of its entry k |
| `CrashConsistency.ValidHolds` | fs.c:354-492 | every operation that keeps the file layer valid leaves its state on the disk |
| `Directory.FieldReadsBack` | string.c:68-79 | a name stored by strncpy reads back cut to 14 bytes |
| `Directory.StrNCpy` | string.c:68-79 | the two loops fill the 14-byte field with the name and zeros |
| `Directory.NameCmp` | fs.c:497-501 | namecmp says equal exactly when the first 14 bytes of the name are the string in the field |
| `Directory.NewEntryReadsBack` | fs.c:551-552 | an entry written by dirlink reads back as its name and inode number |
| `Directory.RefinesOne` | fs.c:505-529 | the map a directory stands for is a function of its bytes |
| `Directory.LinkRefines` | fs.c:532-559 | writing a new entry in a free place or at the end adds exactly one binding and keeps names unique |
| `Directory.DeadRefines` | fs.c:551-554 | an entry whose sixteen-bit inode number is zero binds nothing |
| `Directory.UnlinkRefines` | sysfile.c:215-217 | writing zeros over an entry removes exactly its binding |
| `Directory.NamedIn` | fs.c:505-529 | an entry found is a binding of the map |
| `Directory.NotThere` | fs.c:513-528 | a search that reaches the end proves the name unbound |
| `DirectoryOps.DirLookup` | fs.c:503-529 | the first entry for the name cut to 14 bytes, or proof that there is none; the read panic is unreachable |
| `DirectoryOps.DirLink` | fs.c:531-559 | a bound name is refused without change; otherwise exactly that binding is added, the directory grows only if no entry was free, and every other file is unchanged; panic only if log_write refuses, or with every entry in use and no room to grow |
| `DirectoryOps.ClearEntry` | sysfile.c:215-217 | unlink's zeroing write removes exactly one binding and changes no other file; its own panic is unreachable, on a full disk too, and log_write refuses exactly if the log is full |
| `DirectoryOps.IsDirEmpty` | sysfile.c:164-178 | true exactly when nothing after the first two entries is in use |
| `Path.FirstComponent` | fs.c:576-599 | the first piece of a path, cut to 14 bytes, and then the components of the rest are its components |
| `Path.LeadingSlash` | fs.c:580-581 | a slash in front changes nothing; the two and the empty path say what the components of every path are |
| `Path.SkipElem` | fs.c:576-599 | skipelem takes exactly the first of the nonempty slash-separated components, and leaves the end of the path exactly after the last |
| `Path.ResolveTwice` | fs.c:605-638 | walking a path is walking its beginning and then its end from there |
| `Path.ParentIs` | fs.c:619-623 | the parent of a path is where all but its last name leads, if that is a directory |
| `Path.LastStep` | fs.c:619-628 | a whole path is its last name looked up in its parent |
| `Path.ResolveIs` | fs.c:605-638 | a path leads to an inode exactly if there is a walk of directories, each bound to the next by the next name, that ends in it; its parent is the directory where the walk without the last name ends |
| `InodeCache.RefsAre` | fs.c:225-233 | a slot in use holds all the references to its inode |
| `InodeCache.Cache.IGet` | fs.c:217-251 | exactly one reference to that inode is added, in its own slot or, if it has none, in the first free one; no two slots ever hold one inode; the panic happens only with all slots in use |
| `InodeCache.Cache.IDup` | fs.c:253-262 | exactly one reference is added |
| `InodeCache.Cache.Drop` | fs.c:334 | exactly one reference is taken away |
| `Namei.IPut` | fs.c:317-336 | one reference fewer, and the inode is freed, its type zero in memory and on disk, exactly when that was the last one of a loaded inode without links; only the freeing can be refused by log_write |
| `Namei.HeldTwice` | fs.c:624-629 | after dirlookup has taken the next inode, dropping the last one cannot free it |
| `Namei.Find` | fs.c:503-529 | dirlookup in a directory of the tree is lookup in its map |
| `Namei.NameX` | fs.c:601-638 | a path that begins with a slash leads where its components lead from inode 1, every other, the empty one too, where they lead from the current directory, for namei and nameiparent, removed directories that are still held included; it panics with "no type" exactly when the walk comes to a freed inode with a name left; on every exit but a panic only the inode returned has a reference more, by one |
| `Namei.DeadIs` | fs.c:615-632 | the walk comes to that panic exactly if some of the names, but not all, lead to an inode that is not in use |
| `Namei.AnswersAgree` | fs.c:610-613 | two walks from one inode have one answer, so an absolute path means the same from every current directory |
| `HeapModel.FreedWellFormed` | umalloc.c:24-44 | freeing any live block keeps the list address-ordered with no two neighbours touching, disjoint from every live block, and accounting for every unit |
| `HeapModel.TakenWellFormed` | umalloc.c:75-84 | cutting units from the end of an entry keeps the heap well formed, and the block handed out was in nobody's hands |
| `HeapModel.GrownWellFormed` | umalloc.c:46-61 | memory from sbrk above the arena joins a well-formed heap |
| `HeapModel.RunWellFormed` | umalloc.c:24-90 | the heap is well formed after every run of malloc, free and sbrk |
| `HeapModel.UnitsConserved` | umalloc.c:24-90 | in every run a unit obtained from sbrk is free or live, and no other unit is |
| `Umalloc.UnitsSuffice` | umalloc.c:69 | the block is large enough for the request exactly when rounding it up does not wrap in 32 bits |
| `Umalloc.UnitsExact` | umalloc.c:69 | and the block has at most seven bytes to spare beside its header |
| `Umalloc.StopsAtPlace` | umalloc.c:30-32 | free's search condition holds at the block's place in the ring and nowhere before, the wrap point included |
| `Umalloc.Allocator.FindPlace` | umalloc.c:30-32 | the search ends at the entry after which the block belongs |
| `Umalloc.Allocator.Link` | umalloc.c:33-42 | joining or linking on both sides yields the ring of the list with the block inserted |
| `Umalloc.Allocator.Free` | umalloc.c:24-44 | free turns the ring into that of the heap with the block freed and leaves freep at its place |
| `Umalloc.Allocator.MoreCore` | umalloc.c:46-61 | a successful sbrk puts a fitting block in the list, at freep if it merged with its predecessor and right after it if not; a failed one changes nothing |
| `Umalloc.Allocator.Search` | umalloc.c:74-88 | one lap of the ring finds a fitting entry if there is one, and ends at freep otherwise |
| `Umalloc.Allocator.CutEntry` | umalloc.c:75-84 | the pointer and size stores make the ring of the list with the units cut off |
| `Umalloc.Allocator.Malloc` | umalloc.c:63-90 | malloc ends after at most one sbrk with a block nobody held, and returns null exactly when nothing fits and sbrk fails |
| `PageTable.EntryWithFlags` | vm.c:82-84 | an entry built from a frame and the flags of a present entry gives both back |
| `PageTable.EntryParts` | vm.c:83 | an entry built from a frame and any permissions has that frame, the present bit, and every other bit of the permissions |
| `PageTable.WordParts` | mmu.h:143-145 | a table word is its frame times 4096 plus its flags, and maps something exactly if they are odd |
| `PageTable.TranslateIs` | mmu.h:104-127 | the hardware's walk on a linear address, ten, ten and twelve bits, with the permissions of both levels, is decided in this kernel's tables by the one entry of the page |
| `PageTable.PageUpIs` | mmu.h:129 | rounding up to pages gives enough of them and not one more |
| `PageTable.MapOwns` | vm.c:79-88 | mapping a frame makes the space own exactly that frame more |
| `PageTable.AddTableOwns` | vm.c:53-63 | a new page table makes the space own exactly that frame more and maps nothing differently |
| `PageTable.NoSkipFromBoundary` | vm.c:258-262 | starting at a 4MB boundary, the jump over an absent page table misses no mapped page |
| `PageTable.NoSkipWhenContiguous` | vm.c:258-262 | when the mapped user pages are exactly those below a size, the walk from any start reaches every one of them that it should |
| `PageTable.SkipCanMiss` | vm.c:258-262 | from a start inside a 4MB region a space exists in which the jump does miss a mapped page |
| `Vm.Memory.constructor` | kalloc.c:30-36 | before kinit1 nothing is free |
| `Vm.Memory.FreeRange` | kalloc.c:45-52 | exactly the whole pages of the range go on the free list, the last one first |
| `Vm.Memory.KFree` | kalloc.c:54-77 | the page heads the free list, with the old head in its first word and the rest filled, and no other page changes |
| `Vm.Memory.KAlloc` | kalloc.c:79-95 | the head of the free list is taken, and 0 returned exactly when it is empty |
| `Vm.Memory.DeallocUvm` | vm.c:245-273 | exactly the reached pages of the range are freed, each once in address order, and unmapped |
| `Vm.OwnedOnce` | vm.c:275-292 | listing user pages, tables and directory lists each owned frame exactly once |
| `Vm.Memory.FreeVm` | vm.c:275-292 | freevm passes to kfree every frame the space owns exactly once and no other frame, and changes no other |
| `Vm.Memory.WalkAlloc` | vm.c:42-65 | the page table exists afterwards, present, writable and open to the user in the directory, and nothing maps differently |
| `Vm.Memory.MapPage` | vm.c:67-90 | exactly the one entry is set, to the frame with the permissions given and the present bit |
| `Vm.Memory.MapPages` | vm.c:67-90 | exactly the entries of the range are set, to successive frames with the permissions given and the present bit |
| `Vm.Memory.SetupKvm` | vm.c:127-144 | every linear address of a kernel range goes to its physical place, writable exactly if the range's permissions have PTE_W, open to the user exactly if they have PTE_U, and every other address faults; the frames taken are exactly those gone from the free list, on failure too |
| `Vm.Memory.CopyUvm` | vm.c:307-337 | the child maps the same user pages with the same flags and bytes over frames that were all free before, and exactly the kernel's ranges above them; the parent is the same space with the same frames; on failure the free list is as before except the frames of an unfinished directory or the one page without a table |
| `ForkIsolation.StoredSeen` | vm.c:307-337 | one store is seen at its own word by its own process, if both levels of the table allow the user to write there, and nowhere else; both maps and their disjointness survive it |
| `ForkIsolation.ForkIsolated` | vm.c:307-337 | whatever sequence of stores the two processes make, interleaved in any way: the maps stay and stay apart, and every load gets the word its own process stored there last, or else the one from before |
| `ForkIsolation.ForkCopies` | vm.c:307-337 | at the fork every word that the parent can load the child can, with the same value, and it may write exactly where the parent may |
| `ForkIsolation.ChildSees` | proc.c:145-150 | after a fork and any stores of the two, the child reads its own last word or the parent's word at the fork |
| `Proc.ExitedByStages` | proc.c:200-216 | exit's interleaved wakeups and adoption equal waking first, adopting next, and becoming a zombie last |
| `Proc.ExitKeepsInv` | proc.c:200-216 | exit leaves no sleeping parent with a zombie child and no orphan |
| `Proc.ReapKeepsInv` | proc.c:232-249 | reaping a child keeps the table's invariant and the record of pids |
| `Proc.InvStep` | proc.c:134-261 | every locked section of fork, exit, wait, sleep, wakeup and the scheduler keeps the invariant |
| `Proc.RunSafe` | proc.c:134-431 | the invariant holds in every state of every run |
| `Proc.NoLostExit` | proc.c:178-261 | in every run no process sleeps in wait with a zombie child, and every process but init has a parent that can still wait for it |
| `Proc.WaitReturnsEachExitOnce` | proc.c:222-261 | in every run wait returns each pid at most once, and only after that process exited |
| `Proc.ReapedGrows` | proc.c:222-261 | the record of pids returned only grows along a run |
| `Proc.Ptable.constructor` | proc.c:84-109 | the table starts as init alone |
| `Proc.Ptable.AllocProc` | proc.c:38-60 | the first unused slot, with none unused before it, becomes an embryo with a new pid, and none only if none is unused |
| `Proc.Ptable.Wakeup1` | proc.c:420-431 | exactly the sleepers on the channel become RUNNABLE, every other field of every slot stays |
| `Proc.Ptable.Exit` | proc.c:200-216 | the loops of exit compute the protocol's exit step: slot by slot, the process is a zombie, its children are init's, its sleeping parent and an init that got a zombie are awake, and nothing else has changed |
| `Proc.Ptable.WaitPass` | proc.c:222-261 | a pass of wait reaps a zombie child if there is one, whose slot is then unused, reports no children exactly if there are none, and else sleeps |
| `MersenneTwister.CombineInvertible` | rand.c:76-85 | the twist loses nothing of the two half-words it combines |
| `MersenneTwister.TemperInvertible` | rand.c:90-98 | tempering permutes the 32-bit words |
| `MersenneTwister.Generator.Seed` | rand.c:51-61 | seeding fills the array with the first 624 words of the sequence |
| `MersenneTwister.Generator.Regenerate` | rand.c:70-88 | the in-place loops, with both wrapped indices, move the window of the recurrence on by 624 words |
| `MersenneTwister.TwisterRecurs` | rand.c:51-88 | the kernel's words start with the 69069 steps of sgenrand and go on with the twist over 624 and 397 places, for every seed |
| `MersenneTwister.NextIs` | rand.c:60 | the step of sgenrand is multiplication by 69069 modulo 2^32 |
| `MersenneTwister.CombineIs` | rand.c:76-85 | the twist in arithmetic: which bits of which word, halved, and 0x9908b0df if the second is odd |
| `MersenneTwister.TemperIs` | rand.c:90-94 | tempering in arithmetic: the four shifts and two masks, in order |
| `MersenneTwister.Low31Is` | rand.c:96-98 | what is returned is the word modulo 2^31 |
| `MersenneTwister.Generator.GenRand` | rand.c:63-99 | for every seed, call number k returns the k-th output of the recurrence, whatever its word operations |
| `MersenneTwister.KernelRand` | rand.c:63-99 | with rand.c's operations that is the tempered word number 624 + k of MT19937 (Matsumoto and Nishimura, 1998) cut to 31 bits |
| `MersenneTwister.BinRange` | rand.c:103-120 | below the limit the bins 0 to max are complete |
| `MersenneTwister.LimitIs` | rand.c:103-112 | the limit is the largest multiple of the number of bins up to 2^31 |
| `MersenneTwister.Generator.RandomAtMost` | rand.c:101-120 | the first output below the limit, scaled down; everything before it was at or above the limit |
| `Lottery.WinnerUnique` | proc.c:302-326 | at most one slot wins a draw |
| `Lottery.TotalTickets` | proc.c:282-286 | the first loop sums the tickets of all slots |
| `Lottery.TotalChange` | proc.c:282-286 | every slot counts, RUNNABLE or not: changing one changes the total by the difference |
| `Lottery.BeforeChange` | proc.c:302-309 | in the selection only RUNNABLE slots count |
| `Lottery.Select` | proc.c:295-326 | a slot is chosen exactly when the draw lies in its interval over the RUNNABLE slots, and none exactly when the draw is past them |
| `Lottery.CountIsCardinality` | rand.c:101-120 | counting by recursion is the size of the set |
| `Lottery.EqualPreimages` | rand.c:101-120 | each value of random_at_most has exactly bin-size accepted generator outputs |
| `Lottery.CountResidues` | proc.c:288-293 | how many draws fall in an interval after reduction modulo the total, exactly |
| `Lottery.PickProcess` | proc.c:282-326 | a turn of the scheduler runs the slot that the accepted generator output elects |
| `Lottery.ElectsIs` | proc.c:288-326 | in numbers: an output below 2 * 982343222 elects the RUNNABLE slot in whose interval half of it lies modulo the total |
| `Lottery.LotteryCount` | proc.c:282-326 | the exact number of accepted outputs that elect a RUNNABLE process |
| `Lottery.LotteryShare` | proc.c:282-326 | a process with t of T tickets is elected by between t*b*floor(N/T) and t*b*ceil(N/T) of the accepted outputs |
| `KernelNumbers.FileSystemNumbers` | fs.h:5-50 | the sizes and numbers of the file system |
| `KernelNumbers.LogNumbers` | param.h:10-12 | MAXOPBLOCKS, LOGSIZE, NBUF and the chunk of filewrite |
| `KernelNumbers.OtherNumbers` | mmu.h:104-130 | pages, page tables, KERNBASE, the pipe and argv |
| `Pipe.CounterTest` | pipe.c:84-113 | with 32-bit wrapping counters the tests for empty and full are exact |
| `Pipe.RingIndex` | pipe.c:92-115 | the wrapped counter selects the same ring slot as the true count |
| `Pipe.InvStep` | pipe.c:58-120 | every locked stretch of a read, write or close keeps: delivered is a prefix of accepted, at most 512 in flight, no lost wakeup |
| `Pipe.RunSafe` | pipe.c:58-120 | that holds throughout every run with any number of readers and writers |
| `Pipe.StreamStep` | pipe.c:58-120 | bytes join the stream at its end and only by writers, and leave it in order and only by readers |
| `Pipe.CallWrites` | pipe.c:76-97 | in every run, what a call of pipewrite has put into the stream over all the times it slept is a prefix of its bytes, with the rest still to write, and all of them when it has ended, unless the reading end was closed |
| `Pipe.Ring.constructor` | pipe.c:21-49 | a new pipe is the empty stream with both ends open |
| `Pipe.Ring.Write` | pipe.c:76-97 | pipewrite between two releases of the lock appends to the stream the next of its bytes in order, as many as there is room for up to 512; it is done when they were all, and else sleeps or finds the reader gone |
| `Pipe.Ring.Read` | pipe.c:99-120 | piperead between two releases of the lock delivers the next bytes in order, as many as are asked for and there, or sleeps exactly if the pipe is empty and open |
| `Pipe.Ring.Close` | pipe.c:58-74 | closing an end wakes the other side, and gives the page up exactly when the other end was closed already |
| `ShellParse.LineSound` | sh.c:345-447 | every token list accepted by the parser spells a derivation of the grammar |
| `ShellParse.LineComplete` | sh.c:345-447 | the tokens of every derivation are accepted, and give back that derivation |
| `ShellParse.AcceptsExactly` | sh.c:328-447 | the parser accepts exactly the token lists that have a derivation, at most nine words to a command |
| `ShellParse.DerivationUnique` | sh.c:345-447 | the grammar is unambiguous |
| `ShellParse.NineWords` | sh.c:440-441 | a simple command has at most nine words |
| `Shell.Peek` | sh.c:311-321 | skips white space and tells whether the next character is one of the given |
| `Shell.GetToken` | sh.c:266-309 | takes exactly the first token of the line off and stops at the next |
| `Shell.AddArgsGathers` | sh.c:416-447 | however words and redirections are interleaved, the arguments are the words in order and the redirections apply in order |
| `ShellLayout.CharClasses` | sh.c:263-264 | the two sets of characters that end a word |
| `ShellLayout.PlacedWords` | sh.c:328-447 | of a command that is what a stretch of the line says, the words are exactly the words of the stretch |
| `ShellLayout.PlacedInOrder` | sh.c:328-447 | throughout its tree arguments stand in order, a file that is read as descriptor 0 has '<' before it and one that is written as descriptor 1 has '>', the two sides of a pipe or list stand to the two sides of a '|' or ';', and a background command has '&' after it |
| `Shell.ParseRedirs` | sh.c:375-398 | wraps the command in the redirections that the tokens spell |
| `Shell.ParseSimple` | sh.c:424-447 | the loop that fills argv and wraps redirections builds the tree of the derivation |
| `Shell.ParseBlock` | sh.c:400-414 | a parenthesised line with its redirections, or the panic for a missing parenthesis |
| `Shell.ParsePipe` | sh.c:362-373 | the tree of a pipeline, right associated: the left side is the command before the first '|', the right side the pipeline after it |
| `Shell.ParseLine` | sh.c:345-360 | the tree of a line: the left side of a list is what stands before the first ';', and a background command has its '&' after it |
| `Shell.ParseCmd` | sh.c:328-343 | parsecmd accepts a line exactly when its tokens have a derivation and then returns that derivation's tree, which is what the characters of the line say; its words are exactly the words of the line |
| `Shell.NulTerminate` | sh.c:450-494 | a NUL is written at the end of every word of the command and nowhere else |
| `Shell.EndsWord` | sh.c:450-494 | a NUL is written only where a word of the command ends |
| `Shell.EndsOutside` | sh.c:450-494 | no end of a word falls inside a word |
| `Shell.WordsReadBack` | sh.c:450-494 | after the cuts every argument and file name reads, up to its NUL, as the word that was typed |
| `Shell.Run` | sh.c:328-343 | parsing and cutting together: exactly the lines of the grammar, the tree that stands in the line, and intact words |
| `Regex.HereOne` | grep.c:85-96 | a single-character item matches here exactly when its character does and the rest matches one place on |
| `Regex.HereStar` | grep.c:98-106 | a starred item matches here exactly when some number of accepted characters leads to a match of the rest |
| `Regex.MatchHere` | grep.c:84-96 | true exactly when a prefix of the text is in the language of the pattern |
| `Regex.MatchStar` | grep.c:98-106 | true exactly when some number of accepted characters leads to a match of the rest |
| `Regex.Match` | grep.c:72-82 | true exactly when some substring is in the language of the pattern, at the front for ^ and to the end for $ |
| `Regex.ParseWrites` | grep.c:84-96 | every string is the text of the pattern read from it, a character with a '*' after it a starred item, a last '$' the end |
| `Regex.ParseReads` | grep.c:84-96 | and every pattern that can be written is read back from its text |

## Left out

- LogDevice.Device.BeginOp: one pass of the loop; that a sleeper is woken again is the scheduler's business.
- LogDevice.Device.Commit: the number of buffers held elsewhere stays the same during one commit; `LogCache` has them come and go.
- MersenneTwister.Generator.RandomAtMost: ends under the hypothesis that an output below the limit comes; a bound on the wait does not follow from the recurrence.
- Lottery.PickProcess: ends under the same hypothesis as `RandomAtMost`.
- Umalloc.Allocator.Malloc: the address sbrk returns is a parameter that lies above the arena; `sbrk`'s own `int` argument overflows for requests of 2^28 units and more, which is not modelled, and neither is alignment.
- BufferCache.Bcache.BRelse: the wakeup of processes that sleep on the buffer is not modelled.
- Vm.Memory.MapPages: ranges at and above KERNBASE, as setupkvm maps them; the single user pages of copyuvm are `MapPage`.
- Vm.Memory.SetupKvm: a directory abandoned because memory ran out is not returned, as in the source.
- FileSystem.FileSys.Make: the root directory and the files that mkfs puts on the disk are not modelled.
- FileWrite.WriteOp: from an empty log; `FileSystem.FileSys.WriteI` says when a write is refused with any blocks of others in the log.
- FileWrite.File.Write: each transaction starts from an empty log; the chunks run one after another; another process's writes between two of them are not interleaved, and a negative length, which the source answers with -1, is not a sequence of bytes.
- DirectoryOps.DirLink: the reference that the lookup takes on an existing name and gives back is in `Namei`, not here.
- DirectoryOps.ClearEntry: the link counts that unlink lowers afterwards are not modelled.
- Namei.NameX: sequential; the lock flag of an inode and the sleep on it are not modelled.
- CrashConsistency.OperationSurvives: one operation at a time from an idle log; for operations that share a transaction `LogProtocol.DurableIsQuiescent` and `CrashConsistency.CrashLeavesConsistent` are what is proved. The file layer works on the latest contents of each block, which is what the buffer cache is proved to deliver.
- CrashConsistency.FileOperationSurvives: as `OperationSurvives`.
- CrashConsistency.WriteSurvives: as `OperationSurvives`, for a write that ends; for one that panics `StoppedSurvives`.
- `allocuvm`: it ignores a failed `mappages`, and otherwise repeats the loop of `copyuvm` without the copy.
- `ialloc`, `stati`, `sys_link`, `sys_open` and the other system calls: straight compositions of the operations above.
- `kill` and the killed flag, `settickets` with negative values: the pipe, exit and lottery properties are stated without them.
- Ports, interrupts, timers, the console, boot code and assembly: hardware plumbing.
- `swtch`, trap frames, segments and the TLB: a context switch is a scheduler action in `Proc`.
- Spinlocks and memory ordering: each locked section is one atomic action.
- `grep`'s read loop, `runcmd`, the user utilities, `printf`, and mkfs.c except for the layout it chooses.
