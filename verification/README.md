# Verified models of the course projects

The repository holds operating-system, database, computer-architecture and programming-language projects. This
project models their cores in Dafny and proves what each of them is for. Each component has its own modules;
`dafny verify dfyconfig.toml` checks them all.

| component | modules |
|---|---|
| LC-2K five-stage pipeline | `Lc2k`, `Pipeline`, `PipelineRefinement` |
| xv6 redo log over the buffer cache | `LogDisk`, `CrashSafety`, `BufferCache`, `RedoLog`, `CommitTurns`, `Transactions`, `Simulation` |
| disk-based B+ tree with delayed deletion | `BpShape`, `BpInsert`, `BpParent`, `BpDelete`, `BpTable`, `BpChain`, `BpStale` |
| xv6 files, block allocation, directories | `FsBlocks`, `FsShape`, `FsAlloc`, `FsWrite`, `FsTruncate`, `FileSystem`, `Directory`, `Mkfs`, `FilesOverLog` |
| xv6 page tables and frame allocator | `VmShape`, `VmSteps`, `VmCost`, `VirtualMemory` |
| Kernighan and Ritchie's storage allocator | `Allocator`, `Malloc` |
| pipes, and the MLFQ scheduler | `Pipe`, `Mlfq` |
| MUPL interpreter and macros, lazy prime sieve, grep's matcher | `Mupl`, `Sieve`, `Regex` |

## How the models are built

**Pipeline.** One turn of the run loop is a method that copies the state and lets the five stages update the copy, as
the program does; a function gives the same step for the theorems. A machine in between makes the refinement exact:
it executes one instruction at a time, but its register writes become visible four instructions late. For every
program the pipeline is that machine; for a program that never reads a stale value inside the window that machine is
the sequential one. Words are 32 bits and wrap. An access outside an array, which C leaves undefined, sets a flag in the
array (`Store.wild`) that the two machines are also proved to agree on. The reference machine takes its instructions
from this simulator (separate instruction and data memory); jalr and data words only advance the pc, as here. The
program is a function from pc to word.

**Redo log.** `CrashSafety` describes the disk after every single block written by a commit or a recovery.
`RedoLog.Log` and `BufferCache.Cache` are the kernel's data structures (linked list in two arrays, flags, header in
memory), and their methods are proved to write exactly these images; a ghost field of the cache records the disk after
each write. `Transactions` is the machine in which system calls interleave, a commit writes one block at a time, and
crashes and recoveries come at any point; `Simulation` proves that begin_op, log_write and end_op, as methods of `Log`,
take its steps. A system call's budget is counted in distinct blocks, as the source does; it may log the same block any
number of times. A buffer may have any number of processes that refer to it and wait for its lock; `CommitTurns` proves a
commit in turns, with readers of other blocks in between.

**B+ tree.** Pages are a map from file offset to page. What a tree is, is said page by page: a key interval for each
page, which its children divide; matching parent and child pointers; a leaf chain; and one page that may have a right
sibling its parent does not know yet, while a split is passed up. The pure modules prove that each change of the page
map keeps this; `BpTable.Table` performs the changes in loops over loaded pages and writes them back. For a full leaf
with deleted records `db_insert` purges the file but splits the copy loaded before; `BpStale` computes what that gives
and proves when it is what an insertion promises.

**Files.** Blocks are bytes; bitmap, inodes and indirect blocks are read and written in them. A ghost map says which
place of which inode each used data block belongs to. Contents are proved through the bytes of all files, also those
beyond a file's end, and a file that had no block too many keeps exactly the blocks that its size needs. Directories are
proved as maps on top of the verified `readi` and `writei`. `FilesOverLog` reads the files off a disk, in bytes, that the
log writes in ints, and carries the safety of transactions over to files.

**Page tables.** Physical memory is a sequence of frames of words; directories and tables live in it. A ghost map says
in which place (directory, table, user page) each frame in use is noted; every frame of the pool is free, noted once,
or in the kernel's hands.

**Allocator.** Headers live in a memory indexed in header-sized units. The invariant is one circular ascending list of
free blocks with gaps between them, all blocks disjoint.

**Pipe and scheduler.** A process in a pipe call runs from taking the lock until it sleeps or returns; the methods are
these turns and may come in any order, so `Valid()` is an invariant of every interleaving. Counters are 32 bits.

**MUPL, sieve.** Two MUPL values count as the same when they differ only in what closures bind to names that their
functions do not look up. Evaluation and forcing may not end; they are functions with a number of nested calls after which they
are cut off, and the theorems are about what some number suffices for, which is the same for every greater number.

Where documentation or comments disagree with the code, the code is modelled: `deallocuvm`, for one, returns the old
size when asked to grow, and the block budget in `begin_op` does not exclude the panic in `log_write`.

## Model

| member | source | states |
|---|---|---|
| PipelineRefinement.PipelineRefinesSequential | computer architecture/project2/simulator.c:124-237 | Main result. For every program in which each instruction reads what it would read if the pending register writes had landed, the pipeline halts if and only if the one-instruction-at-a-time machine does, and then with that machine's registers and data memory, after exactly n + 3 + 3T cycles (n instructions with halt, T taken branches). |
| PipelineRefinement.HazardFreeIsSafe | computer architecture/project2/simulator.c:148-152 | Every program without read-after-write hazards in the three-instruction shadow meets that condition; so do programs whose hazards read equal values. |
| PipelineRefinement.PipelineIsDelayedMachine | computer architecture/project2/simulator.c:124-237 | For every program, hazards or not: the halted pipeline holds the memory and registers of the machine whose register writes become visible four instructions late, after exactly n + 3 + 3T cycles, and it was not halted in any earlier cycle. |
| PipelineRefinement.HaltedPipelineMeansHaltedMachine | computer architecture/project2/simulator.c:128-133 | Conversely a halted pipeline has run the late-write machine to its halt: no program makes the pipeline stop for another reason. |
| PipelineRefinement.CycleRefines | computer architecture/project2/simulator.c:135-236 | One clock cycle from any in-flight state either fills one bubble and executes nothing, or executes exactly one instruction of the late-write machine and leaves three bubbles behind a taken branch and none otherwise. |
| PipelineRefinement.EveryCycle | computer architecture/project2/simulator.c:124-236 | Every cycle up to the halt is accounted for: cycles + bubbles still in front = n + 3 + 3T, so no cycle is lost and none executes a wrong-path instruction. |
| PipelineRefinement.EveryInstruction | computer architecture/project2/simulator.c:124-236 | The pipeline reaches every instruction that the late-write machine executes, after n + 3 + 3T cycles. |
| PipelineRefinement.OnlyExecutedInstructionsPassMem | computer architecture/project2/simulator.c:190-219 | In every cycle the instruction that leaves the MEM stage is a noop bubble or one that the sequential machine executes: wrong-path instructions never get there. |
| PipelineRefinement.AgreeStep | computer architecture/project2/simulator.c:148-152 | The registers read in ID are those the sequential machine had before up to three instructions since the last taken branch, and the pending writes lead from them to its present ones. |
| PipelineRefinement.HazardBreaksRefinement | computer architecture/project2/simulator.c:148-152 | A program with a load-use hazard: the pipeline halts with 0 in register 2 where the sequential machine halts with 14, so the proviso about hazards is needed. |
| Pipeline.Cycle | computer architecture/project2/simulator.c:135-236 | The run loop's body, stage by stage as the program writes it, computes one step of the clocked machine that the refinement theorems are about. |
| Pipeline.Simulate | computer architecture/project2/simulator.c:124-237 | The run loop stops in the first cycle in which the halt instruction is in the MEM/WB register, and not before. |
| Pipeline.HaltedStays | computer architecture/project2/simulator.c:128-133 | A pipeline that has halted does not change any more. |
| Lc2k.NorBits | computer architecture/project2/simulator.c:171-172 | Bit k of what nor computes, for each of the 32 bits of any two words, is set if and only if it is set in neither. |
| Lc2k.BitsDecide | computer architecture/project2/simulator.c:171-172 | Two words with the same 32 bits are the same, so that statement leaves no other result. |
| Lc2k.SumsModulo | computer architecture/project2/simulator.c:166-185 | add, beq's difference and the address of lw and sw are right modulo 2^32 as signed words, and no other word is. |
| Lc2k.FieldsDecide | computer architecture/project2/simulator.c:285-307 | An instruction is its opcode, two fields of three bits and one of sixteen, and can be divided so in one way only: the four functions give exactly these. |
| Lc2k.OffsetModulo | computer architecture/project2/simulator.c:345-352 | The offset is the only number from -32768 to 32767 that is congruent to the lowest field modulo 65536. |
| Lc2k.Arithmetic | computer architecture/project2/simulator.c:148-172 | The reference machine on an instruction given as a number: opcode 0 puts the sum and opcode 1 the nor of two registers, bit by bit, into a third, and nothing else changes but the pc. |
| Lc2k.MemoryAccess | computer architecture/project2/simulator.c:159-199 | Opcode 2 loads and opcode 3 stores a register, at the sum of another and the signed lowest field, and nothing else changes but the pc. |
| Lc2k.Control | computer architecture/project2/simulator.c:128-219 | Opcode 4 branches by the signed lowest field from the next instruction, if and only if two registers are equal; 6 halts; every other opcode only goes on. |
| CrashSafety.CrashAtomicity | Operating system/file system/xv6-public/log.c:69-202 | Main result. A commit cut off after any of its disk writes, then any number of recoveries each cut off after any of theirs, then one that completes: the home blocks are all old if the header had not been written, and the whole transaction is installed if it had; the log is empty again. |
| CrashSafety.CommitCrash | Operating system/file system/xv6-public/log.c:177-202 | For the image after each single disk write of a commit, recovery gives the old home blocks before the header write and the new ones from it on. |
| CrashSafety.CommittedAfterHeader | Operating system/file system/xv6-public/log.c:98-113 | Writing the header block is the commit point: the image then holds the whole transaction in the log, and no home block has changed. |
| CrashSafety.RecoveryImage | Operating system/file system/xv6-public/log.c:69-82 | Every image of a recovery but the last still is a committed image of the same transaction; the last is the recovered disk. |
| CrashSafety.CrashedRecoveryIsSound | Operating system/file system/xv6-public/log.c:115-122 | A recovery that is cut off anywhere leaves a disk whose recovery gives the same home blocks: recovery is idempotent. |
| CrashSafety.CrashedRecoveries | Operating system/file system/xv6-public/log.c:115-122 | The same for any number of recoveries cut off one after another. |
| CrashSafety.InstalledBlocks | Operating system/file system/xv6-public/log.c:69-82 | After installing k blocks exactly the first k home blocks hold their log copies and everything else is untouched, although the loop reads log blocks from the disk it is changing. |
| CrashSafety.RecoverCommitted | Operating system/file system/xv6-public/log.c:115-122 | Recovery of a committed image, with any of the home blocks already installed, installs all of them, changes no other home block, and empties the log. |
| LogDisk.HeadRoundTrip | Operating system/file system/xv6-public/log.c:86-113 | Reading back a header written over any old block contents gives the same count and block numbers. |
| CrashSafety.CommitWrites | Operating system/file system/xv6-public/log.c:69-113 | Which block each single write of a commit changes, and to what: the data to the blocks behind the header in order, the header with count and numbers over its old words, the data to their homes in order, the header with a count of 0. |
| LogDisk.AdmitsIff | Operating system/file system/xv6-public/log.c:126-141 | begin_op's test holds if and only if no commit is under way and, however many blocks up to MAXOPBLOCKS each call in progress and the new one may still log, all of them fit: it is the weakest test with that guarantee. |
| Transactions.TransactionSafety | Operating system/file system/xv6-public/log.c:124-233 | Main result. At any point of any interleaving of begin_op, log_write, end_op, single commit writes, crashes and recovery steps, let the machine stop and recoveries be cut off any number of times: the recovered home blocks are exactly the durable writes applied to the first disk, each system call's writes are all durable or none is, and all writes are durable once the last call out has committed. |
| Transactions.GroupCommit | Operating system/file system/xv6-public/log.c:124-174 | In every state of every run, logged blocks plus what the calls in progress may still log never exceed LOGSIZE, the logged block numbers are distinct home blocks, and no call is in progress during a commit (end_op's panic "log.committing" would need one). |
| Transactions.StepKeepsReserved | Operating system/file system/xv6-public/log.c:126-141 | The test in begin_op is enough: every step keeps the reservation of all calls in progress. |
| Transactions.CommitKeepsDisk | Operating system/file system/xv6-public/log.c:177-202 | After each disk write of a commit, what recovery would give is the first disk with the durable writes; at the header write these become all writes. |
| Transactions.DurableForever | Operating system/file system/xv6-public/log.c:115-202 | What is durable once stays so in every later state, whatever happens. |
| Transactions.RecoversToQuiet | Operating system/file system/xv6-public/log.c:115-202 | After a crash at any point and any number of recoveries cut off, the home blocks are those that processes saw at some earlier moment at which no call was in progress: there is always such a moment, and the writes of all later calls are gone. |
| FilesOverLog.FilesSurviveCrashes | Operating system/file system/xv6-public/log.c:69-233 | Main result. In any run of system calls that interleave and share commits, if the file system is well formed whenever no call is in progress, then after a crash at any point and any number of recoveries cut off it is well formed again, and every inode and every file is as at such a moment. |
| FilesOverLog.SameHomeSameFiles | Operating system/file system/xv6-public/fs.c:391-497 | Disks that differ only in the log hold the same well-formed files. |
| FilesOverLog.SyncedIsGood | Operating system/file system/xv6-public/fs.c:225-246 | When every inode on disk is up to date, as each file operation leaves it, the disk by itself is the well-formed file system that the kernel sees. |
| FilesOverLog.BytesRoundTrip | Operating system/file system/xv6-public/log.c:98-113 | Every block of bytes is what some block of 32-bit ints, as the log sees it, consists of. |
| Transactions.PanicReachableIff | Operating system/file system/xv6-public/log.c:213-219 | Calls that keep to the budget of begin_op, MAXOPBLOCKS distinct blocks each, can reach log_write's panic "too big a transaction" for every size of the log: exactly if the disk has as many home blocks as can be logged. |
| Transactions.PanicsExactlyWhen | Operating system/file system/xv6-public/log.c:213-219 | When it panics, in any state of any run: if and only if as many blocks are logged as the header has entries or, when those are fewer, the log data blocks (29 for 30 entries in the default layout). With enough data blocks the panic is met only by a block that the call has logged before. |
| Transactions.FewCallsPanicIff | Operating system/file system/xv6-public/log.c:213-219 | Were it calls of log_write that are limited to MAXOPBLOCKS, and not blocks, the panic could be reached if and only if the log has fewer data blocks than the header has entries. |
| Transactions.RoomForNewBlock | Operating system/file system/xv6-public/log.c:132-137 | Whatever the others have logged, a call within its budget of distinct blocks finds a free entry in the header for each block that is new to it. |
| RedoLog.CommitKeepsView | Operating system/file system/xv6-public/log.c:193-202 | A commit changes no home block as processes see it: each installed block was visible through the cache all along. |
| RedoLog.CommitResult | Operating system/file system/xv6-public/log.c:193-202 | A commit leaves a well-formed disk with an empty log. |
| RedoLog.Log.constructor | Operating system/file system/xv6-public/log.c:53-66 | initlog recovers the disk: it is the recovered image, written block by block as the crash theorems assume, and the log starts out empty. |
| RedoLog.Log.WriteLog | Operating system/file system/xv6-public/log.c:177-190 | Copies the cached contents of the logged blocks to the log blocks in order, one disk write each, keeping them pinned and leaving the buffers that others refer to as they were; panics exactly if no buffer is free, and then has written nothing. |
| RedoLog.Log.WriteHead | Operating system/file system/xv6-public/log.c:102-113 | One disk write that puts the header in memory over the header block, leaving the old words behind its entries; panics exactly if no buffer is free. |
| RedoLog.Log.ReadHead | Operating system/file system/xv6-public/log.c:85-96 | The header in memory becomes that on disk, with no disk write. |
| RedoLog.Log.InstallTrans | Operating system/file system/xv6-public/log.c:69-82 | Copies the log blocks to their homes in order, one disk write each, and unpins them, during a commit (with buffers of other blocks in use) and in recovery; panics exactly if no buffer is free. |
| RedoLog.Log.RecoverFromLog | Operating system/file system/xv6-public/log.c:115-122 | The sequence of disk images is exactly that of the crash theorems' recovery, ending in the recovered disk. |
| RedoLog.Log.Commit | Operating system/file system/xv6-public/log.c:192-202 | While others refer to buffers of other blocks, the sequence of disk images is exactly that of the crash theorems' commit with the data that the cache shows; no home block looks different, and what nobody has locked looks as on disk. Without interruption the panic "bget: no buffers" is met if and only if there is something to commit and logged blocks and referenced buffers are together as many as there are buffers; nothing has been written then. |
| RedoLog.Log.BeginOp | Operating system/file system/xv6-public/log.c:126-141 | Lets a call in if and only if there is no commit under way and, for every choice of up to MAXOPBLOCKS further blocks for each call in progress and this one, the logged blocks and all of these fit in the header. |
| RedoLog.Log.LogWrite | Operating system/file system/xv6-public/log.c:213-233 | Records a block once (absorption) and pins its buffer; fails exactly when the log is full or no call is in progress, and then changes nothing. |
| RedoLog.Log.EndOp | Operating system/file system/xv6-public/log.c:146-174 | The last call out commits everything, while others may use buffers of other blocks; the other calls leave log and disk alone; it panics exactly if a commit is under way or has no buffer left. |
| RedoLog.Log.FreeIff | Operating system/file system/xv6-public/bio.c:78-92 | A buffer is free for the commit if and only if the logged blocks and the buffers that others refer to are fewer than the buffers: with 29 blocks logged one reader of another block uses up the last. |
| CommitTurns.Turn | Operating system/file system/xv6-public/log.c:177-202 | One disk write of a commit that others interrupt: from each stage it leads to the next, and the panic "bget: no buffers" is met at exactly those writes that find no buffer free, which may be after some have been done; that one then writes nothing. |
| CommitTurns.ImagesAt | Operating system/file system/xv6-public/log.c:177-202 | At each stage the disk has been written exactly as the crash theorems say: its images are the first ones of the whole commit's, however others come in between. |
| CommitTurns.OtherReads | Operating system/file system/xv6-public/bio.c:95-107 | Between two writes a process may read any other block, and gets its contents or waits; the commit is where it was. |
| CommitTurns.OtherGoesOn | Operating system/file system/xv6-public/bio.c:73-106 | So may a process that waited get the lock of a buffer, and with it the contents. |
| CommitTurns.OtherReleases | Operating system/file system/xv6-public/bio.c:120-143 | So may a reader give up its buffer. |
| Simulation.Begin | Operating system/file system/xv6-public/log.c:126-141 | begin_op lets a call in exactly when the transaction machine can begin one, and then takes the machine's step. |
| Simulation.Write | Operating system/file system/xv6-public/log.c:213-233 | Changing a held block and logging it is the machine's write step, unless log_write panics. |
| Simulation.End | Operating system/file system/xv6-public/log.c:146-202 | end_op is the machine's end step, followed for the last call by the machine's whole commit, one step per disk write: every run of the data structures is a run of the machine that the safety theorems are about. |
| BufferCache.UnlinkNode | Operating system/file system/xv6-public/bio.c:134-135 | The two assignments that unlink a node leave one circle through all other nodes, in both directions. |
| BufferCache.LinkNode | Operating system/file system/xv6-public/bio.c:136-139 | The four assignments that link a node behind the head leave one circle with it in front. |
| BufferCache.Cache.constructor | Operating system/file system/xv6-public/bio.c:38-56 | binit links all buffers into one circular list; the cache shows the disk. |
| BufferCache.Cache.Bget | Operating system/file system/xv6-public/bio.c:61-93 | The critical section: a cached block gets one more reference, whoever holds it; otherwise the least recently used buffer that is neither referenced nor dirty is recycled; panics exactly when the block is not cached and every buffer is referenced or dirty. No block has two buffers, and what the cache shows does not change. |
| BufferCache.Cache.Acquire | Operating system/file system/xv6-public/bio.c:73 | Among several processes that refer to a buffer one gets the lock exactly if it is free; a waiter changes nothing. |
| BufferCache.Cache.ReadIn | Operating system/file system/xv6-public/bio.c:102-106 | Whoever gets the lock, first or after waiting, holds the latest contents of the block as the cache shows them. |
| BufferCache.Cache.Cached | Operating system/file system/xv6-public/bio.c:69-76 | The forward scan of the list finds the buffer of a block if there is one. |
| BufferCache.Cache.Unused | Operating system/file system/xv6-public/bio.c:81-91 | The backward scan finds the least recently used unreferenced clean buffer if there is one. |
| BufferCache.Cache.Bread | Operating system/file system/xv6-public/bio.c:95-107 | The locked buffer has the latest contents of the block, logged or not, even when the disk still has older ones, also if others refer to it; the caller waits with a reference exactly if somebody has the block locked; nothing else changes. |
| BufferCache.Cache.Bwrite | Operating system/file system/xv6-public/bio.c:109-118 | One disk write of the held buffer, with or without others waiting; the block is no longer pinned and what the cache shows is the same. |
| BufferCache.Cache.Brelse | Operating system/file system/xv6-public/bio.c:120-143 | Gives up one reference; with the last one the buffer becomes the most recently used and no other changes place. The cache stays sound if and only if the contents are pinned or on the disk. |
| BufferCache.Cache.Iderw | Operating system/file system/xv6-public/memide.c:38-60 | A dirty buffer is written and becomes clean, an invalid one is read and becomes valid; the other blocks and buffers stay. |
| BufferCache.Cache.CleanView | Operating system/file system/xv6-public/bio.c:95-143 | With nothing pinned the cache shows the disk in every block that nobody has locked. |
| BpTable.Table.DbInsert | dbms/B+tree_development/disk_bpt/src/bpt.c:217-267 | A new key is added to the finite map and an old one is refused with -1 and no change; through any cascade of leaf, inner and root splits the tree stays sorted, routed, of equal depth, within page sizes, with matching parent pointers and leaf chain. The leaf for the key gets one record more, deleted ones staying, or its records and the new one are divided over two neighbours; no other leaf's records change. Says exactly when this is not so: for a new key whose leaf is full and holds a deleted record. |
| BpTable.Table.DbDelete | dbms/B+tree_development/disk_bpt/src/bpt.c:510-527 | Removes the key from the map and returns 0, or returns -1 and changes no page if it is not there; the tree stays well formed. From a full leaf the record is taken out, elsewhere it is marked, and no other page changes; afterwards every key of that leaf can be inserted as promised, since the leaf has room. Before the first insertion, and only then, it follows a null pointer. |
| BpTable.Table.DbFind | dbms/B+tree_development/disk_bpt/src/bpt.c:156-187 | Returns the map's value of the key, also when a live record stands beside deleted ones of the same key, and nothing for a deleted one. There is a page to load exactly from the first insertion on. |
| BpTable.Table.FindLeaf | dbms/B+tree_development/disk_bpt/src/bpt.c:121-154 | Descends to the one leaf whose key interval contains the key; 0 before the first insertion. |
| BpTable.Table.NewPage | dbms/B+tree_development/disk_bpt/src/bpt.c:95-119 | Takes the first free page, or extends the file by one zeroed page. |
| BpTable.Table.StartNewFile | dbms/B+tree_development/disk_bpt/src/bpt.c:198-215 | The first insertion makes a tree of one leaf that holds one pair. |
| BpTable.Table.InsertIntoLeaf | dbms/B+tree_development/disk_bpt/src/bpt.c:269-287 | Inserting into a leaf with room adds the pair to the map: the leaf has its records, deleted ones too, and the new one, and no other page changes. |
| BpTable.Table.InsertIntoLeafAs | dbms/B+tree_development/disk_bpt/src/bpt.c:290-353 | Splitting a full leaf without deleted records, and all splits that follow from it, adds the pair to the map: the records and the new one are in the leaf and a new right neighbour, and every other leaf keeps its records and its place in the chain. |
| BpTable.Table.InsertIntoParent | dbms/B+tree_development/disk_bpt/src/bpt.c:355-379 | Completes a pending split at any height; the contents do not change, and every leaf keeps its records and its place in the chain. |
| BpTable.Table.GetLeftIndex | dbms/B+tree_development/disk_bpt/src/bpt.c:381-398 | Finds the entry of the parent behind which the new page belongs; the "not found" result is not reached. |
| BpTable.Table.InsertIntoNewRoot | dbms/B+tree_development/disk_bpt/src/bpt.c:400-429 | A split root gets a parent, and the tree one more level, with the same contents. |
| BpTable.Table.InsertIntoInternal | dbms/B+tree_development/disk_bpt/src/bpt.c:431-451 | The entry for the new page completes the split in a parent with room. |
| BpTable.Table.InsertIntoInternalAs | dbms/B+tree_development/disk_bpt/src/bpt.c:453-508 | A full parent is split in its turn, its children learn their new parent, and the split is passed up; the contents stay. |
| BpTable.Table.Reparent | dbms/B+tree_development/disk_bpt/src/bpt.c:488-499 | Exactly the children of the new page get the new parent pointer. |
| BpTable.Table.DeleteEntry | dbms/B+tree_development/disk_bpt/src/bpt.c:529-592 | After the entry is removed the leaf is never below its minimum, so the code for coalescing and redistributing pages is not reached; no other page changes. |
| BpTable.Table.RemoveEntryFromPage | dbms/B+tree_development/disk_bpt/src/bpt.c:759-799 | Takes the key out of the map: from a full leaf by moving the records over its live one, which leaves one record fewer and no new mark, from any other by a mark on that record and nothing else. No other page changes, and none is added or removed. |
| BpInsert.LeafInsertOk | dbms/B+tree_development/disk_bpt/src/bpt.c:269-287 | A record put into a leaf with room keeps every condition on the tree, and the tree holds the map with the new pair. |
| BpInsert.LeafSplitOk | dbms/B+tree_development/disk_bpt/src/bpt.c:306-353 | Splitting a full leaf around the new record, with the new page linked into the chain, leaves a well-formed tree with one split to be passed up, which holds the map with the new pair. |
| BpInsert.InsertRecSorted | dbms/B+tree_development/disk_bpt/src/bpt.c:274-281 | A live record goes in front of deleted ones of its key: order is kept, and of equal keys still only the first may be live. |
| BpInsert.LeavesDisjoint | dbms/B+tree_development/disk_bpt/src/bpt.c:121-154 | No key belongs to two leaves. |
| BpInsert.LeafSplitSized | dbms/B+tree_development/disk_bpt/src/bpt.c:315-325 | Both halves of a split leaf are within bounds, and the lower one has half of LEAF_MAX records, rounded up. |
| BpParent.NewRootOk | dbms/B+tree_development/disk_bpt/src/bpt.c:400-429 | A new root over the two halves of the old one completes the split: a well-formed tree with the same contents. |
| BpParent.EntryInsertedOk | dbms/B+tree_development/disk_bpt/src/bpt.c:431-451 | The separator and the new page, put right behind the split child, complete the split: children divide the parent's interval again. |
| BpParent.InnerSplitOk | dbms/B+tree_development/disk_bpt/src/bpt.c:464-507 | Dividing an overfull inner page, middle entry going up, leaves a well-formed tree with one split to be passed up and the same contents. |
| BpParent.InnerSplitSized | dbms/B+tree_development/disk_bpt/src/bpt.c:472-485 | Both halves of a divided inner page are within bounds, and the lower one has half of INTERNAL_MAX entries, rounded up. |
| BpDelete.LeafDeleteOk | dbms/B+tree_development/disk_bpt/src/bpt.c:763-799 | Deleting a live record, by mark or for good, keeps the tree well formed and sized and takes exactly its key out of the map. |
| BpDelete.LeafDeleteSized | dbms/B+tree_development/disk_bpt/src/bpt.c:772-788 | No deletion brings a leaf below its minimum: it shrinks only to half full, and is marked otherwise. |
| BpDelete.DeletedRecords | dbms/B+tree_development/disk_bpt/src/bpt.c:766-788 | The records after a deletion are sorted and not empty; every live one was there before and is not the deleted one, and no live record of another key is lost. |
| BpChain.ChainListsContents | dbms/B+tree_development/disk_bpt/src/bpt.c:329-346 | Following the leaf chain lists all records in ascending key order, and the live ones are exactly the pairs of the map. |
| BpChain.SameDepth | dbms/B+tree_development/disk_bpt/src/bpt.c:121-154 | From every page as many steps up as it is lower than the root lead to the root: all leaves are equally deep. |
| BpChain.LeafFor | dbms/B+tree_development/disk_bpt/src/bpt.c:134-150 | Below every page there is a leaf for each key of its interval. |
| BpStale.SplitPromisedIff | dbms/B+tree_development/disk_bpt/src/bpt.c:241-262 | Insertion into a full leaf, with the purge and then the split of the leaf as it was loaded before the purge, gives sorted records with exactly the old live ones and the new one if and only if no record in the leaf is deleted. |
| BpStale.NotPromised | dbms/B+tree_development/disk_bpt/src/bpt.c:241-262 | With any deleted record in a full leaf the result is never what an insertion promises. |
| BpStale.ZeroIsLast | dbms/B+tree_development/disk_bpt/src/bpt.c:306-325 | Why: the split copies fewer records than it shares out, and a zeroed record that nobody inserted takes the last place. |
| BpStale.CleanInsertPromised | dbms/B+tree_development/disk_bpt/src/bpt.c:269-287 | An ordinary insertion at the insertion point does meet that promise. |
| BpStale.SplitFullLeaf | dbms/B+tree_development/disk_bpt/src/bpt.c:238-325 | The loops of db_insert on a full leaf compute exactly the records of the theorem, and meet the promise exactly when no record is deleted. |
| BpStale.Purge | dbms/B+tree_development/disk_bpt/src/bpt.c:245-249 | The purge loop, which looks for each deleted record of the loaded copy by key in the file, leaves exactly these records and this stale rest of the page. |
| BpStale.SurvivesPurgeIff | dbms/B+tree_development/disk_bpt/src/bpt.c:245-249 | The purge takes live records too: a live record survives it if and only if no deleted record of the leaf has its key. |
| BpStale.TempIs | dbms/B+tree_development/disk_bpt/src/bpt.c:306-315 | Exactly the four records that are then divided, in each case: the two that are left, the new one at its place among the three slots of the old copy, and the record that nobody inserted, last or before the new one. |
| FileSystem.Files.Writei | Operating system/file system/xv6-public/fs.c:502-532 | Overlays the bytes on the contents of one file, growing it, changes no other file, and returns -1 without any change exactly beyond the end, on wrap-around or beyond MAXFILE blocks; although the inode goes to disk only when the file has grown, disk and memory agree on every inode afterwards. No file that had no block too many gets one too many. |
| FileSystem.Files.Readi | Operating system/file system/xv6-public/fs.c:473-497 | Returns exactly the bytes of the contents in the range, cut off at the end, -1 exactly beyond the end or on wrap-around, and never allocates or changes a block. |
| FileSystem.Files.Itrunc | Operating system/file system/xv6-public/fs.c:426-454 | Frees exactly the blocks of the inode (direct, indirect and the indirect block), empties the file, changes no other; the panic "freeing free block" is not reached. No file is left with a block too many. |
| FileSystem.Files.Bmap | Operating system/file system/xv6-public/fs.c:391-419 | Gives the block that holds a file block, allocating a zeroed one (and an indirect block) only where there is none; no byte of any file changes, and no other place notes a new block; also in files whose size claims blocks that are not there. |
| FileSystem.Files.Balloc | Operating system/file system/xv6-public/fs.c:60-83 | Marks and zeroes the first free block; panics exactly when every block is in use. |
| FileSystem.Files.Bfree | Operating system/file system/xv6-public/fs.c:85-100 | Clears exactly the block's bit; panics exactly if the block is free. |
| FileSystem.Files.Iupdate | Operating system/file system/xv6-public/fs.c:225-246 | The inode on disk becomes that in memory and no other inode on disk changes. |
| FsAlloc.NotedGood | Operating system/file system/xv6-public/fs.c:391-416 | Allocating a free block for an empty place, direct, indirect table or entry in it, keeps all blocks owned once and marked, and changes no byte of any file even beyond its end. |
| FsAlloc.AddedGood | Operating system/file system/xv6-public/fs.c:60-83 | One more block in one more place keeps ownership and free map in agreement. |
| FsShape.RefsDistinct | Operating system/file system/xv6-public/fs.c:391-419 | No block is referenced from two places, of one inode or of two. |
| FsShape.RefUsed | Operating system/file system/xv6-public/fs.c:60-100 | Every referenced block is a data block that the bitmap marks as used. |
| FsShape.MarkedUsed | Operating system/file system/xv6-public/fs.c:71-73 | Setting or clearing a block's bit changes that bit only. |
| FsShape.NoFilesGood | Operating system/file system/xv6-public/fs.c:391-454 | A disk without files, with exactly the blocks before the data in use, is well formed; all its files are empty and have no block too many. |
| Mkfs.ImageGoodIff | Operating system/file system/xv6-public/mkfs.c:158-165 | The last steps of mkfs: rounding the root directory's size up to whole blocks, and then writing the free map, leave a well-formed image if and only if the size was not a whole number of blocks already. The order of the two steps makes no difference. |
| Mkfs.ResizedRootIff | Operating system/file system/xv6-public/mkfs.c:158-163 | The same for the rounding alone. |
| Mkfs.BitmapBits | Operating system/file system/xv6-public/mkfs.c:241-255 | The free map that the loop of mkfs makes has exactly the first blocks marked. |
| Mkfs.BitmapUsed | Operating system/file system/xv6-public/mkfs.c:241-255 | In the free map that mkfs writes the kernel finds exactly the first blocks in use. |
| Mkfs.ReadMissingBlock | Operating system/file system/xv6-public/fs.c:391-419 | On the image that is not well formed bmap, called for the last block of the root, allocates it: reading a directory changes the disk, and only then is the file system well formed. It panics only when every block is in use. |
| FsWrite.OverlayReadBack | Operating system/file system/xv6-public/fs.c:473-532 | Reading back a range just written gives what was written; reading a range before or behind it gives what was there. |
| FsWrite.WrittenPeek | Operating system/file system/xv6-public/fs.c:519-525 | Writing one block of a file changes the bytes of that file block and no byte of any other file. |
| FsWrite.SyncedAgain | Operating system/file system/xv6-public/fs.c:527-530 | Writing the one inode that has changed brings all inodes on disk up to date. |
| FsTruncate.EmptiedGood | Operating system/file system/xv6-public/fs.c:426-454 | Freeing all blocks of an inode and clearing it keeps everything well formed. |
| FsTruncate.FreeingOne | Operating system/file system/xv6-public/fs.c:433-448 | A block noted in a place that has not been freed yet is still marked, whatever has been freed so far: bfree cannot panic. |
| FsTruncate.TableUntouched | Operating system/file system/xv6-public/fs.c:440-449 | The indirect block is intact while the blocks it lists are freed. |
| FsTruncate.FreeingAll | Operating system/file system/xv6-public/fs.c:433-450 | All places together are exactly the blocks of the inode. |
| FsTruncate.BlockCount | Operating system/file system/xv6-public/fs.c:391-419 | A file without a block too many has exactly as many blocks as its size needs, and one more, the indirect block, when these are more than the direct ones. |
| FsBlocks.PutBitBits | Operating system/file system/xv6-public/fs.c:71-97 | Setting or clearing a bit of a byte changes no other bit. |
| FsBlocks.PutWordWords | Operating system/file system/xv6-public/fs.c:409-412 | Writing a 32-bit word of a block as four bytes changes no other word, and reading it back gives it. |
| Directory.Dirlookup | Operating system/file system/xv6-public/fs.c:545-569 | Gives inode number and offset of the first entry in use with the name, compared in 14 bytes; panics exactly on a directory that ends within an entry before the name is found; changes nothing. |
| Directory.Dirlink | Operating system/file system/xv6-public/fs.c:572-599 | Adds the name, padded with zeros, to the directory's map with the inode number in 16 bits, in the first empty entry or behind the last if there is none, and changes no other entry, no other name and no other file; -1 without any change exactly if the name is there. |
| Directory.LinkAdds | Operating system/file system/xv6-public/fs.c:585-596 | Writing an entry over an empty one or behind the last adds its name to the map and changes no other name's meaning. |
| Directory.PaddedUpto | Operating system/file system/xv6-public/fs.c:537-541 | A name copied into an entry compares equal to the original in the bytes that are compared. |
| Directory.SameNameIff | Operating system/file system/xv6-public/fs.c:537-541 | Two names count as the same if and only if at each of the first 14 positions they have the same byte, or both end before it. |
| Directory.ShortNames | Operating system/file system/xv6-public/fs.c:537-541 | Names of at most 14 bytes, none of them zero, are the same only if they are equal: lookup is a map on them. |
| Directory.PaddedBytes | Operating system/file system/xv6-public/fs.c:594 | A name copied into an entry is followed by zeros only. |
| Directory.EmptyEntry | Operating system/file system/xv6-public/fs.c:586-591 | Finds the first empty entry, or the end of the directory. |
| VirtualMemory.Kernel.Allocuvm | Operating system/file system/xv6-public/vm.c:219-249 | Succeeds if and only if the new size is below the kernel and the free frames suffice for one per new page and one per missing page table. Then the new pages are zeroed, writable and in frames of their own, and nothing else changes; on failure everything that any address space shows is as before and only empty page tables may have been added: every user frame went back. |
| VirtualMemory.Kernel.Deallocuvm | Operating system/file system/xv6-public/vm.c:251-279 | Unmaps and frees exactly the pages between the two sizes; every other page of every address space stays. |
| VirtualMemory.Kernel.JumpSkipsNothing | Operating system/file system/xv6-public/vm.c:265-268 | The jump over an absent page table skips no mapped page. |
| VirtualMemory.Kernel.Freevm | Operating system/file system/xv6-public/vm.c:281-298 | Frees user pages, page tables (the kernel's among them) and directory of one address space and nothing else. |
| VirtualMemory.Kernel.Copyuvm | Operating system/file system/xv6-public/vm.c:313-345 | Succeeds if and only if the free frames suffice for the directory, the kernel's tables, the pages and a table for every 1024 pages or part. The copy shows the same flags and contents at every page, in fresh frames, and the original is untouched; on failure all that was allocated has been given back. |
| VirtualMemory.Kernel.NewSpace | Operating system/file system/xv6-public/vm.c:117-136 | Succeeds if and only if the free frames suffice for the directory and the kernel's tables; the new space shows the user nothing, and on failure all that was allocated has been given back. |
| VirtualMemory.Kernel.Walkpgdir | Operating system/file system/xv6-public/vm.c:32-55 | Finds or makes the page table for a page; an added table is empty, so no address space shows anything different, and its directory entry is present, writable and the user's, so that the page's own entry decides what is allowed. |
| VirtualMemory.Kernel.MapPage | Operating system/file system/xv6-public/vm.c:57-80 | Maps a frame at an unmapped page, shown nowhere else; fails exactly when the page has no table and no frame is left for one, and then nothing has changed. |
| VirtualMemory.Kernel.Kalloc | Operating system/file system/xv6-public/kalloc.c:82-95 | Takes the first free frame, which belongs to no address space; fails exactly when none is left. |
| VirtualMemory.Kernel.Kfree | Operating system/file system/xv6-public/kalloc.c:59-77 | Puts a frame that belongs to nobody back, filled with junk; no address space shows anything different. |
| VirtualMemory.Kernel.constructor | Operating system/file system/xv6-public/kalloc.c:46-53 | All frames behind the kernel become free, each once. |
| VmShape.RefsDistinct | Operating system/file system/xv6-public/vm.c:35-80 | No frame is noted in two places: no two pages, tables or directories share one. |
| VmShape.RefOwned | Operating system/file system/xv6-public/kalloc.c:59-95 | A mapped frame is in the pool and not on the free list. |
| VmSteps.MappedGood | Operating system/file system/xv6-public/vm.c:69-73 | Mapping a frame in the kernel's hands keeps every frame free or in exactly one place and shows at one page only. |
| VmSteps.UnmappedGood | Operating system/file system/xv6-public/vm.c:269-275 | Unmapping a page takes its frame out of all places and shows at that page only. |
| VmSteps.TableAddedGood | Operating system/file system/xv6-public/vm.c:44-53 | An empty table changes nothing that an address space shows. |
| VmCost.NextCost | Operating system/file system/xv6-public/vm.c:41-53 | Growing page by page, a page costs one frame and a table as well exactly when it is the first page there of a table missing from the start. |
| VmCost.NeededEmpty | Operating system/file system/xv6-public/vm.c:41-53 | Mapping n pages from the bottom of an empty address space takes n frames and a table for every 1024 pages or part. |
| VirtualMemory.Kernel.AllocUndone | Operating system/file system/xv6-public/vm.c:235-246 | Shrinking back takes away all that the growing had mapped so far, wherever it failed. |
| Malloc.Heap.Malloc | Operating system/file system/xv6-public/umalloc.c:63-90 | For any size: the block has at least the units asked for, is disjoint from all live and free ones, and live blocks stay as they are; units are conserved but for what sbrk adds. The heap grows, or null is returned, only when no free block is large enough; otherwise the block is the tail of a free one. Null exactly when the system refuses more, and then nothing has changed. Says exactly when the program goes on to memory that is not there: when the system does not refuse 2 GB or more after rounding. |
| Malloc.Heap.Free | Operating system/file system/xv6-public/umalloc.c:24-44 | The block goes back, merged with both neighbours it touches; every unit still lies in exactly one block, live blocks stay, and the list stays one ascending circle of free blocks that never touch. |
| Malloc.Heap.Morecore | Operating system/file system/xv6-public/umalloc.c:46-61 | At least the units asked for, freed onto the list, or nothing changed when the system refuses; the same exception. |
| Malloc.Heap.FindSlot | Operating system/file system/xv6-public/umalloc.c:30-32 | The search from the roving pointer ends, at the element behind which the block belongs. |
| Malloc.StopsAtSlot | Operating system/file system/xv6-public/umalloc.c:30-32 | The two exit tests of free's search hold at exactly one element of the circle. |
| Malloc.Heap.SearchOn | Operating system/file system/xv6-public/umalloc.c:74-89 | One step of malloc's search comes closer to the roving pointer and leaves only too small blocks behind. |
| Malloc.UnitsHold | Operating system/file system/xv6-public/umalloc.c:69 | The number of units has room for the request if and only if the rounding does not wrap in 32 bits. |
| Malloc.SbrkCoversIff | Operating system/file system/xv6-public/umalloc.c:52-59 | When sbrk succeeds for a number of units, the memory that malloc then uses is there if and only if that is less than 2 GB: from there on sbrk's int is negative. |
| Malloc.GrowProcIs | Operating system/file system/xv6-public/proc.c:159-175 | What growproc does in exact arithmetic, for every int: it grows below 2 GB as far as there are frames, shrinks but not to nothing, and does nothing when asked to shrink by more than there is. |
| Allocator.FreedOk | Operating system/file system/xv6-public/umalloc.c:33-43 | The header writes of free, from any well-formed heap and with any of the four cases of touching neighbours, give a well-formed heap. |
| Allocator.CutOk | Operating system/file system/xv6-public/umalloc.c:79-82 | Cutting the tail off a free block leaves a smaller free block and a live one that together cover the same units. |
| Allocator.TakeOk | Operating system/file system/xv6-public/umalloc.c:76-77 | Taking a whole free block off the list keeps the heap well formed. |
| Allocator.GrowOk | Operating system/file system/xv6-public/umalloc.c:57-59 | Fresh memory from sbrk, made to look like a block in use, adds exactly its units. |
| Pipe.PipeSystem.PipeWrite | Operating system/thread,scheduler/xv6-public/pipe.c:78-98 | One turn of a writer appends the next bytes of its argument; it sleeps or gives up only on a full pipe. Every write but one that gives up wakes all readers; in any state a sleeping writer implies a full pipe with a reader end open; from a state in which no reader sleeps on bytes it leaves such a state unless, and only if not, a killed process with more to write than the pipe holds meets a sleeping reader. |
| Pipe.PipeSystem.PipeRead | Operating system/thread,scheduler/xv6-public/pipe.c:100-121 | One turn of a reader returns the next bytes in order, as many as there are up to n; it sleeps exactly on an empty pipe open for writing; writers are woken; no reader is left asleep on bytes that was not before. |
| Pipe.PipeSystem.Close | Operating system/thread,scheduler/xv6-public/pipe.c:59-75 | Closing an end wakes whoever waits for it, so nobody sleeps on a pipe whose other end is gone. |
| Pipe.PipeSystem.Kill | Operating system/thread,scheduler/xv6-public/proc.c:1052-1070 | A killed process is woken; no reader or writer is left asleep on what it could have. |
| Pipe.PipeSystem.Wakeup | Operating system/thread,scheduler/xv6-public/proc.c:1030-1047 | Wakes exactly the processes that sleep on the channel. |
| Pipe.PipeSystem.constructor | Operating system/thread,scheduler/xv6-public/pipe.c:22-57 | A new pipe is empty and open at both ends. |
| Pipe.RingPut | Operating system/thread,scheduler/xv6-public/pipe.c:93 | Storing at nwrite modulo 512 appends one byte to the bytes buffered, also when the counter wraps. |
| Pipe.RingGet | Operating system/thread,scheduler/xv6-public/pipe.c:116 | Fetching at nread modulo 512 takes the oldest byte buffered. |
| Pipe.CountersTell | Operating system/thread,scheduler/xv6-public/pipe.c:85-116 | The 32-bit counters tell empty, full and in between although they wrap: equal means empty, 512 apart means full. |
| Pipe.SleepsOnFullPipe | Operating system/thread,scheduler/xv6-public/pipe.c:86-89 | The run in which that happens: a reader is left asleep on a full pipe open for writing. |
| Mlfq.OutAfter | Operating system/thread,scheduler/xv6-public/trap.c:117-161 | Without boost, yield or sleep a process runs out after exactly 2*k*k of its own ticks, counted from the top queue, and not before. |
| Mlfq.StaysFair | Operating system/thread,scheduler/xv6-public/trap.c:117-161 | Over every sequence of ticks, boosts, yields and sleeps the level stays one of the k queues, and a process that is not out has quantum left. |
| Mlfq.TickUses | Operating system/thread,scheduler/xv6-public/trap.c:142-160 | One tick uses exactly one of these 2*k*k ticks, also across the change of queues, and is the last exactly when they are used up. |
| Mlfq.LevelAfter | Operating system/thread,scheduler/xv6-public/trap.c:142-155 | On the way a process is on level l exactly from 2*l*l of its own ticks up to 2*(l+1)*(l+1). |
| Mlfq.BoostRestarts | Operating system/thread,scheduler/xv6-public/trap.c:126-140 | From the boost on a process, out or not, has a whole turn: it is out after exactly 2*k*k further ticks of its own. |
| Mlfq.GivingUpRestarts | Operating system/thread,scheduler/xv6-public/syscall.c:159-168 | The same after yield or sleep, for a process that is not out. |
| Mlfq.OutUntilBoost | Operating system/thread,scheduler/xv6-public/trap.c:117-161 | A process that is out stays out over every sequence of ticks, yields and sleeps, until the next boost, and is not out after that. |
| Mlfq.Process.TimerTick | Operating system/thread,scheduler/xv6-public/trap.c:124-160 | The interrupt's field assignments are the tick of these theorems, boost at every hundredth global tick included. |
| Mlfq.Choose | Operating system/thread,scheduler/xv6-public/proc.c:803-830 | The scan picks a runnable process, if there is one, such that every runnable process still in quantum, from the place of process 1 on, is on no lower level and, on the same level, of no higher priority; and none of the whole table should run before it if and only if each one in front of process 1 is matched by process 1 or one behind it. |
| Mlfq.NoRestart | Operating system/thread,scheduler/xv6-public/proc.c:809-813 | With process 1 in the first slot, as after boot, or absent, there is none in front of it. |
| Mupl.IfEqMeaning | programingLanguage/MUPL.rkt:170-173 | In every environment: when e1 and e2 evaluate to integers, _x is not free in e2 and neither _x nor _y in the branch selected by their equality, ifeq's expansion ends exactly when that branch does, with the same error or the same value up to what closures bind to names they do not look up. |
| Mupl.IfEqOfNonNumbers | programingLanguage/MUPL.rkt:170-173 | In every environment: when e1 and e2 evaluate but not to two integers, and _x is not free in e2, ifeq is an error. |
| Mupl.IfEqErrors | programingLanguage/MUPL.rkt:170-173 | An error in e1, or in e2 when e1 has a value and _x is not free in e2, is the error of ifeq. |
| Mupl.MuplMapMeaning | programingLanguage/MUPL.rkt:176-182 | mupl-map applied to any function and list evaluates to the list of the function's results, element by element. |
| Mupl.MuplMapError | programingLanguage/MUPL.rkt:176-182 | The first element on which the function fails makes mupl-map an error, whatever follows it in the list. |
| Mupl.GeneratorMaps | programingLanguage/MUPL.rkt:178-182 | The recursive inner function, given the function through its environment, maps every list. |
| Mupl.Weakening | programingLanguage/MUPL.rkt:60-155 | How the evaluation of an expression ends depends only on what the environment gives its free variables, through calls, closures, mlet and glet's rewriting of environments. |
| Mupl.OverrideAgrees | programingLanguage/MUPL.rkt:103-117 | glet's rewriting of an environment, closures inside closures included, keeps two environments in agreement on the names that matter. |
| Mupl.OneOutcome | programingLanguage/MUPL.rkt:60-155 | An evaluation has at most one outcome, however deep it is allowed to go. |
| Mupl.MoreCalls | programingLanguage/MUPL.rkt:60-155 | An evaluation that ends within some depth ends the same way in any greater one. |
| Mupl.AddMeaning | programingLanguage/MUPL.rkt:65-70 | An addition has a value if and only if both sides evaluate to integers, and then the value is their sum. |
| Mupl.CallBinds | programingLanguage/MUPL.rkt:92-97 | In the body of a function its own name is the function, its formal parameter the argument, and any other name what it was where the function was made; the own name wins over a parameter of the same name. |
| Mupl.GLetMeaning | programingLanguage/MUPL.rkt:103-117 | glet's body is evaluated where its name has the value in the environment itself and in that of every closure bound there, closures inside those included, and where nothing else is different. |
| Mupl.IsAUnitMeaning | programingLanguage/MUPL.rkt:133-134 | isaunit gives 1 for the unit value and 0 for every other. |
| Mupl.IfAUnitMeaning | programingLanguage/MUPL.rkt:163 | ifaunit ends as its second argument does when the first is the unit value, and otherwise as its third. |
| Mupl.MLetStarMeaning | programingLanguage/MUPL.rkt:165-168 | mlet* evaluates each expression where the names before it are bound, and ends as its body does where all of them are. |
| Sieve.FirstPrimes | programingLanguage/sol2.sml:94-111 | firstN(primes(), n) ends for every n, and gives the first n primes in ascending order. |
| Sieve.SieveStep | programingLanguage/sol2.sml:107-109 | Forcing the sieve's tail once ends and gives the next prime, and the rest is again a sieve with that prime filtered. |
| Sieve.ForceNest | programingLanguage/sol2.sml:87-91 | Forcing nested filters ends with the first number that passes them all, when there is one. |
| Sieve.NextIsPrime | programingLanguage/sol2.sml:87-109 | The first number that passes the filters of all smaller primes is the next prime. |
| Sieve.PrimeAbove | programingLanguage/sol2.sml:87-109 | There is a prime above every number, so no forcing of the sieve runs for ever. |
| Regex.Match | Operating system/file system/xv6-public/grep.c:72-82 | The search ends, and succeeds if and only if some suffix of the text (the whole text for a pattern that starts with ^) begins with a string of the pattern's language, to the end of the text if the pattern ends with $. |
| Regex.Matchhere | Operating system/file system/xv6-public/grep.c:84-96 | The same at the beginning of the text. |
| Regex.Matchstar | Operating system/file system/xv6-public/grep.c:98-106 | Succeeds if and only if the rest of the pattern matches behind some number of repetitions of the starred character. |
| Regex.ItemThenRest | Operating system/file system/xv6-public/grep.c:84-96 | A pattern that begins with an item matches exactly when the item matches some prefix and the rest of the pattern what follows: matching one character at a time agrees with the language as a set of concatenations. |
| Regex.StarThenRest | Operating system/file system/xv6-public/grep.c:98-106 | Trying ever more repetitions agrees with the language of the star. |

## Left out

Contracts that say less than the code does, or ask for more:

- BpTable.Table.DbInsert: stops, with `stale`, at a new key whose leaf is full and holds deleted records, because there the code does not do what an insertion promises; `BpStale` computes what it does, and `BpStale.SplitPromisedIff` proves that this is exactly when. All other keys and trees are covered.
- BpStale.SplitFullLeaf: is about the records of the leaf only; what the parent then gets is not modelled, since the records are wrong already.
- BpTable.Table.DbFind: before the first insertion it stops at the null pointer that the code follows (the same holds of `BpTable.Table.DbDelete`).
- BpTable.Table.NewPage: the branch for a page on the free list is modelled and proved, but no operation ever frees a page, so `Valid` says that the list is empty.
- RedoLog.Log.Commit: asks that other processes refer to no buffer of the log or of a logged block, as the commit would wait for such a one; it is one run of disk writes, and `CommitTurns` proves the same commit with steps of others between the writes (the same holds of `RedoLog.Log.EndOp` and the methods they call).
- BufferCache.Cache.Bread: ends where it has to wait; the caller goes on with `Acquire`, tried until it succeeds, and `ReadIn`, with steps of other processes in between. The sleep itself is not modelled.
- RedoLog.Log.LogWrite: asks that the block is not part of the log itself.
- FileSystem.Files.constructor: asks that the disk is sound, files with missing blocks allowed; `Mkfs.ImageGoodIff` proves when mkfs.c's last steps leave it well formed. How mkfs.c appends the files before that is not modelled, only that it notes no block behind a file's end.
- FilesOverLog.FilesSurviveCrashes: supposes that system calls leave the file system well formed when none is in progress, which the file operations' contracts say of each; it does not run them on the log's buffers.
- FileSystem.Files.Writei: after the panic for want of a free block nothing is said of the contents of the file (the same holds of `Directory.Dirlink`).
- FileSystem.Files.Iupdate: type, device numbers, link count, permission and owner of an inode are not modelled.
- VirtualMemory.Kernel.MapPage: is one turn of the loop of `mappages`, which all modelled callers run for one page.
- VirtualMemory.Kernel.NewSpace: makes a table for each directory entry of the kernel's half, but does not fill these tables with the kernel's mappings.
- VirtualMemory.Kernel.Copyuvm: asks that every page below the size is mapped, as the code panics otherwise.
- VirtualMemory.Kernel.Kfree: the free list is a sequence, not pointers inside the free frames.
- Malloc.Heap.Malloc: stops, with `beyond`, where the system grants a request of 2 GB or more after rounding; `Malloc.SbrkCoversIff` proves that the memory is then not there. The heap is grown by the allocator only (the same holds of `Malloc.Heap.Morecore`).
- Pipe.PipeSystem.constructor: file descriptors, and the page that holds the pipe, are not modelled.
- Mlfq.Choose: is the scan for a process when none is to continue (`prev` is 0); the context switch and the choice to continue are not modelled.
- Mupl.MoreCalls: the interpreter is modelled without number arrays, which it updates in place.
- Sieve.FirstPrimes: numbers do not overflow.

Parts of the repository that are not modelled:

- LC-2K: parsing and printing, the assembler, the simulator of the first project.
- B+ tree: opening an existing file, `O_SYNC`, failing reads, values longer than their field, memory freed or leaked, and the code for coalescing and redistributing pages, which is proved never to be reached.
- xv6: locks, sleeping in the file system and the log, inode caching and reference counts, path names, devices, user accounts and permissions, the number of blocks that one system call logs.
- xv6: hardware and boot code, `loaduvm`, `copyout`, thread creation, the multilevel scheduler, trap frames.
- grep: reading lines through a buffer.
- The course-registration system, the join programs, SQL queries, computer graphics and software-engineering exercises.
