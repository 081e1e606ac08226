# Verification of an xv6 kernel with a feedback scheduler

The project models the parts of this xv6 (x86) with hard guarantees, and proves
them for all inputs, runs and interleavings:

- the write-ahead log: crash safety over every run with crashes anywhere, repeated
  crashes in recovery included, and the exact budget under which it neither panics
  nor overruns (`BlockDisk`, `LogRecovery`, `LogSystem`, `LogSafety`, `LogBudget`,
  `LogCalls`, `Log`);
- the buffer cache: an LRU ring of linked buffers and coherence with the disk
  (`BufRing`, `Bio`);
- the inode layer: files as byte sequences over an exact bitmap (`FsLayout`,
  `FsState`, `FsUpdate`, `FsInode`, `FsFile`), from the image that mkfs makes on (`Mkfs`, `MkfsRoot`);
- names: path elements, directories as maps, and link counts under link, unlink and
  create (`Paths`, `Dirs`, `NameTree`, `NameTreeDirs`, `Namei`, `Sysfile`);
- the four-level feedback scheduler: agreement of queues and states over every run,
  no starvation, lottery and shortest-job policies (`Scheduler`, `SchedulerRun`,
  `SchedulerSafety`, `SchedulerFairness`, `SchedulerPolicy`, `SchedulerTable`,
  `SchedulerWitness`), the order of its queues (`SchedulerOrder`), parents and children
  (`SchedulerFamily`) and kill (`SchedulerKill`);
- the user heap (`HeapList`, `Umalloc`) and address spaces (`VmState`, `Vm`);
- the shell's parser (`ShellGrammar`, `ShellSyntax`, `ShellWords`, `ShellLexer`,
  `ShellSpacing`, `Shell`), grep's matcher (`Grep`), and pipes with sleep and wakeup
  (`Pipe`, `PipeSafety`, `PipeRuns`, `PipeCalls`).

Code that the source runs by updating state in place is a class or a method with
loops, proved equal to a function on values or to a property stated outright; the
invariants and theorems are lemmas about those functions. Concurrency is a state
machine with one step for each section that a lock makes atomic; for pipes the steps
are finer, the pipe lock and the process table lock being taken and released apart.

Some properties one might expect do not hold of the code, and their exact conditions
are proved instead: log_write's panic and the overrun of the log
(`LogBudget.NeverPanicsIff`, `LogBudget.NeverOverflowsIff`), the lottery's counter
(`SchedulerTable.DispatchAsWrittenIff`), the shortest job (`SchedulerPolicy.ShortestJobIff`),
a sleeping reader left behind by a killed writer (`PipeRuns.NeverLostIff`), a kill that
goes unnoticed (`PipeRuns.NeverKilledBoundIff`), a kill that meets a free slot
(`SchedulerKill.NeverMarkedIff`), and malloc's very large requests
(`Umalloc.AsksForAllIff`). For each of these but the last the failing case is a run from
the initial state.

`dafny verify dfyconfig.toml` checks everything.

## Model

| member | source | states |
|---|---|---|
| LogRecovery.HeaderRoundTrip | files/log.c:85-113 | a header written by write_head reads back, by read_head, as the block list it was written from, and is well formed |
| LogRecovery.CommitAtomic | files/log.c:177-202 | power failure after any number i of a commit's block writes: recovery of that disk would yield the old home blocks while the committing header write has not happened, and the whole transaction once it has; after all writes the home blocks hold the transaction and the log is empty |
| LogRecovery.RecoveryAtomic | files/log.c:115-122 | recovery may be cut off after any of its block writes, any number of times: what the disk means does not change, and a complete recovery leaves exactly that meaning in the home blocks with an empty log |
| LogRecovery.CommitWriteAt | files/log.c:192-202 | a commit is n log writes, the header, n installs and the empty header, in that order, and nothing for an empty transaction |
| LogSystem.ReservationHolds | files/log.c:125-174 | in every interleaving of calls that newly log at most `budget` blocks each, lh.n plus the unused budgets of the open calls stays at most 10 + 2 * budget, and committing implies no open call, so that the logged set is frozen during a commit |
| LogSafety.CrashSafety | files/log.c:69-202 | for every run of calls, commits, single block writes, crashes, boots and recoveries, crashes inside recoveries included: recovering the present disk yields the durable state, that is, the calls of exactly those commits whose header write reached the disk; and a running system shows its calls the volatile state |
| LogSafety.FromPowerOn | files/log.c:53-67 | the same from any well-formed disk at power-on; an up system that is not committing has the durable state in its home blocks |
| LogBudget.NeverPanicsIff | files/log.c:213-222 | no run reaches log_write's panic if and only if 10 + 2 * budget is below the capacity min(LOGSIZE, size - 1); so ten blocks per call are never safe, and nine are with mkfs's log |
| LogBudget.NeverOverflowsIff | files/log.c:213-233 | no run writes a log entry past the capacity if and only if 10 + 2 * budget fits in it, although the check of lh.n is made outside the lock |
| LogBudget.Overrun | files/log.c:218-229 | the failing family: for every capacity below 10 + 2 * budget, a run in which two calls pass the unlocked check with one place left and the log ends one entry over |
| LogBudget.Grow | files/log.c:125-141 | every number of logged blocks up to 10 + 2c is reached by some run of admitted calls |
| LogCalls.CallsWithinBudget | files/log.c:125-174 | in every interleaving where each call, from begin_op to end_op, logs blocks of a set of at most `budget`, absorbed ones included, no call newly logs more than the budget: the bound on a call's own blocks is the hypothesis of the log's theorems |
| LogCalls.ChunksNeverPanic | files/file.c:117-140 | so with mkfs's log no interleaving of calls that log at most the seven blocks of a chunk of filewrite comes to a panic in log_write or fills the log |
| Log.LogState.Bwrite | files/memide.c:39-60 | one block reaches the disk and its buffer is no longer dirty |
| Log.LogState.WriteLog | files/log.c:177-190 | the cached contents of the logged blocks go, in order, to the log's data blocks; nothing else is written |
| Log.LogState.WriteHead | files/log.c:101-113 | exactly one write: the header block for the present list |
| Log.LogState.InstallTrans | files/log.c:69-82 | each logged block's home gets the log's copy, in order, and its buffer is unpinned |
| Log.LogState.Commit | files/log.c:192-202 | the writes are exactly those of CommitWrites, the sequence CommitAtomic is about |
| Log.LogState.ReadHead | files/log.c:85-96 | the in-memory list becomes the one in the header block |
| Log.LogState.RecoverFromLog | files/log.c:115-122 | the writes are exactly those of RecoverWrites, the sequence RecoveryAtomic is about |
| Log.LogState.BeginOp | files/log.c:125-141 | a call is admitted exactly when no commit runs and the reserved space fits; otherwise nothing changes |
| Log.LogState.LogWrite | files/log.c:213-233 | absorption: a block already logged is not listed twice; otherwise it is appended; its buffer is pinned with the new data; the two panics are exactly the two tests |
| Log.LogState.EndOp | files/log.c:145-174 | the last call to end makes every home block what the cache showed, by exactly one commit's writes; an earlier one changes no disk block; committing is a panic |
| Log.CommitShows | files/log.c:145-202 | after a whole commit each home block holds what the cache showed before it |
| BufRing.Unlinked | files/bio.c:132-133 | taking a buffer out by its own prev and next leaves a well-formed circular list of the others in their order |
| BufRing.Pushed | files/bio.c:134-137 | putting a buffer after the head leaves a well-formed circular list with it in front |
| Bio.Cache.constructor | files/bio.c:38-55 | binit's loop builds a ring of all NBUF buffers; the cache shows the disk |
| Bio.Cache.Find | files/bio.c:61-93 | a reference to the buffer that holds the block; else to the free, clean buffer that was released longest ago, now for this block and not valid; else the panic, exactly when there is neither. No two buffers come to hold one block |
| Bio.Cache.Scan | files/bio.c:67-75 | the forward walk meets every buffer: it finds the block's buffer if there is one |
| Bio.Cache.Oldest | files/bio.c:80-91 | the backward walk finds the least recently released buffer that is neither referenced nor dirty, if there is one |
| Bio.Cache.Fill | files/bio.c:96-106 | whatever happened between the reference and the lock, the data is the last written to the block |
| Bio.Cache.Bread | files/bio.c:96-106 | bread returns a locked, valid buffer of the block with the last data written to it, and touches no other buffer |
| Bio.Cache.Bwrite | files/bio.c:109-116 | the disk block and the block's contents become the buffer's data; the buffer is clean |
| Bio.Cache.LogWrite | files/log.c:229-231 | the block's contents become the buffer's data while the disk keeps the old; the buffer is dirty and so not recycled |
| Bio.Cache.ReleaseSleep | files/bio.c:126-126 | brelse's first step gives back the sleep lock alone, so that another holder of a reference may take it before the second |
| Bio.Cache.Put | files/bio.c:128-140 | brelse's second step gives back one reference, whoever holds the lock by then; with the last reference the buffer goes to the front, every other buffer keeping its order |
| Bio.Cache.Brelse | files/bio.c:120-141 | the two steps with nothing in between |
| Bio.Position | files/bio.c:38-55 | the ring is a permutation: every buffer has a place in it |
| FsState.BitmapExact | files/fs.c:56-95 | a bitmap bit is set iff its block is metadata or some slot of some inode (direct, indirect block, or indirect entry) refers to it, and then exactly one slot of one inode does |
| FsInode.FileSystem.FindFree | files/fs.c:62-68 | the first block whose bit is clear, or none |
| FsInode.FileSystem.Balloc | files/fs.c:56-78 | a block that no slot owns, its bit set and its bytes zeroed, and nothing else changed; the panic only when every bit is set |
| FsInode.FileSystem.Bfree | files/fs.c:81-95 | clears that bit only; reports the panic exactly when the bit was clear |
| FsInode.FileSystem.Bmap | files/fs.c:372-400 | the block in the slot of file block bn, allocated if it was missing, also through the indirect block; no byte of any file changes, ownership stays exact, and only that slot's, the indirect and a bitmap block are logged; fails only past MAXFILE or on a full disk |
| FsInode.FileSystem.Writei | files/fs.c:481-511 | the file becomes the old one with exactly the given bytes spliced in at off, its size max(size, off + n), every other inode's bytes unchanged; an error exactly when off > size or the end passes MAXFILE, and then nothing changes; a panic only on a full disk; every block that changes is logged; iupdate runs exactly when the size grows, and the addresses in the inode change exactly when the range touches an address slot that was empty |
| FsInode.NoHoleBelowSize | files/fs.c:506-509 | in an inode without holes below its size a write touches an empty address slot only if it makes the file grow: every change of the addresses is then written out by iupdate |
| FsInode.FileSystem.WriteAll | files/fs.c:498-504 | the chunk loop writes every byte once, across direct and indirect blocks |
| FsInode.FileSystem.Readi | files/fs.c:452-476 | the bytes are the slice of the file from off, cut at its size; an error exactly when off > size or off + n wraps; no byte of any file changes |
| FsInode.FileSystem.Itrunc | files/fs.c:407-435 | frees exactly the blocks of that inode, never a free one, and changes no other file; the bitmap stays exact |
| FsInode.FileSystem.FreeEntries | files/fs.c:424-427 | clears the bits of exactly the blocks the indirect block names, all of them set |
| FsInode.ChunkLogsSeven | files/file.c:123-131 | with one bitmap block, the blocks a chunk of filewrite logs between begin_op and end_op, those logged before by other transactions included, are at most 7 |
| FsFile.File.Write | files/file.c:117-156 | filewrite in chunks is one splice of all the bytes; when the end does not fit it is an error after the chunks that did, exactly; it makes one transaction per 1536 bytes, each logs at most 7 distinct blocks, and every block that has changed was logged by one of them |
| FsFile.File.WriteChunk | files/file.c:133-148 | the body of the loop: one transaction, whose logged blocks are counted from its own begin_op |
| FsFile.SpliceTwice | files/file.c:133-152 | two consecutive writes are one write of both |
| FsUpdate.OverwriteBlock | files/fs.c:498-504 | copying into one data block changes exactly those bytes of one file |
| FsUpdate.AllocateToEntry | files/fs.c:385-396 | a fresh block put in an indirect entry keeps ownership exact and all bytes |
| FsUpdate.FreeSlot | files/fs.c:407-435 | giving back one slot's block keeps the other slots and the other files |
| Mkfs.Image.constructor | files/mkfs.c:95-112 | the zeroed image: no inode in use, no block handed out |
| Mkfs.HandOutNext | files/mkfs.c:271-290 | freeblock++ into an empty slot, direct, indirect block or entry: exactly the data blocks below the new freeblock are owned, and those above are still zero |
| Mkfs.Image.Iappend | files/mkfs.c:255-298 | the whole loop: the file becomes the old one followed by the bytes, no other file changes, and the image stays one whose blocks are handed out in order; gives up only past the last block or the largest file |
| Mkfs.Image.Ialloc | files/mkfs.c:224-236 | the next inode number, one link, no contents |
| Mkfs.Image.RoundRoot | files/mkfs.c:155-160 | the root's size rounded up past its last block shows zeros there and changes no other file |
| Mkfs.Bitmap | files/mkfs.c:238-250 | the bitmap block mkfs writes has exactly the first `used` bits set |
| Mkfs.BitmapOwned | files/mkfs.c:238-253 | with that bitmap an image under construction becomes one whose bitmap is exact, the bytes of all files unchanged |
| Mkfs.EmptyImageOwned | files/mkfs.c:106-112 | the base case: zeroed blocks, no inodes and the metadata's bitmap satisfy the bitmap invariant |
| Mkfs.Image.Build | files/mkfs.c:114-164 | main: for any files, the image it leaves has an exact bitmap, each file's bytes in its inode, and the root's entries for all of them; it gives up only for want of blocks or inodes or at too long a file |
| MkfsRoot.RootSlots | files/mkfs.c:117-160 | the root's bytes, read back in 16-byte records with the inode number low byte first: the dots, each file's name with its inode, and free entries up to the end of the block |
| MkfsRoot.RootView | files/mkfs.c:117-160 | so, when the names given differ, the root as a map takes each of them to the inode that holds its bytes, the dots to itself, and nothing else to anything |
| Mkfs.FirstBoot | files/mkfs.c:68-165 | mkfs and then the kernel: the file system object starts valid with those contents, nothing assumed of the image |
| Paths.SkipElem | files/fs.c:595-619 | one element: the first component of what is left, cut to 14 bytes, and the position of the rest, which has no leading slash; by bytes: slashes, an element of which the name is the first 14, slashes; none exactly when only slashes are left |
| Paths.ComponentsPiece | files/fs.c:583-592 | a piece without slashes and what follows it: iterating skipelem gives exactly the nonempty '/'-separated pieces, each cut |
| Paths.ComponentsAreNames | files/fs.c:583-619 | every component is a nonempty name of at most 14 bytes without slashes |
| Dirs.Scan | files/fs.c:524-549 | the entry of the name, if and only if the directory, as a map, has the name |
| Dirs.LinkView | files/fs.c:551-578 | a new entry adds one name to the map and keeps names unique, whether a free entry is reused or the file grows |
| Dirs.UnlinkView | files/sysfile.c:213-215 | clearing the entry removes exactly that name from the map |
| Sysfile.FileTree.DirLookup | files/fs.c:524-549 | the inode number the map gives, 0 if the name is not in it, and the entry's place |
| Sysfile.FileTree.DirLink | files/fs.c:551-578 | refuses exactly when the name is there, changing nothing; panics exactly when it is not there and a directory of the largest size has no free entry; otherwise the map gains the name |
| Sysfile.FileTree.Namex | files/fs.c:624-657 | namei is the resolution of the path's components, from the root for a path that begins with a slash, whatever the current directory, and from the current directory for any other; nameiparent stops at the directory of the last one and gives its name; each fails exactly when that does |
| Namei.NewNameResolves | files/fs.c:624-657 | when names are only added, every path whose last name is the new one resolves to the new entry's inode |
| Namei.GoneNameFails | files/fs.c:624-657 | when a name is taken away, every path whose last name it was resolves to nothing, also one that leads through what was removed |
| Namei.CreatedNames | files/sysfile.c:260-280 | a new file or directory: its name, for a directory its dots, and every other lookup in every directory as before |
| Namei.NameiIsLookupInParent | files/fs.c:624-671 | on a fixed tree, namei(path) is the lookup of the last component in nameiparent(path) |
| Sysfile.FileTree.SysLink | files/sysfile.c:118-165 | succeeds exactly when old is a non-directory and new's name is free in an existing directory with room; then one entry and one link more; without room the panic; on every refusal, the late ones that take the count back included, nothing has changed; link counts stay exact; afterwards both paths resolve to the inode and no other lookup has changed |
| Sysfile.FileTree.IsDirEmpty | files/sysfile.c:168-181 | exactly when no entry after the dots is in use |
| Sysfile.FileTree.SysUnlink | files/sysfile.c:184-239 | succeeds exactly for an existing name, not a dot, that is no nonempty directory; the entry goes and the counts follow, for a directory also its parent's; link counts stay exact, and the panic on nlink < 1 is not reached; afterwards the path resolves to nothing and no other lookup has changed |
| Sysfile.FileTree.Create | files/sysfile.c:241-283 | an existing file is returned for a file, and refused otherwise; else a new inode gets the name, and a directory its dots and its parent's link; the panic exactly when there is no free inode or the parent cannot grow; link counts stay exact; afterwards the path resolves to the inode returned, of the kind asked for, and whatever resolved before still does |
| Sysfile.FileTree.Enter | files/sysfile.c:263-280 | the rest of create, from the inode to its name |
| Sysfile.FileTree.Ialloc | files/fs.c:194-214 | the first free inode gets the kind and no links; 0, the panic, exactly when there is none |
| Sysfile.FileTree.Iput | files/fs.c:331-352 | one reference less; the last one to an inode without links frees exactly its blocks, then the inode, which changes no link count and no other file |
| NameTree.LinkedInv | files/sysfile.c:138-151 | a new name for a file keeps: nlink of every inode = the number of entries other than "." that name it in linked directories; and the shape of the tree |
| NameTree.UnlinkedInv | files/sysfile.c:213-224 | so does one name less |
| NameTree.MoreCounted | files/sysfile.c:118-283 | the counts of a tree are exact iff those of the tree with one entry more, or two for a directory, and one link more for each inode named, are |
| NameTreeDirs.MadeInv | files/sysfile.c:260-280 | a new directory keeps the counts and the shape: two entries and two links at once |
| NameTreeDirs.RemovedInv | files/sysfile.c:209-224 | removing an empty directory keeps them, and leaves it without links |
| NameTreeDirs.EmptyHasOneLink | files/sysfile.c:168-181 | an empty directory that is an entry has exactly one link, from its parent |
| NameTreeDirs.FirstTreeInv | files/mkfs.c:118-129 | the root alone, as mkfs makes it, satisfies the invariant |
| Scheduler.QueuesFit | files/proc.c:176-185 | when queues and states agree the counts sum to at most NPROC, and to less when some process is not runnable, so that every append stays in bounds |
| Scheduler.WakeUpTo | files/proc.c:730-747 | the loop makes exactly the sleepers on the channel runnable and only appends to queues |
| Scheduler.AgreeAgeUpTo | files/proc.c:943-963 | aging moves exactly the processes whose wait reached their threshold up one queue and resets their wait, keeping queues and states in agreement |
| SchedulerSafety.InvStep | files/proc.c:81-986 | every locked section of the process table (alloc, fork, exit, wait, yield, sleep, wakeup, kill, dispatch, clock and aging) keeps the invariant |
| SchedulerSafety.InvAlways | files/proc.c:451-986 | so it holds at every point of every run |
| SchedulerSafety.BootInv | files/proc.c:26-35 | it holds at boot |
| SchedulerSafety.QueuesAlwaysAgree | files/proc.c:464-615 | at every point of every run a process is RUNNABLE iff it occurs in the counted prefix of the queue of its priority, once, and in no other queue; the four counts sum to at most NPROC |
| SchedulerSafety.RepairNeverTaken | files/proc.c:969-986 | the repair branch of change_prio after its yield is never taken |
| SchedulerSafety.ChooseFinds | files/proc.c:464-603 | the scheduler finds a process exactly when some queue is nonempty, and in the highest nonempty one |
| SchedulerSafety.DispatchTakes | files/proc.c:464-603 | a dispatch, from every reachable state: the head of queue 3; else of queue 2 the first job of least estimate if some estimate is below 10000, and the head if none is; else the head of queue 1; else of queue 0 the process whose tickets, added to those before it, first reach the draw; with everything it leaves |
| SchedulerOrder.StepFollows | files/proc.c:81-986 | in every step and every queue, whoever still waits keeps its order and newcomers stand behind |
| SchedulerOrder.RoundRobin | files/proc.c:530-560 | on every run a process at position m of queue 1 moves forward by at least one place with each dispatch that comes to queue 1, and so at most m of them pass it by |
| SchedulerOrder.TakenByTurn | files/proc.c:530-560 | the dispatch that comes to queue 1 after m others takes it, if it has not been promoted |
| SchedulerFamily.ExitEffect | files/proc.c:286-306 | exit, for every process: whoever sleeps on the parent is woken; children pass to init, whose sleep ends if one of them is a zombie; the caller is a zombie; nothing else changes |
| SchedulerFamily.NoZombieForgotten | files/proc.c:286-350 | at every point of every run from boot: a zombie's parent lives and does not sleep in wait; every other process but init has a living parent, and init lives; no free slot counts as a child |
| SchedulerKill.NeverMarkedIff | files/proc.c:761-787 | on every run no free slot of the table is marked killed if and only if no kill finds its pid first in a free slot and no killed embryo is given up |
| SchedulerKill.BornMarkedIff | files/proc.c:81-117 | a new process is born killed exactly when its slot is marked |
| SchedulerKill.KillZero | files/proc.c:761-787 | kill(0) at boot marks the slot in which the first process is then made |
| SchedulerFairness.AgedToTheTop | files/proc.c:894-963 | a process that stays runnable for 450 clock ticks is in queue 3 |
| SchedulerFairness.NeverOvertaken | files/proc.c:470-490 | a process of queue 3 moves forward by one with each dispatch and is never overtaken |
| SchedulerFairness.TakenInTurn | files/proc.c:470-490 | the one at position m is taken by the (m+1)-th dispatch, whichever processor makes it |
| SchedulerFairness.NoStarvation | files/trap.c:50-60 | a runnable process is dispatched before 450 ticks and then 64 dispatches have gone by |
| SchedulerPolicy.LotteryWinner | files/proc.c:564-603 | every draw from 0 to the total selects a process of the queue: the first whose running ticket sum reaches the draw |
| SchedulerPolicy.LotteryShares | files/proc.c:564-603 | of the total + 1 draws the head owns its tickets and one more, every other process exactly its tickets |
| SchedulerPolicy.ShortestJobIff | files/proc.c:409-424 | the process taken has the least estimated burst if and only if some estimate is below 10000 or the head has the least |
| SchedulerWitness.LongJobTakenFirst | files/proc.c:409-424 | a run from boot that ends with two runnable processes in queue 2, after 20002 and 20000 ticks and a sleep each, of which the one with the longer estimate is taken |
| SchedulerPolicy.RandomInRange | files/proc.c:426-434 | Random stays in 0..9999 for ever and its square never overflows an int |
| SchedulerTable.LotteryAsWrittenDisagrees | files/proc.c:598-604 | the lottery branch as written, lowering counter 2, takes every agreeing state to one that does not agree |
| SchedulerTable.DispatchAsWrittenIff | files/proc.c:464-603 | the dispatch as written keeps agreement if and only if it does not come to the lottery, and when it does the counter of queue 2 is -1 afterwards, so that the next append to that queue writes over the last entry of queue 1 |
| SchedulerWitness.LotteryReached | files/proc.c:564-604 | a run from boot that comes to the lottery: for every draw the dispatch as written leaves a table that does not agree, and counter 2 at -1 |
| SchedulerTable.PTable.TakeUncounted | files/proc.c:586-604 | the lottery's closing of the gap in place, with the line as written: the counters, the entries of queue 0 that are still counted, and the processes |
| SchedulerTable.PTable.Append | files/proc.c:247-257 | the queue gains the process at its end, in place, within bounds |
| SchedulerTable.PTable.Close | files/proc.c:484-488 | the shifting loop removes one position of the counted prefix, in place |
| SchedulerTable.PTable.Wakeup1 | files/proc.c:730-747 | the in-place loop is Wakeup, and keeps agreement |
| SchedulerTable.PTable.KillPid | files/proc.c:761-787 | 0 exactly when some slot has the pid; the first that has is marked killed and, if asleep, made ready; no other process changes |
| SchedulerTable.PTable.UpdateClocks | files/proc.c:894-914 | running processes count a tick of burst and clock, waiting ones a tick of waiting; clocks of sleeping and waiting ones are zero |
| SchedulerTable.PTable.AuxTrocarFila | files/proc.c:916-937 | the process is removed from the queue below and appended to the new one, its wait reset |
| SchedulerTable.PTable.UpgradePriorityAging | files/proc.c:943-963 | exactly the runnable processes that have waited 200, 150 or 100 ticks in queue 0, 1 or 2 go up one queue, their wait reset |
| SchedulerTable.PTable.ShortestBurst | files/proc.c:409-424 | the loop's position is ShortestUpTo's |
| SchedulerTable.PTable.LoteriaTotal | files/proc.c:436-449 | the sum of the tickets of queue 0 |
| SchedulerTable.PTable.LotteryScan | files/proc.c:574-584 | the scan's position is LotteryFrom's |
| SchedulerTable.PTable.Schedule | files/proc.c:451-616 | the process taken, by the arrays: queue 3's first entry, else queue 2's job to take, else queue 1's first entry, else queue 0's winner of the draw, else none; it runs with its clocks reset and is out of its queue; with the line as written the counter of queue 2 becomes -1 and queue 0 keeps counting it |
| SchedulerTable.PTable.AllocProc | files/proc.c:81-117 | the first unused slot becomes an embryo with the next pid, ten tickets and an estimate of two; NPROC when there is none; nothing else changes |
| SchedulerTable.PTable.SleepOn | files/proc.c:707-713 | the process sleeps on the channel, its estimate the mean of the old one and the burst, the burst at zero |
| SchedulerTable.PTable.WaitOnce | files/proc.c:316-350 | one pass of wait: the first zombie child is freed and its pid returned; refused without children or when killed; else the caller sleeps on its own address |
| SchedulerTable.PTable.ExitProc | files/proc.c:286-306 | process by process: sleepers on the parent are woken, the children pass to init, a zombie among them waking it, the process becomes a zombie, and nothing else changes |
| SchedulerTable.PTable.Random | files/proc.c:426-430 | the next value of the generator, the middle digits of the square, in 0..9999 |
| Umalloc.Heap.Free | files/umalloc.c:24-44 | the block leaves the allocated ones; the list stays circular, address-ordered, disjoint and maximally coalesced, and covers the same units; the next search starts from the last free block below |
| Umalloc.Heap.Search | files/umalloc.c:29-32 | the search ends, at the free block just below |
| Umalloc.Heap.JoinUpper | files/umalloc.c:33-37 | the block takes over the following free block exactly when that begins where it ends |
| Umalloc.Heap.JoinLower | files/umalloc.c:38-43 | the block below takes over exactly when it ends where the block begins; the heap is well formed again |
| Umalloc.Heap.Morecore | files/umalloc.c:46-61 | for every request whose byte count reaches sbrk unchanged: a region from sbrk becomes free space of at least the units asked for; 0 exactly when sbrk fails |
| Umalloc.Heap.Malloc | files/umalloc.c:63-90 | a new block of the units asked for that overlaps no other, without morecore the tail of the first block that is large enough, going round from freep; morecore is called at most once, and failure comes only from sbrk's; for every request for which sbrk fails or is asked for all the bytes |
| Umalloc.AsksForAllIff | files/umalloc.c:52-54 | the count given to sbrk, as an int, is that of all the units if and only if (nbytes + 7) mod 2^32 is below 2^31 - 8; otherwise it is zero or negative |
| Umalloc.NothingGranted | files/umalloc.c:54-58 | and then the header morecore writes makes a block of units that were never obtained: no heap invariant is left |
| Umalloc.Heap.Take | files/umalloc.c:75-86 | the tail of a larger block or the whole of an exact one is handed out; freep moves to the block before |
| Umalloc.UnitsPartitioned | files/umalloc.c:24-90 | a unit was obtained from sbrk iff it is in exactly one free or exactly one allocated block |
| Umalloc.UnitsSuffice | files/umalloc.c:69-69 | the units computed hold the bytes asked for if and only if nbytes + 7 does not wrap around, and are then the fewest |
| Vm.Kernel.Kalloc | files/kalloc.c:82-95 | the first frame of the free list, or 0 when it is empty |
| Vm.Kernel.Kfree | files/kalloc.c:59-77 | the frame is filled with ones and put in front of the free list; no other frame changes |
| Vm.Kernel.Walk | files/vm.c:35-55 | the table of the page, made empty if missing and wanted; a new table's entry is writable and for user mode; no page's entry changes and no frame is lost or shared; 0 only without a table and without a free frame or leave to take one |
| Vm.Kernel.MapPage | files/vm.c:60-80 | one page is mapped, others keep their entries, every frame stays in one place only; fails only on an empty pool, changing no entry |
| Vm.Kernel.MapPages | files/vm.c:60-80 | a range of kernel pages is mapped to consecutive frames; nothing outside it changes |
| Vm.Kernel.DeallocUvm | files/vm.c:255-279 | memory, tables and free list end exactly as if every page from newsz to oldsz were visited in turn, although missing tables are jumped over 4 MB at a time, for all sizes up to KERNBASE |
| VmState.SkipPages | files/vm.c:265-268 | pages without an entry need no visit |
| VmState.Swept | files/vm.c:255-279 | visiting every page unmaps exactly those pages, returns their frames to the pool once each, and leaves every other entry and every other frame's contents |
| Vm.Kernel.AllocUvm | files/vm.c:221-248 | on success zeroed, writable user pages on frames of the pool up to newsz and nothing else; on failure, in both places it can fail, the address map, the pages' bytes and the owned frames as before; no failure while the pool has two frames per page |
| Vm.Kernel.FreeVm | files/vm.c:283-299 | the pool then holds its old frames and exactly those the address space owned (user pages, page tables, directory), each once |
| Vm.Kernel.SetupKvm | files/vm.c:118-137 | a directory with exactly the kernel's mappings on frames of the pool; or 0 and the pool as before, only when it is too small |
| Vm.Kernel.CopyUvm | files/vm.c:315-344 | a child with the kernel's mappings and exactly the parent's pages, the same flags and bytes, on frames disjoint from the parent's; or 0 and the pool as before, only when it is too small; the parent's map and bytes unchanged either way |
| ShellGrammar.RoundTrip | files/sh.c:344-446 | for every command tree with at most 9 arguments per exec, parsing its printed tokens gives the tree back with nothing left |
| ShellGrammar.FewestParens | files/sh.c:344-446 | of all token lists that parse to a command, the printed one has the fewest parentheses |
| ShellGrammar.NoPairToSpare | files/sh.c:399-413 | so dropping any pair from it changes the command or is refused |
| ShellGrammar.ExecReads | files/sh.c:415-446 | words and redirections in any order, before anything that may follow: one exec of the words in order under the redirections in order; ten words or more are refused |
| ShellGrammar.ExecAccepts | files/sh.c:415-446 | and nothing else does parseexec accept that does not begin with a parenthesis |
| ShellSyntax.LineIff | files/sh.c:344-446 | the parser is the grammar: it reads a token list as a command if and only if some tree of concrete syntax (pipes of words, redirections and parenthesised lines, any number of &, ;) spells the list and means the command |
| ShellSpacing.SpacedLexes | files/sh.c:261-308 | however it is spaced, with gaps of any white space, and none where two tokens cannot run together, a spelling of tokens, >> among them, is read as those tokens |
| ShellSpacing.LineIsSpaced | files/sh.c:261-308 | and every line is such a spelling of the tokens read from it |
| ShellGrammar.LineFits | files/sh.c:415-446 | no accepted command has more than 9 arguments to an exec |
| ShellGrammar.PrintedExec | files/sh.c:399-446 | parseexec on a printed command, followed by anything, is where it would be after building that command |
| ShellWords.MapLine | files/sh.c:374-397 | words are carried and never read by the parser; >> is parsed as > is |
| ShellWords.WordsFromTokens | files/sh.c:344-446 | every word of the command is a word of the line |
| ShellLexer.LexRendered | files/sh.c:265-308 | a spelling of tokens splits back into exactly those tokens |
| ShellLexer.TextRoundTrip | files/sh.c:327-446 | the same round trip on text: the words of the parsed tree, as places in the text, spell the tree |
| ShellLexer.UnparseInjective | files/sh.c:327-446 | two commands are spelled alike only if they are the same |
| Shell.Parser.GetToken | files/sh.c:265-308 | the next token, its span if it is a word, and the pointer at the following one; at the end 0 |
| Shell.Parser.Peek | files/sh.c:310-320 | whether the next token starts with one of the symbols; consumes only white space |
| Shell.Parser.ParseRedirs | files/sh.c:374-397 | refines the grammar: same tree or same panic, and the same tokens left |
| Shell.Parser.ParseBlock | files/sh.c:399-413 | refines the grammar; terminates with the unread length |
| Shell.Parser.ParseExec | files/sh.c:415-446 | refines the grammar, the tenth argument and a stray symbol being the panics |
| Shell.Parser.ParsePipe | files/sh.c:361-372 | refines the grammar, pipes nesting to the right |
| Shell.Parser.ParseLine | files/sh.c:344-359 | refines the grammar: any number of &, then perhaps ; and another line |
| Shell.Parser.ParseCmd | files/sh.c:327-342 | a command exactly when the grammar reads the whole line, leftovers being a syntax error; then each of its words is a C string in the buffer, equal to the word of the line |
| Shell.Parser.NulTerminate | files/sh.c:448-493 | a terminator is written after every word and none into a word |
| Grep.MatchHere | files/grep.c:85-97 | true iff some prefix of the text is in the language of the pattern's literals, '.', 'c*' and trailing '$', defined by splitting the text |
| Grep.MatchStar | files/grep.c:99-106 | true iff c* can take some prefix after which the rest matches |
| Grep.Match | files/grep.c:72-83 | true iff some substring, for '^' some prefix, is in the language; all loops and recursions terminate |
| Pipe.TestsExact | files/pipe.c:84-107 | the tests for full and empty on counters that wrap at 32 bits are exact |
| Pipe.RingMove | files/pipe.c:78-121 | every step keeps: the bytes between the counters, taken modulo the size, are those written and not yet read |
| PipeRuns.BytesInOrder | files/pipe.c:78-121 | on every run the bytes read are a prefix of the bytes written, and the at most 512 others are the ring's contents |
| PipeCalls.NeverTooMany | files/pipe.c:113-117 | on every run no read gets more bytes than it asked for |
| PipeCalls.CopyTakes | files/pipe.c:113-119 | from entering the copy loop to leaving it, whatever others do, a read of n bytes takes exactly as many as there are, up to n, the oldest ones, and counts them |
| PipeCalls.CallConserves | files/pipe.c:78-121 | at every point of a write, the bytes it has put in, in order, and those it has left are its buffer; a read has counted exactly the bytes it has taken |
| PipeCalls.WriteComplete | files/pipe.c:83-97 | a write that comes to its last wakeup has put in all its bytes |
| PipeCalls.CallsEnd | files/pipe.c:84-112 | a read that asked for bytes and returns none found the pipe empty, and the write end closed or its process killed; a write that returns early found it full, and the read end closed or its process killed |
| PipeSafety.LostIff | files/pipe.c:84-90 | a step leaves a reader asleep without a reason if and only if it is that of a killed writer that finds the pipe full, with the read end open, while a reader sleeps |
| PipeRuns.NeverLostIff | files/proc.c:684-747 | over every interleaving of the two locks' steps, readers' wakeups are never lost exactly on the runs without such a step |
| PipeRuns.WritersNeverLost | files/proc.c:684-747 | writers' wakeups are never lost, on any run |
| PipeRuns.NeverKilledBoundIff | files/proc.c:761-787 | over every interleaving, no killed process is asleep in the pipe or going to sleep exactly on the runs where no kill lands between a process's look at its killed flag and sleep's taking of the table lock |
| PipeRuns.KilledSleeps | files/proc.c:684-725 | a kill that lands there does leave a killed process asleep when it goes on |
| PipeRuns.KillMissed | files/proc.c:761-787 | a run from pipealloc on that ends with a killed reader asleep and nothing able to move |
| PipeRuns.FromAlloc | files/pipe.c:22-57 | all of these from the pipe that pipealloc makes |
| PipeRuns.StuckOnlyForAReason | files/pipe.c:59-121 | when no process can move, each is outside the pipe or asleep with its reason (empty, or full, and the other end open), and not both readers and writers sleep |
| PipeRuns.ReaderLost | files/pipe.c:84-90 | a run, for any 513 bytes, that ends with a reader asleep beside a full pipe and nothing able to move |

## Left out

- LogSafety.CrashSafety: asks that each call stay within a budget with 10 + 2 * budget <= capacity, because NeverOverflowsIff shows that the log is overrun otherwise.
- Log: buffer cache eviction is not part of LogState, whose cache is a map; module Bio models the cache. The blocking loop of begin_op is one pass with an answer.
- Bio: acquiresleep and the disk are steps that happen when they can; interleavings are sequences of the methods' calls. The interrupt-driven driver in files/ide.c is left out; files/memide.c is the disk.
- Fs: packing of inodes into inode blocks, device inodes, the inode cache (iget, idup, ilock) and its locks.
- FsInode.FileSystem.Writei: there is one copy of an inode, not one in memory and one on disk; when iupdate copies it is stated by the ghost set `updated`.
- Mkfs.Image.Ialloc: stops at NINODES inodes, a limit the source does not check.
- Mkfs.Image.Build: the file names, leading underscore removed, and the contents are parameters.
- Dirs: an entry's name is the string in its 14-byte field; the padding by strncpy, the comparison by strncmp, and the reading and writing of 16-byte records by readi and writei are not modelled again here.
- Sysfile.FileTree.Create: major and minor numbers are left out; after a panic nothing is said of the tree, since the transaction is never committed.
- Sysfile.FileTree.DirLink: a directory that must grow on a full disk panics in balloc; that is in FsInode.FileSystem.Writei, not here.
- Sysfile.FileTree.SysLink: there is one device, so that the test for different devices never fails; counts are unbounded, the source's are 16-bit.
- Sysfile.FileTree.Iput: the number of references in memory is a parameter, the inode cache being left out.
- Sysfile: calls run one at a time, and the current directory is still linked.
- Scheduler: pids are unbounded; ticks, registers and context switches are left out, swtch being a change of the current process.
- Scheduler: the queue properties are those of the decrement that the repository's README.md documents at line 16; the line as written (files/proc.c:602) is in LotteryAsWrittenDisagrees and DispatchAsWrittenIff.
- Scheduler: updateBurst's floating-point average is a truncated integer average.
- Scheduler: fork's copying and the closing of files in exit; the events are the locked sections.
- Scheduler: wait2, procdump and the statistics printed by the programs.
- Umalloc.Heap.Malloc: sbrk's answer is a parameter, with the region above every earlier one; a sbrk that succeeds on a count that is not that of all the units is not covered, exactly by the condition of AsksForAllIff.
- Umalloc.Heap.Morecore: the same.
- Vm: frame numbers stand for addresses, and the free list, linked through the free pages in the source, is a sequence; kfree's range check, freerange, inituvm, loaduvm, clearpteu and copyout are left out.
- Vm: memory that holds entries and memory that holds bytes are two maps from frames; a frame is used as one or the other.
- Shell: runcmd, the built-in cd, reading of lines, and failure of the command constructors' allocations, which the source does not check.
- Shell.Parser.ParseBlock: the panic for a missing opening parenthesis is not reachable, its only caller having seen it.
- Grep: the driver that reads lines into a buffer.
- Pipe: pipealloc's failure paths; addresses of user buffers; the numbers returned, beyond what PipeCalls.CallConserves and PipeCalls.CallsEnd say of the bytes moved.
- files/file.c: filedup, fileclose and filestat, which would only add counting of references.
- Boot, traps, spinlocks (each locked section is one step), exec, console and device drivers, user programs.
