# Two xv6 kernels and an airport, verified

This project models the parts of two modified xv6 kernels and of a pthread airport
simulation in which most can go wrong, and proves what they are for. Code that updates
state in place is a class or an array algorithm here, proved against functions and
relations on values; the theorems are about those. `dafny verify dfyconfig.toml` checks
everything.

| files | part of the system |
|---|---|
| `BufferCache`, `CrashSafety`, `RedoLog`, `LogRun`, `LogHistory` | write-ahead log with group commit over the LRU block cache, and recovery |
| `SwapSpec`, `Swap` | demand paging of one process with a FIFO swap file |
| `PageSpec`, `PageSteps`, `PageCount`, `PageTable` | two-level page tables over the in-page free list of frames |
| `HeapSpec`, `Umalloc` | the allocator of section 8.7 of The C Programming Language, second edition |
| `FsSpec`, `FileSpec`, `Files` | files as byte sequences: bitmap, block maps, transactions of bounded size |
| `ProcSpec`, `ProcLife`, `ProcTable` | process table: fork, exit, wait, sleep, wakeup, kill |
| `Lottery`, `LotteryShare`, `Murmur` | the lottery scheduler and the hash behind its draws |
| `VipChannel` | group locks of the two directions of the VIP channel |
| `Pipe`, `ShellGrammar`, `ShellMeaning`, `Shell`, `Grep` | pipe ring buffer, shell parser, regular-expression matcher |
| `Words`, `Finite` | 32-bit words and bit operations; the pigeonhole principle |

Conventions. Integers are unbounded in Dafny; where the C width matters (hash, heap sizes,
pipe counters, page-table entries, file offsets, ticket sums) wrap-around is written out.
A panic that a caller can meet is a failure result, and the contract says exactly when it
occurs; one that guards against misuse is a precondition. A sleep ends a
critical section: concurrent protocols (`LogRun`, `ProcSpec`, `VipChannel`) are state machines
whose steps are the critical sections, and their theorems are about all interleavings. The
classes are the code in place, from one such point to the next; a method that would have to
sleep first is called once it need not.

## What the proofs found

- **Commit can panic, and reservations can be refused.** `LOGSIZE` equals `NBUF`, and every
  logged block pins a buffer: with no buffer in use the commit finds a free one exactly if
  fewer than 30 blocks are logged (`RoomToCommit`). Three admitted operations that use all
  they reserved end in a panic for every size of the log region (`ThreeFullOperations`): a
  reserved block is refused exactly if the region has no more than `LOGSIZE` blocks. In the
  region that `mkfs.c:25` makes it is the thirtieth, because `log_write` also tests
  `size - 1`; in a larger one the commit runs out of buffers.
- **log_write tests its guards before it looks for the block**, so a full log refuses even
  a block it already holds (`Log.LogWrite`).
- **Paging is bounded at 30 pages.** `allocuvm` does not test the capacity of `meta_list`:
  growth stays within it exactly while fewer than 30 pages are tracked (`GrowthLimit`), and
  any process gets there by growing (`OverrunReached`).
- **kill tests no state.** kill(0), or a kill of the left-over number of a failed fork,
  marks an unused slot, and the next process created there is killed at birth
  (`CleanUnlessKillMisses`, `KilledAtBirth`).
- **malloc rounds in unsigned arithmetic**: the block has room for the request exactly if
  nbytes + 7 < 2^32 (`RoomForRequest`).
- **A scheduling round idles** exactly if no process is runnable or the draw exceeds the tickets
  then in play (`FindsProcessIff`), which cannot happen while the runnable set only grows
  between the passes (`NoIdleRound`). Shares are one off at the two ends because the
  comparison is `>` (`ShareIsExact`).
- **A failing allocuvm may keep page tables**, exactly if the frames sufficed for the pages
  up to the first one lacking its table, and that table (`Machine.Allocuvm`, with an
  instance in `FailingKeepsTable`); the mapping is as before, and freevm gives them back.
- In the shell `>>` makes the same redirection as `>`, without truncation in either case.

## Model

| member | source | states |
|---|---|---|
| `CrashSafety.CommitAtomic` | offline4_xv6_memory_mgt/xv6/log.c:69-122 | For a crash after any number of a commit's writes, then any number of recoveries each cut short anywhere, a completed recovery leaves the home blocks all as before if the header write had not happened, and all as the transaction made them if it had |
| `CrashSafety.CommitStatesFormed` | offline4_xv6_memory_mgt/xv6/log.c:177-202 | Every disk a crash during commit can leave is one recovery can start from, so the premise of `CommitAtomic` is never empty |
| `CrashSafety.CommitTraceAt` | offline4_xv6_memory_mgt/xv6/log.c:192-202 | The sequence of disk contents that `Log.Commit` is proved to produce is, write by write, the sequence `CommitAtomic` quantifies over |
| `CrashSafety.TraceAtomic` | offline4_xv6_memory_mgt/xv6/log.c:192-202 | All or nothing for the contents that `Log.Commit` is seen to write, one by one, and any chain of interrupted recoveries after a crash at one of them |
| `CrashSafety.CrashesDoNotMatter` | offline4_xv6_memory_mgt/xv6/log.c:85-122 | Any chain of interrupted recoveries followed by a complete one has the effect of one recovery |
| `CrashSafety.RecoveryRestartable` | offline4_xv6_memory_mgt/xv6/log.c:69-122 | Recovering again from any point where a recovery was cut short ends in the same disk |
| `CrashSafety.InstalledIdempotent` | offline4_xv6_memory_mgt/xv6/log.c:69-82 | Installing the log over a partly installed disk gives the fully installed disk |
| `CrashSafety.CommittedRecovers` | offline4_xv6_memory_mgt/xv6/log.c:192-202 | Recovering the disk of the commit point applies exactly the whole transaction to the home blocks |
| `CrashSafety.AppliedContents` | offline4_xv6_memory_mgt/xv6/log.c:69-82 | Applying a transaction gives each logged block its new contents and leaves every other block alone |
| `BufferCache.Bcache.constructor` | offline4_xv6_memory_mgt/xv6/bio.c:38-56 | binit makes a valid cache: all buffers are on the ring once, the last one in front, none holds a block |
| `BufferCache.Bcache.Bget` | offline4_xv6_memory_mgt/xv6/bio.c:61-93 | Fails exactly when the block is not cached and no buffer has refcnt 0 and is clean; a hit only adds a reference; a miss recycles, of the free buffers, the one whose last release is oldest, so a dirty (pinned) buffer is never recycled |
| `BufferCache.Bcache.Bread` | offline4_xv6_memory_mgt/xv6/bio.c:96-106 | The locked buffer returned holds the latest contents of the block: the cached ones if some buffer is valid for it, else the disk's; a miss takes the free buffer released least recently |
| `BufferCache.Bcache.Bwrite` | offline4_xv6_memory_mgt/xv6/bio.c:109-116 | Exactly one disk write, of this buffer's data to its own block; the buffer ends clean |
| `BufferCache.Bcache.Brelse` | offline4_xv6_memory_mgt/xv6/bio.c:120-141 | Gives up one reference; the last one puts the buffer in front of all others, whose order stays, and is entered as the latest release |
| `BufferCache.Bcache.Iderw` | offline4_xv6_memory_mgt/xv6/memide.c:38-60 | A dirty buffer replaces its disk block, a buffer not valid is filled from it; the cache invariant holds at each |
| `BufferCache.RecycleKeeps` | offline4_xv6_memory_mgt/xv6/bio.c:81-91 | Giving a buffer to a block no buffer holds keeps "one buffer per block" and "settled buffers equal the disk" |
| `BufferCache.DiskWriteKeeps` | offline4_xv6_memory_mgt/xv6/bio.c:109-116 | Writing a locked buffer through keeps every other settled buffer equal to the new disk |
| `BufferCache.ViewOfHolder` | offline4_xv6_memory_mgt/xv6/bio.c:61-93 | Whichever valid buffer holds a block, its data is what any reader of the block gets |
| `BufferCache.OpenedIsView` | offline4_xv6_memory_mgt/xv6/bio.c:96-106 | The buffer bread opens shows the block's latest contents |
| `BufferCache.Unlinked` | offline4_xv6_memory_mgt/xv6/bio.c:128-135 | Taking any element out by rewriting two neighbours' links leaves a correctly doubly linked ring of the rest |
| `BufferCache.PushedFront` | offline4_xv6_memory_mgt/xv6/bio.c:130-138 | Linking a buffer behind the sentinel makes it the first of a correctly linked ring |
| `BufferCache.MovedIsPermutation` | offline4_xv6_memory_mgt/xv6/bio.c:128-138 | Moving to the front loses and duplicates no buffer |
| `BufferCache.ReleaseKeepsRecency` | offline4_xv6_memory_mgt/xv6/bio.c:128-138 | With each release the ring stays in the order of the last releases, the latest first |
| `BufferCache.OldestFree` | offline4_xv6_memory_mgt/xv6/bio.c:78-91 | The backward scan ends at the free buffer that was released least recently |
| `RedoLog.Log.constructor` | offline4_xv6_memory_mgt/xv6/log.c:53-66 | After initlog the disk is the recovered one, the log is empty, and the disk went through exactly recovery's writes |
| `RedoLog.Log.RecoverFromLog` | offline4_xv6_memory_mgt/xv6/log.c:115-122 | The disk becomes the recovered disk through exactly the writes recovery is said to make; every buffer is free again |
| `RedoLog.Log.ReadHead` | offline4_xv6_memory_mgt/xv6/log.c:85-96 | The in-memory header becomes the one on disk; nothing is written |
| `RedoLog.Log.WriteHead` | offline4_xv6_memory_mgt/xv6/log.c:101-113 | One disk write: the header block names the logged blocks and keeps the words behind them |
| `RedoLog.Log.WriteLog` | offline4_xv6_memory_mgt/xv6/log.c:177-190 | Copies the latest contents of each logged block to its log slot in order, home blocks untouched, also while others reference the buffers; fails before the first write, exactly if no buffer is free |
| `RedoLog.Log.InstallTrans` | offline4_xv6_memory_mgt/xv6/log.c:69-82 | Copies each log slot to its home in order and unpins the buffers, which keep the users they have |
| `RedoLog.Log.Commit` | offline4_xv6_memory_mgt/xv6/log.c:192-202 | The disk goes through exactly the trace of a commit and ends as the recovered commit point; it panics, having written nothing, exactly when there is something to commit and no buffer is free |
| `RedoLog.CommitKeepsViews` | offline4_xv6_memory_mgt/xv6/log.c:192-202 | A commit is invisible to readers: every block outside the log reads the same before and after, while the disk takes on the whole transaction |
| `RedoLog.Log.GroupCommit` | offline4_xv6_memory_mgt/xv6/log.c:145-174 | The log's invariant and every reader's view survive the commit of all operations that ended |
| `RedoLog.Log.EndOp` | offline4_xv6_memory_mgt/xv6/log.c:145-174 | Only the last operation out commits; then all blocks of all operations are on disk at home and every read is unchanged; otherwise disk and cache are untouched |
| `RedoLog.Log.BeginOp` | offline4_xv6_memory_mgt/xv6/log.c:125-141 | Sleeps while a commit is under way; else admits exactly if every outstanding operation and this one can still add ten blocks each; then logged blocks plus unused reservations stay within LOGSIZE (part of `Valid`) |
| `RedoLog.Log.LogWrite` | offline4_xv6_memory_mgt/xv6/log.c:213-233 | Pins the buffer and either absorbs the block or adds it once; fails exactly under the two guards, which are tested before absorption; with a region larger than LOGSIZE a new block within the reservation is never refused |
| `RedoLog.Log.UpdateBlock` | offline4_xv6_memory_mgt/xv6/log.c:213-233 | From the update on readers see the new contents, all other blocks read as before, and the disk is untouched |
| `RedoLog.Log.ReadBlock` | offline4_xv6_memory_mgt/xv6/bio.c:96-141 | A reader gets the latest logged contents although home blocks are stale, also between any two turns of a commit, and its recycling of buffers changes no one's view |
| `RedoLog.RoomToCommit` | offline4_xv6_memory_mgt/xv6/log.c:192-202 | With no buffer in use, a free buffer for the commit exists exactly if fewer blocks are logged than there are buffers |
| `RedoLog.ThreeFullOperations` | offline4_xv6_memory_mgt/xv6/log.c:125-233 | Three admitted operations that log their full reservations of distinct blocks end in a panic for every size of the log region: a reserved block is refused exactly if the region is no larger than LOGSIZE, as mkfs makes it, and then it is the one after size - 1; in a larger region the commit finds no buffer, since LOGSIZE equals NBUF |
| `RedoLog.ReservedRemove` | offline4_xv6_memory_mgt/xv6/log.c:145-150 | Ending an operation returns exactly its unused reservation |
| `RedoLog.ReservedBounds` | offline4_xv6_memory_mgt/xv6/log.c:125-141 | Reservations are never negative nor more than ten blocks per operation |
| `LogRun.InvKept` | offline4_xv6_memory_mgt/xv6/log.c:125-233 | Every step of any process, at any interleaving and between any two steps of a commit, keeps: one buffer per block, users counted, logged blocks pinned until installed, every buffer not being changed equal to the latest contents, and a disk that recovery turns into the last commit |
| `LogRun.ReadersCannotTell` | offline4_xv6_memory_mgt/xv6/log.c:145-202 | From the beginning of a commit to its end, at every state between, in every run, every block outside the log reads the same |
| `LogRun.ReaderSees` | offline4_xv6_memory_mgt/xv6/bio.c:96-106 | In every reachable state a process that has a block locked and has not changed it holds the latest logged contents |
| `LogRun.ViewIsLatest` | offline4_xv6_memory_mgt/xv6/bio.c:61-106 | The cache over the disk shows the latest logged contents of every block that is not being changed at this moment |
| `LogRun.NothingMeanwhile` | offline4_xv6_memory_mgt/xv6/log.c:125-174 | While a commit is under way no operation is admitted, nothing is changed or logged, and the list of logged blocks is cleared only when all are installed |
| `LogRun.HomesUntouched` | offline4_xv6_memory_mgt/xv6/log.c:177-202 | Until the header is written no logged block has reached its home |
| `LogRun.CrashConsistent` | offline4_xv6_memory_mgt/xv6/log.c:53-233 | Whole history: in any run, with any interleaving of readers, operations and commits, a crash at any moment and any chain of interrupted recoveries leave the home blocks as they were for the operations at the last header write, when no operation was half done |
| `LogRun.CommittedIsDurable` | offline4_xv6_memory_mgt/xv6/log.c:145-202 | While no block waits in the log, the store of the last header write is the latest one |
| `LogRun.RedoRecovers` | offline4_xv6_memory_mgt/xv6/log.c:69-122 | A disk whose log slots and other home blocks hold given contents recovers to those contents |
| `LogRun.CommitGoesOn` | offline4_xv6_memory_mgt/xv6/log.c:145-202 | In every state of a commit the committing process can take a step, or the process that holds the buffer it waits for can, unless the cache has run out of buffers |
| `LogRun.BootInv` | offline4_xv6_memory_mgt/xv6/log.c:53-66 | The state after recovery satisfies the invariant, so it holds in every run |
| `LogHistory.IdleIsCommitted` | offline4_xv6_memory_mgt/xv6/log.c:145-202 | In any run, whenever nobody is inside an operation or a commit, no block waits in the log and everything logged is on disk for good: the last operation out cannot leave without a commit |
| `LogHistory.RefinesStore` | offline4_xv6_memory_mgt/xv6/log.c:125-233 | Over any run the machine is one store of blocks in which log_write assigns what was last put into the buffer, whatever is cached, pinned, logged or installed |
| `LogHistory.ReadsTheStore` | offline4_xv6_memory_mgt/xv6/log.c:125-233 | A process that has a block locked and unchanged reads what was assigned to it last |
| `LogHistory.CrashIsAMoment` | offline4_xv6_memory_mgt/xv6/log.c:53-233 | After a crash at any moment and any chain of interrupted recoveries the disk is the store of one moment at which no operation was open, no earlier than any idle moment before the crash, unless nothing was assigned in between |
| `LogHistory.ReservationsSuffice` | offline4_xv6_memory_mgt/xv6/log.c:125-141 | In any run in which no operation adds more than ten blocks the log never overflows, and an operation that has not added ten finds room |
| `LogHistory.EmptyLogAdmits` | offline4_xv6_memory_mgt/xv6/log.c:125-141 | With an empty log exactly three operations are let in at once, and whenever nobody is inside one is let in |
| `LogHistory.CommitEnds` | offline4_xv6_memory_mgt/xv6/log.c:145-202 | A commit of n blocks ends after at most 24 (n + 1) steps of its own, at any interleaving; `CommitGoesOn` says there is one to take |
| `LogHistory.ProcessGoesOn` | offline4_xv6_memory_mgt/xv6/bio.c:61-141 | Nothing but a lock that somebody holds, a full log or a full cache stops a process that uses a block |
| `LogHistory.UseEnds` | offline4_xv6_memory_mgt/xv6/bio.c:61-141 | Each step of a process that uses a block brings it nearer to letting go of the buffer; only a new change of the data takes it back |
| `LogHistory.OperationGoesOn` | offline4_xv6_memory_mgt/xv6/log.c:125-233 | An operation may change any block it has locked, and end once it has logged what it changed |
| `SwapSpec.PagingTransparent` | offline4_xv6_memory_mgt/xv6/vm.c:272-343 | Over any run of growth, reads and writes of pages, every read returns what it would on a flat memory without paging, the memory ends the same, and the swap invariant holds |
| `SwapSpec.FirstInFirstOut` | offline4_xv6_memory_mgt/xv6/proc.c:83-171 | Over any run the pages that left memory are the first that became resident, in order, and the rest wait on page_list |
| `SwapSpec.AccessRuns` | offline4_xv6_memory_mgt/xv6/proc.c:119-179 | One free frame is enough for any sequence of reads and writes, and it is free again after each |
| `SwapSpec.GrowthLimit` | offline4_xv6_memory_mgt/xv6/vm.c:309-337 | After any run one more page of growth keeps within the 15 entries of meta_list exactly while fewer than 30 pages are tracked; otherwise it writes a sixteenth entry, since there is no capacity test |
| `SwapSpec.OverrunReached` | offline4_xv6_memory_mgt/xv6/vm.c:309-337 | Every process with no page tracked and sixteen free frames reaches that state by thirty pages of growth |
| `SwapSpec.GrownKeeps` | offline4_xv6_memory_mgt/xv6/vm.c:303-337 | One page of growth, evicting or not, adds a zero page, changes no other byte, and keeps at most 15 resident and exactly 15 once anything is out |
| `SwapSpec.SwappedKeeps` | offline4_xv6_memory_mgt/xv6/proc.c:119-179 | Exchanging a swapped page with the oldest resident one through the same slot changes no byte of user memory |
| `SwapSpec.FaultedKeeps` | offline4_xv6_memory_mgt/xv6/proc.c:119-179 | After a fault the page is present and the memory, its extent and both list lengths are as before |
| `SwapSpec.EvictedKeeps` | offline4_xv6_memory_mgt/xv6/vm.c:309-335 | Eviction to an unused slot keeps every page's bytes, though the frame is overwritten with junk and freed |
| `SwapSpec.LoadedKeeps` | offline4_xv6_memory_mgt/xv6/proc.c:136-158 | Loading a page from its slot keeps every page's bytes |
| `SwapSpec.SlotsArePermutation` | offline4_xv6_memory_mgt/xv6/proc.c:106-171 | The slots in meta_list are 0, PGSIZE, ..., file_offset - PGSIZE, each once |
| `SwapSpec.ListsDisjoint` | offline4_xv6_memory_mgt/xv6/vm.c:303-336 | No page is on both lists |
| `Swap.Process.FifoAlgo` | offline4_xv6_memory_mgt/xv6/proc.c:83-96 | Returns the oldest page and leaves the others in order, by shifting in place |
| `Swap.Process.RemoveMeta` | offline4_xv6_memory_mgt/xv6/proc.c:106-115 | Removes one entry of meta_list and keeps the order of the rest, by shifting in place |
| `Swap.Process.Evict` | offline4_xv6_memory_mgt/xv6/vm.c:309-335 | The oldest page's bytes reach the slot, its meta entry names it, its entry is PTE_PG without PTE_P, its frame is free |
| `Swap.Process.AllocUvm` | offline4_xv6_memory_mgt/xv6/vm.c:272-343 | Refuses at KERNBASE, does nothing if newsz < oldsz, else the user memory is the old one extended by zero pages up to newsz, all other bytes kept; every new page is put under paging, except for the first two processes |
| `Swap.GrownToKeeps` | offline4_xv6_memory_mgt/xv6/vm.c:296-341 | Growth by any number of pages is growth of a flat memory by zero pages |
| `Swap.ZeroExtendedAt` | offline4_xv6_memory_mgt/xv6/vm.c:296-341 | Exactly the pages of the new range are added, as zeros, and no old page is touched |
| `Swap.Process.DoTheSwap` | offline4_xv6_memory_mgt/xv6/proc.c:119-179 | Returns 1 exactly if the faulting page is in meta_list; then the page is present and no byte of user memory has changed; otherwise nothing has |
| `PageTable.Machine.Kalloc` | offline3_xv6_lottery_scheduler/xv6/kalloc.c:82-95 | Returns 0 exactly if no frame is free; else a frame that was free and is now in no other use |
| `PageTable.Machine.Kfree` | offline3_xv6_lottery_scheduler/xv6/kalloc.c:59-77 | The frame goes to the front of the list, its first word the link and all others filled with ones; the list stays duplicate-free; if no table pointed to it, every page-table entry stays |
| `PageTable.Machine.Freerange` | offline3_xv6_lottery_scheduler/xv6/kalloc.c:46-53 | Exactly the pages lying wholly between the two addresses become free |
| `PageSpec.KallocKeeps` | offline3_xv6_lottery_scheduler/xv6/kalloc.c:82-95 | The in-page links still list exactly the free frames, once each, after the pop |
| `PageSpec.KfreeKeeps` | offline3_xv6_lottery_scheduler/xv6/kalloc.c:59-77 | The same after the push |
| `PageTable.Machine.Walkpgdir` | offline3_xv6_lottery_scheduler/xv6/vm.c:35-55 | Returns the table of the page; fails exactly if there is none and none is asked for or no frame is free; adding a table changes no view |
| `PageSpec.TableAdded` | offline3_xv6_lottery_scheduler/xv6/vm.c:44-53 | A fresh zeroed table changes no entry of any directory |
| `PageSpec.WrittenPte` | offline3_xv6_lottery_scheduler/xv6/vm.c:35-80 | Writing one entry changes the entry of that page of that directory and of no other |
| `PageSpec.TablesPermit` | offline3_xv6_lottery_scheduler/xv6/vm.c:46-53 | Directory entries restrict nothing: what user code may do is what the flags of the page allow |
| `PageTable.KernelViewIsKernelOnly` | offline3_xv6_lottery_scheduler/xv6/vm.c:80-115 | The kernel mappings reach every frame below PHYSTOP and every device, and none of them is open to user code |
| `PageTable.Machine.Mappages` | offline3_xv6_lottery_scheduler/xv6/vm.c:60-80 | Maps a prefix of its range and nothing else; the whole range unless a table could not be had (no free frame is left) or a page was present already |
| `PageSteps.MapStepsJoin` | offline3_xv6_lottery_scheduler/xv6/vm.c:66-79 | Mapping a range and then the next one is mapping both |
| `PageTable.Machine.Deallocuvm` | offline3_xv6_lottery_scheduler/xv6/vm.c:255-279 | Exactly the pages from newsz up to oldsz are gone from the view and their frames free; every other page, of any process, keeps mapping and contents |
| `PageSteps.JumpSkipsNothing` | offline3_xv6_lottery_scheduler/xv6/vm.c:264-268 | The jump over an absent table passes over no present page |
| `PageSteps.PageUnmapped` | offline3_xv6_lottery_scheduler/xv6/vm.c:269-276 | Freeing one present page keeps the account of all frames |
| `PageTable.Machine.Allocuvm` | offline3_xv6_lottery_scheduler/xv6/vm.c:221-249 | Succeeds exactly if the free frames suffice for the new pages and the tables lacking in their range; then every new page is zero and user code may read and write it, in frames that were free; otherwise no view has changed, and a table is left behind exactly if the frames sufficed for the pages up to the first one lacking its table, and that table |
| `PageTable.Machine.FailingKeepsTable` | offline3_xv6_lottery_scheduler/xv6/vm.c:221-249 | An instance: growing an empty address space by two pages with two frames left fails and leaves one frame, the other being a page table |
| `PageCount.RanOutAt` | offline3_xv6_lottery_scheduler/xv6/vm.c:229-246 | What running out of frames after n pages costs, and the first page whose table decides it |
| `PageCount.ReserveCounted` | offline3_xv6_lottery_scheduler/xv6/vm.c:229-246 | Free frames and tables of a directory together are as many as the account says, so a walk or a growth taken back loses none |
| `PageSteps.GrowthUndone` | offline3_xv6_lottery_scheduler/xv6/vm.c:229-246 | Growth followed by deallocuvm of its range restores every view, whatever was reached |
| `PageTable.Machine.Setupkvm` | offline3_xv6_lottery_scheduler/xv6/vm.c:118-136 | Succeeds exactly if 65 frames are free, one for the directory and 64 for tables; then physical frame f is at KERNBASE plus f pages, writable unless it holds the kernel's text, the devices are at their addresses, and user code may use none of it; on failure no frame is lost |
| `PageTable.KmapStep` | offline3_xv6_lottery_scheduler/xv6/vm.c:105-115 | The four kmap entries do not overlap, devices included, whose extent wraps at 2^32 |
| `PageTable.Machine.Freevm` | offline3_xv6_lottery_scheduler/xv6/vm.c:283-298 | Frees the directory, its tables and its user frames, and no other frame |
| `PageSteps.Torn` | offline3_xv6_lottery_scheduler/xv6/vm.c:283-298 | Unmapping all user pages, freeing all tables and the directory frees every frame of the address space |
| `PageTable.Machine.Copyuvm` | offline3_xv6_lottery_scheduler/xv6/vm.c:315-345 | Succeeds exactly if the frames suffice for directory, kernel tables, pages and a table per 1024 of them; then the child has the parent's bytes, flags and permissions page by page in frames of its own and the kernel's mappings, and the parent sees what it saw; on failure no frame is lost |
| `PageTable.CopyDone` | offline3_xv6_lottery_scheduler/xv6/vm.c:315-345 | Growing a fresh kernel directory by the parent's contents makes a copy of the parent |
| `PageTable.Machine.BuildAndFree` | offline3_xv6_lottery_scheduler/xv6/vm.c:118-298 | setupkvm, any sequence of allocuvm sizes, freevm: the same frames are free as before and all memory in use is unchanged, whether or not memory ran out |
| `PageTable.Machine.CopyAndFree` | offline3_xv6_lottery_scheduler/xv6/vm.c:283-345 | copyuvm and freevm of the child: likewise |
| `PageSteps.BuiltAndTorn` | offline3_xv6_lottery_scheduler/xv6/vm.c:118-298 | Building a directory in any steps and tearing it down restores exactly the set of free frames |
| `PageSteps.OthersSeeTheSame` | offline3_xv6_lottery_scheduler/xv6/vm.c:118-136 | Building a directory changes no other directory's view |
| `PageSpec.NoSharing` | offline3_xv6_lottery_scheduler/xv6/vm.c:35-80 | No frame is mapped at two user pages, of one process or two, and none that is mapped is on the free list |
| `PageSpec.NothingLost` | offline3_xv6_lottery_scheduler/xv6/vm.c:255-298 | Every frame charged to a user page is mapped there, so freeing gets it back |
| `PageSpec.DismantledAccounted` | offline3_xv6_lottery_scheduler/xv6/vm.c:283-298 | Once no user page is left, the directory and its tables can be given up |
| `Umalloc.Heap.Malloc` | offline4_xv6_memory_mgt/xv6/umalloc.c:63-90 | Next fit: the block handed out is the tail of the first block large enough after freep, was free, overlaps nothing allocated; morecore is called at most once and exactly if nothing fits; 0 exactly if then sbrk refuses, with the heap as it was |
| `Umalloc.RoomForRequest` | offline4_xv6_memory_mgt/xv6/umalloc.c:69 | The block has room for nbytes behind its header exactly if nbytes + 7 does not wrap around |
| `Umalloc.Heap.Search` | offline4_xv6_memory_mgt/xv6/umalloc.c:76-89 | The walk ends after at most one turn and one morecore, at the first fit |
| `Umalloc.WalkStep` | offline4_xv6_memory_mgt/xv6/umalloc.c:76-89 | Each step of the walk finds a block, goes on to the next, or has proved that nothing on the list fits |
| `Umalloc.Heap.TakeFrom` | offline4_xv6_memory_mgt/xv6/umalloc.c:77-84 | The exact unlinking or the split at the tail end |
| `Umalloc.TakenLinked` | offline4_xv6_memory_mgt/xv6/umalloc.c:77-85 | The headers still form the circular list after an unlinking or a split |
| `Umalloc.ServedState` | offline4_xv6_memory_mgt/xv6/umalloc.c:77-86 | The whole heap state survives handing out a block |
| `Umalloc.Heap.MoreCore` | offline4_xv6_memory_mgt/xv6/umalloc.c:46-61 | Asks for at least 4096 units, joins them to the list, after which the request fits; on refusal nothing changes |
| `Umalloc.Heap.Free` | offline4_xv6_memory_mgt/xv6/umalloc.c:24-44 | The block returns to the list, merged with whichever neighbours it touches; all other allocated blocks stay |
| `Umalloc.Heap.FindPlace` | offline4_xv6_memory_mgt/xv6/umalloc.c:29-31 | free's search terminates at the block after which the freed one belongs |
| `Umalloc.StopsAtPosition` | offline4_xv6_memory_mgt/xv6/umalloc.c:29-31 | free's two-part stopping test holds at exactly one block of the circle: the last below the freed one |
| `Umalloc.FreedLinked` | offline4_xv6_memory_mgt/xv6/umalloc.c:32-43 | The pointer and size updates leave a circular list of exactly the merged blocks |
| `HeapSpec.FreedWellFormed` | offline4_xv6_memory_mgt/xv6/umalloc.c:24-44 | After free the list is in address order, holds base, and no two free blocks are adjacent |
| `HeapSpec.FreedCovers` | offline4_xv6_memory_mgt/xv6/umalloc.c:24-44 | Freeing adds exactly the block's units to the free memory |
| `HeapSpec.TakenWellFormed` | offline4_xv6_memory_mgt/xv6/umalloc.c:77-85 | Serving a request keeps order, base and the gaps between free blocks |
| `HeapSpec.TakenCovers` | offline4_xv6_memory_mgt/xv6/umalloc.c:77-85 | Serving a request removes exactly the units handed out, all of them free before |
| `HeapSpec.FreedKeeps` | offline4_xv6_memory_mgt/xv6/umalloc.c:24-44 | What sbrk gave stays split between free and allocated blocks, pairwise disjoint, after free |
| `HeapSpec.TakenKeeps` | offline4_xv6_memory_mgt/xv6/umalloc.c:63-90 | The same after malloc, and the address handed out is not allocated |
| `HeapSpec.GrownKeeps` | offline4_xv6_memory_mgt/xv6/umalloc.c:46-61 | The same after morecore: exactly the new units are added |
| `HeapSpec.ListIsCanonical` | offline4_xv6_memory_mgt/xv6/umalloc.c:24-90 | The free list is determined by the free memory alone: the order of frees and the place where searches began leave no trace |
| `VipChannel.MutualExclusion` | offline2 ipc_using_pthreads/ipc_offline_complete_passengers_are_threads.cpp:212-260 | In any run of any number of threads no two passengers are in the channel in opposite directions |
| `VipChannel.NoDeadlock` | offline2 ipc_using_pthreads/ipc_offline_complete_passengers_are_threads.cpp:212-260 | While a passenger is in the protocol some passenger can take a step |
| `VipChannel.EveryoneGetsThrough` | offline2 ipc_using_pthreads/ipc_offline_complete_passengers_are_threads.cpp:212-260 | A schedule that cannot be continued has brought everyone through and left all locks free and both counters 0 |
| `VipChannel.ScheduleIsBounded` | offline2 ipc_using_pthreads/ipc_offline_complete_passengers_are_threads.cpp:212-260 | Without new arrivals a run is no longer than the statements the passengers have left |
| `VipChannel.GateStaysShut` | offline2 ipc_using_pthreads/ipc_offline_complete_passengers_are_threads.cpp:212-241 | While a left group holds left_side_empty no passenger from the right passes the gate who had not passed it |
| `VipChannel.InvKept` | offline2 ipc_using_pthreads/ipc_offline_complete_passengers_are_threads.cpp:212-260 | Every statement keeps: channel_lock and left_side_empty are held exactly while a group (or the gate) owns them, counters equal the number of members |
| `VipChannel.UnlocksAreOfHeldLocks` | offline2 ipc_using_pthreads/ipc_offline_complete_passengers_are_threads.cpp:212-260 | No thread unlocks a free lock, and the counter locks are unlocked by their holders |
| `VipChannel.InsiderOwns` | offline2 ipc_using_pthreads/ipc_offline_complete_passengers_are_threads.cpp:212-260 | Whoever is in the channel, his group owns it |
| `VipChannel.LeftGoesFirst` | offline2 ipc_using_pthreads/ipc_offline_complete_passengers_are_threads.cpp:212-241 | While passengers from the left follow one another through the channel, nobody from the right gets past the gate |
| `VipChannel.ThroughOnce` | offline2 ipc_using_pthreads/ipc_offline_complete_passengers_are_threads.cpp:212-260 | In any run every passenger is in the channel exactly once for each time he came, in the direction he came for |
| `ProcSpec.ForestInEveryRun` | offline3_xv6_lottery_scheduler/xv6/proc.c:182-315 | In every reachable table each created process but init has a parent that is alive and has a smaller pid |
| `ProcSpec.DescendsFromInit` | offline3_xv6_lottery_scheduler/xv6/proc.c:182-315 | From every created process the parents lead to init |
| `ProcSpec.NoLostWakeup` | offline3_xv6_lottery_scheduler/xv6/proc.c:230-315 | In every reachable table the parent of a zombie is alive and not asleep in wait; its next wait reaps one zombie child and changes nothing else |
| `ProcSpec.InvKept` | offline3_xv6_lottery_scheduler/xv6/proc.c:73-118 | Every critical section, and every write fork makes outside the lock, keeps the invariant, in any interleaving |
| `ProcSpec.ExitKeeps` | offline3_xv6_lottery_scheduler/xv6/proc.c:230-271 | exit keeps it though it wakes, hands over and dies in one section |
| `ProcSpec.ExitHandsOver` | offline3_xv6_lottery_scheduler/xv6/proc.c:230-271 | exit leaves no child behind: exactly its children become init's; no other process dies or revives |
| `ProcSpec.PidsInEveryRun` | offline3_xv6_lottery_scheduler/xv6/proc.c:73-118 | No two slots ever carry the same pid, left-over numbers of failed forks included |
| `ProcSpec.KillFindsTheProcess` | offline3_xv6_lottery_scheduler/xv6/proc.c:563-581 | kill marks exactly the process of that pid |
| `ProcSpec.CleanUnlessKillMisses` | offline3_xv6_lottery_scheduler/xv6/proc.c:563-581 | Unused slots stay free of kill's mark exactly as long as the first slot with the number kill is given, if any, is a created process: kill tests no state, and 0 is the number of unused slots |
| `ProcSpec.KilledAtBirth` | offline3_xv6_lottery_scheduler/xv6/proc.c:182-225 | After kill(0) the next child of init is runnable and killed at birth |
| `ProcLife.EveryStepMoves` | offline3_xv6_lottery_scheduler/xv6/proc.c:73-581 | The state diagram: in every table that can occur, every step moves every slot exactly along the edge that the diagram gives it, and no other |
| `ProcLife.SleeperKept` | offline3_xv6_lottery_scheduler/xv6/proc.c:507-581 | A sleeper sleeps on, on the same channel, until a wakeup on it, a kill of its number, or an exit in the family |
| `ProcLife.SleepsOn` | offline3_xv6_lottery_scheduler/xv6/proc.c:507-536 | sleep and wait put the caller to sleep on what they name |
| `ProcLife.KilledCanDie` | offline3_xv6_lottery_scheduler/xv6/proc.c:563-581 | A process killed in its sleep is runnable, and can go on to exit |
| `ProcLife.ChildIsBorn` | offline3_xv6_lottery_scheduler/xv6/proc.c:182-225 | In any run a fork that completes makes a runnable child of the caller with a greater pid and the caller's tickets |
| `ProcLife.ChildIsReaped` | offline3_xv6_lottery_scheduler/xv6/proc.c:275-315 | wait clears the slot of the first dead child and touches no other |
| `ProcLife.NoneStuck` | offline3_xv6_lottery_scheduler/xv6/proc.c:73-581 | A runnable process can run, a running one can do whatever a process may, and a fork can always be brought to its end |
| `ProcTable.Ptable.Exit` | offline3_xv6_lottery_scheduler/xv6/proc.c:230-271 | The loop over the table in place is the exit step of the state machine |
| `ProcTable.Ptable.Wait` | offline3_xv6_lottery_scheduler/xv6/proc.c:275-315 | One scan in place is the wait step; it returns a reaped child's pid, or that there are no children, or falls asleep |
| `ProcTable.Ptable.Allocproc` | offline3_xv6_lottery_scheduler/xv6/proc.c:73-118 | Takes the first unused slot under the lock with a new number; nothing changes if there is none |
| `ProcTable.Ptable.Wakeup1` | offline3_xv6_lottery_scheduler/xv6/proc.c:541-549 | Exactly the sleepers on the channel become runnable |
| `ProcTable.Ptable.Kill` | offline3_xv6_lottery_scheduler/xv6/proc.c:563-581 | The loop marks the first slot of that number, and wakes it if asleep |
| `Lottery.FindsProcessIff` | offline3_xv6_lottery_scheduler/xv6/proc.c:353-388 | The second pass switches to a process exactly if one is runnable and the draw does not exceed the tickets then in play |
| `Lottery.NoIdleRound` | offline3_xv6_lottery_scheduler/xv6/proc.c:339-388 | If the runnable set only grows between the passes, every round with a runnable process switches to one, whatever the hash |
| `Lottery.WinsInterval` | offline3_xv6_lottery_scheduler/xv6/proc.c:353-370 | Each process wins exactly the draws in its own interval of tickets; the first runnable one also draw 0 |
| `Lottery.ShareIsExact` | offline3_xv6_lottery_scheduler/xv6/proc.c:353-370 | Of the draws 0 .. total - 1 a process wins as many as it has tickets, plus one for the first and minus one for the last, because the comparison is strict |
| `Lottery.ShareWithinOne` | offline3_xv6_lottery_scheduler/xv6/proc.c:353-370 | Its share of the draws is within one of its tickets |
| `Lottery.SharesSumUp` | offline3_xv6_lottery_scheduler/xv6/proc.c:353-370 | Every draw is won by exactly one process: the shares sum to the total |
| `LotteryShare.TicksCounted` | offline3_xv6_lottery_scheduler/xv6/proc.c:353-370 | Over the 2^32 values of the tick counter a process is drawn exactly once for every draw it wins in each whole round of the total, and for those of the part of a round that is left |
| `LotteryShare.TickShare` | offline3_xv6_lottery_scheduler/xv6/proc.c:353-370 | So with the real hash its share of a tick cycle is its share of the tickets, up to one draw per round |
| `LotteryShare.HashesCounted` | offline3_xv6_lottery_scheduler/xv6/proc.c:353 | The draw is the remainder of the hash: in whole rounds of the total every draw comes up equally often |
| `Lottery.TotalTickets` | offline3_xv6_lottery_scheduler/xv6/proc.c:339-350 | The first pass computes the runnable processes' tickets; unsigned addition does not wrap |
| `Lottery.Draw` | offline3_xv6_lottery_scheduler/xv6/proc.c:353-388 | The running sum switches to the first process whose tickets reach the draw |
| `Murmur.SeedBijection` | offline3_xv6_lottery_scheduler/xv6/proc.c:666-705 | For every key the hash is a bijection of the 32-bit seed: an explicit inverse undoes it on both sides |
| `Murmur.EveryHashOncePerTickCycle` | offline3_xv6_lottery_scheduler/xv6/proc.c:666-705 | Among the 2^32 tick values after any tick, wrap included, exactly one gives a wanted hash, at a computable delay |
| `Murmur.MixUndone` | offline3_xv6_lottery_scheduler/xv6/proc.c:674-699 | The whole loop over the key and the tail switch can be undone, for any key length |
| `Murmur.FoldUndone` | offline3_xv6_lottery_scheduler/xv6/proc.c:700-703 | h ^= h >> s is undone by two more shifts as soon as three shifts clear a word |
| `Murmur.TimesUndone` | offline3_xv6_lottery_scheduler/xv6/proc.c:674-703 | Multiplication by the constant m is undone by its inverse modulo 2^32 |
| `Murmur.HashIs` | offline3_xv6_lottery_scheduler/xv6/proc.c:666-705 | Bit by bit: the hash starts from seed and length, and ends folded by 13 bits, multiplied, and folded by 15 |
| `Murmur.ScrambledIs` | offline3_xv6_lottery_scheduler/xv6/proc.c:680-688 | Four key bytes are one little-endian number, multiplied, folded by 24 bits and multiplied again |
| `Murmur.MixIs` | offline3_xv6_lottery_scheduler/xv6/proc.c:680-699 | Each turn multiplies the hash and adds the scrambled word; the tail is added before the last multiplication |
| `Murmur.TailIs` | offline3_xv6_lottery_scheduler/xv6/proc.c:694-699 | The at most three bytes of the tail are added at their places, whichever case the switch enters by |
| `Murmur.MurmurHash` | offline3_xv6_lottery_scheduler/xv6/proc.c:666-705 | The C loop with its fall-through switch computes the function the bijection is proved of |
| `Files.OpenFile.Filewrite` | offline4_xv6_memory_mgt/xv6/file.c:117-156 | The file becomes the old bytes with src put in at the offset, or a prefix of src exactly where the next chunk would pass the largest size or starts beyond the end; one transaction for every 1536 bytes, each of at most ten blocks, and every block and inode that changed is in one of them; other files keep their bytes |
| `Files.OpenFile.Fileread` | offline4_xv6_memory_mgt/xv6/file.c:96-113 | Returns exactly the next bytes cut at the size and moves the offset by as many; changes no file |
| `Files.OpenFile.WriteChunk` | offline4_xv6_memory_mgt/xv6/file.c:133-152 | One chunk is one transaction of at most MAXOPBLOCKS blocks that holds every block and inode that changed |
| `FileSpec.ChunkFitsTransaction` | offline4_xv6_memory_mgt/xv6/file.c:123-132 | 1536 bytes at any alignment of a hole-free file log at most ten distinct blocks: data, bitmap, indirect and inode |
| `FileSpec.TouchedAndNew` | offline4_xv6_memory_mgt/xv6/file.c:123-132 | Blocks touched and blocks allocated by a chunk are at most seven together: the first of four touched exists already |
| `Files.FileSystem.Writei` | offline4_xv6_memory_mgt/xv6/fs.c:481-511 | Refused exactly beyond the end or the largest size; else exactly bytes off .. off + n of this file are replaced, the size grown if need be, and every other file keeps its bytes; every block that changed, and the block of every inode that changed, is in the log; panics only on a full disk |
| `FileSpec.WriteStep` | offline4_xv6_memory_mgt/xv6/fs.c:491-502 | One block's worth of the loop extends the replaced range and touches no other byte of any file |
| `FileSpec.WriteDone` | offline4_xv6_memory_mgt/xv6/fs.c:503-510 | The loop's result with the new size is the whole write |
| `FileSpec.SplicedTwice` | offline4_xv6_memory_mgt/xv6/file.c:133-152 | Writing one chunk and the next right behind it is writing both |
| `Files.FileSystem.Readi` | offline4_xv6_memory_mgt/xv6/fs.c:452-476 | Refused exactly beyond the end or on offset overflow; else returns exactly the slice of the file, cut at the size |
| `FileSpec.ReadStep` | offline4_xv6_memory_mgt/xv6/fs.c:466-473 | The bytes taken from one block are the file's bytes at that place |
| `Files.FileSystem.Bmap` | offline4_xv6_memory_mgt/xv6/fs.c:372-400 | The block of an existing position without any change, or a new zeroed block at the next position; maps of other files unchanged; every block that changed is in the log |
| `Files.FileSystem.Balloc` | offline4_xv6_memory_mgt/xv6/fs.c:56-78 | The first free block, zeroed, its bit set; none only if the disk is full |
| `Files.FileSystem.Bfree` | offline4_xv6_memory_mgt/xv6/fs.c:81-95 | Clears exactly that block's bit; panics exactly if it was clear |
| `Files.FileSystem.Itrunc` | offline4_xv6_memory_mgt/xv6/fs.c:407-435 | Exactly the file's blocks become free, each once, so bfree never panics; every other file keeps its bytes; every block that changed, and the inode's, is in the log |
| `FileSpec.TruncateStep` | offline4_xv6_memory_mgt/xv6/fs.c:407-421 | Freeing block bn: it is in use, and only it becomes free |
| `FileSpec.TruncateDone` | offline4_xv6_memory_mgt/xv6/fs.c:407-435 | Once all are freed the file is empty and all else is as it was |
| `FsSpec.MapsAreInjective` | offline4_xv6_memory_mgt/xv6/fs.c:372-400 | No block is in two places of one file or of two, and every mapped block is marked in use |
| `FsSpec.TakenKeeps` | offline4_xv6_memory_mgt/xv6/fs.c:56-78 | balloc keeps bitmap, maps and account in agreement and changes no map |
| `FsSpec.WithDirectKeeps` | offline4_xv6_memory_mgt/xv6/fs.c:378-382 | Entering a block among the direct ones changes that position only |
| `FsSpec.WithIndirectKeeps` | offline4_xv6_memory_mgt/xv6/fs.c:385-389 | A zeroed indirect block adds no position |
| `FsSpec.WithEntryKeeps` | offline4_xv6_memory_mgt/xv6/fs.c:390-396 | Entering a block in the indirect block changes that position only |
| `FsSpec.BitChanged` | offline4_xv6_memory_mgt/xv6/fs.c:65-69 | Changing a block's bit in the byte of its bitmap block changes that block's mark and no other |
| `FsSpec.BitmapIsContiguous` | offline4_xv6_memory_mgt/xv6/fs.c:65-69 | The free map is one array of bits, eight to a byte, over the blocks from bmapstart on |
| `FsSpec.BitIsPower` | offline4_xv6_memory_mgt/xv6/fs.c:65-69 | Bit k of a byte of the map is the one worth 2 to the k |
| `FsSpec.LittleEndian` | offline4_xv6_memory_mgt/xv6/fs.c:390-394 | Block numbers are stored with the least significant byte first |
| `FsSpec.WordStored` | offline4_xv6_memory_mgt/xv6/fs.c:390-394 | A little-endian word stored in a block is read back, and the other words are kept |
| `Pipe.PipeBuffer.Interleave` | offline4_xv6_memory_mgt/xv6/pipe.c:77-121 | Over any interleaving of sections of readers, writers and closers, the bytes read are a prefix of the bytes stored and at most 512 are pending |
| `Pipe.PipeBuffer.Write` | offline4_xv6_memory_mgt/xv6/pipe.c:77-98 | Appends the bytes in order until done or full; sleeps or fails only on a full ring |
| `Pipe.PipeBuffer.Read` | offline4_xv6_memory_mgt/xv6/pipe.c:100-121 | Returns exactly the next unread bytes, as many as there are and were asked for; sleeps exactly on an empty pipe still open for writing |
| `Pipe.WrapIsHarmless` | offline4_xv6_memory_mgt/xv6/pipe.c:83-119 | The tests for full and empty and the ring index are right although the counters wrap, because 512 divides 2^32 |
| `Pipe.PutKeeps` | offline4_xv6_memory_mgt/xv6/pipe.c:93 | A byte stored in a ring with room overwrites no unread byte |
| `Shell.Parser.ParseCmd` | offline4_xv6_memory_mgt/xv6/sh.c:327-342 | Accepts exactly the lines that the grammar derives with no simple command of ten words; the tree is the command of the one derivation and stands in the line sign by sign, left of a pipe or a list left of its sign, each file behind the sign that opens it; its words are exactly the words of the line, and each can be read off the cut buffer as a C string |
| `ShellGrammar.FoundIff` | offline4_xv6_memory_mgt/xv6/sh.c:344-446 | Recursive descent reads all tokens exactly if a syntax tree derives them, and finds that tree: lists nest to the right, outside background marks, which lie outside pipes; redirections wrap in their order |
| `ShellGrammar.Unambiguous` | offline4_xv6_memory_mgt/xv6/sh.c:344-446 | No two syntax trees derive the same tokens |
| `ShellGrammar.LineFound` | offline4_xv6_memory_mgt/xv6/sh.c:344-359 | Completeness: the tree of a line is found whatever follows the line |
| `ShellGrammar.LineSound` | offline4_xv6_memory_mgt/xv6/sh.c:344-359 | Soundness: the tree found derives exactly the tokens read, and no symbol is passed over |
| `ShellGrammar.WordsOfMeaning` | offline4_xv6_memory_mgt/xv6/sh.c:449-493 | The words of the command are the words of the line, each as often |
| `ShellGrammar.TokensSpellTheLine` | offline4_xv6_memory_mgt/xv6/sh.c:265-308 | Spelled out, the tokens are the line without its blanks: nothing is lost, added or moved |
| `ShellGrammar.TokensFindWords` | offline4_xv6_memory_mgt/xv6/sh.c:265-308 | The word tokens are exactly the maximal runs of word characters |
| `ShellGrammar.WordsInOrder` | offline4_xv6_memory_mgt/xv6/sh.c:265-308 | The words come in the order of the line, none twice |
| `ShellGrammar.PlainLines` | offline4_xv6_memory_mgt/xv6/sh.c:415-446 | A line of words and blanks has a derivation exactly if it has fewer than ten words |
| `ShellMeaning.LinePlaced` | offline4_xv6_memory_mgt/xv6/sh.c:344-446 | Every part of the command is where the characters of the line put it: pipes, lists, ampersands, redirections with their signs, arguments from left to right |
| `ShellMeaning.ReadBack` | offline4_xv6_memory_mgt/xv6/sh.c:344-446 | Every command, written down with parentheses only where precedence asks for them and parsed again, is the same command |
| `ShellMeaning.DenotedIff` | offline4_xv6_memory_mgt/xv6/sh.c:344-446 | The commands that lines denote are exactly those with fewer than ten words to a simple command and with input on 0 read-only and output on 1 created |
| `ShellMeaning.SaysWithin` | offline4_xv6_memory_mgt/xv6/sh.c:361-372 | In a pipe or a list every word of the left command ends before any of the right one begins |
| `Shell.WordsSurvive` | offline4_xv6_memory_mgt/xv6/sh.c:449-493 | Whatever the NULs behind other words overwrote, the C string at each word is the word as it stood in the line |
| `Shell.Nulterminate` | offline4_xv6_memory_mgt/xv6/sh.c:449-493 | The recursive pass puts a NUL behind every word of the tree and changes nothing else |
| `Shell.Parser.Gettoken` | offline4_xv6_memory_mgt/xv6/sh.c:265-308 | Takes exactly the next token of the line, with its code and a word's bounds |
| `Shell.Parser.Peek` | offline4_xv6_memory_mgt/xv6/sh.c:310-320 | Skips blanks only, and tells whether one of the symbols comes next |
| `Shell.Parser.ParseLine` | offline4_xv6_memory_mgt/xv6/sh.c:344-359 | The loop and the recursion in place find what the descent finds, and stop where it stops; terminates on remaining text, then grammar level |
| `Shell.Parser.ParsePipe` | offline4_xv6_memory_mgt/xv6/sh.c:361-372 | The same for pipelines |
| `Shell.Parser.ParseBlock` | offline4_xv6_memory_mgt/xv6/sh.c:399-413 | The same for a parenthesised line with its redirections |
| `Shell.Parser.ParseExec` | offline4_xv6_memory_mgt/xv6/sh.c:415-446 | The same for simple commands; argv is never overrun, too many arguments are an error |
| `Shell.Parser.ParseRedirs` | offline4_xv6_memory_mgt/xv6/sh.c:374-397 | The same for redirections, in their order, each with its own sign and file |
| `Shell.RedirsAreItems` | offline4_xv6_memory_mgt/xv6/sh.c:415-446 | Reading redirections first, as parseexec does, is reading words and redirections in any order |
| `Grep.Match` | offline4_xv6_memory_mgt/xv6/grep.c:72-82 | Accepts exactly if some substring of the text (a prefix under ^, ending at the end under $) is in the language the pattern denotes |
| `Grep.MatchHere` | offline4_xv6_memory_mgt/xv6/grep.c:84-96 | Decides whether a prefix of the text is in the language; the mutual recursion terminates |
| `Grep.MatchStar` | offline4_xv6_memory_mgt/xv6/grep.c:98-106 | Decides the same for a starred character before the rest of the pattern |
| `Grep.PrefixOfStar` | offline4_xv6_memory_mgt/xv6/grep.c:98-106 | A starred character matches any number of accepted characters followed by a match of the rest |
| `Grep.SomewhereIsSomePrefix` | offline4_xv6_memory_mgt/xv6/grep.c:72-82 | Matching a substring is matching a prefix from some position on |
| `Grep.FirstOfPattern` | offline4_xv6_memory_mgt/xv6/grep.c:84-106 | What a character of the pattern, with a star behind it or not, does to the texts that match, in terms of characters |
| `Grep.Concatenation` | offline4_xv6_memory_mgt/xv6/grep.c:84-96 | One pattern behind another matches exactly one match behind the other |
| `Grep.AnchoredIff` | offline4_xv6_memory_mgt/xv6/grep.c:91-92 | A pattern is tied to the end of the text exactly if its last character is a dollar sign |

## Left out

- RedoLog.Log.Commit: requires that nobody has a buffer of a logged block locked, since bread would sleep there; `LogRun` has the commit with everybody else running in between.
- LogRun: the order of the two breads of one turn of the commit is left open, memmove and bwrite of a locked buffer are one step, and bget may recycle any free buffer; the class methods fix these.
- Log: devices other than device 1, reading the superblock (the region is a parameter), and a boot disk whose log header is not well formed.
- Swap: the page table is a flat map with PTE_P, PTE_PG and the frame; PTE_W and PTE_U, which the fault path always sets, are not modelled.
- Swap.Process.AllocUvm: requires free frames and room in the two lists; a failing kalloc, where the code calls deallocuvm, is modelled in `PageTable.Machine.Allocuvm`.
- Swap.Process.DoTheSwap: requires a free frame for the exchange, for which the code does not test; the reads and writes of the swap file succeed.
- Swap: shrinking, fork, exec and wait with pages out, for which the code does not preserve memory, and the NRU branch, which is not implemented.
- Swap: one page table; `allocuvm` for a directory other than the process's own.
- PageTable.Machine.Copyuvm: requires the parent's pages below its size to be present, where the code panics.
- Page tables: the TLB and the loading of cr3, which are hardware.
- Page tables: a frame's physical and kernel-virtual address are one number; `kinit1` and `kinit2` differ only in locking.
- Umalloc.Heap.Malloc: requires the rounded request to fit the signed argument of sbrk, and base to lie below the heap.
- Umalloc: what a process writes past the end of its own block, or a second free of one block.
- VipChannel: the printing under `io_lock`, the other semaphores of the airport, arrival times, and pthread's rule that the owner of a mutex unlocks it, which the code itself breaks.
- Processes: user memory, open files, kernel stacks and context switches; sleep's tidying of `chan`; ticks counters; overflow of `nextpid`.
- Lottery.TotalTickets: requires ticket numbers that are not negative and sum below 2^32.
- Lottery.NoIdleRound: assumes that the runnable set only grows between the passes; `FindsProcessIff` has the exact condition without that.
- Files.FileSystem.Bmap: requires a position up to the end of the map, so files have no holes; writei never asks for another.
- Files: directories, device inodes, and the bytes of inodes on disk: iupdate enters its block in the log only.
- Files: the blocks of files are bytes and those of `LogRun` are contents of any kind; crash consistency is proved for blocks and not carried over to decoded files.
- Files: negative byte counts, and the reference counts of open files.
- Files: what another process does between two chunks of one filewrite, and between the two critical sections of a long read.
- Files.FileSystem.Writei: after balloc's panic on a full disk it says nothing about the state.
- Files.FileSystem.Readi: requires the map of the file to cover its size, as every operation here leaves it.
- Pipe: which sleepers a wakeup reaches; the freeing of the page when both ends are closed.
- Shell: running commands, the built-in cd, and reading the line.
- Grep: the driver that reads files, which drops partial lines.
- Boot, interrupts, drivers, the console, user programs, and the shell scripts of the repository.
