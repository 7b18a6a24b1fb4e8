# Proofs about xv6

Models of the hard parts of xv6 for x86 with the `wmap` memory-mapping layer, and proofs about them in Dafny 4.11.
Check everything with `dafny verify dfyconfig.toml`.

Each core is modelled in the form the code has. Code that changes things in place is a class whose methods keep the
loops and branches of the source; the methods are proved against functions on values, and the properties are proved
about those functions. Protocols are step systems: a state, the steps that may be taken in it in any order by any
number of processes, and an invariant over every run.

| files | what they model |
|---|---|
| `Params` | sizes that several parts must agree on |
| `LogDisk`, `LogCode`, `LogSystem`, `LogSpace`, `LogDurable` | the redo log: block writes as values, the procedures of log.c, all interleavings of operations, commits, crashes and recoveries, the space that operations reserve, and the progress of commits and recoveries |
| `Bio` | the buffer cache: the doubly linked least-recently-used list, and agreement with the current block contents |
| `FsLayout`, `FsCode`, `FileWrite` | the block bitmap, inode block maps and file contents, and what of them is logged |
| `FreeList`, `Umalloc` | malloc and free on their circular list of headers |
| `WmapTable`, `WmapCode` | the mapping system calls and the page-fault handler |
| `PageTable`, `Vm`, `VmCopy` | two-level page tables in physical memory, the frame free list, and whole address spaces |
| `Proc`, `ProcSystem`, `SleepLock` | the process table, exit and wait, and sleep-locks |
| `Pipe`, `PipeSystem` | the pipe's ring buffer, and who may be left asleep on it |
| `ShellParse`, `ShellCode`, `ShellWords` | the shell's scanner and parser, and the termination of words in place |
| `ShellGrammar`, `ShellLex`, `ShellPrint` | the sentences of the shell's language and their meaning, and that exactly these are accepted |
| `Grep` | the regular-expression matcher |

## Where the code does not do what it promises

Each of these has a lemma with the exact condition. A failing run or input is given by a lemma named here, or is built in
the proof of the condition where this is said.

- The log area. mkfs reserves `nlog = LOGSIZE` blocks, header included. The capacity test of log_write runs before the
  lock is taken, so operations that keep their reservations can list more blocks than the area holds
  (`LogSpace.SmallLogOverflows`). The list fits in every such run if and only if `nlog > LOGSIZE`
  (`LogSpace.LogFitsIff`). Crash safety is proved for every run whose list fits, however much each operation logs.
- Refused blocks. An operation within its reservation can be refused as "too big a transaction". This never happens if
  and only if `nlog > LOGSIZE` (`LogSpace.NeverRefusesIff`, whose proof builds the failing run).
- Logging a block again. The capacity test comes before the search of the list. With a large area, a block already logged
  is never refused if and only if operations leave a block of their reservation unused (`LogSpace.RelogSafeIff`, whose
  proof builds the failing run); state by state it is refused exactly when LOGSIZE blocks are listed
  (`LogSpace.RefusedIff`).
- A writer that is killed, or whose reader is gone, leaves pipewrite without waking anyone. A sleeping reader is then
  forgotten on a full pipe (`PipeSystem.ReaderCanBeForgotten`). This is the only step that loses a wakeup
  (`PipeSystem.StepForgetsIffStrands`).
- wremap shrinking. It releases exactly the pages beyond the new end if and only if both sizes are whole numbers of pages
  (`WmapCode.ShrinkExactIff`; `WmapCode.ShrinkHitsNeighbour` is an example).
- wremap moving. It moves exactly the pages of the mapping if and only if its length is a whole number of pages
  (`WmapCode.MoveExactIff`; `WmapCode.MovePanicsOnNeighbour` is an example).
- wmap with a fixed address. The tests report overlap or, for two bytes or more, a mapping that ends where the request
  starts (`WmapTable.ClashIff`, `WmapCode.AdjacentRefused`). A request past KERNBASE is granted, and the table is in
  order afterwards if and only if the entry ends by KERNBASE (`WmapCode.Process.Wmap`, `WmapCode.PastKernbaseGranted`).
- malloc. The block is large enough exactly below the last seven byte counts (`Umalloc.EnoughIff`,
  `Umalloc.LastByteCount`). sbrk is asked for the memory that is recorded exactly up to 2^31 - 16 bytes and in those last
  seven cases; otherwise it is asked for a negative amount or for nothing (`Umalloc.AsksRightIff`, `Umalloc.HugeRequest`).
  malloc then stores a header where it was given no memory (`Umalloc.Allocator.Malloc` says exactly when). Block and
  memory are both right if and only if the request is at most 2^31 - 16 bytes (`Umalloc.PromiseIff`).
- A new process can start out killed, because a slot keeps the mark left by a kill of pid 0
  (`ProcSystem.BornKilled`) or by a failed fork. The slots are clean all along a run if and only if no step does that
  (`ProcSystem.CleanAllAlongIff`).

## Model

| member | source | states |
|---|---|---|
| LogDisk.HeadRoundTrip | xv6-public/log.c:86-113 | Reading a written header gives back exactly the block numbers written, whatever stale words the block held. |
| LogDisk.InstalledAt | xv6-public/log.c:70-82 | Installing logged blocks puts each content at its home block and changes no other block. |
| LogDisk.RecoveredIs | xv6-public/log.c:116-122 | A complete recovery installs the listed blocks, empties the header and touches nothing else. |
| LogDisk.CrashedRecovery | xv6-public/log.c:70-122 | A recovery cut off after any number of its writes loses nothing: recovering again gives the same home blocks. |
| LogDisk.ManyCrashedRecoveries | xv6-public/log.c:70-122 | The same after any number of cut-off recoveries. |
| LogDisk.CrashBeforeHead | xv6-public/log.c:177-202 | A crash before the first header write of a commit leaves the old home blocks after recovery. |
| LogDisk.CommitTailIsRecovery | xv6-public/log.c:192-202 | From the first header write on, the rest of a commit is exactly a recovery of that disk. |
| LogDisk.CrashAfterHead | xv6-public/log.c:192-202 | A crash at or after the first header write leaves all of the new home blocks after recovery. |
| LogDisk.CommitComplete | xv6-public/log.c:192-202 | A complete commit leaves an empty log over the new home blocks. |
| LogDisk.CommitIsAtomic | xv6-public/log.c:69-202 | A crash between any two writes of a commit, then any number of crashed recoveries and a complete one, leaves the home blocks entirely old or entirely new; the switch is the first header write. |
| LogCode.Absorb | xv6-public/log.c:222-229 | Logging a block adds it to the list at most once and keeps the list free of duplicates. |
| LogCode.Log.WriteHead | xv6-public/log.c:101-113 | The header on disk lists the in-memory block numbers; its other words stay. |
| LogCode.Log.ReadHead | xv6-public/log.c:85-96 | The in-memory list becomes the one on disk. |
| LogCode.Log.WriteLog | xv6-public/log.c:177-190 | The cached contents of the listed blocks go to the log blocks, in order, and nothing else is written. |
| LogCode.Log.InstallTrans | xv6-public/log.c:69-82 | Each log block is copied to its home block, in order. |
| LogCode.Log.RecoverFromLog | xv6-public/log.c:115-122 | The writes issued are those of a recovery of the disk, and the list ends empty. |
| LogCode.Log.Commit | xv6-public/log.c:192-202 | The writes issued are, in order, log blocks, header, home blocks, empty header, with the contents cached at the start; exactly the listed blocks stop being dirty. |
| LogCode.Log.LogWrite | xv6-public/log.c:213-233 | The panic happens exactly when the list has no room by the code's test; otherwise the block is listed once and pinned with its new contents. |
| LogSystem.NextWriteAgrees | xv6-public/log.c:176-202 | Each write of a commit, computed from the state in which it is issued, is the one of the write list fixed when the commit began. |
| LogSystem.StepKeeps | xv6-public/log.c:125-233 | Every step of every operation, commit, crash and recovery keeps the invariant between disk, cache, list and history, as long as the list fits. |
| LogSystem.EveryCrashIsSafe | xv6-public/log.c:69-233 | In every run whose list fits, however much each operation logs, a crash in the state reached and a recovery yield exactly the writes of the committed operations, in order, and none of any other operation. |
| LogSystem.CacheShowsLive | xv6-public/log.c:204-233 | With no commit writing, the cache over the disk holds exactly the writes of committed and current operations. |
| LogSystem.CommitPoint | xv6-public/log.c:192-202 | Operations become durable at the first header write of a commit and nowhere else, all at once, with no operation in progress. |
| LogSystem.CommitRunsAlone | xv6-public/log.c:125-202 | While a commit runs nothing is outstanding, no operation can begin, log or end, and the in-memory list changes only at the commit's last write. |
| LogDurable.LastEndIsDurable | xv6-public/log.c:145-202 | In every run whose list fits: when the only operation in progress ends, a commit starts, each of its steps can be taken in turn, and after them the disk holds, and keeps through a crash, every operation not caught by an earlier crash; with blocks listed, all of them are committed; the next operation may begin. |
| LogDurable.CommitCarriesThrough | xv6-public/log.c:177-202 | A commit that has started can be carried to its end, in 2n + 2 writes for n listed blocks and none for an empty list, and leaves everything durable. |
| LogDurable.CrashThenRecovery | xv6-public/log.c:53-122 | After a crash in any state of any such run the recovery can be run to its end, which leaves exactly the committed operations and lets operations in. |
| LogDurable.DurableStays | xv6-public/log.c:69-202 | Over every run, what is committed stays committed and what was logged stays on record. |
| LogSpace.RecordSpace | xv6-public/log.c:213-233 | Recording a block stays within the reservations although its capacity test ran before the lock was taken. |
| LogSpace.ReservationsHold | xv6-public/log.c:125-141 | If operations log at most MAXOPBLOCKS distinct blocks each, the list and all unspent reservations stay within LOGSIZE in every run, whatever the area, and listed blocks stay distinct. |
| LogSpace.PromisedIsCrashSafe | xv6-public/log.c:125-233 | With an area above LOGSIZE every run of such operations is crash safe. |
| LogSpace.SmallLogOverflows | xv6-public/log.c:213-220 | With an area of at most LOGSIZE blocks there is a run of such operations whose list outgrows the area. |
| LogSpace.LogFitsIff | xv6-public/mkfs.c:25 | The list fits its area in every run of such operations if and only if the area has more than LOGSIZE blocks. |
| LogSpace.NeverRefusesIff | xv6-public/log.c:213-220 | No run refuses a block that its operation may still log if and only if the area has more than LOGSIZE blocks. |
| LogSpace.RelogSafeIff | xv6-public/log.c:216-227 | With such an area, no run in which operations log at most m blocks refuses a block already logged if and only if m is below MAXOPBLOCKS. |
| LogSpace.RefusedIff | xv6-public/log.c:216-219 | With such an area a block is refused exactly when LOGSIZE blocks are listed, and then every operation has spent its reservation. |
| Bio.Unlink | xv6-public/bio.c:128-131 | Two pointer writes remove a buffer and leave a doubly linked ring of the others, in order. |
| Bio.PushFront | xv6-public/bio.c:48-55 | Four pointer writes put a buffer at the front of the ring, consistent both ways. |
| Bio.MoveToFront | xv6-public/bio.c:128-135 | The relinking of brelse keeps all buffers on the ring exactly once. |
| Bio.Cache.constructor | xv6-public/bio.c:38-56 | binit builds the ring of all NBUF buffers over an empty cache. |
| Bio.Cache.FindCached | xv6-public/bio.c:67-75 | The first scan finds a buffer of the block, or there is none. |
| Bio.Cache.FindVictim | xv6-public/bio.c:77-90 | The second scan finds the least recently released buffer that is unreferenced and clean, or there is none. |
| Bio.Cache.Bget | xv6-public/bio.c:61-93 | A cached block gets one more reference; otherwise the least recently released unreferenced clean buffer is recycled; the panic means that every buffer is referenced or dirty. No block gets two buffers. |
| Bio.Cache.LockAndFill | xv6-public/bio.c:96-106 | The holder sees the latest logged or written contents, from the buffer or from the disk. |
| Bio.Cache.Bwrite | xv6-public/bio.c:109-116 | The buffer's data becomes the block's current contents and reaches the disk. |
| Bio.Cache.LogPin | xv6-public/log.c:213-233 | The buffer's data becomes the block's current contents, and the buffer cannot be recycled. |
| Bio.Cache.Brelse | xv6-public/bio.c:120-141 | One reference is dropped; at the last one the buffer becomes the most recently released. |
| Bio.Recycled | xv6-public/bio.c:80-88 | Recycling an eligible buffer for an uncached block loses no contents and keeps blocks unique. |
| Bio.DiskIsCurrent | xv6-public/bio.c:96-106 | A block whose buffer is not filled yet is up to date on disk. |
| Bio.ViewIsDirtyOverDisk | xv6-public/bio.c:96-106 | With no buffer half changed, the current contents are the dirty buffers laid over the disk. |
| FsLayout.MarkIs | xv6-public/fs.c:64-71 | Setting one bit of the bitmap marks that block and no other. |
| FsLayout.OwnedGrows | xv6-public/fs.c:373-400 | Giving an unmarked block to an empty slot keeps blocks owned by at most one slot and marked. |
| FsLayout.AttachWord | xv6-public/fs.c:386-397 | Writing a pointer into an indirect block sets that slot and no other. |
| FsLayout.StoreChunk | xv6-public/fs.c:495-502 | Patching one block changes exactly those bytes of exactly that file. |
| FsCode.FileSystem.constructor | xv6-public/mkfs.c:237-251 | A fresh file system is in order: exactly the blocks below the first file block are marked, no block is owned, and all files are empty. |
| FsCode.MetadataApart | xv6-public/mkfs.c:94-108 | In the layout of mkfs the blocks of inodes, bitmap and files lie apart; eight inodes share a block and 4096 bits do. |
| FsCode.FileSystem.Balloc | xv6-public/fs.c:55-78 | The result is the first unmarked block, now marked and zeroed; without one, every block is marked. |
| FsCode.FileSystem.AllocDirect | xv6-public/fs.c:378-382 | A direct slot gets an unowned zeroed block; no other pointer changes. |
| FsCode.FileSystem.AllocIndirect | xv6-public/fs.c:385-388 | The inode gets an indirect block whose pointers are all empty. |
| FsCode.FileSystem.AllocWord | xv6-public/fs.c:389-396 | A slot of the indirect block gets an unowned zeroed block, written through. |
| FsCode.FileSystem.Bmap | xv6-public/fs.c:372-400 | The slot has a block afterwards; all pointers and file bytes that were there stay; a mapped slot changes nothing. |
| FsCode.FileSystem.Readi | xv6-public/fs.c:452-476 | The result is the file's bytes from the offset, cut at its end, or -1 exactly for the rejected arguments; nothing changes. |
| FsCode.FileSystem.WriteChunk | xv6-public/fs.c:494-502 | One round of the loop writes its bytes into one block and opens no hole; every block and bitmap byte it changed is logged, and no more than the counted blocks are. |
| FsCode.FileSystem.Writei | xv6-public/fs.c:481-511 | The file gets exactly the bytes at the offset and the larger of both sizes; no other file changes; no hole appears; every pointer is written through; every block, bitmap byte and inode that changed is logged, even when it panics in the middle; up to three blocks dirty at most MAXOPBLOCKS. |
| FsCode.FileSystem.FreeSlot | xv6-public/fs.c:413-418 | An owned block is always marked, so freeing it does not panic. |
| FsCode.FileSystem.TruncDirect | xv6-public/fs.c:413-418 | All direct slots are empty afterwards and their blocks free. |
| FsCode.FileSystem.TruncIndirect | xv6-public/fs.c:420-431 | All indirect slots and the indirect block are free afterwards. |
| FsCode.FileSystem.Itrunc | xv6-public/fs.c:407-435 | The file is empty, other files are unchanged, and exactly its blocks are unmarked, so "freeing free block" cannot happen; every bitmap byte and inode that changed is logged. |
| FsCode.AllFiles | xv6-public/fs.c:481-511 | Writing bytes through the block map is splicing them into the file's byte sequence. |
| FsCode.AllCleared | xv6-public/fs.c:407-435 | With all slots of one file cleared, exactly its blocks are unowned and every other file has its contents. |
| FileWrite.OpenFile.Filewrite | xv6-public/file.c:117-156 | The chunks together write a prefix of the bytes at the offset, all of them on success; the rest starts with a chunk that writei rejects; each transaction logs everything it changes, in at most MAXOPBLOCKS blocks. |
| FileWrite.OpenFile.WriteOp | xv6-public/file.c:140-145 | One transaction writes its bytes and logs all it changes, or is rejected and changes nothing. |
| FileWrite.WritesAllIff | xv6-public/file.c:117-156 | All bytes are written exactly if the write starts no later than the end of the file and stays within the largest file size. |
| FileWrite.WithinLimits | xv6-public/fs.c:493-496 | writei rejects exactly writes that leave a gap or exceed the largest file size; its test for wrap-around rejects nothing more. |
| FileWrite.OverwriteMore | xv6-public/file.c:128-149 | Writing consecutive chunks is writing their concatenation. |
| FreeList.InsertCanonical | xv6-public/umalloc.c:25-44 | Inserting a block keeps the extents ordered, apart and fully coalesced. |
| FreeList.InsertContains | xv6-public/umalloc.c:25-44 | Inserting a block adds exactly its units. |
| FreeList.CarveContains | xv6-public/umalloc.c:76-85 | Taking units from an extent removes exactly those. |
| FreeList.CanonicalIsUnique | xv6-public/umalloc.c:24-90 | A set of free units has only one coalesced ordered list. |
| Umalloc.EnoughIff | xv6-public/umalloc.c:69 | The block holds the bytes asked for exactly when the rounding does not wrap. |
| Umalloc.LastByteCount | xv6-public/umalloc.c:69 | Asked for 2^32 - 1 bytes, malloc makes a block with no room. |
| Umalloc.AsksRightIff | xv6-public/umalloc.c:46-58 | When malloc turns to sbrk, it asks for the memory it records exactly up to 2^31 - 16 bytes and for the last seven byte counts; for all others it asks for none. |
| Umalloc.PromiseIff | xv6-public/umalloc.c:46-90 | The block is large enough and its memory is what sbrk was asked for if and only if the request is at most 2^31 - 16 bytes. |
| Umalloc.HugeRequest | xv6-public/umalloc.c:53 | Asked for 2^31 bytes, malloc calls sbrk with a negative number. |
| Umalloc.RequestExactIff | xv6-public/umalloc.c:47-58 | sbrk is asked for exactly the units recorded, below 2^28 units and only there. |
| Umalloc.LinkedRing | xv6-public/umalloc.c:32-43 | The pointer surgery of free leaves a ring that is the list with the block inserted. |
| Umalloc.CarvedRing | xv6-public/umalloc.c:76-85 | The surgery of malloc leaves a ring that is the list with the units taken. |
| Umalloc.FreedTiles | xv6-public/umalloc.c:25-44 | After free, live and free blocks still tile the memory obtained. |
| Umalloc.TakenTiles | xv6-public/umalloc.c:64-90 | After malloc, live and free blocks still tile the memory obtained. |
| Umalloc.Allocator.FindSlot | xv6-public/umalloc.c:31-33 | The search ends at the node after which the block belongs. |
| Umalloc.Allocator.Free | xv6-public/umalloc.c:24-44 | The block joins the coalesced list, is no longer live, and everything else stays. |
| Umalloc.Allocator.Morecore | xv6-public/umalloc.c:46-61 | The new memory joins the free list, or nothing changes; from 2^28 units on, and only there, the header is stored where sbrk gave no memory. |
| Umalloc.Allocator.Take | xv6-public/umalloc.c:76-87 | The fitting node is unlinked or loses its tail; the block handed out was free. |
| Umalloc.Allocator.Malloc | xv6-public/umalloc.c:63-90 | The first fit from freep on is taken, after asking for more memory once if nothing fits; the invariant keeps the block disjoint from every live one; the exact condition under which a header is stored where sbrk gave no memory. |
| Umalloc.AllocatesUnits | xv6-public/umalloc.c:63-90 | The units of the block were free, and every other unit stays as it was. |
| Umalloc.FreeUndoesMalloc | xv6-public/umalloc.c:24-90 | Freeing the block just allocated restores the free list exactly. |
| WmapTable.ClashIff | xv6-public/wmap.c:45-49 | The four tests report every overlap, and besides only a mapping that ends where the request starts. |
| WmapTable.FitsIsApart | xv6-public/wmap.c:36-67 | An aligned region that overlaps no mapping shares no page with one. |
| WmapTable.SeparateReordered | xv6-public/wmap.c:11-27 | A reordering of a table without shared pages has none either. |
| WmapTable.ExactlyOne | xv6-public/wmap.c:29-79 | A page lies in at most one mapping. |
| WmapCode.ScanStep | xv6-public/wmap.c:57-62 | One round of the placement loop keeps the candidate the lowest address that fits beside the mappings seen. |
| WmapCode.SelectionSort | xv6-public/wmap.c:11-27 | The first entries are ordered by address and are the same entries; the rest stays. |
| WmapCode.LowestFrom | xv6-public/wmap.c:15-21 | The inner loop finds the first of the lowest entries. |
| WmapCode.Process.FirstFit | xv6-public/wmap.c:55-62 | One pass over the sorted table finds the lowest aligned address of the window where the request overlaps nothing. |
| WmapCode.Process.FixedFits | xv6-public/wmap.c:42-52 | The fixed request passes exactly if it overlaps nothing and no mapping ends where it starts. |
| WmapCode.ArgsAccepted | xv6-public/wmap.c:33-35 | Every positive length passes while one of 16 entries is free, unless the mapping is to be both private and shared. |
| WmapCode.FirstRequest | xv6-public/wmap.c:29-66 | In an empty table such a request of any length up to the whole window fits at its start. |
| WmapCode.AdjacentRefused | xv6-public/wmap.c:42-52 | A fixed request that starts where a mapping ends overlaps nothing and is refused. |
| WmapCode.PastKernbaseGranted | xv6-public/wmap.c:37-53 | A fixed request of two pages one page below KERNBASE is granted. |
| WmapCode.Process.Wmap | xv6-public/wmap.c:29-79 | A fixed request is granted exactly at its address or refused; any other gets the lowest place below KERNBASE and fails only if there is none; the table gains that entry; it stays valid exactly if the entry ends by KERNBASE. |
| WmapCode.Process.Wunmap | xv6-public/wmap.c:81-126 | Refused exactly for an unaligned or unmapped address or a failed write-back, and then nothing changes; otherwise that entry and its resident pages are gone and their frames free. |
| WmapCode.UnmapUndoesMap | xv6-public/wmap.c:29-126 | Unmapping what was just mapped restores the table, keeps the pages of other mappings, and is refused exactly if a shared file-backed mapping cannot be written back. |
| WmapCode.Process.Shift | xv6-public/wmap.c:113-117 | The entry is removed and the later ones move down one slot. |
| WmapCode.Process.ClearRange | xv6-public/wmap.c:105-112 | Exactly the resident pages of the range are gone, each frame freed once. |
| WmapCode.Process.Shrink | xv6-public/wmap.c:149-162 | The entry has its new length and the pages of the range the loop really walks are cleared, for every old length; the table stays valid exactly if no page beyond the new end is left resident. |
| WmapCode.ShrinkExactIff | xv6-public/wmap.c:149-162 | Whatever pages are resident, shrinking releases exactly those beyond the new end, if and only if the old and the new size are whole numbers of pages. |
| WmapCode.ShrinkHitsNeighbour | xv6-public/wmap.c:149-162 | Shrinking 5000 bytes to 100 clears a page of the mapping below and keeps its own second page. |
| WmapCode.MoveExactIff | xv6-public/wmap.c:209-217 | Whatever pages are resident, the loop moves exactly those of the mapping without a panic, if and only if the length is a whole number of pages. |
| WmapCode.MovePanicsOnNeighbour | xv6-public/wmap.c:209-217 | Moving 5000 bytes takes the page of the mapping below and panics. |
| WmapCode.Process.Stay | xv6-public/wmap.c:168-172 | Growing in place keeps the table valid. |
| WmapCode.Process.MovePages | xv6-public/wmap.c:209-217 | For every size the pages are those the loop of steps from the end produces, second pages and wrong frames included, and the panic is its "remap". |
| WmapCode.WholeMove | xv6-public/wmap.c:209-217 | A whole number of pages moves to an empty place without a panic: every resident page with its frame to the same offset, no other page changed, no frame shared. |
| WmapCode.Process.Relocate | xv6-public/wmap.c:199-221 | The entry moves and its pages are those of the move loop; for whole pages there is no panic and the table is sorted and valid again; no frame is freed. |
| WmapCode.Process.Grow | xv6-public/wmap.c:163-228 | For every length: refused exactly past KERNBASE, or past the neighbour when moving is not allowed or nothing fits, and then nothing changes; only moving a partial page can panic. |
| WmapCode.Process.Wremap | xv6-public/wmap.c:128-231 | For every length: the exact condition for failure; failure changes nothing; success resizes that entry in place or at the lowest place that fits; the table stays in order for whole pages, for growing in place, and for shrinking that misses no page. |
| WmapCode.RemapKeeps | xv6-public/wmap.c:128-231 | For whole pages, and always when growing in place: every resident page below both sizes, down to a whole page, has its frame at the same offset from the returned address, and no page outside the mapping changes. |
| WmapCode.Process.HandlePagefault | xv6-public/wmap.c:268-312 | A page gets the first free frame exactly if it lies in a mapping and a frame and page table can be had; otherwise no page or frame changes hands. |
| PageTable.EntryWritten | xv6-public/vm.c:61-80 | Writing one entry of a table changes the flat page map at that page only; the flat map holds the permissions that both levels grant. |
| PageTable.PageFilled | xv6-public/kalloc.c:66-67 | Filling a frame that is no table does not change the flat page map. |
| PageTable.TableAdded | xv6-public/vm.c:44-53 | Entering a zeroed table, with all permissions, leaves the flat page map as it is. |
| PageTable.OpenEntry | xv6-public/vm.c:52 | A directory entry with PTE_W and PTE_U leaves all permissions to the table. |
| PageTable.GaveBack | xv6-public/kalloc.c:60-77 | Linking a frame in front keeps the chain in memory a list of distinct unused frames. |
| Vm.Memory.Kalloc | xv6-public/kalloc.c:82-95 | The first frame of the chain leaves it; 0 exactly if there is none. |
| Vm.Memory.Kfree | xv6-public/kalloc.c:59-77 | The frame is the new head of the chain and no other frame is written. |
| Vm.Memory.Freerange | xv6-public/kalloc.c:46-53 | Exactly the whole frames of the range join the chain. |
| Vm.Memory.Walkpgdir | xv6-public/vm.c:35-55 | The table of the page is found or added; every present directory entry allows the user to read and write; the flat map never changes; null exactly if it is missing and cannot be added. |
| Vm.Memory.Mappages | xv6-public/vm.c:60-80 | The pages map consecutive frames, with exactly the permissions asked for in effect, and no other page changes; on failure exactly the first few are mapped and no frame is free; "remap" cannot happen on absent pages. |
| Vm.Memory.Deallocuvm | xv6-public/vm.c:255-279 | Skipping absent tables equals a page-by-page clear: the range is absent, its frames and no others are free, every other page stays. |
| Vm.NoTable | xv6-public/vm.c:265-267 | None of the pages of a missing table is present. |
| Vm.Memory.ClearLeaf | xv6-public/vm.c:268-275 | One page is cleared and its frame freed once; the panic is unreachable. |
| Vm.Memory.AddPage | xv6-public/vm.c:233-247 | A fresh frame with the given contents is mapped at the page, or the flat map is unchanged. |
| Vm.Memory.Allocuvm | xv6-public/vm.c:221-249 | Exactly the new range maps fresh zeroed frames, which the directory and the table both let the user read and write, or the flat map is restored; no frame is lost; it cannot fail with two free frames per page. |
| Vm.Restored | xv6-public/vm.c:235-246 | Growing partly and then clearing the range restores the flat map. |
| Vm.Memory.Freevm | xv6-public/vm.c:283-298 | Every page, table and directory frame of the space returns to the free list exactly once, and no other frame is written. |
| VmCopy.Setupkvm | xv6-public/vm.c:118-136 | A new directory maps exactly the kernel's regions, or all frames are free again; it cannot fail with more than 1025 free frames. |
| VmCopy.Copyuvm | xv6-public/vm.c:315-345 | The child maps every parent page to a frame of its own with the same permissions in effect and the same contents, and nothing else but the kernel; the parent is untouched; on failure all frames are free again; it cannot fail with more than 1025 free frames besides one for each page copied. |
| Proc.Ptable.Wakeup1 | xv6-public/proc.c:514-522 | Exactly the sleepers on the channel become runnable. |
| Proc.Ptable.Exit | xv6-public/proc.c:305-322 | The parent is woken, all children pass to init, init is woken if one of them is a zombie, and the caller is a zombie. |
| Proc.Ptable.Wait | xv6-public/proc.c:336-368 | The first zombie child is reaped; without one the caller fails if it has no child or is killed, and otherwise sleeps on itself. |
| Proc.Ptable.Kill | xv6-public/proc.c:536-554 | The first process with the pid is marked and woken; failure means there is none. |
| Proc.Ptable.Allocproc | xv6-public/proc.c:79-93 | The first unused slot is claimed under a new pid; failure means there is none. |
| ProcSystem.ExitKeeps | xv6-public/proc.c:305-322 | Exiting keeps the invariant of the table: live parents, no zombie behind a sleeping parent. |
| ProcSystem.StepKeeps | xv6-public/proc.c:182-554 | So does every step of fork, wait, sleep, wakeup, kill, scheduling and yielding. |
| ProcSystem.NoZombieForgotten | xv6-public/proc.c:279-369 | In every reachable state no process sleeps in wait with a zombie child, no zombie has children, and every zombie has a live parent. |
| ProcSystem.WaitReapsOnce | xv6-public/proc.c:330-369 | The pid that wait reports was that of a zombie child of the caller, of nobody else, and is gone afterwards. |
| ProcSystem.WaitOutcome | xv6-public/proc.c:336-368 | One pass of wait reaps exactly if there is a zombie child, and sleeps exactly if there are children, none a zombie, and the caller is not killed. |
| ProcSystem.NobodyWaitsAlone | xv6-public/proc.c:336-368 | In every run a process asleep in wait has a child. |
| ProcSystem.KillWakes | xv6-public/proc.c:536-554 | kill marks its process, leaves it awake and changes no other. |
| ProcSystem.NobodyWaitsKilled | xv6-public/proc.c:362-367 | In every run no killed process is asleep in wait. |
| ProcSystem.CleanAllAlongIff | xv6-public/proc.c:537-554 | Over every run: no unused slot carries a killed mark at any time, exactly if no step kills the pid of an unused slot or abandons the fork of a killed child. |
| ProcSystem.StartsUnmarked | xv6-public/proc.c:74-93 | In a run without such a step every process starts out unmarked. |
| ProcSystem.BornKilled | xv6-public/proc.c:537-554 | There is a run in which init kills pid 0 and its next child is born killed. |
| SleepLock.StepKeeps | xv6-public/sleeplock.c:22-42 | Every step, down to single spinlock operations, keeps who holds what and that no one sleeps without a wakeup to come. |
| SleepLock.MutualExclusion | xv6-public/sleeplock.c:22-42 | In every run at most one process holds the sleep-lock, and its fields say which. |
| SleepLock.NoLostWakeup | xv6-public/proc.c:474-531 | In every run a process sleeps on an unlocked lock only while its releaser still holds the inner spinlock and has the wakeup ahead of it. |
| SleepLock.StuckOnlyWhileHeld | xv6-public/proc.c:474-531 | In every run, if nobody inside a call can go on, then the sleepers wait for a process that holds the lock: the two spinlocks never deadlock. |
| SleepLock.FreeLockIsTaken | xv6-public/sleeplock.c:22-32 | A process that asks for a free lock and is let run holds it after three steps, without sleeping. |
| SleepLock.ReleasedLockIsFree | xv6-public/sleeplock.c:34-42 | A process that releases the lock and is let run leaves it free, with all sleepers woken. |
| Pipe.Pipe.Full | xv6-public/pipe.c:85 | The 32-bit comparison is exact although both counters wrap. |
| Pipe.Pipe.Empty | xv6-public/pipe.c:106 | Equal counters mean an empty pipe. |
| Pipe.Pipe.Write | xv6-public/pipe.c:78-98 | The bytes that fit are appended to the queue; how the call ends, and whether readers are woken, is determined by queue, reader and kill. |
| Pipe.Pipe.Read | xv6-public/pipe.c:100-121 | The oldest bytes are delivered; delivered bytes are a prefix of the accepted ones and the ring holds the rest. |
| Pipe.EmptyRead | xv6-public/pipe.c:106-114 | A read of n > 0 that returns nothing means that the pipe is empty and its writer closed. |
| Pipe.Counters | xv6-public/pipe.c:16-17 | The difference of the wrapped counters modulo 2^32 is the fill level. |
| Pipe.StoreIndex | xv6-public/pipe.c:94 | The slot written next holds no unread byte. |
| PipeSystem.StepForgetsIffStrands | xv6-public/pipe.c:78-121 | A step leaves someone asleep with work to do exactly if a doomed writer with more than a pipeful fills the pipe past a sleeping reader. |
| PipeSystem.OtherStep | xv6-public/pipe.c:59-75 | Closing an end, with the wakeup it makes, and killing a process leave nobody asleep who has something to do. |
| PipeSystem.NoLostWakeup | xv6-public/pipe.c:78-121 | In every run without that step nobody is forgotten, and a reader and a writer never both sleep. |
| PipeSystem.NobodySleepsKilled | xv6-public/pipe.c:78-114 | In every run no killed process is asleep on the pipe. |
| PipeSystem.ReaderCanBeForgotten | xv6-public/pipe.c:84-93 | The step does occur from a fresh pipe. |
| ShellCode.Gettoken | xv6-public/sh.c:265-308 | The scanning loops compute the token function, whose character classes ShellLex.Classes gives. |
| ShellCode.PeekFor | xv6-public/sh.c:310-320 | The position moves past spaces, and the answer is whether the next character is one of those asked for. |
| ShellCode.Parseredirs | xv6-public/sh.c:374-397 | The loop collects the redirections of the grammar, in order, or panics where it does. |
| ShellCode.Parseexec | xv6-public/sh.c:415-446 | The loop computes the parse function, panics included. |
| ShellCode.Parsebacks | xv6-public/sh.c:350-353 | The loop over ampersands computes the parse function. |
| ShellCode.Parseline | xv6-public/sh.c:344-359 | The loop and the recursion compute the parse function, panics included; the four mutually recursive procedures terminate on every line, by remaining length and rank. |
| ShellCode.Nulterminate | xv6-public/sh.c:448-493 | The buffer gets a NUL exactly at the end of every word of the command. |
| ShellCode.Parsecmd | xv6-public/sh.c:327-342 | In a buffer at least long enough for the line: on success every argument and file name, read as a C string, is the slice recorded for it, and nothing behind the line changes; on a panic the buffer is unchanged. |
| ShellWords.LineWords | xv6-public/sh.c:344-446 | Every word that the parser records is a maximal run of word characters. |
| ShellWords.WordReadsBack | xv6-public/sh.c:448-493 | No terminator lands inside a word, so every word reads back as its slice. |
| ShellGrammar.RedsAreRead | xv6-public/sh.c:374-397 | Redirections, `>>` included, are read one for one and in order. |
| ShellGrammar.ArgsAreRead | xv6-public/sh.c:428-443 | Up to nine arguments, with redirections among them, are read one for one and in order. |
| ShellGrammar.ExecIsRead | xv6-public/sh.c:399-446 | A command or a block with its redirections is read to its meaning. |
| ShellGrammar.PipeIsRead | xv6-public/sh.c:361-372 | A pipeline is read to its meaning. |
| ShellGrammar.BacksAreRead | xv6-public/sh.c:350-353 | Each ampersand puts the command in the background once. |
| ShellGrammar.LineIsRead | xv6-public/sh.c:344-359 | A line, up to the end or a closing parenthesis, is read to its meaning. |
| ShellGrammar.RedsWritten | xv6-public/sh.c:374-397 | Whatever redirections are read were written, each with a file name. |
| ShellGrammar.ArgsWritten | xv6-public/sh.c:428-443 | Whatever arguments are read were written, and they are at most nine. |
| ShellGrammar.BlockWritten | xv6-public/sh.c:399-413 | Whatever block is read was written, with its closing parenthesis. |
| ShellGrammar.PipeWritten | xv6-public/sh.c:361-372 | Whatever pipeline is read was written. |
| ShellGrammar.ReadIsSentence | xv6-public/sh.c:327-446 | Tokens that are accepted are those of a sentence with at most nine words per command, and the result is its meaning. |
| ShellLex.Classes | xv6-public/sh.c:262-263 | White space is exactly the five literal characters, and symbols exactly the seven. |
| ShellLex.LexLaid | xv6-public/sh.c:265-308 | Tokens written with any white space between them, some between two words and none needed elsewhere, are scanned back one for one. |
| ShellLex.LaidOut | xv6-public/sh.c:265-308 | Every line is its tokens with white space in the gaps. |
| ShellPrint.CmdSame | xv6-public/sh.c:327-446 | Parsing a line, panics included, is parsing its tokens. |
| ShellPrint.SentenceIsParsed | xv6-public/sh.c:327-446 | Every sentence with at most nine good words per command, with any white space, is parsed completely and to its meaning. |
| ShellPrint.ParsedIsSentence | xv6-public/sh.c:327-446 | Every line that is accepted is such a sentence with white space in it, and the result is its meaning. |
| ShellPrint.AcceptedIff | xv6-public/sh.c:327-446 | A line is accepted if and only if it is such a sentence with white space in it. |
| ShellPrint.RoundTrip | xv6-public/sh.c:327-446 | Every tree with at most nine good words per command, written in parentheses with any white space, is parsed back. |
| Grep.SyntaxShown | xv6-public/grep.c:72-96 | Reading a pattern loses nothing: written out again it is the same text. |
| Grep.SyntaxNormal | xv6-public/grep.c:72-96 | What is read is normal: no star after a single character, no loose '^' at the start or '$' at the end. |
| Grep.ShownReads | xv6-public/grep.c:72-96 | A normal pattern, written out, is read back: the reading of a text is its only normal one. |
| Grep.Match | xv6-public/grep.c:72-82 | True exactly if the declarative meaning of the pattern matches somewhere, or at the start after '^'. |
| Grep.MatchHere | xv6-public/grep.c:84-96 | True exactly if the pattern's meaning matches at this position; the mutual recursion terminates. |
| Grep.MatchStar | xv6-public/grep.c:98-106 | True exactly if some number of the repeated character, then the rest, matches here. |
| Grep.FromMany | xv6-public/grep.c:98-106 | A starred atom matches here if and only if the rest matches here, or the atom matches one character and the starred pattern matches after it. |

## Left out

- Disk, keyboard, UART, APIC, boot and trap code: hardware. The disk is a map of blocks that are written one at a time.
- Spinlock internals, memory barriers and context switches: a lock is taken and released in one step.
- Directories, path names, the in-memory inode table, ialloc and iput: FsCode starts from inodes that exist. The encoding
  of inodes in their blocks is not modelled; a copy of the inode stands for it. Devices (T_DEV) are not modelled.
- Whether bget or log_write ever panics in general: this depends on concurrent readers and on the superblock.
- Sleeping in begin_op and the wakeups of end_op; only whether an operation may be let in is modelled.
- The system calls around the file layer (fileread, fileclose, pipealloc), exec, argument fetching, the console, printf,
  most of mkfs, and the other user programs.
- fork's copy of mappings and exit's loop over them: the wmap model is about one process.
- The count of loaded pages of a mapping, and the tail of a file-backed page past the end of its file.
- uva2ka, copyout, loaduvm, inituvm and clearpteu in vm.c, and switching address spaces.
- grep's buffering of lines, and the shell's runcmd.
- LogSystem.EveryCrashIsSafe: for runs whose list fits its area; LogSpace.LogFitsIff says when every run does.
- LogCode.Log.Commit: the cache is the map of dirty blocks here; Bio models the cache itself.
- Bio.Cache.Bget: waiting for a buffer's sleep-lock is a separate call, LockAndFill, which requires it to be free.
- Bio.Cache.Brelse: requires that a holder who changed the data has written or logged it, as all callers do.
- FileWrite.OpenFile.Filewrite: the case of a file on disk; writing to a pipe is Pipe.Pipe.Write.
- FsCode.FileSystem.Writei: when no block is free the source panics in the middle; the model then only says that the
  disk is full and the bitmap still agrees with the block maps.
- Umalloc.Allocator.Malloc: requires that memory given by sbrk is new to the allocator. sbrk itself is not modelled, and
  neither is what follows once a header is stored outside the memory given.
- WmapCode.Process.Wremap: requires that `oldsize` is the length of the mapping, which the code does not check.
- WmapCode.Process.Relocate: a missing page table counts as a page that is not resident, and entering a page at its new
  address does not run out of memory. The code reads the entry without a test and ignores the result.
- WmapCode.Process.Shift: the table has one slot more than the source's, because the loop copies from one slot past the
  live entries, which leaves the array when it is full.
- WmapCode.Process.HandlePagefault: the page must not be resident (the code panics). Frames for page tables are not
  counted here; Vm counts them.
- Vm.Memory.Allocuvm: requires that the new range holds no page, as the code panics otherwise.
- Vm.Memory.Deallocuvm: requires a size of at most KERNBASE; above the last 4 MB the skip of the code would wrap.
- VmCopy.Setupkvm: the kernel's regions are a parameter that must share no page.
- Proc.Ptable.Allocproc: pids are unbounded; the source's counter is an int that would wrap.
- ShellCode.Parseredirs: redirections are collected and wrapped around the command at the end, because the source fills
  in the command's arguments underneath them in place. `>` and `>>` give the same tree, as in the source.
