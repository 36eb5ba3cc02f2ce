# A verified model of openkernel

openkernel is a 32-bit teaching kernel. This project models the parts of it that carry state with hard invariants, in
the form the kernel has them (global variables, arrays and in-band headers updated in place), and proves what they
promise over every input, every call sequence and every interleaving:

* **memory** (`src/kernel/memory.c`): the bitmap page allocator, two-level page tables built with its pages, the
  boot-time address space, and the heap whose block headers live among the client data;
* **OKFS and its line editor** (`src/kernel/fs.c`): a tree in 128 reusable slots, a cached path of the current
  directory, two path parsers, growable file buffers, and an editor that prints a command and reads it back;
* **the blocking mutex** (`src/kernel/sync.c`, the wait queues of `src/kernel/process.c`): a protocol between any number
  of threads under any schedule;
* **bounded buffers** (`src/kernel/kernel.c`, `src/kernel/keyboard.c`): the scrollback terminal against an unbounded
  log, and the keyboard ring shared with an interrupt.

## How it is laid out

| files | contents |
|---|---|
| `Options`, `Runs`, `Bits` | a value that may be missing; runs of a step relation; C's bitwise operators on unsigned integers, and what they mean |
| `PmmModel`, `Pmm` | page allocator: states and runs; the class over the bitmap words |
| `VmmModel`, `Vmm` | page tables in physical memory against a flat map; the class over memory words |
| `BootSpace`, `VmmInit` | the address space of `vmm_init`: its maps and page accounts; the loops |
| `HeapModel`, `HeapRuns`, `Heap` | heap as bytes and block list; every run; the class over the byte array |
| `FsOnHeap` | the filesystem on that heap, among its other clients: every byte of every file in memory |
| `MutexModel`, `Mutex` | the lock protocol; wait queues and the lock as linked objects |
| `Keyboard` | the ring, its interleavings, and the class |
| `ScrollbackModel`, `Scrollback` | the unbounded log; the 100-row terminal |
| `Paths`, `FsTree`, `FsUpdates`, `FsPaths` | path strings; the node tree, both parsers, path rendering; updates of the tree; where paths lead |
| `Buffers`, `FsModel`, `FsRuns`, `FsRoundTrip` | buffers, their owners and the ledger of allocations, stores and frees; filesystem state and calls; what each call promises; write-then-read |
| `FsAnswers`, `EditAnswers` | when each call or editor line succeeds, and what it reports otherwise |
| `EditText`, `EditModel`, `EditProofs`, `EditMemory` | lines and numbers; the editor; ownership; the memory a replacement needs |
| `EditTheorems`, `EditSession` | the main editor results and every run; whole sessions |
| `FsLimits`, `EditLimits` | runs that reach the limits of the filesystem and of the editor |
| `LineOutput` | printing in lines and chunks |
| `FsLoops`, `Okfs` | the loops of `fs.c`, each proved to compute its function; the class with the kernel's globals |

A module whose name ends in `Model`, `Runs`, `Proofs` or `Theorems` works on values: a state, a step and what all steps
keep. The classes carry the real fields and loops, and their contracts say which step of that state each method is. Long
operations are cut into small methods and lemmas, one concept each.

## Reading the main results

* **Heap.** `HeapRuns.EveryRunIsSound`: after any sequence of `kmalloc`, `kfree` of live pointers and client writes inside
  live payloads, the header words read back from memory are a list of blocks that tiles the heap exactly, the clients'
  pointers are exactly the payloads of the blocks in use, and each payload holds what its client last stored.
  `Heap.KernelHeap` shows that the pointer-chasing code is that step system.
* **Page tables.** `VmmModel.MapRefines` and `VmmModel.UnmapRefines`: the two-level structure is one flat map, updated at
  exactly one page; `VmmInit.Init` follows all of `vmm_init` for any number of free pages, and with enough of them every
  byte of the heap that `kmalloc` uses is mapped, writable and apart from every other (`BootSpace.HeapBytesApart`).
* **Page allocator.** `Pmm.PageAllocator.FindFreePage`: the hinted circular scan always finds the lowest free page.
* **Filesystem.** `EditTheorems.EveryRun`: over every run of filesystem and editor calls and every pattern of allocation
  failures, the nodes are a tree of depth at most 127, the cached path is the fresh rendering and resolves back to the
  current directory exactly when it has at most 254 characters, every live buffer has exactly one owner, and in the ledger
  of all `kmalloc` and `kfree` calls and stores no buffer is ever freed or stored to while it is not live, handed out
  while it is, or stored to beyond its end. `FsOnHeap.EveryRunInMemory` puts such a run on the kernel heap, shared with
  any other clients: each file's bytes are in memory where its buffer is.
* **Editor.** `EditTheorems.LineReplacementIsASplice`, `EditTheorems.InlineEditIsIdentity` and
  `EditSession.SaveWritesOpenedFile`, each with its exact condition.
* **Mutex.** `MutexModel.EveryRunIsSafe`: mutual exclusion and no lost wakeup hold all along a run, of any threads, calls
  and schedule, exactly when no holder locked again and nobody but the holder unlocked a held mutex.
* **Paths and answers.** `FsPaths.ComponentLeads` with `FsTree.WalkAppend` fixes where every path leads, and `FsAnswers` and
  `EditAnswers` give for each call and editor line the exact condition of its success.
* **Terminal and keyboard.** `ScrollbackModel.LogIsLayout` with `Scrollback.Terminal`, and `Keyboard.EventsTellKeys`: the
  keys accepted and delivered, in every interleaving, from the list of events alone.

Expectations that turn out false of the code as it stands, each with the exact condition under which it holds and, where
the failing side is not plain from the condition, an input or run that reaches it:

* rounding a request covers it: exactly up to 0xFFFFFFF0 (`HeapRuns.RoundingCoversRequest`); a request of 0xFFFFFFF1 is
  granted no byte (`HeapRuns.WrappedRequestGetsNothing`);
* freeing leaves no two free neighbours: `HeapModel.FreeNeighboursExactly`; a run of two requests and two frees leaves
  them (`HeapRuns.NeighboursStayApart`);
* an unlock keeps mutual exclusion: exactly when the caller holds the mutex or it is free
  (`MutexModel.UnlockSafeExactly`); `MutexModel.StrangersUnlockBreaks` ends with two holders;
* a lock keeps the mutex usable: exactly when the caller does not hold it already (`MutexModel.LockSafeExactly`); a holder
  that locks again blocks itself and everyone else for good, unless a stranger unlocks (`MutexModel.SecondLockIsForever`);
* the cached path leads back to the current directory: exactly up to 254 characters (`FsTree.RenderedPathResolves`); six
  nested names of 47 characters are too many (`FsLimits.DeepPathIsLost`);
* a file is found under the path it was written with: exactly when the last part has at most 47 characters
  (`FsRoundTrip.WriteThenRead`). A longer last part is cut; the write fails unless the cut name ends in `.txt`
  (`FsRoundTrip.LongNamesAreCutAtTxt`), and otherwise the file is there under the cut name only (`FsLimits.LongNameIsLost`);
* the two path parsers agree: `FsRoundTrip.ParsersDisagreeExactly`; they never do on `/` (`FsLimits.RootIsNeverFound`);
* a failed write changes nothing: exactly unless it had just created the file (`FsRuns.WriteKeeps`,
  `FsLimits.EmptyFileStaysBehind`);
* a line number out of range changes nothing: exactly when it does not wrap back into range, the number being kept in a
  32-bit `int` that wraps (the Makefile compiles with `-O0`): `EditTheorems.OutOfRangeChangesNothing`;
  `:e 4294967297 text` replaces line 1 (`EditTheorems.WrappedNumberEditsLineOne`);
* `:e n text` replaces line n: exactly when the result fits in 64 KB and every `kmalloc` call of the rebuild is served,
  the number of calls being `EditMemory.Calls` (`EditTheorems.LineReplacementIsASplice`); failed appends are ignored
  (`fs.c:721-726`), so otherwise text is lost while success is reported. Without any memory all of it is
  (`EditTheorems.NoMemoryLosesText`), and three calls reach that state (`EditLimits.ReplacementLosesText`);
* a fetched line that is handed back is put back: exactly when it has no NUL, at most 255 bytes and memory for the rebuild
  (`EditTheorems.InlineEditIsIdentity`), if it does not begin with `:`; then it is taken as a command, and a line `:q` ends
  the session (`EditLimits.FetchedCommandIsObeyed`);
* `:w` saves into the file that was opened: exactly when the path, cut to 255 characters, still leads to it
  (`EditSession.SaveWritesOpenedFile`); three calls save `cut.txt` into a new file `cut` (`EditLimits.SaveGoesElsewhere`);
* a stored cell has the attribute 7: exactly for ASCII characters, others being sign-extended
  (`ScrollbackModel.CellHoldsCharacter`);
* output loses nothing but newlines: exactly when there is no NUL in the text (`LineOutput.SeenLosesNothingExactly`).

Where the code and its documentation differ the code is followed: `wiki/Component-Memory.md` promises merging on free,
while `kfree` absorbs one free successor only, so two free blocks can be neighbours. `fs_mkdir` reports every failure of
`fs_create_entry`, an existing name included, as "Filesystem full" (`fs.c:362`, `FsRoundTrip.MkdirMakes`).

## Model

| member | source | states |
|---|---|---|
| `Pmm.PageAllocator.constructor` | src/kernel/memory.c:73-131 | after initialisation exactly the pages from the kernel's end up are free, and the counter says how many |
| `Pmm.PageAllocator.ReserveAll` | src/kernel/memory.c:80-98 | every page is used |
| `Pmm.PageAllocator.ReleaseFrom` | src/kernel/memory.c:108-123 | the pages from the start page on are free and counted exactly |
| `Pmm.PageAllocator.SetBit` | src/kernel/memory.c:35-44 | the word operations change one bit of the bitmap and no other, pages beyond the last included; nothing happens beyond the bitmap |
| `Pmm.PageAllocator.GetBit` | src/kernel/memory.c:46-51 | reads that bit of the bitmap; 1 beyond the bitmap |
| `Pmm.PageAllocator.FindFreePage` | src/kernel/memory.c:53-62 | the hinted circular scan returns the lowest free page, "not found" exactly when none is free, and moves the hint past it |
| `Pmm.PageAllocator.Scan` | src/kernel/memory.c:53-62 | the scan loop refines the plain lowest-first search |
| `Pmm.PageAllocator.AllocPage` | src/kernel/memory.c:133-143 | takes the lowest free page; keeps "all pages below the hint are used" |
| `Pmm.PageAllocator.FreePage` | src/kernel/memory.c:145-154 | frees that page, lowers the hint when needed, ignores pages out of range |
| `PmmModel.AllocKeeps` | src/kernel/memory.c:133-143 | an allocation keeps the hint sound and the counter exact |
| `PmmModel.FreeKeeps` | src/kernel/memory.c:145-154 | a free keeps the hint sound always, and the counter exact if and only if the page was in use |
| `PmmModel.EveryRunIsSound` | src/kernel/memory.c:53-154 | over every run in which clients free what they hold: a page is used iff reserved or held, no page is issued twice, the counter equals the clear bits |
| `VmmModel.StorePte` | src/kernel/memory.c:201-201 | writing one table entry changes the translation of one page only, because tables are distinct frames |
| `VmmModel.AddTable` | src/kernel/memory.c:179-196 | a cleared table in a page the allocator had free changes no translation and keeps frames distinct |
| `VmmModel.MapRefines` | src/kernel/memory.c:175-205 | mapping on two levels refines one update of the flat map, or none when no table can be had |
| `VmmModel.UnmapRefines` | src/kernel/memory.c:207-214 | unmapping refines the removal of one page from the flat map |
| `Vmm.AddressSpace.constructor` | src/kernel/memory.c:244-251 | a cleared directory in the lowest free frame, or at address 0 when the allocator returns NULL, maps nothing |
| `Vmm.AddressSpace.Clear` | src/kernel/memory.c:189-191 | clears exactly the 1024 words of a table |
| `Vmm.AddressSpace.EnsureTable` | src/kernel/memory.c:179-196 | keeps the table or installs a cleared one; fails when the allocator returns NULL |
| `Vmm.AddressSpace.MapPage` | src/kernel/memory.c:175-205 | the flat map gains exactly that page, with the entry made of address, flags and the present bit, whatever they are |
| `Vmm.AddressSpace.StoreEntry` | src/kernel/memory.c:198-201 | stores the entry at the index that translation reads |
| `Vmm.AddressSpace.UnmapPage` | src/kernel/memory.c:207-214 | the flat map loses exactly that page |
| `Vmm.AddressSpace.GetPte` | src/kernel/memory.c:162-173 | the address of the table entry, NULL iff the directory entry is absent |
| `Vmm.AddressSpace.TakePage` | src/kernel/memory.c:289-293 | allocating a data page disturbs no translation and takes no table |
| `Vmm.EntryHoldsFrameAndFlags` | src/kernel/memory.c:201-201 | for page-aligned addresses and flags below 0x1000 the entry holds that frame and those flags |
| `Vmm.VirtualIndices` | src/kernel/memory.c:163-171 | the shifts and masks split an address into directory and table index |
| `VmmInit.RunLoop` | src/kernel/memory.c:254-281 | a mapping loop maps a run of pages onto a run of frames and takes at most one table, or maps nothing when there is no page for the table |
| `VmmInit.FixedRegions` | src/kernel/memory.c:253-281 | low memory, kernel window, VGA and VBE are mapped as far as the free pages suffice for their three tables |
| `VmmInit.Screens` | src/kernel/memory.c:266-281 | the VGA regions are mapped if low memory has its table, VBE if there is a page for its own |
| `VmmInit.HeapPage` | src/kernel/memory.c:289-295 | one heap page on the lowest free frame; nothing when the allocator returns NULL |
| `VmmInit.HeapLoop` | src/kernel/memory.c:288-297 | until the pages run out, every heap page is on its own frame; pages taken are accounted for exactly, one that is lost for want of a table included |
| `VmmInit.Init` | src/kernel/memory.c:237-297 | for any number of free pages, page 0 among them or not: 16,404 are taken, or all if there are fewer; memory then holds the regions and heap pages they suffice for, each heap frame distinct from the others, from the directory and from all tables; with 16,404 pages every byte of the heap that `kmalloc` uses is mapped, present and writable |
| `BootSpace.HeapAccount` | src/kernel/memory.c:288-297 | how far the free pages go: 16,400 for the whole heap; fewer are used up, at most one in vain |
| `BootSpace.HeapTurnExactly` | src/kernel/memory.c:289-295 | with a page to take, the next heap page is mapped if and only if there is also a page for its table, should it need one; otherwise that last page is lost |
| `BootSpace.FixedMapIsWhole` | src/kernel/memory.c:253-281 | three pages suffice for all fixed regions |
| `BootSpace.BootMapReads` | src/kernel/memory.c:253-297 | reads the result: first 4 MB to itself, 1 MB at KERNEL_VIRTUAL_BASE from 0x100000, each heap page to its frame, nothing else mapped |
| `BootSpace.BootTranslates` | src/kernel/memory.c:253-297 | the address that every virtual address is translated to after a boot with enough pages, the heap at `HEAP_START` included, or that there is none |
| `BootSpace.HeapBytesApart` | src/kernel/memory.c:288-297 | no two bytes of the heap share a physical byte, and none lies in the directory or in a table |
| `VmmModel.RightsAreInTheEntry` | src/kernel/memory.c:195-201 | a page may be written if and only if its table entry is writable: the directory takes no right away |
| `BootSpace.HeapStep` | src/kernel/memory.c:288-297 | one more heap page keeps the frames distinct and the page account exact across table boundaries |
| `HeapModel.TilingIsExact` | src/kernel/memory.c:313-329 | headers and payloads add up to HEAP_SIZE, in strictly increasing order |
| `HeapModel.ListDeterminedByMemory` | src/kernel/memory.c:337-348 | the header words in memory determine the block list |
| `HeapModel.MallocKeepsHeap` | src/kernel/memory.c:355-366 | after an allocation memory again spells out an exact tiling |
| `HeapModel.MallocKeepsOther` | src/kernel/memory.c:355-366 | an allocation leaves every other block's header and payload bytes alone |
| `HeapModel.FreeKeepsHeap` | src/kernel/memory.c:370-381 | after a free memory again spells out an exact tiling |
| `HeapModel.FreeKeepsOther` | src/kernel/memory.c:370-381 | a free leaves every other block's header and payload bytes alone |
| `HeapModel.FreeNeighboursExactly` | src/kernel/memory.c:376-380 | the freed block has a free neighbour before it if and only if it had one, and one behind it if and only if two free blocks followed |
| `HeapRuns.StepSound` | src/kernel/memory.c:331-381 | every event keeps memory, block list and clients' view in agreement, and never hands out a live pointer |
| `HeapRuns.EveryRunIsSound` | src/kernel/memory.c:313-381 | heap integrity over every run: exact tiling, live payloads intact, at most 28 bytes above the rounded request |
| `HeapRuns.LivePayloadsDisjoint` | src/kernel/memory.c:331-381 | two live payloads never share a byte and lie inside the heap |
| `HeapRuns.MallocAnswersExactly` | src/kernel/memory.c:331-354 | a positive request is refused if and only if no free block is as large as the rounded request; otherwise it is served from a smallest such block, the first of these |
| `HeapRuns.RoundingCoversRequest` | src/kernel/memory.c:335-335 | the rounded size covers the request if and only if the request is at most 0xFFFFFFF0; above, it is 0 |
| `HeapRuns.MallocMinimumSize` | src/kernel/memory.c:355-364 | blocks stay at 16 bytes or more exactly when the request does not wrap or the block is not split |
| `HeapRuns.WrappedRequestGetsNothing` | src/kernel/memory.c:335-367 | the concrete failing request: a block without any payload |
| `HeapRuns.NeighboursStayApart` | src/kernel/memory.c:331-381 | every run of two requests of 16 bytes and their frees in the same order ends with two free neighbours |
| `HeapRuns.EveryBlockAtLeast16` | src/kernel/memory.c:331-381 | over every run of requests that do not wrap, no block is smaller than 16 bytes |
| `Heap.KernelHeap.constructor` | src/kernel/memory.c:313-329 | whatever memory held, one free block spans the heap |
| `Heap.KernelHeap.Kmalloc` | src/kernel/memory.c:331-368 | NULL iff the size is 0 or no free block fits; otherwise the first smallest fitting block, and no client byte changes |
| `Heap.KernelHeap.FindBestFit` | src/kernel/memory.c:337-348 | following the links in memory finds the first minimum-size fitting block, or shows there is none |
| `Heap.KernelHeap.Take` | src/kernel/memory.c:355-367 | the chosen block is allocated or split, and the headers agree |
| `Heap.KernelHeap.Carve` | src/kernel/memory.c:355-366 | the stores write two complete headers, or one flag, and nothing else |
| `Heap.KernelHeap.Kfree` | src/kernel/memory.c:370-381 | frees a live pointer's block, absorbing a free successor; every other client's bytes stay |
| `Heap.KernelHeap.Unlink` | src/kernel/memory.c:373-380 | the stores of a free change one header only |
| `Heap.KernelHeap.Absorb` | src/kernel/memory.c:378-379 | the merged header has both sizes, the header between them, and the successor's link |
| `MutexModel.EveryRunIsSafe` | src/kernel/sync.c:17-71 | for any threads, calls and schedule: at most one holder, `locked` is 1 iff there is one, the queue lists exactly the sleepers and no wakeup is lost, all along a run if and only if no holder locked again and nobody but the holder unlocked a held mutex |
| `MutexModel.LockKeeps` | src/kernel/sync.c:17-44 | a lock attempt by a thread that is not the holder, first or after a wakeup, keeps all of this |
| `MutexModel.LockSafeExactly` | src/kernel/sync.c:17-44 | a lock attempt keeps it if and only if the caller is not the holder |
| `MutexModel.UnlockKeeps` | src/kernel/sync.c:46-59 | so does an unlock by the holder, or of a free mutex |
| `MutexModel.TryLockKeeps` | src/kernel/sync.c:61-71 | so does a try-lock by anyone, the holder included, whether or not it succeeds |
| `MutexModel.UnlockSafeExactly` | src/kernel/sync.c:46-59 | an unlock keeps the invariant if and only if the caller holds the mutex or it is free |
| `MutexModel.StrangersUnlockBreaks` | src/kernel/sync.c:46-59 | the failing run: one thread locks, another unlocks and locks, and both hold the mutex |
| `MutexModel.SecondLockIsForever` | src/kernel/sync.c:17-44 | after a holder's second lock no thread ever holds the mutex again, whatever the schedule, unless a stranger unlocks it |
| `MutexModel.CallsTakeExactly` | src/kernel/sync.c:17-71 | a lock or try-lock takes the mutex if and only if it is free; a lock otherwise sleeps, a try-lock never |
| `MutexModel.WokenInOrder` | src/kernel/sync.c:36-59 | over every polite run, the sleepers are the last of those that ever fell asleep, in that order |
| `MutexModel.NextWoken` | src/kernel/process.c:345-357 | whoever is woken is the one that has slept longest |
| `MutexModel.SleepersAreServed` | src/kernel/sync.c:36-59 | while threads sleep, some thread can act at once and its step passes the mutex on |
| `Mutex.WaitQueue.Block` | src/kernel/process.c:321-341 | the current process joins the tail, blocked; the idle process never does |
| `Mutex.WaitQueue.Wake` | src/kernel/process.c:345-357 | the longest waiting process leaves, ready; the others keep their places |
| `Mutex.WaitQueue.WakeAll` | src/kernel/process.c:361-365 | everyone leaves, longest waiting first |
| `Mutex.Lock.constructor` | src/kernel/sync.c:12-15 | free, nobody waiting |
| `Mutex.Lock.Exchange` | src/kernel/sync.h:22-29 | returns the old word and stores the new one |
| `Mutex.Lock.Acquire` | src/kernel/sync.c:17-44 | one stretch with interrupts off is the lock step: acquires iff free, else ends blocked at the queue's tail |
| `Mutex.Lock.Release` | src/kernel/sync.c:46-59 | is the unlock step and wakes the longest waiting process |
| `Mutex.Lock.TryAcquire` | src/kernel/sync.c:61-71 | is the try-lock step; succeeds iff free |
| `Keyboard.IrqKeepsUnread` | src/kernel/keyboard.c:567-574 | an interrupt appends its key and overwrites no unread slot; the key is dropped if and only if 63 are pending |
| `Keyboard.AdvancePops` | src/kernel/keyboard.c:672-676 | advancing the tail removes exactly the oldest key |
| `Keyboard.EveryInterleaving` | src/kernel/keyboard.c:567-679 | for every interleaving of the interrupt with the reader's test, fetch and advance, delivered ++ pending is the accepted keys in order |
| `Keyboard.ReleaseIsIgnored` | src/kernel/keyboard.c:568-568 | a code with bit 7 set changes nothing at all |
| `Keyboard.EventsTellKeys` | src/kernel/keyboard.c:567-679 | in every interleaving the keys accepted are exactly the presses that arrived with fewer than 63 waiting, and those delivered are the first of them, one per advance |
| `Keyboard.KeyRing.Irq` | src/kernel/keyboard.c:567-574 | the handler is the interrupt step |
| `Keyboard.KeyRing.Check` | src/kernel/keyboard.c:670-673 | true iff a key is pending |
| `Keyboard.KeyRing.Fetch` | src/kernel/keyboard.c:674-674 | reads the oldest slot without freeing it |
| `Keyboard.KeyRing.Advance` | src/kernel/keyboard.c:675-676 | returns the oldest key accepted and not yet delivered, interrupts in between notwithstanding |
| `ScrollbackModel.LogIsLayout` | src/kernel/kernel.c:154-184 | the log kept one character at a time is the whole stream wrapped at 80 columns |
| `ScrollbackModel.CellHoldsCharacter` | src/kernel/kernel.c:160-160 | the low byte of a cell is the character; the high byte is the attribute 7 if and only if the character is ASCII |
| `ScrollbackModel.RowsGrow` | src/kernel/kernel.c:154-183 | a newline starts a row and shows nothing; any other character extends the last row, and starts a new one when that is 80 long |
| `Scrollback.WindowMoves` | src/kernel/kernel.c:95-125 | offset 0 ends with the newest row, each step shows one row more of the past, and the largest offset reaches the oldest |
| `ScrollbackModel.LayoutAppend` | src/kernel/kernel.c:154-184 | one more character changes a layout only at its end |
| `Scrollback.Terminal.Clear` | src/kernel/kernel.c:133-145 | whatever the buffers held, the log starts again |
| `Scrollback.Terminal.PutChar` | src/kernel/kernel.c:154-184 | the stored rows stay the last min(L,100) rows of the wrapped stream, and the screen is redrawn at line breaks |
| `Scrollback.Terminal.StoreCell` | src/kernel/kernel.c:160-160 | the cell at the cursor extends the last log row |
| `Scrollback.Terminal.NewRow` | src/kernel/kernel.c:168-180 | a line break adds an empty row and, beyond 100, drops the oldest |
| `Scrollback.Terminal.ShiftUp` | src/kernel/kernel.c:172-175 | every row moves up by one |
| `Scrollback.Terminal.ReservePromptLine` | src/kernel/kernel.c:636-657 | acts on the log as a newline, and returns the view to the bottom |
| `Scrollback.Terminal.Scroll` | src/kernel/kernel.c:115-130 | the offset stays within 0..max(0, total-25), and the screen shows the matching window |
| `Scrollback.Terminal.Refresh` | src/kernel/kernel.c:95-112 | the screen shows exactly the 25 log rows at the offset |
| `Paths.SplitJoin` | src/kernel/fs.c:136-149 | splitting at slashes undoes joining with them, with or without a final slash |
| `Paths.PartsOfPath` | src/kernel/fs.c:203-234 | the components of a path are those of its parent path and its last part |
| `FsTree.FindsItself` | src/kernel/fs.c:108-117 | sibling names being unique, a node is found under its parent and name |
| `FsTree.ParsersAgree` | src/kernel/fs.c:108-234 | `fs_resolve` returns a node if and only if `fs_resolve_parent` plus `fs_find_child` return it, for last names of at most 47 characters |
| `FsTree.SpecialNamesAreNeverChildren` | src/kernel/fs.c:87-96 | an empty name, `.` and `..` are never found by name |
| `FsRoundTrip.ParsersDisagreeExactly` | src/kernel/fs.c:157-234 | for all paths: the parsers disagree if and only if the path resolves and is too long or ends in a special name, or the cut form of a long last part is found |
| `FsTree.DepthBound` | src/kernel/fs.c:121-134 | no parent chain exceeds 127 links, so the 128-entry stack holds every one |
| `FsTree.ChainLeadsBack` | src/kernel/fs.c:131-134 | the names on the parent chain lead from the root back to the node |
| `FsTree.RenderJoins` | src/kernel/fs.c:136-149 | the append loop renders the joined path if it has at most 254 characters, and else a shorter prefix with a slash |
| `FsTree.RenderedPathResolves` | src/kernel/fs.c:119-201 | the rendered path resolves from the root to the node if and only if the joined path has at most 254 characters |
| `FsPaths.ComponentLeads` | src/kernel/fs.c:172-197 | `.` stays, `..` leads to the parent and at the root stays, a name leads to the child of that name or is not found, and 48 or more characters are invalid |
| `FsPaths.UpUndoesDown` | src/kernel/fs.c:157-201 | a child's name followed by `/..` leads back, and followed by `/.` to the child |
| `FsPaths.UpsClimb` | src/kernel/fs.c:185-189 | each `..` takes one level away, and 127 of them lead to the root from anywhere |
| `FsPaths.AbsoluteFromRoot` | src/kernel/fs.c:157-170 | a path that begins with a slash leads where the rest leads from the root |
| `FsPaths.WantedDirectory` | src/kernel/fs.c:198-200 | asking for a directory changes the answer only for files |
| `FsPaths.ParentLeads` | src/kernel/fs.c:203-234 | what precedes the last slash is resolved as a directory, or is the root; the rest is the name, cut to 47 characters; 256 characters are too many |
| `FsPaths.CdUp` | src/kernel/fs.c:345-353 | `cd ..` goes to the parent, and at the root stays |
| `FsPaths.CdUpUndoesCd` | src/kernel/fs.c:345-353 | `cd` into a directory below and `cd ..` is no change at all |
| `FsPaths.NamesAreClean` | src/kernel/fs.c:86-96 | no name in the tree is empty, special, too long, or holds a slash or backslash |
| `FsUpdates.CreateKeepsTree` | src/kernel/fs.c:272-289 | a new node in a free slot keeps the tree, even a slot used before |
| `FsUpdates.RemoveKeepsTree` | src/kernel/fs.c:382-408 | removing a leaf keeps the tree |
| `FsUpdates.RenderKept` | src/kernel/fs.c:119-155 | creating or removing another leaf leaves a directory's rendered path as it was, so the cache need not be refreshed |
| `Buffers.NewCapIsEnough` | src/kernel/fs.c:244-246 | capacities are 256 times a power of two up to 65536; the clamp never cuts below what is needed; doubling stops |
| `Buffers.AppendAppends` | src/kernel/fs.c:535-554 | a successful append gives old ++ data in the same or a fresh buffer, the old one freed; a failed one changes nothing |
| `Buffers.OverwriteWrites` | src/kernel/fs.c:236-270 | a successful overwrite gives the data; a failed one changes nothing |
| `Buffers.SlotUpdated` | src/kernel/fs.c:236-270 | such an operation on one owner keeps "every live buffer has exactly one owner" and all other contents |
| `Buffers.PutAccounts` | src/kernel/fs.c:236-270 | growing and storing keep the ledger: what is handed out was not live, what is freed was, every byte stored lies inside a live buffer, and replaying the ledger gives the live buffers and all their bytes |
| `Buffers.FreeAccounts` | src/kernel/fs.c:556-564 | so does freeing a live buffer |
| `Buffers.AccountIsZeroOrOne` | src/kernel/fs.c:236-270 | at every moment of an orderly ledger, a pointer's allocations minus frees are 1 if it is live and 0 otherwise |
| `FsModel.InitIsSound` | src/kernel/fs.c:308-326 | the initial state satisfies the invariant and has no files |
| `FsModel.CreateKeeps` | src/kernel/fs.c:272-289 | a new entry takes a free slot, empty, and leaves all files and paths alone; on error nothing changes |
| `FsModel.PutBufKeeps` | src/kernel/fs.c:236-270 | a buffer operation on one file changes that file only |
| `FsRuns.CdKeeps` | src/kernel/fs.c:345-353 | moves exactly when the path resolves to a directory; keeps the invariant, cached path included; a failure changes nothing and reports the resolution's error |
| `FsRuns.MkdirKeeps` | src/kernel/fs.c:355-363 | keeps the invariant and all files; a failure changes nothing |
| `FsRuns.TouchKeeps` | src/kernel/fs.c:365-380 | adds at most one empty file; a failure changes nothing |
| `FsRuns.RmKeeps` | src/kernel/fs.c:382-408 | removes exactly one leaf, frees its buffer and leaves all other nodes and files; keeps the cached path right even when the current directory goes |
| `FsRuns.OverwriteKeeps` | src/kernel/fs.c:236-270 | on success the file holds the data; on failure nothing changed |
| `FsRuns.WriteKeeps` | src/kernel/fs.c:499-518 | on success the named file, old or new, holds the data and every other file is as before; on failure nothing changed, unless the file was just created: then it stays, empty, which happens if and only if there is no room for the data |
| `FsRuns.AppendKeeps` | src/kernel/fs.c:520-531 | the named file holds old ++ data; every other file is as before; a failure changes nothing |
| `FsRuns.PutKeeps` | src/kernel/fs.c:236-270 | the first bytes kept, then the data, all or nothing |
| `FsAnswers.CreateExactly` | src/kernel/fs.c:272-289 | an entry is made if and only if the name is valid, a text name for a file, not taken, and a slot is free; otherwise the code of the first of these that fails |
| `FsAnswers.TouchExactly` | src/kernel/fs.c:365-380 | succeeds if and only if the path names a file that is there or one that can be made; otherwise the code that says why not |
| `FsAnswers.RmExactly` | src/kernel/fs.c:382-408 | succeeds if and only if the path leads to a node that is not the root and has nothing below it; the code of each failure; the current directory moves up only if it was removed, and the editor is not touched |
| `FsAnswers.PutExactly` | src/kernel/fs.c:236-257 | data is stored if and only if it fits in 64 KB and in the buffer's capacity or a new buffer can be had |
| `FsAnswers.WriteExactly` | src/kernel/fs.c:499-518 | succeeds if and only if the path names a file with room for the data, or one that can be made with room for it; the code of each failure |
| `FsAnswers.AppendExactly` | src/kernel/fs.c:520-531 | succeeds if and only if the path leads to a file with room for the longer contents; the code of each failure |
| `FsAnswers.NewEntryFrame` | src/kernel/fs.c:355-380 | `mkdir` and `touch` change at most one node, which was free, and nothing else |
| `FsAnswers.DataFrame` | src/kernel/fs.c:499-531 | a write or append leaves the current directory and the editor alone |
| `FsRoundTrip.WalkKept` | src/kernel/fs.c:172-197 | a path that resolves still resolves to the same node after nodes are added |
| `FsRoundTrip.NamedIsResolved` | src/kernel/fs.c:157-234 | the node named by a path's parent and last part is what the path resolves to, if and only if that part was not cut off |
| `FsRoundTrip.MkdirMakes` | src/kernel/fs.c:355-363 | succeeds if and only if the parent exists, the name is valid and new there and a slot is free; then the path leads to one new directory and nothing else changed; otherwise the code is the parent's error, "invalid" for the name, or "full", an existing name included |
| `FsRoundTrip.TouchMakes` | src/kernel/fs.c:365-380 | after success the path leads to a file: the old one with its contents, or a new empty one |
| `FsRoundTrip.WriteThenRead` | src/kernel/fs.c:468-518 | after a write, the same path resolves to the written file if and only if its last part has at most 47 characters |
| `FsRoundTrip.LongNamesAreCutAtTxt` | src/kernel/fs.c:203-289 | a write under a last part of 48 or more characters fails unless its first 47 end in `.txt` |
| `FsRoundTrip.WriteExtends` | src/kernel/fs.c:499-518 | whatever comes of a write, every old node stays under its name and parent |
| `FsLimits.DeepPathIsLost` | src/kernel/fs.c:119-155 | a run of 12 calls after which the cached path leads to another directory |
| `FsLimits.LongNameIsLost` | src/kernel/fs.c:203-234 | for every such name: written on a fresh filesystem, the file is found under the cut name only |
| `FsLimits.EmptyFileStaysBehind` | src/kernel/fs.c:508-517 | a first write without memory fails and leaves an empty file |
| `FsLimits.RootIsNeverFound` | src/kernel/fs.c:157-234 | the parsers disagree on `/` in every state |
| `EditText.RebuildSplices` | src/kernel/fs.c:711-730 | the segment-by-segment rebuild is the bytes before line n, the text, the bytes after line n |
| `EditText.LineExists` | src/kernel/fs.c:694-697 | every line number up to the total has a start |
| `EditText.NoMoreLines` | src/kernel/fs.c:694-697 | and no larger one has |
| `EditText.ParseWraps` | src/kernel/fs.c:688-690 | the digit loop on an `int` computes the typed number modulo 2^32, as a signed value |
| `EditText.ParseUndoesPrint` | src/kernel/fs.c:620-690 | the `:e` parser undoes the decimal print if and only if the number is below 2^31 |
| `EditProofs.RebuildGrows` | src/kernel/fs.c:711-730 | the rebuild touches the new buffer only, and holds the rebuilt text when its allocations succeed |
| `EditProofs.ReplaceKeeps` | src/kernel/fs.c:707-732 | `:e n text` swaps buffers without a leak, allocations failing or not; the old buffer is live when it is freed, and the ledger stays in order; no file changes; the text is the rebuilt one if and only if every append succeeded, and shorter otherwise |
| `EditProofs.RebuildFills` | src/kernel/fs.c:711-730 | the new buffer is as long as the rebuilt text if and only if every append succeeded, and never longer |
| `EditProofs.RebuildAccounts` | src/kernel/fs.c:711-730 | every allocation, store and free of the rebuild is entered in order |
| `EditProofs.BeginKeeps` | src/kernel/fs.c:579-602 | opening keeps the invariant and copies the file's contents |
| `EditProofs.HandleLineKeeps` | src/kernel/fs.c:604-745 | every editor line keeps the invariant |
| `EditMemory.AppendServed` | src/kernel/fs.c:535-554 | an append succeeds if and only if its result fits and its `kmalloc` call, if it makes one, returns a pointer that is not live |
| `EditMemory.RebuildServed` | src/kernel/fs.c:711-730 | every append of the rebuild succeeds if and only if the new text fits and all the calls it makes, counted from the lengths, are served |
| `EditMemory.CallsAreFew` | src/kernel/fs.c:535-554 | a rebuild that fits makes at most nine `kmalloc` calls, each doubling the buffer |
| `EditMemory.PlentyServes` | src/kernel/fs.c:711-730 | nine fresh pointers serve every rebuild that fits |
| `EditTheorems.LineReplacementIsASplice` | src/kernel/fs.c:687-735 | reports success, and the text becomes the exact splice if and only if that fits in 64 KB and every `kmalloc` call of the rebuild is served |
| `EditTheorems.NoMemoryLosesText` | src/kernel/fs.c:707-735 | the failing input: with no memory, replacing any line by any text reports success and leaves no text |
| `EditTheorems.OutOfRangeChangesNothing` | src/kernel/fs.c:687-697 | a typed number out of range leaves everything as it is if and only if it does not wrap back into range; below 2^31 it never does |
| `EditTheorems.AcceptedExactly` | src/kernel/fs.c:687-707 | the command is accepted if and only if the typed number modulo 2^32 is a line number and a space or nothing follows; otherwise nothing changes |
| `EditTheorems.EditsTypedLineExactly` | src/kernel/fs.c:687-735 | an accepted command edits the line with the wrapped number, which is the typed one if and only if that is below 2^31 |
| `EditTheorems.WrappedNumberEditsLineOne` | src/kernel/fs.c:687-735 | the failing input: 4294967297 is taken for line 1 |
| `EditTheorems.LineNumbersAreShort` | src/kernel/fs.c:617-624 | a line number has at most five digits, so the digit and prefix buffers are never overrun |
| `EditTheorems.FetchPrepares` | src/kernel/fs.c:699-705 | `:e n` fetches the first 255 bytes of line n and changes nothing else |
| `EditTheorems.HandBackIsReplacement` | src/kernel/fs.c:611-633 | a line handed back edits the pending line: the command `:e n line` is printed, cut to its buffer, re-read and not handed back again |
| `EditTheorems.InlineEditIsIdentity` | src/kernel/fs.c:604-735 | fetching a line, taking it and handing it back leaves the text byte-identical if and only if the line has no NUL and at most 255 bytes and every `kmalloc` call of the rebuild is served |
| `EditTheorems.ApplyKeeps` | src/kernel/fs.c:345-745 | every filesystem or editor call keeps the invariant |
| `EditTheorems.EveryRun` | src/kernel/fs.c:98-745 | in every reachable state: tree, depth, cached path and its round trip, one owner per live buffer, every buffer freed at most once and only while live, every store inside a live buffer, editor length 0 iff no buffer, a pending line number of at most five digits |
| `EditSession.SaveWritesOpenedFile` | src/kernel/fs.c:579-646 | after any lines typed, a successful `:w` or `:save` puts the text into one file and changes no other; it is the file that was opened if and only if the path cut to 255 characters still leads there, which is always so when nothing was cut |
| `EditSession.SessionStaysOpen` | src/kernel/fs.c:604-745 | while a session lasts, no line removes or moves a node or changes the current directory or the remembered path |
| `EditSession.PlainLineAppends` | src/kernel/fs.c:737-744 | a line that is no command is added to the text with a newline; an error leaves the text, or the text with the line, and no file changes |
| `EditAnswers.CommandsExactly` | src/kernel/fs.c:635-687 | which lines are `:w`, `:q`, `:p` and `:e` commands, all spellings included, and that every other line is text |
| `EditAnswers.BeginExactly` | src/kernel/fs.c:579-602 | a session is opened if and only if there is none, the path leads to a file, and a buffer can be had for its contents; the code of each failure |
| `EditAnswers.PlainLineExactly` | src/kernel/fs.c:737-744 | a line is added if and only if the longer text fits in 64 KB and the memory it asks for is served |
| `EditAnswers.SaveExactly` | src/kernel/fs.c:635-646 | `:w` and `:save` succeed if and only if there is text and the remembered path can be written; then the session is over, otherwise it goes on unchanged |
| `EditAnswers.QuitExactly` | src/kernel/fs.c:648-654 | `:q` and `:quit` reset the editor's variables and change no node |
| `EditAnswers.PrintChangesNothing` | src/kernel/fs.c:656-685 | `:p` changes nothing but a pending inline edit, which it cancels |
| `EditAnswers.InactiveRefuses` | src/kernel/fs.c:604-606 | without a session every line is refused and changes nothing |
| `EditAnswers.PendingIsTakenOnce` | src/kernel/fs.c:781-788 | a fetched line is handed out once |
| `EditLimits.ReplacementLosesText` | src/kernel/fs.c:711-735 | every run of a write, an open and `:e 1 text` with two pointers to be had ends with success reported and no text left |
| `EditLimits.SaveGoesElsewhere` | src/kernel/fs.c:590-646 | every run of a write, an open under a path of 259 characters and `:w` saves into a new file and not into the opened one |
| `EditLimits.FetchedCommandIsObeyed` | src/kernel/fs.c:604-654 | a line `:q` that is fetched and handed back ends the session |
| `EditSession.QuitDiscards` | src/kernel/fs.c:648-654 | `:q` ends the session, frees its buffer and changes no file |
| `FsOnHeap.EveryRunInMemory` | src/kernel/fs.c:98-745 | for every run of filesystem and editor calls and every run of the kernel heap that has their ledger among the events of other clients, the bytes of each file and of the text are in memory where their buffers are |
| `FsOnHeap.HeapHoldsBuffers` | src/kernel/memory.c:331-381 | in every such run each buffer is a live block, large enough, with the bytes stored last |
| `FsOnHeap.MallocServes` | src/kernel/memory.c:331-368 | what the kernel heap returns is NULL or a pointer that is not live, as the filesystem's model of `kmalloc` demands, and large enough |
| `FsOnHeap.FreeServes` | src/kernel/memory.c:370-381 | freeing a buffer takes it away from both |
| `FsOnHeap.WriteServes` | src/kernel/fs.c:259-267 | a byte stored in a buffer is stored in its block and in no other buffer |
| `FsOnHeap.ReserveServed` | src/kernel/fs.c:243-257 | growing a buffer on the kernel heap succeeds if and only if the heap has a block |
| `LineOutput.OutputLosesNothing` | src/kernel/fs.c:480-496 | the chunks concatenate to the contents without newlines, none wider than the limit |
| `LineOutput.ChunksAreFull` | src/kernel/fs.c:480-496 | every chunk of a line but the last is full, and a blank line is one empty chunk |
| `LineOutput.OutputByLines` | src/kernel/fs.c:480-496 | the output is that of the lines one after another, blank ones included |
| `LineOutput.SeenLosesNothingExactly` | src/kernel/fs.c:480-496 | what the receiver sees concatenates to the contents without newlines if and only if the contents have no NUL |
| `LineOutput.Emit` | src/kernel/fs.c:755-778 | the emit loop produces each line cut into chunks, each as the C string its receiver sees, for any width |
| `FsLoops.FindChildLoop` | src/kernel/fs.c:108-117 | finds the first used slot with that parent and name |
| `FsLoops.AllocNodeLoop` | src/kernel/fs.c:98-106 | finds the first free slot |
| `FsLoops.ResolveLoop` | src/kernel/fs.c:157-201 | the index-based parser walks the tree along the path's components, errors included |
| `FsLoops.ResolveParentLoop` | src/kernel/fs.c:203-234 | the backward scan splits at the last slash and resolves the rest |
| `FsLoops.RebuildLoop` | src/kernel/fs.c:119-155 | the stack and the append loop render the path |
| `FsLoops.ReserveLoop` | src/kernel/fs.c:243-257 | doubling, allocating, copying and freeing a live buffer give one with room |
| `FsLoops.PutLoop` | src/kernel/fs.c:236-270 | growing and copying, byte by byte, in append and overwrite mode |
| `FsLoops.CountLines` | src/kernel/fs.c:694-696 | counts lines, an unterminated last one included |
| `FsLoops.ParseLoop` | src/kernel/fs.c:688-690 | reads the number into a wrapping `int` and leaves the rest |
| `FsLoops.PrintLoop` | src/kernel/fs.c:622-623 | digits produced last first and reversed are the decimal number |
| `FsLoops.FetchLoop` | src/kernel/fs.c:792-808 | finds line n and copies at most 255 bytes of it, or reports that there is none |
| `FsLoops.RebuildBufLoop` | src/kernel/fs.c:711-730 | the rebuild loop, reading the old buffer where it lies while the new one grows, and ignoring failed appends as the kernel does |
| `Okfs.FileSystem.constructor` | src/kernel/fs.c:308-326 | the initial state |
| `Okfs.FileSystem.CreateEntry` | src/kernel/fs.c:272-289 | creates the entry or reports which rule forbids it |
| `Okfs.FileSystem.Cd` | src/kernel/fs.c:345-353 | is the `cd` step and keeps the invariant |
| `Okfs.FileSystem.Mkdir` | src/kernel/fs.c:355-363 | is the `mkdir` step and keeps the invariant |
| `Okfs.FileSystem.Touch` | src/kernel/fs.c:365-380 | is the `touch` step and keeps the invariant |
| `Okfs.FileSystem.Rm` | src/kernel/fs.c:382-408 | is the `rm` step and keeps the invariant |
| `Okfs.FileSystem.SetFileData` | src/kernel/fs.c:236-270 | is the overwrite of one file and keeps the invariant |
| `Okfs.FileSystem.WriteFile` | src/kernel/fs.c:499-518 | is the write step and keeps the invariant |
| `Okfs.FileSystem.AppendFile` | src/kernel/fs.c:520-531 | is the append step and keeps the invariant |
| `Okfs.FileSystem.WriteBlock` | src/kernel/fs.c:499-502 | NULL is refused and changes nothing; a length of 0 means the C string |
| `Okfs.BlockBytes` | src/kernel/fs.c:501-502 | a length of 0 stands for the bytes before the first NUL, any other for that many bytes |
| `Okfs.FileSystem.AppendBlock` | src/kernel/fs.c:520-523 | the same for appending |
| `Okfs.FileSystem.Cat` | src/kernel/fs.c:468-497 | emits the file's lines in chunks of at most 127 characters, as C strings, or the error |
| `Okfs.FileSystem.EditBegin` | src/kernel/fs.c:579-602 | is the step that opens a session and keeps the invariant |
| `Okfs.FileSystem.EditHandleLine` | src/kernel/fs.c:604-745 | is the step of one editor line, keeps the invariant, and calls itself at most once |
| `Okfs.FileSystem.EditLine` | src/kernel/fs.c:687-735 | is the `:e` command |
| `Okfs.FileSystem.ReplaceLine` | src/kernel/fs.c:707-732 | the rebuild into a new buffer; the old one is still live when it is freed |
| `Okfs.FileSystem.BuildCommand` | src/kernel/fs.c:614-631 | builds the command an inline edit is turned into, cut to 4094 characters |
| `Okfs.FileSystem.GetPendingLine` | src/kernel/fs.c:781-788 | hands out the fetched line and forgets it |
| `Okfs.FileSystem.Display` | src/kernel/fs.c:747-779 | emits the header and the text's lines in chunks of at most 80 characters, as C strings |

## Left out

- The ready ring, PCB slots and the scheduler of `src/kernel/process.c`: the ring and the READY state do not agree in the
  code (`process.c:71`, `108-110`, `278-280`); the mutex model lets the scheduler pick any thread that is not blocked.
- `process_block` is modelled up to its call of the scheduler; that a blocked thread does not run until it is woken is taken
  from `process.h:78-82`, and PID 0 does not contend for a mutex.
- Mutex.Lock.Acquire: one stretch with interrupts off; the loop over several wakeups is the run of the step system.
- Page tables after paging is switched on (`memory.c:302-307`), cache and TLB flushes.
- Double frees and frees of pointers or pages that the caller does not hold.
- Coalescing: `kfree` merges forward once only, so no claim that free blocks are maximal.
- The heap inside the filesystem: `kmalloc` there is a list of coming results, any of which may be NULL, and bytes that
  nobody has stored are marked as unknown. That a heap run with a given ledger exists is not proved.
- EditTheorems.InlineEditIsIdentity: is about fetched lines that do not begin with `:`; such a line is taken as a command
  when it comes back (`fs.c:611`).
- MutexModel.LockKeeps: is about callers that are not the holder; `MutexModel.LockSafeExactly` has both cases.
- Okfs.FileSystem.WriteFile: takes the bytes in hand; NULL and "length 0 means strlen" (`fs.c:501-502`) are `WriteBlock`.
- The shell's own 126-character input line, which may cut a fetched line before it is handed back.
- `:p` in the editor and all messages passed to `emit`; `fs_ls`, `fs_handle_command` and their parsing.
- The files and directories that `fs_init` creates (`fs.c:328-337`): calls of the modelled operations.
- Scrollback: the hardware cursor, `vga_replace_*` and the automatic wrap in `kernel_main`.
- Keyboard: layouts, modifiers, extended and Ctrl+T keys, which are handled before the ring is reached.
- Progress bars, delays, `printk` and all device drivers.
