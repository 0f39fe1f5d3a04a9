# Pintos kernel: a verified model

This project models the parts of the Pintos kernel (KAIST CS330) whose simple
meaning hides behind a low-level implementation, and proves that the
implementation has that meaning.

| part | files | main results |
|---|---|---|
| intrusive lists and natural merge sort | `List`, `ListOrder`, `ListSort`, `ListUnique` | pointer surgery keeps a well-formed list; the sort terminates, permutes and is stable, and each pass halves the number of runs |
| semaphores, locks, round-robin scheduling | `Scheduler` | over every interleaving: one running thread, no lost wakeup, mutual exclusion, turn-taking |
| condition variables | `Monitor` | over every interleaving: a waiter wakes exactly when it has been signalled, in turn, and a broadcast wakes everyone |
| exec, exit and wait | `Handshake` | over every interleaving: exec and wait report what happened, an info block is freed once |
| paging | `Paging`, `Pager` | every run of loads, stores, pages loaded, faults and evictions is a run of flat memory; a load gives the byte last put there |
| page tables | `PageDir` | two levels are one flat map; whatever a process maps, destruction frees exactly the pages it took, each once |
| block allocator | `Arenas`, `Malloc` | live blocks overlap neither each other nor the free blocks and headers, free counts are exact, no idle arena survives |
| file system | `Storage`, `Inode`, `Bitmap`, `Encoding`, `FsLayout`, `FsDirectory`, `FileSystem`, `FileNames`, `FlatFiles`, `FileHandles`, `Mount` | chunked I/O is flat I/O; no two files ever share a sector, over every run; every run is a run of flat files, so a read gives the bytes last written, and a file that a handle protects does not change; after any run a remount finds the directory and the listed files as they were and every sector in use marked, and the same free map if each write of it was whole; when names stay different |
| hash table | `Hash` | it is a set under the caller's equality, through every rehash, and a walk meets each element once |
| program start-up | `Arguments`, `Segments` | the argument vector a program finds; the bytes of a loaded segment |
| library | `Arithmetic`, `Heapsort`, `Format` | 64-bit division from a 64/32 divide; heapsort and binary search; printing then parsing |

Code that changes things in place is a class or a method with loops, proved
against specification functions; concurrent code is a state machine whose steps
are the regions that run with interrupts off.  Outcomes of memory allocation
are parameters (`bounceOk`, `mallocOk`, `Memory`, `okPages`) or events, so the
error paths are part of the statements; allocations that the kernel does not
check are named under "Left out".  Notions that several parts share are in
`Helpers`.

Where code and comments disagree, the model follows the code:

- A directory search ends at the first read that fails, also for want of memory
  (`src/filesys/directory.c:159-169`).  A name can then be entered twice, and a
  file can be entered over an entry in use: `DuplicateName` and `EntryTaken` do
  so on a disk just formatted.  `CreatedIsFound` and `TakenWasInUse` say exactly when they arise.
  The invariant of `FileSystem` holds all the same.
- `free_map_allocate` and `free_map_release` write the map to its file
  (`src/filesys/free-map.c:27-49`).  Without a bounce buffer only the whole sectors
  at the front are written; `Allocate` and `Release` say exactly when the file is
  then out of step with the map.  It always marks at least what the map marks, so
  that such a disk can still be mounted; sectors may stay marked for nothing.
- `filesys_create` gives back the inode's sector when it fails, and not the
  data's (`src/filesys/filesys.c:55-57`): `FilesysCreate` states the free map
  after every outcome.
- A child that halts, cannot load or is stopped by an exception leaves no exit
  status, and nothing initialises the one in its info
  (`src/threads/thread.c:227-236`): wait returns what that memory held.
- A field that is left-aligned and zero-padded at once is padded on both sides
  (`src/lib/stdio.c:527-546`); `FieldWidth` says when a field has its width.
- `swap_init` makes a slot for a last part of eight sectors
  (`src/vm/swap.c:20`); the constructor of `Pager` says when that is sound.
- The branch of `inode_write_at` that clears a bounce buffer instead of reading
  the sector (`src/filesys/inode.c:306-307`) is never taken: a partial chunk
  always leaves a part of its sector.
- `umod64` and `smod64` return 32 bits; `Umod64Exact` and `Smod64Exact` say for
  which divisors that is the remainder.
- `process_execute`'s semaphore is raised when the child exits
  (`src/threads/thread.c:334-359`), so exec returns only then.
- `swap_in` is passed `not_present` as its `writable` argument
  (`src/userprog/exception.c:206`): a page comes back writable.

## Model

| member | source | states |
|---|---|---|
| Lists.List.Insert | src/lib/kernel/list.c:169-178 | the list is well-formed again and has the new element just before the given one, the others in order |
| Lists.List.Remove | src/lib/kernel/list.c:257-263 | the list is well-formed without that element, and its successor is returned |
| Lists.List.PushFront | src/lib/kernel/list.c:209-212 | the element comes first |
| Lists.List.PushBack | src/lib/kernel/list.c:217-220 | the element comes last |
| Lists.List.PopFront | src/lib/kernel/list.c:268-273 | the first element is taken off and returned |
| Lists.List.Size | src/lib/kernel/list.c:306-314 | the walk counts every element |
| Lists.List.Reverse | src/lib/kernel/list.c:334-345 | the elements are reversed and both chains of links agree |
| Lists.List.Splice | src/lib/kernel/list.c:184-204 | within one list, two neighbouring stretches change places and nothing else moves |
| Lists.List.SpliceTo | src/lib/kernel/list.c:184-204 | between two lists, the stretch leaves the one and stands before the given element of the other; both are well-formed |
| Lists.LinkedMirror | src/lib/kernel/list.c:334-345 | exchanging every pair of links turns a well-linked chain into the well-linked mirrored chain |
| Lists.CutOut | src/lib/kernel/list.c:195-197 | taking a stretch out leaves two well-linked chains, the rest and the stretch |
| Lists.LinkIn | src/lib/kernel/list.c:199-203 | linking a stretch into a chain before an element makes one well-linked chain of them |
| Helpers.ReversedAt | src/lib/kernel/list.c:334-345 | position k of the reversal is position n-1-k |
| ListSorting.FindEndOfRun | src/lib/kernel/list.c:366-380 | the run found is nondecreasing and cannot be longer |
| ListSorting.InplaceMerge | src/lib/kernel/list.c:388-407 | the stretch of two runs becomes their stable merge, the rest of the list is untouched |
| ListSorting.SortPass | src/lib/kernel/list.c:413-448 | one pass merges the runs two by two and reports how many are left |
| ListSorting.Sort | src/lib/kernel/list.c:413-448 | for every list and strict weak order: terminates with the same elements, sorted, equal ones in their old order |
| ListOrder.MergePermutes | src/lib/kernel/list.c:388-407 | a merge has exactly the elements of both runs |
| ListOrder.MergeSorted | src/lib/kernel/list.c:388-407 | the merge of two sorted runs is sorted |
| ListOrder.MergeClass | src/lib/kernel/list.c:388-407 | within every class of equal elements, those of the first run come first and order is kept |
| ListOrder.FirstRun | src/lib/kernel/list.c:366-380 | the first run is sorted and maximal |
| ListOrder.PassKeeps | src/lib/kernel/list.c:413-448 | a pass permutes, is stable, and leaves at most half the runs, rounded up |
| ListOrder.NoDescentsSorted | src/lib/kernel/list.c:349-358 | one run means sorted |
| ListOrder.StableSortUnique | src/lib/kernel/list.c:413-448 | there is only one stable sort of a list, so the specification leaves no choice |
| ListSorting.PassIsStable | src/lib/kernel/list.c:413-448 | stability composes over passes |
| ListSorting.OneRunSorted | src/lib/kernel/list.c:413-448 | a pass that outputs one run has sorted the list |
| ListUniqueness.KeptAndDropped | src/lib/kernel/list.c:474-494 | kept and dropped elements together are the elements |
| ListUniqueness.KeepsFirstOfClass | src/lib/kernel/list.c:474-494 | of a sorted list exactly the first element of each class of equals is kept |
| ListUniqueness.Unique | src/lib/kernel/list.c:474-494 | the list keeps the first of each stretch of equals; the others go to the duplicates in order, if there is a list for them |
| Arithmetic.Nlz | src/lib/arithmetic.c:42-73 | the number of leading zero bits: shifting by it brings the top bit up |
| Arithmetic.Normalised | src/lib/arithmetic.c:121-123 | shifted by its leading zeros, the divisor's upper word fills the upper half of the word range |
| Arithmetic.EstimateIsClose | src/lib/arithmetic.c:121-124 | the quotient estimated from the leading word is too large by at most one and too small by none after the decrement |
| Arithmetic.TwoWords | src/lib/arithmetic.c:113-126 | for a divisor of two words the hardware divide cannot trap and the corrected estimate is the quotient |
| Arithmetic.OneWord | src/lib/arithmetic.c:80-111 | for a divisor of one word neither hardware divide can trap and the two results make the quotient |
| Arithmetic.Udiv64 | src/lib/arithmetic.c:78-127 | for all 64-bit n and nonzero d: the floor of n/d |
| Arithmetic.Umod64 | src/lib/arithmetic.c:132-135 | the remainder modulo 2^32 |
| Arithmetic.Umod64Exact | src/lib/arithmetic.c:132-135 | that is the remainder for every n if and only if d is at most 2^32 |
| Arithmetic.TruncDivIs | src/lib/arithmetic.c:137-146 | the truncating quotient and remainder: product plus remainder gives n, the remainder is smaller than d and has the sign of n |
| Arithmetic.Sdiv64 | src/lib/arithmetic.c:140-146 | the truncated quotient, wrapped to 64 bits |
| Arithmetic.Sdiv64Exact | src/lib/arithmetic.c:140-146 | it is the truncated quotient except for the least number divided by -1, and only then not |
| Arithmetic.Smod64 | src/lib/arithmetic.c:151-154 | the truncating remainder wrapped to 32 bits |
| Arithmetic.Smod64Exact | src/lib/arithmetic.c:151-154 | that is the remainder for every n if and only if the magnitude of d is at most 2^31 |
| Scheduler.StepKeeps | src/threads/thread.c:267-297 | every interrupts-off region keeps the whole invariant of threads, lists, semaphores and locks |
| Scheduler.ScheduleKeeps | src/threads/thread.c:536-612 | a switch leaves exactly one running thread and destroys a dying predecessor |
| Scheduler.YieldKeeps | src/threads/thread.c:364-377 | a yielding thread is on the run queue unless it is the idle thread |
| Scheduler.ExitKeeps | src/threads/thread.c:335-359 | an exiting thread is on no list |
| Scheduler.DownWaitsKeeps | src/threads/synch.c:62-77 | a thread that finds the semaphore at zero waits on exactly that list |
| Scheduler.DownTakesKeeps | src/threads/synch.c:62-77 | a successful down keeps the account of ups and downs and lets at most one thread into a lock |
| Scheduler.TryDownKeeps | src/threads/synch.c:85-103 | the same without waiting |
| Scheduler.UpKeeps | src/threads/synch.c:110-122 | an up wakes one waiter and loses no wakeup |
| Scheduler.LockPhaseKeeps | src/threads/synch.c:194-238 | recording and clearing the holder keep mutual exclusion |
| Scheduler.OnlyOneInside | src/threads/synch.c:194-238 | at most one thread is between the decrement of an acquire and the increment of its release |
| Scheduler.BootedKeeps | src/threads/thread.c:144-156 | the state after boot satisfies the invariant, whether or not the idle thread has blocked yet |
| Scheduler.RunsAreSafe | src/threads/thread.c:536-612 | so does every state that any interleaving reaches |
| Scheduler.SharedElement | src/threads/thread.h:96-101 | no thread is on the run queue and a wait list, or on two wait lists, and every listed thread exists |
| Scheduler.WakeupPending | src/threads/synch.c:62-122 | if a semaphore with waiters is up, a thread it has woken is running or ready to re-test it |
| Scheduler.StepMovesUp | src/threads/thread.c:536-612 | each switch moves the run queue up by one, no other step does |
| Scheduler.RunMovesUp | src/threads/thread.c:536-612 | so does any run, by its number of switches |
| Scheduler.RoundRobin | src/threads/thread.c:536-612 | the thread at position k of the run queue is dispatched by the (k+1)-th switch |
| Scheduler.RunKeepsTurn | src/threads/synch.c:110-122 | over any run a waiter moves up by the number of ups of its semaphore and by nothing else |
| Scheduler.WokenInTurn | src/threads/synch.c:110-122 | waiter k is woken by the (k+1)-th up and not before |
| Monitors.StepKeeps | src/threads/synch.c:290-324 | every step of wait and signal keeps the monitor's invariant |
| Monitors.RunsAreSafe | src/threads/synch.c:290-324 | every reachable state satisfies it: one thread inside, listed waiters unsignalled, signals equal to wakings and wakings due |
| Monitors.WakesExactlyWhenSignalled | src/threads/synch.c:290-304 | a waiting thread gets on if and only if it has been signalled: none is lost after the release of the lock, none comes from nowhere |
| Monitors.RunKeepsTurn | src/threads/synch.c:314-324 | over any run a waiter moves up by the number of signals |
| Monitors.SignalledInTurn | src/threads/synch.c:314-324 | waiter k is woken by the (k+1)-th signal and not before |
| Monitors.BroadcastWakesAll | src/threads/synch.c:333-340 | with any steps of other threads between its signals, a broadcast can end exactly when it has signalled everyone who waited, and by then each of them is woken |
| Monitors.StepInBroadcast | src/threads/synch.c:333-340 | while a thread broadcasts nobody joins the waiters and nobody woken gets on |
| Monitors.OneInside | src/threads/synch.c:290-340 | from an unused monitor, in every run: at most one thread is inside, and signals equal wakings and wakings due |
| Handshake.FindChild | src/threads/thread.c:118-139 | an info in the parent's list with that thread identifier and none before it, or none if there is none |
| Handshake.CreateKeeps | src/threads/thread.c:218-259 | creating a child keeps the invariant: its info is linked to parent and child |
| Handshake.FindsNew | src/userprog/syscall.c:272-275 | the info that exec looks up is the one just made for its child |
| Handshake.ExecStepKeeps | src/userprog/syscall.c:264-278 | exec of a child that could be created keeps the invariant |
| Handshake.FindsNothing | src/userprog/syscall.c:272-283 | when no thread could be created the look-up of TID_ERROR finds nothing, and exec returns it |
| Handshake.ExecFailKeeps | src/userprog/process.c:37-54 | so does exec when no page or no thread could be had |
| Handshake.ChildKeeps | src/userprog/process.c:59-87 | loading, exiting and being killed keep the invariant and write only the child's own info |
| Handshake.WaitKeeps | src/userprog/process.c:101-122 | a wait keeps it whether it finds no child, a killed child or a live one |
| Handshake.ReapKeeps | src/userprog/process.c:101-122 | reading the status and freeing the info keeps it |
| Handshake.ExitKeeps | src/threads/thread.c:335-359 | a thread's end keeps it: both semaphores go up once |
| Handshake.ExecReturnKeeps | src/userprog/syscall.c:264-284 | exec's return keeps it |
| Handshake.StepKeeps | src/userprog/process.c:101-122 | every step of every process keeps the invariant |
| Handshake.BootedKeeps | src/threads/thread.c:82-93 | the initial state satisfies it |
| Handshake.RunsAreSafe | src/userprog/process.c:59-122 | every reachable state satisfies it |
| Handshake.ExecReports | src/userprog/syscall.c:264-284 | every exec that returned gave -1 exactly when no thread could be created or the load failed, and the child's identifier otherwise |
| Handshake.WaitReports | src/userprog/syscall.c:286-290 | the parent's first wait gives the status the child exited with, -1 if it was killed, and what the info held before if it did neither; every other wait gives -1 |
| Handshake.FreedOnce | src/userprog/process.c:101-122 | an info that is gone has no living child and never comes back, so it is freed once and not used after |
| Paging.SwapOutKeeps | src/vm/swap.c:29-64 | eviction to a free slot keeps the paging invariant and changes no byte that a process sees |
| Paging.AttachKeeps | src/vm/page.c:24-34 | a frame given to a new page shows its bytes there and changes no other page |
| Paging.BringInKeeps | src/vm/swap.c:66-84 | bringing a page back frees its slot and changes no byte that a process sees |
| Paging.StoreKeeps | src/userprog/pagedir.c:131-142 | a store through the page table changes one byte of one page |
| Paging.OneFrameEach | src/vm/frame.c:15-43 | two mapped pages have different frames |
| Pagers.Pager.constructor | src/vm/swap.c:13-27 | a free slot for each eight sectors begun, and no page; the pager is sound exactly when no slot runs past the disk |
| Pagers.WriteSlot | src/vm/swap.c:46-49 | eight sector writes put the page into the slot and nothing elsewhere |
| Pagers.ReadSlot | src/vm/swap.c:74-77 | eight sector reads give the slot's bytes |
| Pagers.Pager.Evict | src/vm/swap.c:29-64 | the oldest frame goes to the first free slot |
| Pagers.Pager.Allocate | src/vm/frame.c:15-43 | there always is a frame, evicting if none is free; no page's bytes change and at most the oldest page stops being resident |
| Pagers.Pager.SetPage | src/vm/frame.c:64-79 | the page is mapped and its entry in the frame table is completed |
| Pagers.Pager.Grow | src/userprog/exception.c:182-187 | a new stack page appears and no other changes |
| Pagers.Pager.SwapIn | src/vm/swap.c:66-84 | the page is resident and all memory reads as before |
| Pagers.Pager.Install | src/userprog/process.c:551-573 | a loaded page reads as its bytes and no other changes |
| Pagers.Pager.PageFault | src/userprog/exception.c:131-231 | when a fault kills, when it grows the stack and when it swaps in; if it does not kill, the access can go ahead and no existing byte has changed |
| Pagers.Pager.Load | src/userprog/exception.c:131-231 | with room where a page must come in, a load gives the byte of flat memory, or kills exactly when the address is the kernel's or neither known nor stack |
| Pagers.Pager.Store | src/userprog/exception.c:131-231 | with room where a page must come in, a store changes that byte of flat memory, or kills, and when |
| Pagers.Pager.Run | src/vm/frame.c:15-43 | every run of accesses and pages loaded, by any processes, is a run of flat memory |
| Pagers.Pager.Step | src/vm/frame.c:15-43 | an access or a page loaded lacks room exactly when a page must come in and there is neither a frame nor a slot |
| Pagers.SwapSuffices | src/vm/swap.c:40-55 | with a swap slot for every page, an access never lacks room: the step that needs a slot finds one |
| Pagers.ReadsLastWrite | src/vm/swap.c:29-84 | in every such run a load gives the byte last put at its address, by a store or with its page |
| PageDirectories.OnePlaceEach | src/threads/pte.h:31-39 | two pages with the same directory and table index are the same page |
| PageDirectories.OtherPlace | src/threads/pte.h:31-39 | addresses in different pages have different places |
| PageDirectories.SamePage | src/threads/pte.h:31-39 | every address of a page has the page's place |
| PageDirectories.EntryRoundTrip | src/threads/pte.h:70-104 | an entry made for a page gives that page back, present, with the permission asked for |
| PageDirectories.FlagKeepsPage | src/userprog/pagedir.c:178-238 | setting or clearing a flag leaves the page |
| PageDirectories.SetApart | src/userprog/pagedir.c:178-238 | setting a flag leaves every other bit |
| PageDirectories.ClearApart | src/userprog/pagedir.c:149-162 | clearing a flag leaves every other bit |
| PageDirectories.WriteEntry | src/userprog/pagedir.c:100-124 | one word written changes one entry of the flat map |
| PageDirectories.NewTable | src/userprog/pagedir.c:58-87 | a zeroed table put in an empty place changes no entry |
| PageDirectories.PageDirectory.LookupPage | src/userprog/pagedir.c:58-87 | the table for an address, made if wanted, without changing the flat map |
| PageDirectories.PageDirectory.SetPage | src/userprog/pagedir.c:100-124 | exactly that page's entry becomes the mapping; it fails exactly when there is no table and no page for one |
| PageDirectories.PageDirectory.GetPageAt | src/userprog/pagedir.c:131-142 | frame plus offset for every address of a present page, nothing otherwise |
| PageDirectories.PageDirectory.ClearPage | src/userprog/pagedir.c:149-162 | the page is not present and its other bits stay |
| PageDirectories.PageDirectory.SetFlag | src/userprog/pagedir.c:178-238 | one flag of one entry changes, if there is a table |
| PageDirectories.MapThenGet | src/userprog/pagedir.c:100-142 | after a page is mapped, each of its addresses gives its frame plus the offset and every other user address what it gave |
| PageDirectories.Destroy | src/userprog/pagedir.c:29-49 | the pages freed are the frames and tables held, then the directory |
| PageDirectories.HeldAre | src/userprog/pagedir.c:29-49 | those are the frames of the present pages and the tables, and no others |
| PageDirectories.DestroyOnce | src/userprog/pagedir.c:29-49 | each of them exactly once, if no frame is mapped twice |
| PageDirectories.StaysUnshared | src/userprog/pagedir.c:100-124 | mapping a new frame, with a new table if need be, shares no frame and no table |
| PageDirectories.Install | src/userprog/process.c:687-695 | exactly when a page from the pool gets mapped and how many pages that takes; the one entry that changes; the directory then holds exactly the pages taken |
| PageDirectories.OwnsMore | src/userprog/pagedir.c:100-124 | mapping a new frame, with a new table if need be, adds exactly these to the pages held, none of them twice |
| PageDirectories.InstallAgrees | src/userprog/process.c:687-695 | which places are mapped after one more page, by places alone |
| PageDirectories.MapAndDestroy | src/userprog/pagedir.c:29-49 | for any pages a process wants: how many pages of the pool it takes, and that destruction frees exactly those and the directory, each once |
| Arenas.BlockRoundTrip | src/threads/malloc.c:267-294 | the arena and index of a block are found again from its address |
| Arenas.BlockFits | src/threads/malloc.c:285-294 | a block lies in its page past the header |
| Arenas.TakeKeeps | src/threads/malloc.c:148-153 | taking the front block keeps lists, counts and disjointness |
| Arenas.NewArenaKeeps | src/threads/malloc.c:124-146 | so does cutting a page into blocks |
| Arenas.GiveKeeps | src/threads/malloc.c:238-242 | so does putting a block back |
| Arenas.AllFree | src/threads/malloc.c:242-246 | a count of all blocks means that every block of the arena is on the free list |
| Arenas.DropKeeps | src/threads/malloc.c:242-253 | an idle arena's blocks leave the list and its page is given back |
| Arenas.BigTakeKeeps | src/threads/malloc.c:105-120 | a big block takes pages of its own |
| Arenas.BigGiveKeeps | src/threads/malloc.c:257-262 | and gives back exactly those |
| Arenas.LiveWithin | src/threads/malloc.c:90-154 | a live block's bytes are past its header and within its arena |
| Arenas.LiveApart | src/threads/malloc.c:90-154 | two live blocks do not overlap |
| Arenas.LiveAvoidsFree | src/threads/malloc.c:90-264 | a live block's bytes avoid every free block, which holds its list's links |
| Arenas.LiveAvoidsHeaders | src/threads/malloc.c:90-264 | and every arena's header |
| Allocators.MakeDescs | src/threads/malloc.c:72-85 | the seven descriptors, 16 to 1024 bytes |
| Allocators.Allocator.FindDesc | src/threads/malloc.c:100-104 | the smallest descriptor that fits |
| Allocators.Allocator.Malloc | src/threads/malloc.c:90-154 | a new block of the asked-for size apart from all live ones; null exactly for size 0 or when no run of pages would do, and then nothing has changed |
| Allocators.Allocator.Free | src/threads/malloc.c:219-264 | exactly that block is live no more, and the arena goes when it is idle |
| Allocators.Allocator.DropArena | src/threads/malloc.c:242-253 | the assertion on the count holds, every block is found on the list, the page goes |
| Allocators.Allocator.Run | src/threads/malloc.c:90-264 | over every run of a client, the blocks it holds are the live ones and the invariant holds |
| Storage.PokedFile | src/filesys/inode.c:260-320 | written bytes read back and the file's other bytes are unchanged |
| Storage.PokedElsewhere | src/filesys/inode.c:260-320 | no sector outside the file's extent changes |
| Inodes.ChunkStep | src/filesys/inode.c:203-252 | one chunk less is the same request for the rest |
| Inodes.ReadAt | src/filesys/inode.c:203-252 | the buffer gets the file's bytes from the offset, as many as asked for up to the end of the file; without a bounce buffer, the whole sectors in front |
| Inodes.WriteAt | src/filesys/inode.c:260-320 | the disk is the old one with exactly that prefix of the data put at the offset; a denied write changes nothing |
| Inodes.WriteThenRead | src/filesys/inode.c:203-320 | what was written reads back, the rest of file and disk is as before |
| Bitmaps.Bitmap.Set | src/lib/kernel/bitmap.c:146-180 | one bit changes |
| Bitmaps.Bitmap.SetMultiple | src/lib/kernel/bitmap.c:219-229 | exactly that range of bits changes |
| Bitmaps.Bitmap.Contains | src/lib/kernel/bitmap.c:252-264 | whether a range holds the value |
| Bitmaps.Bitmap.Scan | src/lib/kernel/bitmap.c:297-311 | the first fitting run at or after the start, or none |
| Bitmaps.Bitmap.ScanAndFlip | src/lib/kernel/bitmap.c:321-327 | that run, flipped |
| Bitmaps.FirstFitIs | src/lib/kernel/bitmap.c:297-311 | first fit is the lowest-numbered run that has the value throughout |
| Encoding.WordsRoundTrip | src/lib/kernel/bitmap.c:342-361 | the memory image of a bitmap's words restores them |
| Encoding.OverlaidWords | src/lib/kernel/bitmap.c:357-361 | an image of which only the first words are new decodes to those and the old ones |
| Encoding.Le32RoundTrip | src/filesys/inode.c:14-21 | a number stored in four bytes is read back |
| FsLayout.InodeRoundTrip | src/filesys/inode.c:14-21 | an inode sector gives back start and length |
| FsLayout.WriteKeepsLayout | src/filesys/inode.c:260-320 | writing into a file changes no inode and no other file |
| FsDirectory.EntryRoundTrip | src/filesys/directory.c:17-22 | a directory entry is read back as written |
| FsDirectory.NameStored | src/filesys/directory.c:172-175 | the name in an entry is the name given |
| FsDirectory.EntryPut | src/filesys/directory.c:172-175 | replacing one entry replaces no other |
| FsDirectory.EnterKeeps | src/filesys/directory.c:142-179 | entering a written-out file keeps the file-system invariant, even over an entry in use |
| FsDirectory.EraseKeeps | src/filesys/directory.c:185-216 | erasing an entry and marking its file removed keeps it |
| FsDirectory.VanishKeeps | src/filesys/inode.c:166-188 | the last close of an unlisted file keeps it |
| FsDirectory.ReleaseKeeps | src/filesys/free-map.c:44-49 | freeing sectors of no file keeps it |
| FsDirectory.LeftBehind | src/filesys/inode.c:166-188 | the sectors of a file that has gone are nobody's and still marked used |
| FileSystems.FirstNamedIs | src/filesys/directory.c:92-112 | the search gives the first entry in use with the name, among those it can read |
| FileSystems.FileSystem.WriteFreeMap | src/lib/kernel/bitmap.c:357-361 | when the map is written whole, and what the file decodes to in either case |
| FileSystems.MapFileWritten | src/lib/kernel/bitmap.c:357-361 | the file decodes to the new map as far as the write reached and to the old one beyond |
| FileSystems.OverlaidRange | src/filesys/free-map.c:27-49 | when such a file agrees with the new map, and when with the old |
| FileSystems.FileSystem.Allocate | src/filesys/free-map.c:27-40 | the lowest-numbered run of free sectors; a map that cannot be written is put back; exactly when the file stays in step, and that it always marks what the map marks; no file changes |
| FileSystems.FileSystem.Release | src/filesys/free-map.c:44-49 | exactly those sectors are free again; exactly when the file stays in step, and that it always marks what the map marks |
| FileSystems.WriteInode | src/filesys/inode.c:91-100 | the inode sector is written, the extent is zero, nothing else changes |
| FileSystems.FileSystem.InodeCreate | src/filesys/inode.c:73-106 | when it succeeds, and then a file of zeros on the lowest-numbered free run, marked and of no other file; the map's file stays in step |
| FileSystems.FileSystem.InodeOpen | src/filesys/inode.c:112-144 | one more opener of the file that the sector describes |
| FileSystems.FileSystem.InodeClose | src/filesys/inode.c:166-188 | one opener less; the sectors of a removed file are given back at its last close, exactly those, and the assertion on them holds |
| FileSystems.FileSystem.Lookup | src/filesys/directory.c:92-112 | the reading loop is that search |
| FileSystems.FileSystem.FindSlot | src/filesys/directory.c:159-169 | the first free entry, or where the reads ended |
| FileSystems.FileSystem.DirAdd | src/filesys/directory.c:142-179 | exactly when a name can be added, which entry changes and what becomes of the files |
| FileSystems.FileSystem.FilesysCreate | src/filesys/filesys.c:47-60 | exactly when it succeeds, and then a listed file of zeros under the name and exactly which files there are; on failure the files and the directory are as before; the free map after every outcome; no other file changes; the map's file stays in step if written whole, and marks what the map marks in any case |
| FileSystems.FileSystem.FilesysOpen | src/filesys/filesys.c:68-78 | exactly when it succeeds, and then one more opener of the named file; the disk is untouched |
| FileSystems.FileSystem.FileOpen | src/filesys/file.c:12-28 | a handle, or the inode closed again |
| FileSystems.FileSystem.FilesysRemove | src/filesys/filesys.c:85-92 | exactly when it succeeds; the entry is free, and the file is gone with its sectors free or, while open, still whole |
| FileSystems.FileSystem.FileWriteAt | src/filesys/file.c:104-108 | exactly those bytes of that file change |
| FileSystems.FileSystem.Run | src/filesys/inode.c:72-197 | every run of create, open, remove, write and close keeps the invariant, the map's file in step if it is always written whole, and marking what the map marks in any case |
| FileSystems.NoSharing | src/filesys/inode.c:72-197 | two files that are listed or open share no sector, and all their sectors are marked used |
| FileSystems.FileSystem.FileReadAt | src/filesys/file.c:76-79 | the bytes of the file from the offset |
| FileSystems.FileSystem.InodeDeny | src/filesys/inode.c:325-329 | one more denier of the inode |
| FileSystems.FileSystem.InodeAllow | src/filesys/inode.c:335-340 | one denier less |
| FileNames.CreatedIsFound | src/filesys/directory.c:142-179 | a new file is the first found under its name if and only if no entry before it that the search did not reach has the name; names stay different if and only if none anywhere has it |
| FileNames.TakenWasInUse | src/filesys/directory.c:159-169 | the entry taken was in use if and only if the reads ended early and every entry up to the one not read is in use |
| FileNames.DuplicateName | src/filesys/directory.c:153-156 | on every disk with room, a run of the operations that ends with a name entered twice |
| FileNames.EntryTaken | src/filesys/directory.c:159-169 | on every disk with room, a run that enters a file over another's entry: the other is listed nowhere and gone, its sector still marked |
| FlatFiles.StepHolds | src/filesys/file.c:10-153 | a handle keeps its file as long as it is not closed |
| FlatFiles.StepPuts | src/filesys/file.c:89-108 | a write puts its bytes where the handle or the caller says |
| FlatFiles.StepKeepsByte | src/filesys/file.c:10-153 | any other operation leaves a byte of a file that is still there |
| FlatFiles.ReadsLastBytes | src/filesys/file.c:63-108 | in every run a byte read through any handle is the one last written there through any handle, as long as some handle keeps the file |
| FlatFiles.DeniedStays | src/filesys/file.c:113-136 | in every run a file does not change while a handle denies writes to it |
| FileHandles.OpenCounted | src/filesys/file.c:12-36 | a new handle keeps openers equal to handles and deniers equal to handles that deny |
| FileHandles.CloseCounted | src/filesys/file.c:40-48 | so does closing one |
| FileHandles.DenyCounted | src/filesys/file.c:113-122 | a handle that does not deny yet finds fewer deniers than openers, so the assertion holds, and the counts agree after |
| FileHandles.AllowCounted | src/filesys/file.c:127-136 | a handle that denies finds a denier and no more deniers than openers, so the assertions hold |
| FileHandles.FileTable.constructor | src/filesys/filesys.c:19-34 | no handles for a file system just mounted |
| FileHandles.FileTable.OpenFile | src/filesys/filesys.c:68-78 | exactly when a handle is had, and then one at the start of the named file |
| FileHandles.FileTable.ReopenFile | src/filesys/file.c:33-36 | a second handle for the file, or everything as before |
| FileHandles.FileTable.CloseFile | src/filesys/file.c:40-48 | that handle is gone; the file goes at most with its last handle; no file but the free map changes |
| FileHandles.FileTable.DenyFile | src/filesys/file.c:113-122 | the handle denies writes, once however often it is asked |
| FileHandles.FileTable.AllowFile | src/filesys/file.c:127-136 | it denies them no longer |
| FileHandles.FileTable.Seek | src/filesys/file.c:148-153 | the position moves and nothing else |
| FileHandles.FileTable.ReadFile | src/filesys/file.c:63-68 | the bytes from the position, which moves past them |
| FileHandles.FileTable.WriteFileAt | src/filesys/file.c:104-108 | those bytes of that file change, or nothing exactly when some handle for it denies writes or nothing could be transferred |
| FileHandles.FileTable.WriteFile | src/filesys/file.c:89-94 | the same at the position, which moves past them |
| FileHandles.FileTable.Run | src/filesys/file.c:10-153 | over every run by all handles the counts agree, the run is one of flat files, and the file of a handle that denies writes throughout stays where and what it was |
| Mounting.ReadMap | src/lib/kernel/bitmap.c:342-352 | reading gives the map that the file decodes to, whatever the padding bits |
| Mounting.MakeFreeMapFile | src/filesys/free-map.c:72-76 | exactly when the map's file finds room, and then its inode and sectors |
| Mounting.WriteNewMap | src/filesys/free-map.c:78-83 | exactly when the new map is written whole, and then the file decodes to it |
| Mounting.MakeRoot | src/filesys/directory.c:27-30 | exactly when the root finds a sector and the map is written whole, and then an empty root with the map in step |
| Mounting.Format | src/filesys/filesys.c:96-104 | exactly when a disk can be formatted and mounted; it then satisfies the invariant, is in step, has an empty root, and exactly the sectors of inodes, map and root are used |
| Mounting.MountKeeps | src/filesys/filesys.c:19-34 | after a mount only the free map is open and the files are the listed ones; the invariant holds |
| Mounting.OtherMap | src/filesys/free-map.c:53-60 | another map keeps the invariant if and only if it marks the sectors of the files |
| Mounting.Mount | src/filesys/free-map.c:53-60 | exactly when a used disk can be mounted; the map is what its file decodes to; the result is sound if and only if that marks the listed files, as it does if it marks what the map in memory marked; all listed files are there as they were |
| Mounting.Survives | src/filesys/filesys.c:19-40 | a file system made, used in any way with any memory, and mounted again on the same disk is sound, with the same directory and listed files, the map marking at least what it marked; the same map if each write of it was whole |
| Hashes.AndMask | src/lib/kernel/hash.c:306-310 | masking with a power of two less one is the remainder |
| Hashes.TurnOffKeepsTop | src/lib/kernel/hash.c:328-340 | clearing the lowest bit keeps the top bit, and the power-of-two test is right |
| Hashes.RoundDown | src/lib/kernel/hash.c:371-372 | the loop ends with the largest power of two not above the number |
| Hashes.InItsBucket | src/lib/kernel/hash.c:306-326 | an equal element can only be in the element's own bucket |
| Hashes.FoundOrAbsent | src/lib/kernel/hash.c:315-326 | searching one bucket searches the table |
| Hashes.HashTable.Insert | src/lib/kernel/hash.c:99-110 | the element is added if it has no equal, otherwise the equal one is returned and the table is unchanged |
| Hashes.HashTable.Replace | src/lib/kernel/hash.c:115-127 | the element takes the place of its equal, which is returned |
| Hashes.HashTable.Find | src/lib/kernel/hash.c:132-135 | an equal element if there is one |
| Hashes.HashTable.Delete | src/lib/kernel/hash.c:145-154 | the equal element goes and is returned |
| Hashes.HashTable.Rehash | src/lib/kernel/hash.c:352-413 | the elements are the same whether or not there was memory; the bucket count is the best one or the old one |
| Hashes.HashIterator.Next | src/lib/kernel/hash.c:219-235 | the next element in bucket order, or the end |
| Hashes.Walk | src/lib/kernel/hash.c:199-235 | a whole walk gives each element of the table exactly once |
| Arguments.TokensAreText | src/lib/string.c:235-275 | for any delimiters the tokens hold the line's text in order; none is empty or holds a delimiter |
| Arguments.TokensFit | src/userprog/process.c:626-646 | a line of n characters has at most (n+1)/2 tokens and they fit in n+1 bytes |
| Arguments.Strtok | src/lib/string.c:235-275 | for any delimiters: the next token, terminated in place, and where to go on; the rest of the line is untouched |
| Arguments.Tokenise | src/userprog/process.c:642-646 | at most 128 addresses, each of the terminated token of its number |
| Arguments.WriteStrings | src/userprog/process.c:648-654 | the page ends in the strings with their terminators, each at the recorded address |
| Arguments.WritePointers | src/userprog/process.c:660-665 | below them the addresses in order |
| Arguments.PushArgument | src/userprog/process.c:625-675 | the whole page: zeros, argc, argv, addresses, null, padding, strings |
| Arguments.HeadWords | src/userprog/process.c:667-673 | the stack pointer is aligned and in the page; argc and argv are above it |
| Arguments.VectorWords | src/userprog/process.c:656-665 | the vector holds the strings' addresses and ends in a null |
| Arguments.StringsThere | src/userprog/process.c:648-654 | each address leads to its terminated argument |
| Arguments.BuildStack | src/userprog/process.c:343-362 | for every command line with a token in its first 255 characters the program finds its arguments; without one load stops before the stack is built |
| Segments.ValidateIs | src/userprog/process.c:470-510 | a header is accepted exactly when its segment, without wrapping, is in user memory above the first page and agrees with the file |
| Segments.PlanIsSound | src/userprog/process.c:415-436 | nothing computed from an accepted header wraps; the plan covers whole user pages and reads exactly the file's part |
| Segments.LoadSegment | src/userprog/process.c:527-581 | the loop ends, never underflows, maps only the segment's pages, and succeeds exactly when frames, file, buffer and mappings allow |
| Segments.ReadStep | src/userprog/process.c:555-560 | the read for a page succeeds exactly if the file has the bytes up to its end and a last part of a sector finds a buffer |
| Segments.LoadedBytes | src/userprog/process.c:527-581 | byte k is the file's for k below the bytes to read and zero after |
| Segments.Load | src/userprog/process.c:415-443 | exactly when a segment is loaded, and then every byte is where the header puts it; page 0, the kernel and existing mappings are untouched |
| Sorting.FloatDown | src/lib/stdlib.c:97-123 | swapping with the larger child moves the one broken place down |
| Sorting.Heapify | src/lib/stdlib.c:97-123 | the heap is restored from one broken element, by permuting it |
| Sorting.RootLargest | src/lib/stdlib.c:132-152 | the root of a heap is its largest element |
| Sorting.PutLast | src/lib/stdlib.c:147-151 | the root behind the heap is the next in order |
| Sorting.Sort | src/lib/stdlib.c:132-152 | for every array and total preorder: a sorted permutation |
| Sorting.BinarySearch | src/lib/stdlib.c:185-207 | on a sorted array a match exactly when there is one |
| Formatting.FillDigits | src/lib/stdio.c:504-513 | the digits, lowest first, within the buffer for every 64-bit value, base and grouping |
| Formatting.AddZeros | src/lib/stdio.c:520-524 | zeros up to the precision, within the buffer |
| Formatting.FormatInteger | src/lib/stdio.c:470-547 | the field, without the buffer ever running over |
| Formatting.FieldWidth | src/lib/stdio.c:527-546 | a field has the width asked for, or its contents', if and only if it is not both left-aligned and zero-padded to more than its contents; then it is padded twice |
| Formatting.DigitsAreValue | src/lib/stdio.c:506-513 | the digits stand for the value, in each base |
| Formatting.DecimalIs | src/lib/stdio.c:506-513 | decimal digits, highest first, have the value |
| Formatting.GroupedReads | src/lib/stdio.c:508-509 | of grouped digits, parsing reads the first group |
| Formatting.Atoi | src/lib/stdlib.c:9-41 | the number after white space and sign; every number on the way is an int if and only if the result is |
| Formatting.FieldReads | src/lib/stdio.c:470-547 | what parsing makes of any decimal field |
| Formatting.PrintThenParse | src/lib/stdlib.c:9-41 | for every 32-bit number and every %d conversion, parsing what was printed gives it back if and only if the digits are not grouped or it is below 1000 in magnitude |

## Left out

- Lists: `list_max`, `list_min`, `list_insert_ordered` and the reverse traversals would only add easy members.
- Scheduler: the run starts once `thread_start` has returned; priorities, which the kernel only has as stubs, are not modelled.
- Monitors: the lock and the waiters' semaphores appear by their values, as `Scheduler` proves them to behave; one condition variable for each lock.
- Handshake: `thread_create` does not check the allocation of the info (`src/threads/thread.c:227`); runs in which it fails, where the kernel faults, are not modelled.
- Handshake: the `child_list` of thread pages, which only unused code reads, and the copying of the executable's name.
- Paging.Page: the page tables are one flat map here; `PageDirectories` proves that two levels are one.
- Pagers.Pager.Run: a step that must bring a page in needs a free frame or a free swap slot, and kernel memory for table entries; without slot and frame it is reported as having no room.  Write permission is not kept across swapping, as in the code.
- Pagers.Pager.Step: loading over a page that the process has is refused; the kernel does so only while that page is resident.
- Paging: memory-mapped files, and what becomes of frames and slots when a process ends.
- Allocators.Allocator.Malloc: sizes are unbounded numbers, so sums near the largest machine word do not wrap; `calloc` and `realloc` are not modelled.
- Allocators: the pool is used by this allocator alone, and addresses count from its start.
- FileSystems: the list of open inodes is a map from sectors, so its order is not modelled.
- FileSystems: `dir_readdir` and subdirectories of other sizes than the root's 16 entries.
- Hashes: buckets are sequences, so `Lists` is not used again here; `hash_clear`, `hash_apply` and the hash functions themselves.
- PageDirectories: the translation lookaside buffer, and the frame table's note of an entry, which `Pagers.Pager.SetPage` has.
- Arguments: the opening of the file that the first token names.
- Segments: the ELF header and the loop over program headers; only loadable segments are modelled.
- Sorting: elements are values, so the byte-by-byte swap is one exchange.
- Formatting: parsing of format strings, and conversions other than integers.
- Hardware and assembly: disk ports, timers, keyboard, interrupt stubs, the context switch; sector transfers and the 64/32 divide are contracts.
