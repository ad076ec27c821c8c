# DFOS kernel core: a verified model

DFOS is a small i386 kernel. This project models its six architecture-neutral cores in Dafny and
proves what they keep, step by step and over whole runs:

- **Kernel VMA tree** (`Bits`, `IntervalTree`, `VmaPool`, `GapSearch`, `VmaTree`): an AVL tree of
  disjoint address ranges in a shared pool of 2048 nodes. The destructive insert and remove are
  proved against functional ones, those against a sorted list, and the gap search against "the
  lowest aligned address that fits".
- **Physical memory manager** (`Bitmap`, `FrameCount`, `Pmm`): a packed bitmap with cached global
  and per-node counts, rotating cursors and contiguous runs, from the boot loader's map on.
- **Paging** (`PageTree`, `KernelHalf`, `PageRights`, `AddressSpaces`, `TableUse`, `Permissions`,
  `Teardown`, `Paging`, `KernelPages`): three-level tables of the PAE format (section 4.4 of volume
  3A of the Intel SDM) that live in frames of the memory manager, one tree per process space and a
  shared kernel half, what each page translates to and what it allows, and the kernel page allocator
  with its rollback on top of memory manager, tables and VMA tree.
- **Scheduler** (`TaskLists`, `SchedulerState`, `SchedulerSteps`, `SchedulerRuns`,
  `SchedulerFacts`, `SchedulerBalance`, `SchedulerWaits`, `SchedulerTasks`, `SchedulerChannels`,
  `SchedulerLatency`, `Scheduler`): the class `Scheduler` runs on doubly linked task lists and does what the step
  functions say; the step functions are proved to keep one invariant, and the theorems are about
  all runs of them.
- **Mutex** (`Mutex`, `MutexCalls`, `MutexChannel`): spinlock, wait queue, sequence-numbered condition and
  sleepable mutex as an interleaved protocol of any number of tasks, one access to shared memory at
  a time, and its simulation by the scheduler's wait channels.
- **Heap** (`SlabLists`, `HeapState`, `HeapUse`, `Heap`, `KernelHeap`): slabs, object free lists and the record
  pool, and `kmalloc` and `kfree` of any size on top of the page allocator.

## How the model is built

- Pointers into static pools are indices, a null pointer is -1. Linked structures are kept as the
  source keeps them (links in records, updated in place); a ghost tree or sequence says what the
  links spell. The link fields of a task or slab record are a record of their own.
- Integers are unbounded where the source cannot overflow. 32-bit effects are written out where
  they matter: alignment overflow and the clamps of the gap search, the 8-bit height, the waiter
  count and the condition's sequence number modulo 2^32, frame numbers in `pmm_free_frames`, the
  ends of boot regions in 64 bits and the size of a large object.
- Task ids are handed out by a 32-bit counter in the source. The model's counter does not wrap: the
  results about ids (`SchedulerFacts.JoinOnce`, `SchedulerState.IdsDiffer`) are for runs that create
  fewer than 2^32 tasks.
- A locked section of the scheduler is one step, and "block or sleep, then yield" is one step.
  Exit is three sections (mark, wake the joiners, yield), so other CPUs may look at a zombie that
  is still current. Ticks plus any timeout are taken to stay below 2^32. Which CPU acts, whether
  the machine is SMP and the stack and space given to a new task are parameters.
- Histories are ghost state: who waits for what, which ids have exited, the log of released
  tasks, which task holds the mutex and its spinlock.
- Page tables are reached through the direct map, and the kernel panics when a frame for a table
  lies past its end. That panic is an outcome (`halt`) of the operations that allocate tables; the
  frame manager may have any number of frames.
- What a page allows is the conjunction of the entries on its way. In the PAE format these are the
  entries of directory and table; the kernel writes the same two bits into the user slots of its
  roots, and the results hold whether those are taken too or not.
- Some invariants are stated under a guard (`Unlocked`, `Open`, `Tied`, ...) that is always true.
  It keeps the verifier from unfolding them where they are only passed on.

## What was found

- `vma_tree_find_gap` is wrong for a window that starts at address 0 when the end of the lowest
  interval has no aligned address behind it in 32 bits: the overflow result 0 is taken for an
  address. `GapSearch.FindGapExact` gives the exact condition; the kernel never asks for such a
  window.
- A contiguous frame run is refused exactly when every free run of that length straddles the
  global cursor and, if it lies in one node, that node's cursor (`Pmm.AllocFramesOnNode`).
- `pmm_mark_available_range` rounds its base down: a partly available first frame becomes free
  exactly if the base is not page aligned and the range reaches the end of that frame
  (`Pmm.MarkedExact`, with the input of `Pmm.MarkedWitness`).
- `kfree` looks for a slab header sixteen bytes in front of any object. A large object's header has
  eight bytes, so the look goes to the page in front: the free of a large object faults exactly if
  that page is not mapped, and goes astray exactly if the words there pass for a slab header
  (`KernelHeap.FreeLarge`). The first large object of an empty window lies at its bottom, where the
  free always faults (`KernelHeap.FirstLargeFaults`).
- `kmalloc` of one of the seven largest 32-bit sizes asks for a single page
  (`KernelHeap.LargePagesExact`).
- A user mapping or a new space panics exactly if one of the frames next in line for its missing
  tables lies past the direct map (`Paging.MapUserPage`, `Paging.CreateProcessSpace`). Which frames
  are next in line is fixed by bits and cursors before the call (`Pmm.HandsUnique`);
  `Paging.HaltWitness` is such a machine.
- A user mapping that is refused after it took a directory keeps that directory, empty. A later map
  and unmap of a page below it give it back, so a map and an unmap restore the free frames exactly
  under the condition of `TableUse.RestoredIff`, and not after such a refusal
  (`Paging.RefusalLeavesSurplus`).

- A user mapping opens the upper entries on its way to user mode, for every page behind them. In a
  process's space these are open from the start, so no other page's rights change
  (`PageRights.WidenedSame`); in the kernel's own space, whose boot entries are closed, other pages
  can gain what their own entries allow (`PageRights.WidenedGains`), and a mapping that is refused
  may have opened the root's entry already (`Permissions.MapRefused`).

## Model

| member | source | states |
|---|---|---|
| `Bits.AndNotRoundsDown` | kernel/kernel/vma.c:35-44 | the mask trick of the alignment helper rounds down to a multiple of a power of two |
| `Bits.PowerOfTwoTest` | kernel/kernel/vma.c:311-342 | `a & (a - 1) == 0` on a non-zero 32-bit word says exactly that it is a power of two |
| `IntervalTree.PlaceSorted` | kernel/kernel/vma.c:246-263 | placing a disjoint interval in a sorted disjoint list keeps it sorted and disjoint |
| `IntervalTree.TakeUndoesPlace` | kernel/kernel/vma.c:246-271 | removing the interval just inserted gives the old list back |
| `IntervalTree.RebalanceRepairs` | kernel/kernel/vma.c:116-133 | a node whose subtrees are balanced and differ in height by at most two is balanced after `rebalance`, with height as before or one less |
| `IntervalTree.RebalanceKeeps` | kernel/kernel/vma.c:98-133 | rotations and rebalancing keep the in-order sequence and the set of nodes |
| `IntervalTree.InsertCorrect` | kernel/kernel/vma.c:135-154 | insertion succeeds iff the interval meets no other one, and then the in-order list gains exactly that interval in its place |
| `IntervalTree.InsertBalanced` | kernel/kernel/vma.c:116-154 | insertion keeps the tree AVL-balanced and raises its height by at most one |
| `IntervalTree.RemoveCorrect` | kernel/kernel/vma.c:162-195 | removal succeeds iff exactly that interval is present, and the in-order list loses exactly it, also when the successor is copied up |
| `IntervalTree.RemoveBalanced` | kernel/kernel/vma.c:116-195 | removal keeps the tree AVL-balanced and lowers its height by at most one |
| `IntervalTree.HeightBound` | kernel/kernel/vma.c:86-92 | an AVL tree of at most 2048 nodes is at most 15 high, so the cast of the height to 8 bits loses nothing |
| `VmaPool.NodePool.Init` | kernel/kernel/vma.c:51-62 | all 2048 nodes are on the free chain, none is in use |
| `VmaPool.NodePool.NodeAlloc` | kernel/kernel/vma.c:64-78 | hands out an unused node with the given fields, or none exactly when all 2048 are in use; nodes in use keep their fields |
| `VmaPool.NodePool.NodeFree` | kernel/kernel/vma.c:80-84 | the node is unused again and the rest of the pool is as before; freeing null does nothing |
| `VmaPool.NodePool.ReleaseSubtree` | kernel/kernel/vma.c:197-204 | every node of the subtree is unused again and no other one changes |
| `VmaPool.NodePool.RefreshHeight` | kernel/kernel/vma.c:86-92 | the stored 8-bit height is the true height of the subtree |
| `VmaPool.NodePool.RotateRightAt` | kernel/kernel/vma.c:98-105 | the linked nodes spell the right-rotated tree, with exact stored heights |
| `VmaPool.NodePool.RotateLeftAt` | kernel/kernel/vma.c:107-114 | the linked nodes spell the left-rotated tree, with exact stored heights |
| `VmaPool.NodePool.RebalanceAt` | kernel/kernel/vma.c:116-133 | the linked nodes spell the rebalanced tree; all four rotation cases |
| `VmaPool.NodePool.NodeInsert` | kernel/kernel/vma.c:135-154 | the destructive recursion leaves nodes that spell the tree of the functional insertion, and says whether it inserted |
| `VmaPool.NodePool.NodeLeftmost` | kernel/kernel/vma.c:156-160 | the node with the first interval of the subtree |
| `VmaPool.NodePool.NodeRemove` | kernel/kernel/vma.c:162-195 | the destructive recursion leaves nodes that spell the tree of the functional removal, frees exactly one node and says whether it removed |
| `GapSearch.AlignUpIsCeiling` | kernel/kernel/vma.c:35-44 | aligning up gives the least multiple not below the value, or 0 on 32-bit overflow |
| `GapSearch.FindGapLowest` | kernel/kernel/vma.c:206-232 | outside one family of requests the scan returns the lowest aligned address whose range fits the window and meets no interval, and fails iff there is none |
| `GapSearch.FindGapTrapped` | kernel/kernel/vma.c:222-232 | inside that family (the window starts at 0 and the lowest interval's end has no aligned address behind it in 32 bits) the answer is wrong |
| `GapSearch.FindGapExact` | kernel/kernel/vma.c:311-342 | the search meets its specification if and only if the request is not in that family |
| `GapSearch.TrapWitness` | kernel/kernel/vma.c:222-232 | a concrete request for which the search returns a range that overlaps an interval |
| `VmaTree.VmaTree.Insert` | kernel/kernel/vma.c:246-263 | succeeds iff the range is non-empty, overlaps nothing and the pool has a node; the in-order list gains just that interval; trees sharing the pool are untouched |
| `VmaTree.VmaTree.Remove` | kernel/kernel/vma.c:265-271 | succeeds iff that exact interval is present; the in-order list loses just it; trees sharing the pool are untouched |
| `VmaTree.VmaTree.Find` | kernel/kernel/vma.c:273-294 | finds the one interval that contains the address, or says that none does |
| `VmaTree.VmaTree.First` | kernel/kernel/vma.c:296-309 | the lowest interval, or that there is none |
| `VmaTree.VmaTree.GapSearchInOrder` | kernel/kernel/vma.c:206-232 | the recursive walk over linked nodes computes the scan of the in-order list, with its early stops |
| `VmaTree.VmaTree.FindGap` | kernel/kernel/vma.c:311-342 | refuses malformed requests and otherwise returns the lowest fitting address or none, except for the family above |
| `VmaTree.VmaTree.Clear` | kernel/kernel/vma.c:239-244 | the tree is empty and its nodes are unused again |
| `VmaTree.VmaTree.SlotCount` | kernel/kernel/vma.c:64-78 | the tree's node count is the number of its intervals, and the other nodes in use belong to other trees |
| `VmaTree.StoredHeights` | kernel/kernel/vma.c:90-92 | in nodes that spell a tree, every stored height lies between 1 and the height of the tree |
| `VmaTree.Serve` | kernel/kernel/vma.c:239-271 | any number of trees on one pool: a request to one of them succeeds exactly under the condition of the single operation, leaves every other tree valid with the same intervals, and no two trees ever share a node |
| `Bitmap.FrameBitmap.Set` | kernel/kernel/pmm.c:82-84 | sets exactly the bit of the frame |
| `Bitmap.FrameBitmap.Clear` | kernel/kernel/pmm.c:86-88 | clears exactly the bit of the frame |
| `Bitmap.FrameBitmap.Test` | kernel/kernel/pmm.c:90-92 | reads the bit of the frame |
| `FrameCount.NodeUnique` | kernel/kernel/pmm.c:102-109 | a frame lies in at most one node |
| `FrameCount.NodeCountsAdd` | kernel/kernel/pmm.c:148-170 | the free counts of the nodes add up to the clear bits of the whole bitmap |
| `FrameCount.LedgerFlip` | kernel/kernel/pmm.c:172-199 | flipping one frame's bit and the two counts by one keeps every count exact |
| `Pmm.Pmm.constructor` | kernel/kernel/pmm.c:400-416 | all frames reserved, one node, nothing free |
| `Pmm.Pmm.HighestPhysical` | kernel/kernel/pmm.c:373-391 | the highest end of a region of the boot map, in 64-bit arithmetic and capped below 4 GiB |
| `Pmm.Pmm.Boot` | kernel/kernel/pmm.c:365-476 | boot from a memory map: the frames free afterwards are exactly those that a usable region releases and no reserved range touches, and the counts are exact; it panics iff the map reaches nowhere |
| `Pmm.BootFreeSound` | kernel/kernel/pmm.c:418-470 | no frame that is free after boot holds a byte of the first mebibyte or of a reserved range; if every usable region begins on a page, each free frame lies wholly in one |
| `Pmm.Pmm.ResetLayout` | kernel/kernel/pmm.c:111-146 | the nodes partition the frames and their sizes differ by at most one |
| `Pmm.Pmm.Recount` | kernel/kernel/pmm.c:148-170 | every node count and the global count equal the clear bits |
| `Pmm.Pmm.ConfigureNumaTopology` | kernel/kernel/pmm.c:608-618 | refuses 0 or too many nodes; otherwise a new even partition with exact counts, and bitmap and global count unchanged |
| `Pmm.Pmm.FinishInit` | kernel/kernel/pmm.c:472-475 | allocation is open, counts stay exact |
| `Pmm.Pmm.MarkAvailableRange` | kernel/kernel/pmm.c:339-348 | exactly the frames from that of the base (rounded down) to the last whole one below the end become free |
| `Pmm.MarkedExact` | kernel/kernel/pmm.c:339-348 | every frame wholly in the range is released; all released frames lie wholly in the range if and only if the base is page aligned or no frame is released |
| `Pmm.MarkedWitness` | kernel/kernel/pmm.c:339-348 | a witness: marking 8192 bytes from address 1 on releases frame 0, whose first byte is not in the range |
| `Pmm.Pmm.ReserveRange` | kernel/kernel/pmm.c:350-359 | exactly the frames that the range touches become reserved |
| `Pmm.Pmm.NodeIndexForFrame` | kernel/kernel/pmm.c:102-109 | the node of the frame, or that there is none |
| `Pmm.Pmm.ReserveFrame` | kernel/kernel/pmm.c:172-185 | reserves a free frame once, and refuses reserved and foreign frames without touching a count |
| `Pmm.Pmm.ReleaseFrame` | kernel/kernel/pmm.c:187-199 | frees a reserved frame once; a double free changes nothing |
| `Pmm.Pmm.FindFreeFrameInNode` | kernel/kernel/pmm.c:201-240 | finds a free frame of the node iff it has one, scanning from the cursor around |
| `Pmm.Pmm.AllocFrameOnNode` | kernel/kernel/pmm.c:482-523 | succeeds iff initialised and some frame is free; takes the next free frame, from its cursor on, of the preferred node if that has one and else of the first node around that has; exactly that frame becomes reserved, and the cursors are left behind it |
| `Pmm.HandsUnique` | kernel/kernel/pmm.c:482-523 | bits, cursors and round-robin position before the call fix the frame that is handed out and the position after it |
| `Pmm.HandsFree` | kernel/kernel/pmm.c:201-240 | only frames that are free are handed out |
| `Pmm.Pmm.FreeFrame` | kernel/kernel/pmm.c:525-529 | the frame joins the free ones; foreign frames are ignored |
| `Pmm.Pmm.FindContiguousLinear` | kernel/kernel/pmm.c:242-273 | the first free run of that length in the range, or that there is none |
| `Pmm.Pmm.FindContiguousWrapped` | kernel/kernel/pmm.c:275-297 | the first free run clear of the cursor, going up from it to the end and then from the start, or that every free run straddles it |
| `Pmm.Pmm.ReserveContiguous` | kernel/kernel/pmm.c:299-306 | exactly the run becomes reserved |
| `Pmm.Pmm.FindContiguousInNode` | kernel/kernel/pmm.c:308-337 | the node's first free run clear of its cursor, going up from it and then from its first frame, becomes reserved and the cursor moves behind it; or that there is none |
| `Pmm.Pmm.AllocFramesOnNode` | kernel/kernel/pmm.c:535-598 | succeeds iff initialised, the count is positive and some free run does not straddle the cursors; the run is the preferred node's first one if that node has a free run clear of its cursor, else that of the first other node going round that has one, else the first from the global cursor; exactly its frames become reserved; a run of the preferred node leaves the global cursor alone, any other moves it; failure changes nothing |
| `Pmm.Pmm.TakePreferred` | kernel/kernel/pmm.c:547-553 | takes a run in the preferred node iff that node has a free run clear of its cursor, and passes the turn to the node behind it |
| `Pmm.Pmm.FreeFrames` | kernel/kernel/pmm.c:600-606 | exactly the frames that counting up in 32 bits meets, below the total, become free |
| `Pmm.ListedRange` | kernel/kernel/pmm.c:600-606 | that is the run from the first frame on whenever the count does not wrap |
| `Pmm.NothingFree` | kernel/kernel/pmm.c:201-240 | if no node has a free frame, no frame is free |
| `Pmm.StraddledRunRefused` | kernel/kernel/pmm.c:242-337 | a witness: a free run that is long enough but straddles the global cursor and its node's cursor is refused |
| `Pmm.AroundCovers` | kernel/kernel/pmm.c:501-505 | starting at any node and going around meets every node |
| `PageTree.OwnedIsReached` | kernel/kernel/paging.c:724-820 | the frames a space holds for tables are exactly those reached from its root |
| `PageTree.NewRootIsEmpty` | kernel/kernel/paging.c:1079-1100 | a wiped root translates no user address |
| `PageTree.LeafWrite` | kernel/kernel/paging.c:773-780 | writing one leaf changes the lookup of that one page of that one space |
| `PageTree.AddTable` | kernel/kernel/paging.c:750-771 | hanging an empty table changes no lookup |
| `PageTree.DropTable` | kernel/kernel/paging.c:801-819 | cutting an empty table changes no lookup and gives up exactly its frame |
| `PageTree.DropSpace` | kernel/kernel/paging.c:1142-1171 | once a space's frames are given up, the tables of the other spaces still are exactly the owned frames, each with one parent |
| `KernelHalf.WalksAgree` | kernel/kernel/paging.c:562-641 | at every kernel address the walk of the static tables and the walk in the memory of any space give the same answer |
| `KernelHalf.KernelLeafWrite` | kernel/kernel/paging.c:643-678 | writing a dynamic kernel entry changes the lookup of that kernel page alone and touches only the static kernel frames |
| `KernelHalf.KernelDetach` | kernel/kernel/paging.c:680-708 | taking an empty dynamic table out of the kernel directory changes no lookup |
| `AddressSpaces.SlotsIdentifyPage` | kernel/kernel/paging.c:438-448 | two addresses have the same three indices iff they lie in the same page |
| `AddressSpaces.ChangedByAddress` | kernel/kernel/paging.c:613-641 | after a change of one page, lookups of every address of that page give the new frame plus offset, and every other page, space and kernel address is as before |
| `AddressSpaces.BootInv` | kernel/kernel/paging.c:481-533 | the bootstrap tables satisfy the invariant |
| `AddressSpaces.PageTables.constructor` | kernel/kernel/paging.c:481-533 | the kernel space alone, with exactly the bootstrap tables in memory and the invariant established |
| `AddressSpaces.PageTables.HasPresentEntries` | kernel/kernel/paging.c:715-722 | whether some entry of the table is present |
| `AddressSpaces.PageTables.MapKernel` | kernel/kernel/paging.c:643-678 | the dynamic kernel page maps to the frame, with the caller's flags, in every space; it is open to user mode and writable exactly as they say; unless they open it, every other kernel page keeps its rights; every user page keeps its own |
| `AddressSpaces.PageTables.UnmapKernel` | kernel/kernel/paging.c:680-708 | the dynamic kernel page is unmapped in every space; every other page of kernel and user half keeps its lookup and its rights |
| `PageRights.DeniedIsMiss` | kernel/kernel/paging.c:724-782 | a page is denied exactly if the walk does not find it |
| `PageRights.WidenedSame` | kernel/kernel/paging.c:747-772 | in a process's space a map changes the rights of no other page |
| `PageRights.WidenedGains` | kernel/kernel/paging.c:747-772 | in the kernel's own space pages behind an opened entry only gain, no more than their own entries allow, and nothing if the entries on the way were open |
| `PageRights.KernelPageRights` | kernel/kernel/paging.c:643-678 | a kernel page is writable exactly as its own entry says, and open to user mode only if its entry and that of its table are |
| `PageRights.KernelRightsShared` | kernel/kernel/paging.c:643-678 | every space has the same rights on a kernel page |
| `PageRights.KernelRightsKept` | kernel/kernel/paging.c:724-782 | maps and unmaps of user pages change no right of a kernel page |
| `PageRights.UserRightsKept` | kernel/kernel/paging.c:643-708 | maps and unmaps of kernel pages change no right of a user page |
| `Permissions.PagePermitted` | kernel/kernel/paging.c:724-782 | after a map the page is open to user mode and writable iff its entry says so, over all entries on its way; pages behind entries that were opened are no longer restricted by them, and every other page of every space is as before |
| `Permissions.MapRefused` | kernel/kernel/paging.c:747-755 | a refused map at most lifts the restriction of the root entry on its way |
| `Permissions.PageWithdrawn` | kernel/kernel/paging.c:784-820 | after an unmap the page is denied and every other page of every space is as before |
| `Paging.Paging.constructor` | kernel/kernel/paging.c:886-923 | paging over a frame manager of any size: invariant established, only the kernel space, exactly the bootstrap tables |
| `Paging.Paging.EnsureDirectory` | kernel/kernel/paging.c:737-748 | the directory of the slot, allocated empty when missing; lookups unchanged, frames conserved, tables and free frames exact; halts iff it is missing and the frame next in line lies past the direct map |
| `Paging.Paging.EnsureTable` | kernel/kernel/paging.c:750-771 | the table of the slot, allocated empty when missing; lookups unchanged, frames conserved, tables and free frames exact; halts iff it is missing and the frame next in line lies past the direct map |
| `Paging.Paging.TakeTableFrame` | kernel/kernel/paging.c:964-967 | a frame for a table, or a halt iff the frame next in line lies past the direct map |
| `Paging.PastNext` | kernel/kernel/paging.c:964-967 | the frames in line are those that are handed out one after the other |
| `Paging.Paging.EnsurePath` | kernel/kernel/paging.c:737-771 | halts iff one of the frames in line for the missing tables lies past the direct map; otherwise the path exists iff enough frames were free; a failure midway changes no lookup, loses no frame and leaves exactly one empty directory |
| `Paging.Paging.MapInSpace` | kernel/kernel/paging.c:724-782 | exact success and halt conditions, known before the call; on success one page of one space changes, to the frame and the flags asked for, it is open to user mode and writable iff the flags say so, every other page keeps its rights or gains what the opened entries on the way granted, and the tables gained are exactly the missing ones; on refusal no lookup changes, at most the root entry on the way is opened and at most one empty directory is left |
| `Paging.Paging.MapUserPage` | kernel/kernel/paging.c:1199-1215 | the same, lookups and rights, with the checks on space, address and alignment |
| `Paging.Paging.Prune` | kernel/kernel/paging.c:806-819 | the table goes back iff it is empty, and then the directory iff the table was its last; no lookup changes |
| `Paging.Paging.UnmapInSpace` | kernel/kernel/paging.c:784-820 | exactly one page is unmapped and denied, every other one keeps lookup and rights; its table leaves the tables and becomes free iff the page was its last present entry, and then the directory iff the table was its last |
| `Paging.Paging.UnmapUserPage` | kernel/kernel/paging.c:1217-1231 | the same with the checks on space and address |
| `Paging.Paging.MapThenUnmap` | kernel/kernel/paging.c:724-820 | mapping a page and unmapping it again gives back every frame that the map took, and beside them the tables on the path that held nothing else before; only that page's lookup changes |
| `TableUse.MapThenUnmap` | kernel/kernel/paging.c:724-820 | the same for all states that the two contracts allow |
| `TableUse.RestoredIff` | kernel/kernel/paging.c:724-820 | tables and free frames are restored exactly iff there was no directory, or the table was missing in a directory with another entry, or the table holds another page |
| `TableUse.SurplusWitness` | kernel/kernel/paging.c:737-757 | a witness: a root that leads to an empty directory |
| `Paging.RefusalLeavesSurplus` | kernel/kernel/paging.c:737-757 | every map that is refused after it took a directory leaves such a state |
| `Paging.HaltWitness` | kernel/kernel/paging.c:1079-1085 | a witness: on a machine whose one free frame lies past the direct map, creating a space halts |
| `Paging.Paging.CreateProcessSpace` | kernel/kernel/paging.c:1079-1117 | halts iff the frame next in line for the root lies past the direct map, otherwise succeeds iff a frame and a space record are free; the new space has the node, holds exactly its root and maps no user page; all else is as before |
| `Paging.Paging.DestroyProcessSpace` | kernel/kernel/paging.c:1142-1186 | root, directories, tables and the (distinct, allocated) leaf frames become free, each released by exactly one call; other spaces keep their tables; the kernel's space is current afterwards if this one was; the kernel space and unused records are refused |
| `Teardown.SpaceReleasedOnce` | kernel/kernel/paging.c:1142-1171 | in a space whose leaves are private, the walk of the teardown meets every frame at most once |
| `Teardown.ReleasedFrames` | kernel/kernel/paging.c:1142-1171 | what the walk releases is exactly the space's tables and its leaf frames |
| `KernelPages.PageAllocator.MapPage` | kernel/kernel/paging.c:643-678 | accepts exactly aligned non-user requests in the dynamic window, and changes that kernel page alone, which gets the caller's flags; it is closed to user mode and every other page keeps its rights |
| `KernelPages.PageAllocator.UnmapPage` | kernel/kernel/paging.c:680-708 | unmaps that page of the dynamic window alone, every other page keeping its rights; other addresses are ignored |
| `KernelPages.PageAllocator.TranslatePage` | kernel/kernel/paging.c:856-868 | the frame behind a kernel page, walked in the current space |
| `KernelPages.PageAllocator.BackRange` | kernel/kernel/paging.c:1253-1267 | pages are backed one by one, present and writable, by distinct frames that were free, those next in line for the node, until a frame cannot be had |
| `KernelPages.PageAllocator.Rollback` | kernel/kernel/paging.c:1271-1282 | frees the frames and unmaps the pages again: free frames and kernel pages are as before the first step |
| `KernelPages.PageAllocator.constructor` | kernel/kernel/paging.c:886-923 | over an empty range tree and an unmapped window the allocator's invariant holds |
| `KernelPages.BootWindowVacant` | kernel/kernel/paging.c:481-533 | the bootstrap tables map no page of the dynamic window |
| `KernelPages.Boot` | kernel/kernel/paging.c:886-923 | frame manager from the boot map, bootstrap tables in the reserved kernel image and an empty range tree give an allocator whose invariant holds, with exactly the frames free that boot leaves free |
| `KernelPages.PageAllocator.AllocPages` | kernel/kernel/paging.c:1237-1283 | all or nothing on a machine of any size: the exact success condition; the lowest free range of the window, recorded, backed by distinct fresh frames, those next in line for the node; on failure frames, kernel pages and ranges are as before |
| `KernelPages.PageAllocator.FreePages` | kernel/kernel/paging.c:1285-1306 | the record is removed, every page of the range is unmapped and the frames behind it, none of which was free or a table, become free; the invariant is kept, so live ranges may be freed in any order; null, empty and overflowing ranges are ignored |
| `KernelPages.RangesShareNoFrame` | kernel/kernel/paging.c:1237-1306 | two recorded ranges never share a frame |
| `KernelPages.ExclusiveBacked` | kernel/kernel/paging.c:1253-1267 | backing pages with fresh frames keeps every managed frame behind the window allocated, no table and behind one page only |
| `KernelPages.ExclusiveCleared` | kernel/kernel/paging.c:1285-1306 | freeing a range keeps that for the frames of all other pages |
| `KernelPages.PageAllocator.MapUser` | kernel/kernel/paging.c:1199-1215 | mapping a user page keeps the allocator's invariant and every kernel page, unless the kernel halts |
| `KernelPages.PageAllocator.UnmapUser` | kernel/kernel/paging.c:1217-1231 | unmapping a user page keeps them too |
| `KernelPages.PageAllocator.DestroySpace` | kernel/kernel/paging.c:1142-1186 | so does destroying a space whose pages show no frame of the window |
| `KernelPages.PageAllocator.AllocThenFree` | kernel/kernel/paging.c:1237-1306 | an allocation and the matching free restore free frames, kernel pages and ranges |
| `KernelPages.FreeUndoesAlloc` | kernel/kernel/paging.c:1237-1306 | the same for all states that the two contracts allow |
| `TaskLists.TaskLists.PushBack` | kernel/kernel/scheduler.c:270-282 | the links spell the old list with the slot behind it; all other lists are as before |
| `TaskLists.TaskLists.Remove` | kernel/kernel/scheduler.c:284-301 | the links spell the old list without the slot; all other lists are as before |
| `TaskLists.TaskLists.PopFront` | kernel/kernel/scheduler.c:303-310 | takes the first slot, or none exactly if the list is empty |
| `TaskLists.ThreadedPush` | kernel/kernel/scheduler.c:270-282 | appending a slot that is on no list keeps every list's links, ends and count exact and every slot on one list |
| `TaskLists.ThreadedCut` | kernel/kernel/scheduler.c:284-301 | cutting a slot out keeps every list's links, ends and count exact |
| `SchedulerState.VacateInv` | kernel/kernel/scheduler.c:284-301 | taking a slot off its list and its CPU keeps the invariant of all other slots |
| `SchedulerState.OccupyInv` | kernel/kernel/scheduler.c:620-630 | putting a slot on the list that its new state names keeps the invariant |
| `SchedulerSteps.RouseInv` | kernel/kernel/scheduler.c:798-830 | moving a sleeping or blocked task to the queue of its CPU keeps the invariant |
| `SchedulerSteps.ScheduleInv` | kernel/kernel/scheduler.c:832-875 | giving up the running task and dispatching the best queued one keeps the invariant |
| `SchedulerSteps.RequeueInv` | kernel/kernel/scheduler.c:670-698 | moving a queued task to an allowed online CPU or to another level keeps the invariant |
| `SchedulerSteps.ExitInv` | kernel/kernel/scheduler.c:1388-1396 | marking the running task as a zombie while its CPU still sits on it keeps the invariant |
| `SchedulerSteps.FreeInv` | kernel/kernel/scheduler.c:203-219 | releasing a zombie that no CPU sits on keeps the invariant, including that no id is released twice |
| `SchedulerRuns.Step` | kernel/kernel/scheduler.c:1024-1401 | every locked section that the kernel can start keeps the invariant, or panics for want of a runnable task |
| `SchedulerFacts.StartInv` | kernel/kernel/scheduler.c:912-939 | the state after initialisation satisfies the invariant |
| `SchedulerFacts.RunKeepsInv` | kernel/kernel/scheduler.c:1024-1401 | the invariant holds after any sequence of sections by any CPUs |
| `SchedulerFacts.ReachableLists` | kernel/kernel/scheduler.c:270-310 | in every reachable state a slot is once on the list that its state names and on no other; a running task is current on exactly its CPU; a live task's CPU is online and in its mask; runnable counts are exact |
| `SchedulerFacts.TickAndYieldBest` | kernel/kernel/scheduler.c:1176-1222 | each tick and each yield ends with no queued task of that CPU of strictly higher priority than the running one |
| `SchedulerFacts.StepLog` | kernel/kernel/scheduler.c:189-232 | a section releases nothing, or one task that has exited, is current on no CPU and was not released before |
| `SchedulerFacts.LogGrows` | kernel/kernel/scheduler.c:203-232 | over any run the release log only grows and holds no id twice |
| `SchedulerFacts.JoinOnce` | kernel/kernel/scheduler.c:1294-1346 | from any state in which the id has been released, by a join or by the reaper, no join of it succeeds in any run |
| `SchedulerFacts.JoinLogs` | kernel/kernel/scheduler.c:1317-1321 | a join that succeeds releases its task |
| `SchedulerBalance.BestIsLeast` | kernel/kernel/scheduler.c:514-575 | the scan finds a least loaded candidate, the local CPU among equals, else the first; none iff there is no candidate |
| `SchedulerBalance.SelectAllowed` | kernel/kernel/scheduler.c:514-575 | the chosen CPU is online, in the mask if the mask has an online CPU, and least loaded among the allowed ones without a node preference |
| `SchedulerBalance.BalancedWhenStuck` | kernel/kernel/scheduler.c:700-755 | when no step is found, no queued task without a node preference has an allowed online CPU two or more lighter than its own |
| `SchedulerBalance.MigrateLoads` | kernel/kernel/scheduler.c:670-698 | a step lowers one load and raises another by one, keeps their sum and strictly lowers the sum of squares |
| `SchedulerLatency.DispatchedInTime` | kernel/kernel/scheduler.c:1176-1222 | on one CPU a task at position k of level p runs within (k + 1) slices of that level, if nothing of higher priority runs or becomes runnable and no priority changes |
| `SchedulerLatency.StepOnward` | kernel/kernel/scheduler.c:787-875 | no section sets the waiting task back, and each tick brings it one tick nearer |
| `SchedulerWaits.ChosenFifo` | kernel/kernel/scheduler.c:1267-1292 | a wake takes the first waiters on the channel, in the order they blocked, up to the limit |
| `SchedulerWaits.WakesEffect` | kernel/kernel/scheduler.c:1267-1292 | exactly the chosen waiters are woken and told so; every other task is as before |
| `SchedulerWaits.TimersEffect` | kernel/kernel/scheduler.c:798-830 | exactly the waits whose deadline has come end, and they are told so |
| `SchedulerWaits.StepWait` | kernel/kernel/scheduler.c:1243-1292 | a section leaves a wait alone, or is a wake on its channel that chose it, or a tick at or after its deadline |
| `SchedulerWaits.WaitOverRun` | kernel/kernel/scheduler.c:1243-1292 | over any run a wait goes on, or was ended by such a wake with answer true, or by such a tick with answer false; a wait without deadline never ends by a tick |
| `SchedulerWaits.WaitBegins` | kernel/kernel/scheduler.c:1243-1265 | a wait blocks the task with the deadline that its timeout asks for; a null channel or zero timeout does not block |
| `SchedulerChannels.ChannelIsQueue` | kernel/kernel/scheduler.c:1243-1292 | a channel is a FIFO queue of waiters: blocking appends, a wake takes from the front of its own channel up to the limit, a tick drops exactly the expired, and no other section touches it |
| `SchedulerChannels.WakeWaiters` | kernel/kernel/scheduler.c:1267-1292 | after a wake the queue of its channel has lost its first waiters up to the limit, the queue of every other channel none |
| `SchedulerChannels.TimersWaiters` | kernel/kernel/scheduler.c:814-829 | after the timers the queue of a channel is the old one without the expired waiters, in order |
| `Scheduler.Scheduler.constructor` | kernel/kernel/scheduler.c:912-939 | all slots on the free list, CPUs as configured |
| `Scheduler.Scheduler.EnqueueAt` | kernel/kernel/scheduler.c:620-641 | the slot is runnable at the end of its CPU's queue of its level |
| `Scheduler.Scheduler.RouseSlot` | kernel/kernel/scheduler.c:638-641 | the slot leaves its list and joins the queue of its CPU |
| `Scheduler.Scheduler.DequeueNext` | kernel/kernel/scheduler.c:654-668 | takes the first slot of the best non-empty level, or none iff all are empty |
| `Scheduler.Scheduler.ScheduleCpu` | kernel/kernel/scheduler.c:856-875 | the section's effect on the state; panics exactly when nothing can run |
| `Scheduler.Scheduler.SwitchToTask` | kernel/kernel/scheduler.c:832-854 | the chosen task runs with a fresh slice, or the current one stays, or a panic |
| `Scheduler.Scheduler.HasHigherRunnable` | kernel/kernel/scheduler.c:787-796 | whether a strictly better level has a queued task |
| `Scheduler.Scheduler.AdvanceAll` | kernel/kernel/scheduler.c:798-830 | the two list walks wake exactly the due sleepers and end exactly the due waits |
| `Scheduler.Scheduler.WakeChannel` | kernel/kernel/scheduler.c:1267-1292 | the walk wakes the chosen waiters and returns their number |
| `Scheduler.Scheduler.OnlineCpus` | kernel/kernel/scheduler.c:427-436 | the set of online CPUs |
| `Scheduler.Scheduler.NormalizeMask` | kernel/kernel/scheduler.c:438-443 | the online part of the mask, all online CPUs if that is empty |
| `Scheduler.Scheduler.SelectCpu` | kernel/kernel/scheduler.c:514-575 | the two passes compute the specified choice |
| `Scheduler.Scheduler.ChooseCpu` | kernel/kernel/scheduler.c:577-600 | the choice on the current loads, the boot CPU if there is none |
| `Scheduler.Scheduler.CpuLoads` | kernel/kernel/scheduler.c:507-512 | queued tasks plus the running one, per CPU |
| `Scheduler.Scheduler.RequeueSlot` | kernel/kernel/scheduler.c:643-652 | the slot leaves one queue and joins another, both counts follow |
| `Scheduler.Scheduler.BalanceStep` | kernel/kernel/scheduler.c:700-755 | moves one allowed task or none; the load view stays exact, total load is kept and the sum of squares falls; false means no step is left |
| `Scheduler.Scheduler.BalanceTwice` | kernel/kernel/scheduler.c:767-785 | at most two steps |
| `Scheduler.Scheduler.OnTimerTick` | kernel/kernel/scheduler.c:1176-1213 | clock, timers, periodic balancing, charge and preemption, as specified; panics exactly when nothing can run |
| `SchedulerTasks.TickCharges` | kernel/kernel/scheduler.c:1176-1213 | the running task is charged one tick; it gets a new slice iff the old one is used up, and loses the CPU before that only to a task of a better level |
| `SchedulerTasks.TickBalances` | kernel/kernel/scheduler.c:757-785 | a tick moves tasks between CPUs only on the boot CPU, 16 ticks after the last time, on a machine with several |
| `Scheduler.Scheduler.OnYield` | kernel/kernel/scheduler.c:1215-1222 | the running task goes to the back of its queue and the best one runs |
| `Scheduler.Scheduler.SleepFor` | kernel/kernel/scheduler.c:1224-1241 | the task is asleep and due exactly that many ticks after the call, and the CPU switches; zero ticks is a yield |
| `SchedulerTasks.SleepBegins` | kernel/kernel/scheduler.c:1224-1241 | a task that sleeps for n ticks is asleep, due n ticks after the tick of the call, and otherwise as before |
| `SchedulerTasks.StepSleeps` | kernel/kernel/scheduler.c:798-830 | any one section leaves a sleeper asleep below its tick; the tick that reaches it puts it in the queue of its CPU and level, or it runs at once |
| `SchedulerTasks.SleepOverRun` | kernel/kernel/scheduler.c:798-830 | over every run a sleeper sleeps on while the clock is below its tick and is awake after the first tick that reaches it |
| `SchedulerTasks.StepLives` | kernel/kernel/scheduler.c:1146-1401 | what any section does to any slot: who sleeps, waits, runs or is released, and when that changes |
| `Scheduler.Scheduler.WaitChannel` | kernel/kernel/scheduler.c:1243-1265 | the task blocks on the channel with its deadline and the CPU switches |
| `Scheduler.Scheduler.ExitCurrent` | kernel/kernel/scheduler.c:1388-1396 | the running task is a zombie and has exited |
| `Scheduler.Scheduler.DetachZombie` | kernel/kernel/scheduler.c:203-219 | hands out stack and space and frees the slot iff the task is a zombie that no online CPU sits on |
| `Scheduler.Scheduler.OnAnyCpu` | kernel/kernel/scheduler.c:189-201 | whether an online CPU sits on the task |
| `Scheduler.Scheduler.FindById` | kernel/kernel/scheduler.c:1137-1144 | the first live slot with the id, or none |
| `Scheduler.Scheduler.JoinLook` | kernel/kernel/scheduler.c:1310-1322 | true iff the task is a zombie that can be released, and then it is logged with its resources |
| `Scheduler.Scheduler.ReapRound` | kernel/kernel/scheduler.c:1356-1370 | releases the first zombie on the list that can be released, or there is none in the whole table |
| `Scheduler.Scheduler.ReapZombies` | kernel/kernel/scheduler.c:1348-1377 | releases as many tasks as it counts, never more than the limit, and stops below it only when no zombie can be released |
| `Scheduler.Scheduler.AllocateSlot` | kernel/kernel/scheduler.c:877-884 | the first free slot, reset and on no list, or none iff all are taken |
| `Scheduler.Scheduler.ReleaseSlot` | kernel/kernel/scheduler.c:886-892 | the slot is free again |
| `Scheduler.Scheduler.LaunchTask` | kernel/kernel/scheduler.c:1024-1135 | the slot becomes a runnable task with the next id, the stack and space it was given, its level, the online part of its mask and its node, last in the queue of a least loaded CPU of those it may and would like to be on; every other task is as before |
| `SchedulerTasks.SelectPlaces` | kernel/kernel/scheduler.c:514-618 | the chosen CPU is online, in the mask if that has an online CPU, on the wished node if there is such a one, and of these has the least load |
| `SchedulerTasks.CreateEffect` | kernel/kernel/scheduler.c:1024-1135 | a creation makes of the slot exactly the task that was asked for and touches nobody else |
| `SchedulerTasks.ReleasedAsGiven` | kernel/kernel/scheduler.c:203-232 | over every run after a creation, whoever has the id has the stack and space it was given, and they are what the release log holds for it |
| `Scheduler.Scheduler.BootstrapCpu` | kernel/kernel/scheduler.c:941-976 | the code on the CPU becomes a running task iff the CPU is online and idle and a slot is free |
| `SchedulerTasks.BootEffect` | kernel/kernel/scheduler.c:941-976 | boot makes of the first free slot a running task with the next id, its space, no stack, every online CPU in its mask, and touches nobody else |
| `Scheduler.Scheduler.SetTaskPriority` | kernel/kernel/scheduler.c:1146-1174 | the task with the id has the level; a queued one is last at its new level, a running one starts a new slice, others just change, and with its old level nothing changes; false iff there is no such task |
| `SchedulerTasks.LevelEffect` | kernel/kernel/scheduler.c:1146-1174 | exactly the task with the id is given the level, and its place and slice follow from its state |
| `Mutex.StepInv` | kernel/kernel/sync.c:56-333 | one access to shared memory at a time: every step of every task, every call and every tick keeps the invariant, in which lock word and owner may differ only while the spinlock's holder is between its two writes |
| `Mutex.MutualExclusion` | kernel/kernel/sync.c:244-333 | in every run of any number of tasks at most one has the spinlock; locked with owner t holds iff t is between a successful lock and its unlock, so at most one task is; a lock word without an owner is being written by the spinlock's holder and then nobody holds the mutex; the waiter count is the number of tasks inside `kwait_wait` |
| `Mutex.LockReturns` | kernel/kernel/sync.c:267-308 | a lock that returns true holds the mutex; false comes only after at least the asked ticks and never when waiting forever, so `kmutex_lock` does not panic |
| `MutexCalls.LockAnswers` | kernel/kernel/sync.c:273-308 | a lock with a timeout answers true with the mutex held, and false only with the mutex locked and at least the asked ticks after the call |
| `MutexCalls.TryAnswers` | kernel/kernel/sync.c:244-265 | a try wins iff the mutex was free when it looked with the spinlock; then it holds it, otherwise another task does |
| `MutexCalls.SignalsAreWakes` | kernel/kernel/sync.c:157-163 | in every run the signals are the wakes done and the at most one on its way |
| `MutexCalls.UnlockWakes` | kernel/kernel/sync.c:310-333 | in every run, between a call of unlock and its return, the mutex is given up, the condition signaled, and then the first waiter, if any, leaves the queue with the answer that it was woken |
| `Mutex.ConditionAnswers` | kernel/kernel/sync.c:131-171 | a condition wait says it was signaled exactly if the number of signals between its observation and its last look is no multiple of 2^32 |
| `Mutex.WaitsForTheRest` | kernel/kernel/sync.c:280-299 | a lock that blocks asks for exactly the ticks left of its timeout at its last look at the clock, or for no deadline if it waits forever |
| `Mutex.NoUnderflow` | kernel/kernel/sync.c:94-104 | counting out never wraps, so the underflow panic is unreachable |
| `Mutex.PanicsByMisuse` | kernel/kernel/sync.c:244-333 | the only panics are a lock by the holder and an unlock by somebody else |
| `Mutex.PoliteNeverPanics` | kernel/kernel/sync.c:244-333 | tasks that lock only what they do not hold and unlock only what they hold never panic |
| `MutexChannel.BlockSimulated` | kernel/kernel/sync.c:94-104 | the protocol's block is the scheduler's wait section: if queue, clock and sleeps agree before, they agree after |
| `MutexChannel.WakeSimulated` | kernel/kernel/sync.c:106-110 | the wake of an unlock is the scheduler's wake section with limit 1, and keeps the protocol's queue and sleeps those of the channel |
| `MutexChannel.TickSimulated` | kernel/kernel/scheduler.c:798-832 | the protocol's tick is the scheduler's timer section on any CPU: the same waiters expire, in the same order |
| `MutexChannel.QuietSimulated` | kernel/kernel/sync.c:244-333 | the protocol's other steps leave the channel alone |
| `MutexChannel.ForeignSimulated` | kernel/kernel/scheduler.c:1243-1292 | sections for other channels and other tasks leave the protocol alone |
| `MutexChannel.SimBegins` | kernel/kernel/sync.c:233-241 | queue, clock and sleeps agree when nobody waits on the channel |
| `MutexChannel.JointAgrees` | kernel/kernel/sync.c:94-104 | in every joint run of protocol and scheduler the protocol's queue is the channel's at every moment, and a task that comes back from its wait is told by the scheduler what the protocol says |
| `MutexChannel.UnlockRouses` | kernel/kernel/sync.c:310-333 | in every joint run, between a call of unlock and its return, the scheduler takes the channel's first waiter, if any, from it, runnable and told that it was woken |
| `SlabLists.SlabLists.Push` | kernel/kernel/heap.c:61-64 | the record is at the front of the list; all other lists are as before |
| `SlabLists.SlabLists.Remove` | kernel/kernel/heap.c:66-77 | the walk takes the record out of the list; all other lists are as before |
| `SlabLists.SlabLists.constructor` | kernel/kernel/heap.c:236-239 | all records on the spare list |
| `HeapState.LiveDisjoint` | kernel/kernel/heap.c:103-177 | live objects lie in slots that do not overlap, each with room for its header and an object of its cache |
| `HeapState.SlabFacts` | kernel/kernel/heap.c:147-216 | free-list length plus objects in use is the capacity, the slab is on the list its use demands, and a cache has at most one empty slab |
| `HeapState.OpenInv` | kernel/kernel/heap.c:103-140 | a spare record and a fresh page become a slab with all slots free, keeping the invariant |
| `HeapState.OpenLive` | kernel/kernel/heap.c:103-140 | creating a slab neither adds nor loses a live object |
| `HeapState.GrabInv` | kernel/kernel/heap.c:163-176 | taking the first free slot keeps the invariant |
| `HeapState.GrabLive` | kernel/kernel/heap.c:163-176 | the slot was not live, and now the live objects are the old ones and it |
| `HeapState.GiveInv` | kernel/kernel/heap.c:179-216 | giving a live slot back keeps the invariant, the slab going to the partial, empty or spare list |
| `HeapState.GiveLive` | kernel/kernel/heap.c:179-216 | the live objects are the old ones without it |
| `Heap.Heap.constructor` | kernel/kernel/heap.c:231-253 | all 256 records spare, nothing live |
| `Heap.Heap.CacheForSize` | kernel/kernel/heap.c:94-101 | the smallest cache whose objects are big enough, none iff the size is over 2048 |
| `Heap.Heap.Carve` | kernel/kernel/heap.c:127-137 | the page is cut into as many slots of the cache's size as fit, so that one more would not, side by side from its start; each is on the free list once, last slot first, and its header names the slab |
| `HeapUse.SlotsFillPage` | kernel/kernel/heap.c:114-125 | the slot size is the least multiple of eight for header and object, and a slab has as many slots as fit in a page |
| `HeapUse.LiveCount` | kernel/kernel/heap.c:103-216 | the live objects of a cache are as many as its slabs say in sum |
| `HeapUse.PagesNeeded` | kernel/kernel/heap.c:139-177 | a cache with n live objects and no free slot sits on exactly n divided by the slots that fit in a page, so a page is asked for only when every slot that fits is live |
| `Heap.Heap.TakeRecord` | kernel/kernel/heap.c:79-87 | a spare record, or none iff there is none |
| `Heap.Heap.CreateSlab` | kernel/kernel/heap.c:108-140 | given a page, fails without a change iff there is no record; the page is cut up and all free |
| `Heap.Heap.PickSlab` | kernel/kernel/heap.c:147-161 | the head of the partial list if the cache has a partial slab, else the head of the empty list if it has an empty one, else a new slab in the first spare record; none iff the cache is exhausted |
| `Heap.Heap.TakeObject` | kernel/kernel/heap.c:163-176 | takes the first free slot and moves a slab without a further one to the full list |
| `Heap.Heap.AllocFromCache` | kernel/kernel/heap.c:147-177 | a new object of that cache, every other object stays; a page is used only if no slab has a free slot; fails without a change iff there is no slot, and no page or record |
| `Heap.Heap.FreeObject` | kernel/kernel/heap.c:179-216 | the slot is free again and the slab moves as its use demands; a second empty slab gives up its record and page |
| `KernelHeap.KernelHeap.MallocSmall` | kernel/kernel/heap.c:103-177 | a cache with a free slot leaves ranges, frames and kernel pages as they were; otherwise exactly one page range is taken, backed by one frame that was free, and becomes a slab, and then every slot that fits in the cache's pages was live; fails iff there is no slot, and no page or record, and then everything is as before |
| `KernelHeap.KernelHeap.MallocLarge` | kernel/kernel/heap.c:218-229 | the lowest range that fits, of its own and backed by fresh frames, with the page count in front; fails iff the allocator cannot give it, without a change |
| `KernelHeap.KernelHeap.Malloc` | kernel/kernel/heap.c:255-269 | any 32-bit size: an object in the smallest fitting cache or a large one, new and with all others kept, with the same effect on ranges and frames; the panic happens exactly in the stated cases |
| `KernelHeap.LargePagesExact` | kernel/kernel/heap.c:218-222 | the pages of a large object hold header and object if and only if the size is not one of the last seven of 32 bits |
| `KernelHeap.LargePagesWitness` | kernel/kernel/heap.c:218-222 | a witness: a request for 4294967289 bytes asks for one page |
| `KernelHeap.KernelHeap.FreeSmall` | kernel/kernel/heap.c:179-216 | exactly that object stops being live; if it was the last of its slab and the cache has an empty slab, the slab's page range and the frame behind it go back, and otherwise ranges, frames and kernel pages are as before |
| `KernelHeap.KernelHeap.FreeLarge` | kernel/kernel/heap.c:277-289 | faults iff the page in front of the object is not mapped; otherwise takes the object for a slab's iff the two words in front pass for a slab header; otherwise exactly its range, pages and frames are given back |
| `KernelHeap.KernelHeap.Free` | kernel/kernel/heap.c:277-289 | null changes nothing, a live small object is always freed, and a large one exactly under that condition, each with its exact effect on ranges and frames |
| `KernelHeap.KernelHeap.LowestLargeFaults` | kernel/kernel/heap.c:179-182 | nothing is ever mapped in front of the dynamic window |
| `KernelHeap.KernelHeap.FreeLowest` | kernel/kernel/heap.c:179-289 | a large object at the bottom of the window cannot be freed: the free always faults and changes nothing |
| `KernelHeap.KernelHeap.FirstLargeFaults` | kernel/kernel/heap.c:218-289 | with no range recorded, any large object that can be had lies at the bottom of the window, and its free faults |
| `KernelHeap.KernelHeap.LargeRoundTrip` | kernel/kernel/heap.c:218-289 | a large allocation and a free of it that returns restore free frames, kernel pages, ranges and headers |
| `KernelHeap.KernelHeap.LargeApart` | kernel/kernel/heap.c:218-229 | large objects share no byte |
| `KernelHeap.KernelHeap.SmallApart` | kernel/kernel/heap.c:103-229 | a large and a small object share no byte |
| `KernelHeap.KernelHeap.PagesBacked` | kernel/kernel/heap.c:103-229 | every page of a slab or large object is mapped to a frame that is not free, holds no table and lies behind no second page of the window |

## Left out

- Legacy two-level paging, the switch to PAE, TLB invalidation, CR3, reserved-bit rules and section write protection: hardware effects.
- Inline assembly, EFLAGS and spin loops: an atomic exchange step and a locked section stand for them; inter-processor interrupts are not modelled.
- Trace counters, latency metrics, snapshots and self tests: they only observe.
- Console, input, IRQ, timer, PIC, PIT, VGA, serial, GDT, IDT and application-processor start: device plumbing.
- Boot information, VFS, module registry, panic log, printf, string functions, kdebug, kernel.c: easier than the cores.
- Liveness of conditions and join: the sequence test and the block are separate steps in the source, so none is claimed.
- The window between the unlock after blocking and the switch of a multi-CPU scheduler: the invariant is not claimed inside it.
- `scheduler_configure_topology` after initialisation: the topology is a parameter of the constructor; names, entry points and saved frames of tasks are not modelled.
- Reference counts (`kref`, `kobject`), broadcast, and conditions other than the mutex's own: they would only add easy members.
- Contents of pages, stacks and objects: only tables, headers and ownership are modelled; entry flags beyond present, writable, user and large are carried along without a meaning.
- KernelHeap.KernelHeap.Free: only null and live objects, because a free of anything else is decided by bytes the model does not have; what happens after a large object has been taken for a slab's is not followed.
- KernelHeap.KernelHeap.FreeLarge: the two words in front of the object are a parameter, because page contents are not modelled.
- Heap.Heap.CreateSlab: the page is a parameter; `KernelHeap.KernelHeap.MallocSmall` asks the page allocator for it.
- Pmm.Pmm.Boot: only the memory-map path; the reserved ranges are parameters, and the panic for a bitmap past the bootstrap window is not modelled, because both come from linker symbols and boot records.
- Pmm.Pmm.constructor: states the start of boot only; `Pmm.Pmm.Boot` states the whole of it.
- AddressSpaces.PageTables.constructor: section write protection is not modelled: it clears the writable bit of direct-map pages once at boot, and no lookup depends on it.
- Paging.Paging.constructor: the static tables are taken to lie in managed frames below the direct-map limit, because they are part of the kernel image.
- KernelPages.Boot: the kernel image is taken to hold the static tables and to lie in memory that the map speaks of, because the linker and the boot loader see to that.
- Paging.Paging.DestroyProcessSpace: the mapped user frames are taken to be distinct, allocated and no table, because the source frees every present leaf and would otherwise free a frame twice.
- KernelPages.PageAllocator.FreePages: ranges that are not ignored lie in the dynamic window, because the source would free whatever is mapped elsewhere without unmapping it.
- KernelPages.PageAllocator.DestroySpace: the space's pages show no frame of the kernel's window, because the source frees every present leaf.
- Scheduler.Scheduler.JoinLook: one look of the join, because its retries are sections of the scheduler's runs; what the caller does between looks is not modelled.
- Scheduler.Scheduler.ReapZombies: nobody else is at work between its rounds, because the lock is open there; `SchedulerFacts.JoinOnce` and `SchedulerFacts.LogGrows` are about all interleavings.
- Scheduler.Scheduler.DetachZombie: the test of the list kind beside the state is not repeated, because the invariant makes the two agree.
- MutexChannel.JointAgrees: a task is its slot, while the source's mutex records the task's id; a task that exits while it holds the mutex is not told apart from the next task in its slot, because the protocol has no ids.
- SchedulerLatency.DispatchedInTime: one CPU, because migration may move a waiting task to another queue.
