# Kernel data structures, modelled and proved

A Dafny model of the data structures at the heart of a small 32-bit kernel: the BGET heap, the buddy page
allocator, the linked lists and queues of the scheduler, the ext2 block map, allocator and reader, the AVL
tables, the page tables, mbuf chains, the id bitmaps, the line and circle drawing loops and `mktime`. Each
module names the C file it models. Memory that the C code reaches through pointers is a map from addresses to
words (`Words.Mem`), so every store of the C code is one map update; page structures, page tables, bitmaps and
nodes that C reaches through typed fields are records, sequences or objects.

How the modules fit together:

| module | what it holds |
|---|---|
| `Arith`, `Bits`, `Folding`, `Words`, `Seqs`, `Rings` | division facts, bitwise operations, folded invariants, flat memory, circular doubly linked lists threaded through it |
| `HeapSpec`, `Bget` | the heap as a tiling of blocks; `bget`, `brel`, `bgetr`, `bpool` over memory |
| `Lists`, `ListCut` | `list.h` over a whole family of lists that share one memory |
| `BuddySpec`, `Buddy`, `BuddyRound` | buddy blocks, lists, marks and counts; allocation, release and when they cancel |
| `SchedSpec`, `SchedLaws`, `Sched` | the scheduler as a step machine, what its steps do list by list, and its list operations |
| `Ext2Map`, `Ext2Inode`, `Ext2Read`, `Ext2Alloc`, `Ext2Files` | index trees, the inode block map, reading, bitmaps and inode placement, the map over the bitmaps |
| `AvlSpec`, `Avl` | AVL trees as values, and the linked nodes that implement them |
| `Page` | two-level page tables and the probe |
| `MbufSpec`, `Mbufs`, `MbufMoves` | mbuf chains and the byte strings they spell |
| `Ids`, `Time` | id bitmaps; calendar time |
| `Plane`, `Line`, `Circle` | the drawing loops |

Where the code does not do what its comments or its purpose promise, the model keeps the code and proves
exactly when the promise holds:

- A coalesced top-order buddy block that is taken again corrupts the top list as long as the frontier and the other
  blocks stay what they were (`Buddy.RetakeBreaks`, `Buddy.ReachRetake`); all other runs keep the invariant.
- Freeing a buddy block undoes the splits of its allocation exactly when its number has zero bits there
  (`BuddyRound.SplitThenFree`). Numbers count from `buddy_map_base`, which `buddy_init` leaves one past the last
  page, so this depends on the number of pages.
- A recycled index block that is not zero-filled makes other logical blocks of the file appear, in all three indirect
  regions (`Ext2Inode.RecycledBlockMustBeZero`, `Ext2Inode.RecycledGarbage`); the code clears neither the block nor its
  buffer.
- `ext2_free_block` finds the bit that `ext2_alloc_block` set exactly when that bit is not below
  `first_data_block` (`Ext2Alloc.FreeFindsBlock`).
- `map_pages` misses the last page of a range of whole pages that starts inside a page (`Page.LastPageMissed`,
  `Page.OnePageTooFew`).
- The `ABS` macro of the line drawing negates only one operand, so on the screen a line is right exactly when
  both coordinates are given in rising order (`Line.LineIffRising`); `Line.FallingIsStraight` says what is drawn
  otherwise.
- `list_cut` at the first node takes the whole list, although its comment promises the nodes before it
  (`ListCut.ListCut`).
- `get_unused_id` never returns when no id is free (`Ids.SpinsWhenFull`).

## Model

| member | source | states |
|---|---|---|
| `HeapSpec.TilingUnique` | Kernel/bget.c:677-765 | two tilings of the same pools with the same live buffers are equal: the free blocks are exactly the maximal gaps |
| `HeapSpec.TiledTake` | Kernel/bget.c:571-612 | carving a buffer from a free block keeps the whole tiling: sizes, no overlap, no two adjacent free blocks, every pool closed by its sentinel |
| `HeapSpec.TiledMerge` | Kernel/bget.c:688-765 | the three-way merge of a release keeps the whole tiling and removes exactly one live buffer |
| `HeapSpec.LiveBuffersApart` | Kernel/bget.c:514-617 | any two live buffers are disjoint and each lies inside one pool |
| `HeapSpec.PoolExactlyTiled` | Kernel/bget.c:767-817 | walking a pool by block sizes meets all of its blocks and the sizes add up to the pool |
| `HeapSpec.NothingLive` | Kernel/bget.c:677-765 | with no live buffer every pool is one free block of its original size |
| `Bget.TaggedTake` | Kernel/bget.c:571-612 | after an allocation every header again holds the signed size and the size of the free block before it, or zero |
| `Bget.TaggedMerge` | Kernel/bget.c:688-765 | after a release every header again holds the signed size and the size of the free block before it, or zero |
| `Bget.FindBest` | Kernel/bget.c:539-560 | the scan ends at the first free block of least sufficient size, or at the list head exactly when none fits |
| `Bget.Split` | Kernel/bget.c:571-587 | the split branch gives the tail to the caller, keeps the invariant and touches no live data |
| `Bget.TakeWhole` | Kernel/bget.c:588-612 | the whole-block branch dechains the block, clears the back link after it, keeps the invariant and touches no live data |
| `Bget.FreeOrAbsorb` | Kernel/bget.c:694-729 | the first half of a release: the block melts into the free block before it or joins the list tail; the asserts on the way hold |
| `Bget.AbsorbNext` | Kernel/bget.c:731-763 | the second half: the free block after is dechained and swallowed and the block beyond records the merged size; the asserts on the way hold |
| `Bget.Release` | Kernel/bget.c:677-765 | a release yields the invariant for the merged tiling and leaves every other live buffer's data alone |
| `Bget.AddPool` | Kernel/bget.c:767-817 | a new region becomes one free block and its sentinel, chained last, with all old blocks and data intact |
| `Bget.BufferWritesHarmless` | Kernel/bget.c:514-617 | any writes confined to one live buffer leave the heap invariant intact |
| `Bget.CopyWords` | Kernel/bget.c:672-673 | the copy of a reallocation moves every word and changes nothing else |
| `Bget.Heap.constructor` | Kernel/bget.c:493-498 | the heap starts with an empty circular free list |
| `Bget.Heap.Bget` | Kernel/bget.c:514-617 | NULL exactly when no free block fits the rounded size plus header; otherwise the best-fitting block is carved, the buffer holds the request, and invariant and live data are kept |
| `Bget.Heap.Brel` | Kernel/bget.c:677-765 | exactly one live buffer disappears, its block is merged with its free neighbours; on the free list the merged block is last unless a free block ended at the one released, and a free block swallowed at its end is taken off; the invariant and the other buffers' data are kept |
| `Bget.Heap.Bpool` | Kernel/bget.c:767-817 | the pool and its single free block are added; live buffers and their data stay |
| `Bget.Heap.Store` | Kernel/bget.c:514-617 | a client write inside its own buffer keeps the heap and all other buffers |
| `Bget.Heap.Bgetr` | Kernel/bget.c:654-675 | the new buffer holds the first words of the old one up to the smaller size, the old one is released; on failure nothing changes |
| `Bget.Heap.GetThenRelease` | Kernel/bget.c:514-765 | allocating and releasing at once restores every block and the set of free blocks |
| `Bget.Heap.ReleaseAll` | Kernel/bget.c:677-765 | releasing all live buffers in any order gives every pool back as one free block |
| `Lists.ListInit` | Include/list.h:31-37 | a fresh head becomes an empty list and every other list stays well formed |
| `Lists.ListAdd` | Include/list.h:44-51 | the entry becomes the first node of its list; every other list in memory is untouched |
| `Lists.ListAddTail` | Include/list.h:53-63 | the entry becomes the last node of its list; every other list is untouched |
| `Lists.ListDel` | Include/list.h:66-73 | exactly this node leaves its list and points at itself; every other list is untouched |
| `Lists.ListMoveHead` | Include/list.h:75-79 | the node leaves its list and heads the other one, also when they are the same |
| `Lists.ListMoveTail` | Include/list.h:82-87 | the node leaves its list and ends the other one, also when they are the same |
| `ListCut.ListCut` | Include/list.h:89-120 | the nodes before the given one form a ring of their own and the rest closes over the gap; null for an empty list, the whole list when nothing lies before the node |
| `ListCut.ListSplice` | Include/list.h:122-136 | the sub list's nodes come first, in order |
| `ListCut.ListSpliceTail` | Include/list.h:138-153 | the sub list's nodes come last, in order |
| `ListCut.CutThenSplice` | Include/list.h:89-136 | splicing back what was cut restores the list |
| `ListCut.JoinIsRing` | Include/list.h:122-153 | rewiring one link through another ring inserts that ring's nodes there |
| `BuddySpec.FlipAdjacent` | Kernel/mm.c:347-348 | with the exclusive or and the and defined bit by bit: flipping bit k of a block number gives the block of order k right after it where the bit is clear and right before it where it is set, whatever the base; flipping twice returns; and the number and its flip give the lower of the two |
| `BuddySpec.FlipOnWords` | Kernel/mm.c:342-356 | the same operations on words of any width, as the unsigned page_idx and buddy_idx have, yield the words of the flipped number and of the lower one |
| `Bits.XorBit` | Kernel/mm.c:347 | exclusive or with one bit adds it where it is clear and takes it away where it is set, for negative numbers too |
| `Bits.AndXorBit` | Kernel/mm.c:356 | and of a number with its flip in one bit is the lower of the two |
| `BuddySpec.PagesConserved` | Kernel/mm.c:114-181 | every page below the frontier lies in exactly one block |
| `BuddySpec.HalveKeeps` | Kernel/mm.c:140-146 | a split keeps tiling, lists, marks, counts and free_num |
| `BuddySpec.DetachKeeps` | Kernel/mm.c:174-177 | taking a block off a list below the top keeps tiling, lists, marks, counts and free_num |
| `BuddySpec.SeedKeeps` | Kernel/mm.c:136-138 | taking the frontier chunk and seeding the next one keeps them |
| `BuddySpec.JoinKeeps` | Kernel/mm.c:344-358 | a merge with the flipped neighbour yields one block of the next order and keeps them |
| `BuddySpec.SettleKeeps` | Kernel/mm.c:359-363 | putting the merged block on its list keeps them |
| `BuddySpec.BuddyTest` | Kernel/mm.c:278-290 | the buddy test accepts a page exactly when it heads a free block of that order below the top |
| `BuddySpec.RecountKeeps` | Kernel/mm.c:512-514 | raising or lowering all counts of a block switches it between taken and in use and keeps them |
| `Buddy.Expand` | Kernel/mm.c:114-148 | the block is halved down to the order asked for, the upper halves go on their lists, the invariant is kept |
| `Buddy.BuddyAlloc` | Kernel/mm.c:150-181 | the first block of the first non-empty list at or above the order is taken and split; fails only above the top order |
| `Buddy.BuddyFree` | Kernel/mm.c:300-363 | by exclusive or and and, the block is joined with its buddy as long as that one is free and of the same order, then listed; what is left is one free block around the freed one, made of free blocks and it alone, below the top order without a free buddy of its order, and first on its list; the invariant is kept |
| `Buddy.AllocBlock` | Kernel/mm.c:500-520 | one block not held before becomes held, all others stay, counts included; the block found becomes the first page's block of the order asked for and one free upper half for each order in between |
| `Buddy.FreeBlock` | Kernel/mm.c:598-631 | exactly this block stops being held, and it settles as in BuddyFree; a page marked free is left alone; the BUG is not reached |
| `Buddy.Allocator.constructor` | Kernel/mm.c:70-99 | the lists after initialisation, with the first chunk seeded, satisfy the invariant |
| `Buddy.Allocator.AllocPages` | Kernel/mm.c:500-520 | in every run that takes top-order blocks only from the frontier: a block disjoint from all held ones, its upper halves free, invariant kept |
| `Buddy.Allocator.FreePages` | Kernel/mm.c:598-631 | in every run: the block is given back and joined with free buddies until none is left, invariant kept |
| `Buddy.SplitHeld` | Kernel/mm.c:140-146 | splitting never touches a held block |
| `Buddy.SplitShape` | Kernel/mm.c:140-146 | after the splits the first page heads a block of the order asked for, each order in between has its upper half as a free block, and every other block stays |
| `Buddy.CoalesceHeld` | Kernel/mm.c:344-363 | coalescing never touches a held block |
| `Buddy.CoalesceSettles` | Kernel/mm.c:344-363 | joining ends in one free block around the freed one; it swallowed only free blocks, all others stay, and its buddy is not a free block of its order |
| `Buddy.RetakeBreaks` | Kernel/mm.c:136-138 | if the top-order block taken is not the frontier chunk, no view that keeps the frontier and the other blocks satisfies the invariant of the resulting lists |
| `Buddy.ReachRetake` | Kernel/mm.c:136-138 | two calls from the start reach a state where the next top-order allocation would do that |
| `BuddyRound.SplitThenFree` | Kernel/mm.c:114-148 | freeing a block after its splits equals freeing the block it came from exactly when the bits of its number between the two orders are zero |
| `BuddyRound.AllocThenFree` | Kernel/mm.c:150-363 | the same for the two routines run one after the other |
| `BuddyRound.OddPairStaysSplit` | Kernel/mm.c:344-358 | in any tiling, a pair of pages that starts at an odd number and is split is not joined when its lower page is freed: the upper page is left a block of its own, where freeing the pair whole leaves none |
| `BuddyRound.GetOrder` | Kernel/mm.c:292-299 | the order is the logarithm of the whole pages, rounded down |
| `SchedSpec.TopIsHighest` | Kernel/kthread.c:620-634 | the queue chosen is non-empty and all queues above it are empty |
| `SchedSpec.StepKeepsInv` | Kernel/kthread.c:545-652 | every create, wake, wake-all, sleep, yield, wait, exit and schedule step, and every start and end of a wait list, keeps: each thread at most once on one list, runnable ones on the queue of their priority, the idle thread on queue 0, the running thread on its run queue |
| `SchedLaws.StepEffect` | Kernel/kthread.c:84-652 | what every step does, list by list: which list the thread leaves, which it joins and at which end, which lists stay, and which thread schedule picks; a thread asleep or waiting is on no run queue, one that exited is on no list |
| `SchedSpec.RunsAreSafe` | Kernel/kthread.c:545-652 | so does every interleaving of such steps |
| `SchedSpec.BootInv` | Kernel/kthread.c:1646-1660 | the state that schedule_init leaves, with the idle thread running, satisfies the invariant |
| `SchedSpec.RunsFromBoot` | Kernel/kthread.c:545-652 | every state of every run from there satisfies it, whatever the interleaving |
| `SchedSpec.ScheduledGood` | Kernel/kthread.c:605-652 | schedule only rotates the queue it picks from and keeps the invariant |
| `SchedSpec.RoundRobin` | Kernel/kthread.c:636-645 | without wake-ups or sleeps the thread at any position k of the top queue runs at call k+1 and at none of the calls before |
| `SchedSpec.FullRound` | Kernel/kthread.c:636-645 | as many calls as the queue is long bring every queue back |
| `SchedSpec.WakeAllResult` | Kernel/kthread.c:119-134 | the wait list is emptied, each run queue is its waiters reversed and then its old contents, no other list changes |
| `Sched.PtWakeup` | Kernel/kthread.c:545-552 | the thread heads the run queue of its priority, wherever it was |
| `Sched.WakeupWaiters` | Kernel/kthread.c:119-134 | the walk terminates although it unlinks while iterating and wakes exactly the waiters, in order |
| `Sched.FindTop` | Kernel/kthread.c:620-634 | the scan finds the highest non-empty priority |
| `Sched.PickNext` | Kernel/kthread.c:636-645 | the first thread of that queue is chosen and moved to its end, in memory |
| `Sched.Initialise` | Kernel/kthread.c:1646-1660 | the loop over the priorities and the first thread creation build those queues in memory |
| `Sched.Scheduler.constructor` | Kernel/kthread.c:1646-1660 | a scheduler so initialised, running the idle thread as Kernel/main.c:96-111 starts it, is valid; the idle thread is on queue 0 and every other list is empty |
| `Sched.Scheduler.Schedule` | Kernel/kthread.c:605-652 | the memory-level routine is the schedule step of the machine: the first thread of the highest run queue that holds one runs and goes to its end, no other list changes |
| `Sched.Scheduler.Create` | Kernel/kthread.c:516-530 | the new thread is last on the run queue of its priority exactly when it is runnable, otherwise last on the wait queue of it, and on no other list; no other list changes |
| `Sched.Scheduler.Wakeup` | Kernel/kthread.c:545-552 | the thread leaves the list it is on and heads the run queue of its priority; no other list changes |
| `Sched.Scheduler.WakeupAll` | Kernel/kthread.c:119-134 | the wait list ends up empty, its waiters in front of the run queues of their priorities, later ones first; no other list changes |
| `Sched.Scheduler.InitWaitList` | Kernel/kthread.c:74-75 | an empty wait list is added, no other changes |
| `Sched.Scheduler.Sleep` | Kernel/kthread.c:273-301 | negative times are refused; for zero the running thread goes to the end of its run queue, for a positive time to the end of its wait queue and off the run queues; then schedule picks |
| `Sched.Scheduler.WaitOn` | Include/kernel/kthread.h:269-277 | the running thread is first or last on the wait list, as asked, and on no other; then schedule picks |
| `Sched.Scheduler.Exit` | Kernel/kthread.c:84-98 | the running thread is on no list, its waiters are woken as by WakeupAll; then schedule picks |
| `Ext2Map.WriteIsUpdate` | Kernel/ext2.c:182-375 | in an index tree of any depth one index changes, all others read as before, and no index block becomes shared |
| `Ext2Map.WriteFrame` | Kernel/ext2.c:182-375 | nothing outside the tree and the fresh blocks is written |
| `Ext2Map.RegionUpdate` | Kernel/ext2.c:182-375 | the same for a region whose top index block may be missing |
| `Ext2Map.RegionLosesNone` | Kernel/ext2.c:182-375 | every index block stays in the tree, and every block taken from the allocator is in it |
| `Ext2Inode.MapIsUpdate` | Kernel/ext2.c:154-378 | across direct, single, double and triple indirect regions: the written logical block reads the new value, every other one as before |
| `Ext2Inode.MapKeepsOk` | Kernel/ext2.c:154-378 | the trees stay free of sharing, so any number of updates may follow |
| `Ext2Inode.RecycledBlockMustBeZero` | Kernel/ext2.c:182-375 | in the single, double and triple indirect regions, when the index block that should hold the pointer is missing and a recycled block is handed out for it: all other logical blocks read as before exactly when the recycled block is zero outside the slot written |
| `Ext2Inode.RecycledGarbage` | Kernel/ext2.c:182-216 | a failing input: blocks of two pointers, a recycled block holding 5 and 6; mapping logical block 12 makes the hole at 13 read 6 |
| `Ext2Map.HungReads` | Kernel/ext2.c:217-375 | what every other index reads after such a block was put to use: what it holds in the same index block, and what it read before elsewhere |
| `Ext2Inode.GetRealBlock` | Kernel/ext2.c:154-378 | the pointer read, region by region: `i_block` itself below 12, the block of `i_block[12]` at the rest of the number, two and three blocks deep from `i_block[13]` and `i_block[14]` at the quotients and remainders; 0 as soon as a block is missing, -1 past the last region |
| `Ext2Inode.PutRealBlock` | Kernel/ext2.c:154-378 | writing the map computes the updated map and charges the sectors of each index block it allocates; of `i_block` only the pointer itself or slot 12, 13 or 14 may change, by region, and that only when it was 0; -1 past the last region |
| `Ext2Inode.BlockMap.Put` | Kernel/ext2.c:154-378 | the inode's map is updated at one logical block and nowhere else |
| `Ext2Inode.BlockMap.Get` | Kernel/ext2.c:154-378 | a read returns the current mapping |
| `Ext2Inode.BlockMap.constructor` | Kernel/ext2.c:154-378 | an inode without blocks is valid and all holes |
| `Ext2Files.MappedFile.Put` | Kernel/ext2.c:154-470 | with the index blocks taken from ext2_alloc_block itself, one logical block changes and no other; the blocks marked afterwards are those marked before and the inode's index blocks, so none leaks; that the blocks handed out are new to the inode is derived from the bitmaps; past the last region nothing changes |
| `Ext2Files.DerivedFresh` | Kernel/ext2.c:407-470 | three successive allocations yield distinct blocks that are in none of the inode's trees |
| `Ext2Files.LedgerKept` | Kernel/ext2.c:154-470 | after the update every index block is marked used, every unmarked block holds zeros, and the counts are those of the allocations really used |
| `Ext2Files.NoneLeaks` | Kernel/ext2.c:154-470 | after the update a block is marked exactly if it was before or is an index block of the inode |
| `Ext2Files.MappedFile.constructor` | Kernel/ext2.c:154-470 | an empty inode on an empty disk meets that invariant |
| `Ext2Read.ReadBlock` | Kernel/ext2.c:381-405 | the block's bytes for a mapped block; a hole is reported |
| `Ext2Read.ReadBlocks` | Kernel/ext2.c:1512-1539 | the loop appends every remaining byte, whatever the alignment: the byte of the mapped disk block, zero in a hole |
| `Ext2Read.OpenFile.Read` | Kernel/ext2.c:1473-1558 | returns min(nbytes, size - pos), advances the position by it; byte k of the buffer is the byte at that offset of the disk block mapped there, and zero in a hole |
| `Ext2Alloc.MarkKeeps` | Kernel/ext2.c:407-470 | marking a bit keeps each free count equal to the clear bits and their sum equal to s_free_blocks |
| `Ext2Alloc.ScanBits` | Kernel/ext2.c:429-431 | the first clear bit is found |
| `Ext2Alloc.Bitmaps.AllocBlock` | Kernel/ext2.c:407-470 | the first clear bit of the first group with free blocks becomes used and the counts stay consistent; with none free nothing changes and the uninitialised number is returned |
| `Ext2Alloc.Bitmaps.AllocInode` | Kernel/ext2.c:472-542 | the same search over the inode bitmaps; the number given out is one whose bit was clear, and its placement finds that group and index |
| `Ext2Alloc.TakeBit` | Kernel/ext2.c:417-460 | the search shared by both finds a bit exactly when some group counts one free, and keeps the counts |
| `Ext2Alloc.Bitmaps.constructor` | Kernel/ext2.c:407-470 | a file system with all blocks free is consistent |
| `Ext2Alloc.Bitmaps.FreeBlock` | Kernel/ext2.c:544-599 | exactly the computed bit is cleared and both counts grow; for a used block of the group they stay consistent |
| `Ext2Alloc.FreeFindsBlock` | Kernel/ext2.c:549-550 | the group computed from an allocated number is the group it came from exactly when its bit is not below first_data_block |
| `Ext2Alloc.FreeUndoesAlloc` | Kernel/ext2.c:544-599 | clearing the bit just set restores all bitmaps and counts |
| `Ext2Alloc.AllocThenFree` | Kernel/ext2.c:407-599 | allocating and freeing restores every bitmap and count exactly when the bit found is not below first_data_block |
| `Ext2Alloc.InodeToBlock` | Kernel/ext2.c:40-58 | numbers below 1 are refused; with whole inodes in a block, the block and slot returned give the inode number back with the group and the place in its table |
| `Ext2Alloc.PlaceParts` | Kernel/ext2.c:40-58 | group, table block and slot together give the inode number back |
| `Ext2Alloc.PlacesDiffer` | Kernel/ext2.c:40-58 | different inodes are kept in different places |
| `AvlSpec.InsertBalanced` | Kernel/avltree.c:84-117 | insertion keeps exact stored heights and balance within 1, and the height grows by at most one |
| `AvlSpec.InsertContents` | Kernel/avltree.c:84-117 | insertion keeps search order and adds exactly the new key; an existing key keeps its payload |
| `AvlSpec.InsertKeepsAvl` | Kernel/avltree.c:84-117 | both together, for every key and tree |
| `AvlSpec.FindAgrees` | Kernel/avltree.c:187-199 | lookup finds a key exactly when it is in the contents, with its payload |
| `AvlSpec.EnoughNodes` | Kernel/avltree.c:84-117 | a balanced tree of height h has at least Fib(h + 3) - 1 nodes |
| `Avl.SingleRotateWithLeft` | Kernel/avltree.c:35-47 | the pointer rotation implements the rotation of the tree value and keeps the same nodes |
| `Avl.SingleRotateWithRight` | Kernel/avltree.c:51-63 | the mirror image |
| `Avl.DoubleRotateWithLeft` | Kernel/avltree.c:68-73 | the pointer double rotation implements that of the tree value |
| `Avl.DoubleRotateWithRight` | Kernel/avltree.c:78-83 | the mirror image |
| `Avl.AvlInsert` | Kernel/avltree.c:84-117 | on balanced trees no null child is followed, the old nodes stay, at most fresh ones are added, and the result represents the inserted tree |
| `Avl.AvlFind` | Kernel/avltree.c:187-199 | the node returned is in the tree, has the key, and is null exactly when lookup fails |
| `Avl.Table.Put` | Kernel/avltree.c:84-117 | as a table: the map gains the key unless present |
| `Avl.Table.Get` | Kernel/avltree.c:187-199 | as a table: a lookup agrees with the map |
| `Page.MappedUpdates` | Kernel/page.c:25-69 | mapping a page is an update of the translation map: va gives pa, every other virtual page as before, tables stay distinct |
| `Page.PagesReachEnd` | Kernel/page.c:86-88 | the page count reaches the end of the range exactly when va is aligned or the size is not whole pages |
| `Page.RangeCovered` | Kernel/page.c:73-107 | then every byte of the range is mapped to one of the fresh frames |
| `Page.LastPageMissed` | Kernel/page.c:86-88 | otherwise the last page keeps its old translation |
| `Page.OnePageTooFew` | Kernel/page.c:86-88 | a failing input: one page of bytes from an address one past a page boundary touches two pages, and one is mapped |
| `Page.AddressSpace.MapPage` | Kernel/page.c:25-69 | a 4 MB page translates its whole region and nothing else; for a 4 KB page an occupied word is reported and nothing changes, otherwise the map update, with a table allocated when missing; the words written are stated with their flags |
| `Page.AddressSpace.MapPages` | Kernel/page.c:73-107 | fails exactly when a page of the range is occupied; maps distinct fresh frames in order, present, with the user flag exactly below kernel space or when asked for and the other flags as asked; all other pages unchanged |
| `Page.AddressSpace.ProbeForWrite` | Kernel/kthread.c:814-845 | succeeds exactly when the end is not in kernel space and the page of the first byte is mapped |
| `Page.MapThenProbe` | Kernel/page.c:73-107 | after mapping, the probe succeeds at every byte, and in the excluded case at the last byte exactly when it was mapped before |
| `MbufSpec.DropFrontSpells` | Kernel/mbuf.c:473-483 | trimming from the head drops exactly that prefix of the byte string |
| `MbufSpec.TakeFrontSpells` | Kernel/mbuf.c:517-528 | trimming from the tail keeps exactly that prefix |
| `Mbufs.TrimHead` | Kernel/mbuf.c:473-483 | the loop computes that chain and reports what could not be trimmed |
| `Mbufs.FindLast` | Kernel/mbuf.c:520-526 | the rescan finds the mbuf with the last data kept and never runs off the chain |
| `Mbufs.TrimTail` | Kernel/mbuf.c:495-528 | exactly the suffix is lost; a packet length that was right stays right; buffers and flags stay |
| `Mbufs.Adj` | Kernel/mbuf.c:460-530 | a prefix or a suffix is lost for either sign, any length and any chain; a right packet length stays right |
| `MbufMoves.Cat` | Kernel/mbuf.c:435-458 | the joined chain spells both in order; mbufs are copied into the last one and freed exactly as long as that has no cluster and stays short of its end, the rest is linked on unchanged |
| `MbufMoves.Prepend` | Kernel/mbuf.c:271-301 | len bytes come in front, contiguous in the first mbuf: in its own room, or in a new one at the longword boundary nearest its end, which takes over the header; the packet length grows by len |
| `MbufMoves.PrependThenAdj` | Kernel/mbuf.c:271-301 | trimming what was prepended restores bytes and packet length |
| `MbufMoves.GetPtr` | Kernel/mbuf.c:403-432 | the mbuf and offset of a location, the end counting as part of the last mbuf; null exactly outside |
| `MbufMoves.ByteAt` | Kernel/mbuf.c:403-432 | that place holds that byte of the byte string |
| `MbufMoves.CopyData` | Kernel/mbuf.c:153-186 | on chains without clusters the result is exactly the requested slice |
| `MbufMoves.DevGet` | Kernel/mbuf.c:532-606 | the chain spells the device buffer; for each mbuf, when it is a cluster, where its data start and how many bytes it takes; header and packet length; no chain for a bad offset or an empty packet |
| `Ids.FirstIsLeast` | Kernel/pid.c:55-79 | given the cursor invariant, the first set bit at the cursor is the least free id |
| `Ids.SetBit` | Kernel/pid.c:82-101 | changing one bit changes exactly that id |
| `Ids.SpinsWhenFull` | Kernel/pid.c:59-66 | with no id free the search finds nothing in any number of rounds |
| `Ids.IdMap.constructor` | Kernel/pid.c:23-40 | every id of the map, cut down to a page, is free |
| `Ids.IdMap.GetUnusedId` | Kernel/pid.c:55-79 | whenever an id is free: terminates with the least one, which is then used; the cursor invariant is kept |
| `Ids.IdMap.PutId` | Kernel/pid.c:82-93 | exactly this id becomes free; the cursor moves back when it must |
| `Ids.IdMap.ResvId` | Kernel/pid.c:95-101 | exactly this id becomes used |
| `Ids.KidDup` | Kernel/pid.c:103-113 | the copy has the same free ids and a valid cursor; null arguments change nothing |
| `Ids.PutThenGet` | Kernel/pid.c:55-93 | an id put back below all free ones is the next one handed out |
| `Line.DrawLine24` | Kernel/gfx/draw.c:157-225 | the points plotted are those of the step recurrence, for all arguments |
| `Line.HalfPixel` | Kernel/gfx/draw.c:180-194 | the decision variable is the error of the next step less half a pixel, and every point is within half a pixel, on a tie the one further on |
| `Line.EndsThere` | Kernel/gfx/draw.c:180-194 | the walk ends exactly at the far end |
| `Line.ExactDistancesGiveLine` | Kernel/gfx/draw.c:157-225 | when the macro computes both distances right: one pixel per step of the longer axis, from end to end, touching, each within half a pixel of the ideal line |
| `Line.RisingPixels` | Kernel/gfx/draw.c:157-225 | which pixels these are for ends in rising order: the ideal line rounded to the pixel, halves upwards |
| `Line.DistExact` | Kernel/gfx/draw.c:164-167 | the macro computes a distance right exactly when the ends are in order or the first is 0 |
| `Line.LineIffRising` | Kernel/gfx/draw.c:157-225 | on non-negative coordinates, and wherever a falling pair has a positive sum, the line is right exactly when both are given in rising order |
| `Line.FallingIsStraight` | Kernel/gfx/draw.c:157-225 | what is drawn otherwise, on the same coordinates: vertical at the first end when only x falls, horizontal at the first end when only y falls, straight at the second end when both fall |
| `Line.LeftwardsFails` | Kernel/gfx/draw.c:164-167 | a failing input: the line from (4, 0) to (0, 2) is drawn as (4, 0), (4, 1), (4, 2) |
| `Circle.DrawCircle24` | Kernel/gfx/draw.c:569-603 | the points plotted are those of the recurrence and its eight reflections; none exactly when the circle is wholly beyond one side of the bitmap |
| `Circle.Decision` | Kernel/gfx/draw.c:582-588 | the decision variable is the sum of the errors of the two candidates of the next column |
| `Circle.OutlineIsNear` | Kernel/gfx/draw.c:590-601 | every outline point differs from the circle by at most its larger offset, in squares: the nearest pixel of its column or row |
| `Circle.OutlineIsClosed` | Kernel/gfx/draw.c:590-601 | there is an outline point in every column and row up to the diagonals |
| `Circle.DiscIsFilled` | Kernel/gfx/draw.c:577-589 | a filled circle contains every pixel of the disc |
| `Circle.FilledIsDisc` | Kernel/gfx/draw.c:577-589 | and nothing but the disc and its outline |
| `Circle.OutlineInFilled` | Kernel/gfx/draw.c:577-601 | every outline point is a point of the filled circle |
| `Circle.NothingSeen` | Kernel/gfx/draw.c:569-573 | the early return drops no point inside the bitmap |
| `Time.MktimeCounts` | Kernel/time.c:126-143 | with every step in 32-bit arithmetic and for every zone, the result is 86400 times the days counted year by year and month by month, plus time of day and zone, modulo 2^32 |
| `Time.MktimeExact` | Kernel/time.c:126-143 | it is the true count exactly when that fits an unsigned word |
| `Time.NextDayNumber` | Kernel/time.c:126-143 | the next calendar day is numbered one more |
| `Time.FourCenturies` | Kernel/time.c:126-143 | the days counted grow by 146097 in 400 years |
| `Time.ConsecutiveDays` | Kernel/time.c:126-143 | the same time on consecutive days is 86400 seconds apart across month, year and leap boundaries |

## Left out

- avl_delete and avl_destroy_tree: the two sides of the deletion rebalance by opposite tests and the two-child case does not rebalance at all, so no balance can be promised.
- m_pullup, m_copym, m_dup_pkthdr and cluster reference counts: they do not follow the byte-string view of a chain.
- MbufMoves.CopyData: not for chains with clusters, whose branch ignores the offset and the rest of the chain, nor for an offset at the very end of a non-empty chain, where the code follows a null pointer.
- Mbufs.Adj: mbufs are records in a sequence; the links are positions, so sharing of mbufs between chains is not captured. A request of -2^31 is not modelled as overflowing.
- MbufMoves.Prepend: a length above MHLEN, which the code only logs, and a failing allocation are excluded.
- MbufMoves.DevGet: allocations succeed; the header leaked for an empty packet is not tracked.
- Bget.Heap.Bgetr: data are kept in whole words; the bytes of a last partial word are moved with their word. Sizes near 2^31 are not modelled as overflowing.
- Bget.Heap.Bpool: the region must be large enough for a header, the links and the sentinel, and apart from the other pools, which the code does not check.
- kmalloc, kfree, bgetz and the growth of the heap by pages: wrappers around the routines modelled.
- Buddy.Allocator.AllocPages: takes a top-order block only from the frontier, and knows no end of memory, since the code checks neither; the free count of the top order is not tracked.
- Buddy.Allocator.constructor: assumes the page fields as the initialisation loop leaves them; the memory sizing around it is boot-time layout.
- Sched.Scheduler.Schedule: the context switch, interrupt masking, thread state fields and timers are not modelled; a step is one uninterrupted call.
- ksetpriority, kwait, process creation and termination: built from the queue moves modelled.
- ListCut.ListCut: states the two rings and which words change, not the other lists sharing the memory.
- Ext2Inode.BlockMap.Put: needs fresh zero-filled index blocks (see Ext2Inode.RecycledBlockMustBeZero for what happens otherwise), and reads and writes of the disk succeed.
- Ext2Read.OpenFile.Read: not for a position past the end, where the code passes a negative count on; reads of the disk succeed.
- Ext2Alloc.Bitmaps.AllocBlock: bitmaps are sequences of flags, not packed bytes, and reads and writes of the disk succeed.
- Ext2Alloc.Bitmaps.FreeBlock: the bit computed must exist, since otherwise the code writes outside the bitmap.
- Ext2Files.MappedFile.Put: needs three free blocks, and one inode is followed; blocks of other files only count as used.
- ext2_write, directories, ext2_free_inode and mount: size accounting and directory plumbing around the maps modelled.
- Page.AddressSpace.MapPage: a 4 KB page inside an existing 4 MB page is excluded, where the code would write into that page's memory; words are a frame and a set of flags rather than packed bits, get_zero_page always has a frame, and a word holding frame 0 counts as free, as in the code.
- Page.AddressSpace.MapPages: the range ends at least two pages below 2^32, where the code's counter would wrap.
- Ids.IdMap.GetUnusedId: find_first_bit is its specification, the lowest set bit or -1; ids passed back must be in range, which the code does not check.
- Line.LineIffRising: falling pairs of coordinates whose sum is not positive, so one of them negative, for which wrong distances can draw a right line by accident (Line.AccidentIsRight shows one); right distances always draw it, by Line.ExactDistancesGiveLine.
- Line.DrawLine24 and Circle.DrawCircle24: a pixel call appends to a trace; clipping, colour, overflow for huge coordinates, and the 8, 16 and 32 bit variants of the same loops are left out.
- make_time, read_rtc and the clock registers: the clock is hardware; make_time is not called.
- Paging set-up, ELF loading, system calls, virtual file system, sockets and device drivers: hardware access or plumbing around the structures modelled.
