# Hurlex II in Dafny

A model of the in-memory data structures and allocators of Hurlex II, a small i386 kernel, with proofs of what they keep.

| files | what they model |
|---|---|
| `RbCells`, `RbInsertFixup`, `RbEraseFixup`, `RbRelink`, `RbTree` | the intrusive red-black tree with parent pointers: nodes are mutable objects, and each loop iteration and relinking step is proved on the whole heap |
| `RbMeaning`, `RbIndex`, `RbAugment`, `RbPacked` | the inductive tree behind the pointers, the documented search and insert protocol, the repair of summaries, and the packed parent and colour word |
| `List` | the circular doubly linked list, each operation against the ring of entries that it works on |
| `BuddyBlocks`, `BuddyRequests`, `BuddyRuns` | the buddy allocator on sets of blocks: coalescing, splitting, trimming, and all runs of requests and frees |
| `BuddyLists`, `BuddyListOrder`, `Buddy`, `BuddySession` | the allocator itself, with its lists in their order, page flags, counts and counter, tied to those runs |
| `SlobBlocks`, `SlobRuns`, `Slob` | the slob heap as a sequence of blocks, its runs, and the version with headers and list links in memory |
| `PidMap`, `TaskSteps`, `TaskRuns`, `TaskHistory`, `TaskLimit`, `Tasks` | the PID bitmap, the atomic steps of fork, exit, wakeup and schedule, what holds in all their interleavings, what each field of a task says about the run, where two promises fail, and the code on the task list |
| `FirstFitRuns`, `FirstFit` | the first-fit page allocator with run lengths on the first page of each free run |
| `Paging` | the two-level page table as a flat map, the walk of the processor with its access rights, and the map that `vmm_init` builds |
| `Number`, `NumberField` | `number` and `skip_atoi` of `printk`, and the field that `number` writes by character position |
| `Powers`, `Common` | powers of two, bits of numbers, and what several models share |

`dafny verify dfyconfig.toml` checks the whole project.

The invariant of the tree is flat: every node carries, as ghost state, the interval of the in-order sequence that its subtree occupies, its own position and its black height, and each node's links must agree with those of its neighbours. `RbMeaning` shows in both directions that this is the inductive notion of a red-black tree. Where a structure is a list of blocks or pages, the code is first proved to compute an exact function of the list, and the theorems are about that function.

Some promises do not hold of the code as it stands, and the project says exactly when they do:

- Coalescing in the buddy allocator assumes aligned blocks, but `buddy_free_pages` peels bits from the low end, so blocks stay aligned exactly if each freed run ends at a multiple of its largest power of two (`FreesCanonicalIff`, `ThreePagesStrandFour`).
- `phy_page_now_count` drifts upwards by the trimmed tail with every request that is not a power of two, and is exact at a step exactly if there was none so far (`RunInv`, `CounterExactIffPowers`).
- `kmalloc` marks a block used only when it splits it, so otherwise the same block is served again (`ServedAgainIffUnsplit`, `TwoOwnersOfOneAddress`), and the length wraps for sizes near 2^32 (`HoldsRequestIffNoWrap`, `LiveGrantTooShort`).
- The loop body of `ff_alloc_pages` returns in its first pass, so a request is served exactly if the first run is long enough (`AllocWorksIffFirstRunFits`, `SecondRunIsNeverTried`).
- The `nr_task` limit is tested outside the atomic section, so `nr_task` can exceed `MAX_TASK` (`LimitCanBeExceeded`). With the forks that are past the test counted in, the limit holds exactly if each test that passed found the sum below it (`LimitHoldsIff`); above it, commits alone break the limit (`OverflowsIffOverloaded`). Either way `nr_task` stays below the supply of PIDs (`ForkAlwaysGetsPid`).
- `wakeup_task` tests and stores with interrupts on, so it revives a task exactly if that task exits in between (`RevivesIffExitedBetween`, `ZombieCanBeRevived`), and the task invariants hold in exactly the runs without such a store (`InvIffNoRevival`). Its only caller, `do_fork`, never causes one (`ForksNeverRevive`), so they hold in all runs of the kernel as it is (`ForksKeepInv`).
- `map` does not clear the frame of a new table, so it is local exactly if that frame is clear already (`MapIsLocalIffFrameClear`, `LeftoverWordIsMapped`). It masks neither its flags (`FrameReadBack`) nor tests whether a frame was left (`FailedMapIsWalked`).

## Model

| member | source | states |
|---|---|---|
| `RbTree.Root.RotateLeft` | lib/rbtree.c:21-42 | exactly the cells that one left rotation changes, and how; RbCells.RotatedShaped says what such a rotation keeps |
| `RbTree.Root.RotateRight` | lib/rbtree.c:44-65 | exactly the cells that one right rotation changes, and how |
| `RbCells.RotatedShaped` | lib/rbtree.c:21-65 | a heap that differs by one rotation has consistent child and parent links and the same in-order sequence |
| `RbInsertFixup.GrandparentExists` | lib/rbtree.c:71-77 | while the parent of the node worked on is red, its grandparent exists and is black, so the loop never follows a null pointer |
| `RbInsertFixup.FlipColours` | lib/rbtree.c:76-83 | with a red uncle, recolouring moves the only possible red-red edge up to the grandparent |
| `RbInsertFixup.RotateInner` | lib/rbtree.c:86-92 | an inner node is rotated outwards without breaking anything but the same red-red edge |
| `RbInsertFixup.RotateOuter` | lib/rbtree.c:94-96 | recolouring and rotating at the grandparent gives a red-black tree, and the parent is black, which ends the loop |
| `RbInsertFixup.BlackenRoot` | lib/rbtree.c:123 | blackening the root of a tree without red-red edge gives a red-black tree |
| `RbTree.Root.InsertColor` | lib/rbtree.c:67-124 | from a red-black tree with one red leaf linked in, the loop ends in a red-black tree with the same nodes in the same order, and only nodes whose summary is repaired later get new children |
| `RbTree.Root.LinkNode` | include/lib/rbtree.h:208-215 | the new node is a red leaf at the empty link, and its place in the in-order sequence is fixed by that link; everything else is unchanged |
| `RbEraseFixup.SiblingExists` | lib/rbtree.c:126-190 | the sibling of the short side is never null in __rb_erase_color, and it lies in the tree with its children linked back |
| `RbEraseFixup.RedSibling` | lib/rbtree.c:133-139 | a red sibling is rotated up; the short side stays the only defect and its new sibling is black |
| `RbEraseFixup.MoveUp` | lib/rbtree.c:140-144 | reddening the sibling moves the defect to the parent, whose subtree is strictly larger |
| `RbEraseFixup.InnerNephew` | lib/rbtree.c:146-151 | a red inner nephew becomes the sibling, with a red outer nephew |
| `RbEraseFixup.Borrow` | lib/rbtree.c:152-157 | with a red outer nephew one rotation repairs the whole tree |
| `RbEraseFixup.BlackenShort` | lib/rbtree.c:188-189 | blackening the short node where it is red or the root repairs the tree |
| `RbTree.Root.EraseColor` | lib/rbtree.c:126-190 | from a tree that is one black node short at one place the loop ends in a red-black tree with the same nodes in the same order |
| `RbTree.Root.Successor` | lib/rbtree.c:201-206 | the leftmost node of the right subtree is the in-order successor, and has no left child |
| `RbRelink.Unlink` | lib/rbtree.c:196-240 | taking out a node with at most one child leaves the in-order sequence without it and, if it was black, exactly one place short |
| `RbRelink.UnlinkSuccessor` | lib/rbtree.c:201-236 | with two children, the successor in the place and colour of the node leaves the sequence without the node |
| `RbTree.Root.Erase` | lib/rbtree.c:192-255 | for any node of any valid tree: terminates, gives a valid red-black tree, removes exactly that node and keeps every other node and their order; only nodes near the path that rb_augment_erase_begin announces get new children |
| `RbTree.Root.ReplaceNode` | lib/rbtree.c:404-425 | the new node takes place, links, colour and in-order position of the victim; nothing else changes |
| `RbTree.Root.First` | lib/rbtree.c:328-338 | the first node of the in-order sequence, or NULL if there is none |
| `RbTree.Root.Last` | lib/rbtree.c:340-350 | the last node of the in-order sequence, or NULL |
| `RbTree.Root.Next` | lib/rbtree.c:352-378 | the next node of the in-order sequence, or NULL after the last |
| `RbTree.Root.Prev` | lib/rbtree.c:380-402 | the previous node of the in-order sequence, or NULL before the first, so it inverts rb_next |
| `RbMeaning.ValidMeansRedBlackTree` | lib/rbtree.c:67-255 | the invariant on nodes means: the pointers form an inductive tree with this in-order sequence, black root, no red-red edge, equal black heights, and 2^height at most (n + 1)^2 |
| `RbMeaning.RedBlackTreeIsValid` | lib/rbtree.c:67-255 | conversely every inductive red-black tree of distinct nodes, laid out as pointers, meets the invariant |
| `RbMeaning.SizeAndHeight` | lib/rbtree.c:67-255 | in any well-coloured tree 2^(black height) is at most size + 1, and the height at most twice the black height, plus one below a red root |
| `RbIndex.Index.Search` | include/lib/rbtree.h:54-71 | the documented search finds a node with the key exactly if there is one |
| `RbIndex.Index.Locate` | include/lib/rbtree.h:73-97 | the documented descent ends at the only link where the new key keeps the sequence sorted |
| `RbIndex.Index.Insert` | include/lib/rbtree.h:99-110 | search, link and recolour: a node already holding the key is returned and nothing changes, else the sorted sequence gains exactly the new node |
| `RbIndex.Index.Remove` | lib/rbtree.c:192-255 | the sequence stays sorted and loses exactly the node |
| `RbIndex.Index.Walk` | lib/rbtree.c:328-378 | from rb_first, repeating rb_next visits the in-order sequence once and then gives NULL |
| `RbAugment.AugmentPath` | lib/rbtree.c:257-275 | if only summaries of nodes on the way up from the start, or of their siblings, are stale, none is afterwards |
| `RbAugment.AugmentInsert` | lib/rbtree.c:280-289 | repairs every summary that linking and rotations can have made stale |
| `RbAugment.AugmentEraseBegin` | lib/rbtree.c:294-314 | returns DeepestLeft, the node that Erase names as the start of the path to repair |
| `RbAugment.AugmentEraseEnd` | lib/rbtree.c:319-323 | repairs every summary that rb_erase can have made stale |
| `RbAugment.InsertAugmented` | lib/rbtree.c:280-289 | rb_link_node, rb_insert_color and rb_augment_insert in turn: tree valid, node inserted, every summary right |
| `RbAugment.EraseAugmented` | lib/rbtree.c:294-323 | rb_augment_erase_begin, rb_erase and rb_augment_erase_end in turn: tree valid, node gone, every summary right |
| `RbPacked.ParentRoundTrip` | include/lib/rbtree.h:156-166 | in the packed 32-bit word a stored parent reads back, and leaves the colour alone, exactly if its two low bits are clear |
| `RbPacked.RedRoundTrip` | include/lib/rbtree.h:156-170 | reddening keeps the packed parent |
| `RbPacked.BlackRoundTrip` | include/lib/rbtree.h:156-170 | blackening keeps the packed parent |
| `List.AddBetween` | include/lib/list.h:39-46 | one entry goes in between two neighbours of a ring |
| `List.Add` | include/lib/list.h:48-51 | the new entry comes right after the head; no other links change but the neighbours' |
| `List.AddBefore` | include/lib/list.h:53-61 | the new entry comes right before the head |
| `List.Del` | include/lib/list.h:63-72 | the ring closes over the entry, whose own links still point to its old neighbours |
| `List.Splice` | include/lib/list.h:157-175 | the entries of one ring go in after the head of another, in order; the emptied head keeps its links |
| `List.CutPosition` | include/lib/list.h:131-155 | the entries up to the given one move to the other head, in order; nothing moves when the entry is the head |
| `BuddyBlocks.BuddyFlipsBit` | mm/buddy_mm.c:200 | the buddy index is x with bit k flipped and all others as they were, that is x ^ (1 << k) |
| `BuddyBlocks.MergedIsAnd` | mm/buddy_mm.c:208 | the merged index is the bitwise and of the two |
| `BuddyBlocks.MergedAligned` | mm/buddy_mm.c:200-208 | merging makes a block aligned to its size exactly if it was aligned before |
| `BuddyBlocks.FreeBlockPages` | mm/buddy_mm.c:191-216 | coalescing neither loses nor invents a page and leaves blocks disjoint, aligned or not |
| `BuddyBlocks.FreeBlockAligned` | mm/buddy_mm.c:191-216 | after freeing a block all free blocks are aligned exactly if that block was |
| `BuddyBlocks.FreeBlockCoalesced` | mm/buddy_mm.c:199-215 | after freeing a block no two free buddies of one order below the top coexist |
| `BuddyBlocks.TakeBlockPages` | mm/buddy_mm.c:124-141 | splitting down removes exactly the 2^k requested pages |
| `BuddyBlocks.TakeBlockCanonical` | mm/buddy_mm.c:119-146 | splitting the smallest sufficient block keeps alignment and full coalescing |
| `BuddyBlocks.CanonicalUnique` | mm/buddy_mm.c:191-216 | aligned, fully coalesced blocks are determined by the pages they cover |
| `BuddyBlocks.NoBlockIffNoRun` | mm/buddy_mm.c:119-146 | in such a state there is no block of order at least k exactly if there is no aligned run of 2^k free pages |
| `BuddyRequests.FreeRunPages` | mm/buddy_mm.c:218-238 | freeing n pages piece by piece frees exactly those pages |
| `BuddyRequests.FreeRunAligned` | mm/buddy_mm.c:229-237 | freeing a run keeps all blocks aligned exactly if its end is a multiple of its largest power of two |
| `BuddyRequests.AllocRunPages` | mm/buddy_mm.c:148-170 | a request removes exactly n pages, whatever n is |
| `BuddyRequests.AllocRunCanonical` | mm/buddy_mm.c:148-170 | a request keeps alignment and full coalescing, trimmed tail included |
| `BuddyRequests.AllocLeavesPieces` | mm/buddy_mm.c:163-165 | the trimmed tail becomes one block for each bit of 2^order - n, and none of them merges |
| `BuddyRequests.OrderUnique` | mm/buddy_mm.c:104-117 | get_order gives the only order whose size is at least n while half of it is not |
| `BuddyRequests.InitIsCanonical` | mm/buddy_mm.c:82-97 | the initial blocks cover all pages, aligned and fully coalesced |
| `BuddyLists.FreeBlockListsBlocks` | mm/buddy_mm.c:191-216 | the exact lists after coalescing hold the blocks that the set-level step says |
| `BuddyLists.SplitDownBlocks` | mm/buddy_mm.c:130-138 | the exact lists after splitting hold the halves, one at each order |
| `BuddyLists.OneListPerPage` | mm/buddy_mm.c:209-215 | no page heads two blocks: it is on at most one list, and once |
| `BuddyListOrder.FreeForms` | mm/buddy_mm.c:191-216 | the block that a free forms heads its list; at each order below one buddy inside it has left its list, and all other entries keep their order |
| `BuddyListOrder.FreeRunForms` | mm/buddy_mm.c:218-238 | a run is freed so piece by piece, the smallest first |
| `BuddyListOrder.SplitHeads` | mm/buddy_mm.c:130-138 | splitting puts one right half at the head of each list below the order split, and changes nothing else |
| `BuddyListOrder.ServedHeads` | mm/buddy_mm.c:148-170 | with aligned blocks, the exact lists after a request: pieces of the trimmed tail and right halves at the heads, the first block of the smallest sufficient order taken, the rest as it was |
| `BuddyListOrder.TopHead` | mm/buddy_mm.c:82-97 | after buddy_page_init the block of 1024 pages that is laid out last heads its list |
| `BuddyAllocator.Allocator.constructor` | mm/buddy_mm.c:68-102 | lists, flags, orders and counts start in agreement, holding the initial blocks; each list is descending, so that the block laid out last is served first |
| `BuddyAllocator.Allocator.PageIsBuddy` | mm/buddy_mm.c:182-189 | flag and order field say exactly whether the page heads a block on that order's list |
| `BuddyAllocator.Allocator.FreePagesSub` | mm/buddy_mm.c:191-216 | the exact lists afterwards, the block just formed at the head of its list, with page flags, orders, nr_free and reference counts in step |
| `BuddyAllocator.Allocator.FreePages` | mm/buddy_mm.c:218-238 | the exact lists afterwards, each piece formed in turn at the head of its list; the counter rises by n and the reference counts of the pages are 0 |
| `BuddyAllocator.Allocator.GetOrder` | mm/buddy_mm.c:104-117 | the smallest order whose size is at least n |
| `BuddyAllocator.Allocator.AllocPagesSub` | mm/buddy_mm.c:119-146 | takes the first block of the smallest sufficient order and puts one right half at the head of each list below; in a canonical state it fails exactly if no aligned run of 2^k free pages exists |
| `BuddyAllocator.Allocator.AllocPages` | mm/buddy_mm.c:148-170 | what is taken, what is trimmed off, the exact lists afterwards, and the counter's exact change; NULL exactly for n = 0, for more than the counter, or without a large enough block, which in a canonical state means without an aligned free run of that size |
| `BuddyRuns.RunInv` | mm/buddy_mm.c:68-238 | in every state of every run blocks are disjoint and in range, free and used pages partition all pages, and the counter exceeds the free pages by exactly the tails trimmed so far |
| `BuddyRuns.FreesCanonicalIff` | mm/buddy_mm.c:218-238 | freeing a used run keeps the blocks aligned and coalesced exactly if the run ends aligned |
| `BuddyRuns.AlignedRunCanonical` | mm/buddy_mm.c:68-238 | a run of requests that frees only runs that end aligned stays aligned and fully coalesced |
| `BuddyRuns.SamePagesSameBlocks` | mm/buddy_mm.c:68-238 | two such runs that end with the same pages in use end with the same blocks at every order, whatever the order of requests |
| `BuddyRuns.AllFreedRestoresInit` | mm/buddy_mm.c:68-238 | freeing everything restores exactly the initial blocks |
| `BuddyRuns.PowerRunsExact` | mm/buddy_mm.c:148-170 | with power-of-two requests only, every used run is an aligned block and the counter is the number of free pages |
| `BuddyRuns.CounterExactIffPowers` | mm/buddy_mm.c:148-170 | in every run, the counter equals the number of free pages at a step exactly if every request served so far was for a power of two |
| `BuddyRuns.PowerRunsRestoreInit` | mm/buddy_mm.c:68-238 | allocating and freeing power-of-two runs in any order restores blocks and counter |
| `BuddyRuns.ThreePagesStrandFour` | mm/buddy_mm.c:218-238 | a run from the initial state on which alignment fails: three of four pages are taken and freed again, which leaves a misaligned block, and four free pages that serve no request for four |
| `BuddySession.Request` | mm/buddy_mm.c:148-170 | the allocator method performs one step of the transition system |
| `BuddySession.Release` | mm/buddy_mm.c:218-238 | so does freeing a used run |
| `BuddySession.FreeThenTake` | mm/buddy_mm.c:119-216 | a block freed without merging is the next one served at its order, and taking it restores every list |
| `SlobBlocks.TilesOrder` | mm/slob.c:98-101 | blocks of a tiling are in address order, without overlap, inside the arena |
| `SlobBlocks.TilesConserves` | mm/slob.c:98-101 | headers and payloads account for every byte |
| `SlobBlocks.KmallocKeepsHeap` | mm/slob.c:146-165 | kmalloc keeps the tiling, and gives NULL exactly if no free block is longer than the request |
| `SlobBlocks.KfreeKeepsHeap` | mm/slob.c:123-178 | kfree keeps the tiling and leaves no two free neighbours |
| `SlobBlocks.UsedDetermine` | mm/slob.c:94-178 | the used blocks determine the whole list |
| `SlobBlocks.AllFreeIsInitial` | mm/slob.c:94-178 | with nothing used the list is the single block of slob_init |
| `SlobBlocks.FreeUndoesMalloc` | mm/slob.c:108-178 | kmalloc and then kfree of the block restores the list, split or not |
| `SlobBlocks.LowestFit` | mm/slob.c:153-159 | the block served is the lowest that fits, and its payload lies in the arena |
| `SlobBlocks.FailsIffAllTooShort` | mm/slob.c:146-165 | in numbers: NULL, and no change, exactly if each free block is at most as long as the larger of size and 32 plus 12, taken modulo 2^32 |
| `SlobBlocks.ServedFromFirstLonger` | mm/slob.c:108-165 | else the address behind the header of the first longer free block; with more than 44 bytes left over that block becomes used and exactly as long as needed, with a free block of the rest behind it, and otherwise the list is unchanged |
| `SlobBlocks.FreshHeapServes` | mm/slob.c:94-165 | on the heap that slob_init leaves exactly the sizes up to 4194279, and those that wrap, are served |
| `SlobBlocks.ServedAgainIffUnsplit` | mm/slob.c:108-120 | the same address is served twice in a row exactly if at most 44 bytes are left over, since only a split marks the block used |
| `SlobBlocks.HoldsRequestIffNoWrap` | mm/slob.c:146-150 | the served block holds the requested bytes exactly if size plus header does not wrap around |
| `SlobBlocks.UnsplitRequest` | mm/slob.c:108-165 | a request on the initial list that is served without a split, so that the list stays as it was |
| `SlobBlocks.WrappedRequest` | mm/slob.c:146-165 | a request of 2^32 - 8 bytes on the initial list, which gets a block of four |
| `SlobRuns.TwoOwnersOfOneAddress` | mm/slob.c:108-165 | a run in which the second request is served at an address that the first still holds |
| `SlobRuns.LiveGrantTooShort` | mm/slob.c:146-165 | a run in which a live grant of 2^32 - 8 bytes has a block of four |
| `SlobRuns.RunTiles` | mm/slob.c:94-178 | in every run the blocks tile the arena and no two free ones touch |
| `SlobRuns.WellServedIff` | mm/slob.c:108-165 | what a well-served request is in numbers: more than 44 bytes are left over, and the length does not wrap |
| `SlobRuns.UsedBlocksDetermineList` | mm/slob.c:94-178 | states of any two runs with the same used blocks have the same list |
| `SlobRuns.LivePayloadHoldsRequest` | mm/slob.c:108-178 | in every run whose served blocks are split and do not wrap, each live payload is long enough and in the arena |
| `SlobRuns.LivePayloadsDisjoint` | mm/slob.c:108-178 | and no two live payloads overlap |
| `SlobRuns.AllReturnedRestores` | mm/slob.c:108-178 | in such a run, returning everything in any order restores the initial block |
| `Slob.Heap.constructor` | mm/slob.c:94-105 | one free block over the arena, in a ring of list heads |
| `Slob.Heap.SplitChunk` | mm/slob.c:108-120 | headers and ring afterwards list exactly the split blocks |
| `Slob.Heap.GlueChunk` | mm/slob.c:123-143 | both neighbours are absorbed, although the second test follows a link of an unlinked entry |
| `Slob.Heap.Kmalloc` | mm/slob.c:146-165 | the pointer version does exactly what the block list says, and keeps the invariant |
| `Slob.Heap.Kfree` | mm/slob.c:168-178 | so does kfree of a listed block |
| `PidMap.AllocPid` | arch/i386/task/task.c:39-55 | the smallest free PID is marked and returned; with none free, -1 and no change |
| `PidMap.FreePid` | arch/i386/task/task.c:57-62 | exactly the given PID is cleared, and nothing for one out of range; MAX_PID, which the guard lets through, clears a bit of the word behind the bitmap instead |
| `TaskSteps.PidAvailable` | arch/i386/task/task.c:39-55 | while the counts hold, alloc_pid finds a PID |
| `TaskSteps.StepInv` | arch/i386/task/task.c:64-238 | a step keeps the invariant (live PIDs marked and distinct, nr_task the number of live tasks and of marked PIDs, idle runnable) exactly if it is not a store of wakeup_task to a task that has exited |
| `TaskSteps.WakeWhole` | kernel/sched/sched.c:66-71 | test and store without interruption: runnable unless a zombie, and nothing is revived |
| `TaskSteps.ForkWhole` | arch/i386/task/task.c:192-222 | the three steps of do_fork without interruption add one runnable task with the smallest free PID |
| `TaskRuns.InvIffNoRevival` | kernel/sched/sched.c:66-71 | in every run, with wakeup_task for any target at any time and preemption between its test and its store, the invariant holds up to a step exactly if no store so far has revived a zombie |
| `TaskRuns.RevivesIffExitedBetween` | kernel/sched/sched.c:66-71 | a store revives its target exactly if the target has exited since the test |
| `TaskLimit.ZombieCanBeRevived` | kernel/sched/sched.c:66-71 | a run in which it does: the zombie is runnable again while its PID is free and nr_task does not count it |
| `TaskRuns.ForksNeverRevive` | arch/i386/task/task.c:210-219 | if wakeup_task is called by do_fork only, as in the kernel, no store of any run revives anything |
| `TaskRuns.ForksKeepInv` | arch/i386/task/task.c:192-238 | so the invariant holds in every state of every run of the kernel as it is |
| `TaskRuns.ForkAlwaysGetsPid` | arch/i386/task/task.c:192-222 | in every run without a revival, with preemption between check and commit, nr_task plus the waiting forks is at most 2 * MAX_TASK - 2, the bitmap's population is nr_task, and do_fork gets a fresh PID |
| `TaskLimit.LimitHoldsIff` | arch/i386/task/task.c:194-217 | in every run, nr_task plus the forks past the test stays within MAX_TASK exactly if each test that passed found that sum below MAX_TASK |
| `TaskLimit.OverflowsIffOverloaded` | arch/i386/task/task.c:194-217 | and from a state of a run scheduling and committing alone can take nr_task above MAX_TASK exactly if that sum is above it |
| `TaskLimit.LimitCanBeExceeded` | arch/i386/task/task.c:194-217 | a run with one preemption between test and commit that reaches MAX_TASK + 1 tasks |
| `TaskRuns.LivePidsDistinct` | arch/i386/task/task.c:39-62 | in every run without a revival live tasks have different PIDs, all marked |
| `TaskRuns.FindsLiveTask` | arch/i386/task/task.c:132-145 | in such a run find_task on a live task's PID above 0 returns that task, even with zombies of the same PID listed, and whatever tasks are added while it scans |
| `TaskRuns.FindsLiveIffTaken` | arch/i386/task/task.c:132-145 | find_task finds a live task exactly for the marked PIDs above 0 |
| `TaskRuns.TakenHaveHolders` | arch/i386/task/task.c:224-238 | no PID is ever leaked: each marked one belongs to a live task |
| `TaskRuns.ZombieForever` | kernel/sched/sched.c:66-71 | in a run without a revival a zombie stays a zombie |
| `TaskRuns.ZombieNeverPicked` | kernel/sched/sched.c:30-64 | nor is it picked again |
| `TaskHistory.OnlyExitAndWakeupChangeState` | kernel/sched/sched.c:30-71 | in every run a listed task becomes a zombie only by its own exit and runnable only by a store of wakeup_task, and keeps its PID |
| `TaskHistory.OnlyCommitsList` | arch/i386/task/task.c:192-223 | only the commit of a fork lists a task: one that has never run, with exit code 0, without need_resched, with the smallest PID that is free |
| `TaskHistory.ExitCodeIsLast` | arch/i386/task/task.c:224-235 | exit_code is the code of the last exit of the task, and 0 before the first |
| `TaskHistory.ExitCodeStays` | arch/i386/task/task.c:224-235 | in a run without a revival a task that has exited stays a zombie with its code |
| `TaskHistory.ReschedIs` | arch/i386/task/task.c:224-245 | need_resched is set exactly from the own exit of a task, and for idle from the start, to the next schedule that it calls or is interrupted for |
| `TaskHistory.ExitGivesUpProcessor` | arch/i386/task/task.c:224-245 | an exit sets need_resched, the next step is schedule, which clears it and goes on to the next runnable task down the list |
| `TaskRuns.PickIs` | kernel/sched/sched.c:40-55 | schedule picks the next runnable task down the list, or from idle the youngest runnable one |
| `TaskRuns.PickedAtMostOnce` | kernel/sched/sched.c:30-64 | between two consecutive picks of idle no task is picked twice, not even one forked meanwhile |
| `TaskRuns.PickedExactlyOnce` | kernel/sched/sched.c:30-64 | a task listed at the first and runnable throughout is picked exactly once |
| `TaskRuns.RunsCountPicks` | kernel/sched/sched.c:57-58 | runs_time counts the picks modulo 2^32 |
| `TaskHistory.RunsAreAllPicks` | kernel/sched/sched.c:57-58 | from the birth of a task on runs_time is the number of its picks modulo 2^32 |
| `TaskRuns.RoundEnds` | kernel/sched/sched.c:30-64 | from task number c, fewer than c calls of schedule pass before idle is picked, however many forks there are |
| `Tasks.Kernel.constructor` | arch/i386/task/task.c:64-84 | task_init leaves idle alone, runnable, with PID 0 |
| `Tasks.Kernel.FindTask` | arch/i386/task/task.c:132-145 | the list scan finds the youngest task with the PID |
| `Tasks.Kernel.ForkCheck` | arch/i386/task/task.c:194-196 | one step of the system, and whether the limit allows the fork |
| `Tasks.Kernel.ForkCommit` | arch/i386/task/task.c:210-217 | one step: PID, list and nr_task together |
| `Tasks.Kernel.DoFork` | arch/i386/task/task.c:192-223 | without interruption: refused with -E_NO_FREE_PROC and no change at the limit, else a new runnable task |
| `Tasks.Kernel.DoExit` | arch/i386/task/task.c:224-235 | one step: zombie, error code, nr_task, PID |
| `Tasks.Kernel.CpuIdle` | arch/i386/task/task.c:240-245 | schedules exactly if the running task asks for it |
| `Tasks.Kernel.ExitTask` | arch/i386/task/task.c:224-245 | do_exit to its end: the task is a zombie with its code and without need_resched, its PID is free, and the next runnable task down the list runs |
| `Tasks.Kernel.WakeTest` | kernel/sched/sched.c:68 | one step: whether the target is live |
| `Tasks.Kernel.WakeStore` | kernel/sched/sched.c:69 | one step: the target is runnable, and the state valid exactly if it was live still |
| `Tasks.Kernel.WakeupTask` | kernel/sched/sched.c:66-71 | without interruption: runnable unless a zombie |
| `Tasks.Kernel.Scan` | kernel/sched/sched.c:40-50 | the circular scan ends at the one that the step system picks |
| `Tasks.Kernel.Schedule` | kernel/sched/sched.c:30-64 | one step: flag cleared, next task picked, ticked and made current |
| `FirstFitRuns.FreeKeeps` | mm/ff_mm.c:120-172 | ff_free_pages keeps the list sorted and the flags exactly on the starts of maximal free runs with their lengths |
| `FirstFitRuns.AllocWorksIffFirstRunFits` | mm/ff_mm.c:79-118 | ff_alloc_pages keeps that and serves n pages exactly if the first run is long enough |
| `FirstFitRuns.ShortFirstRun` | mm/ff_mm.c:79-118 | with a first run that is too short nothing leaves the list, the run loses its flag and the counter drops all the same |
| `FirstFitRuns.LongFirstRun` | mm/ff_mm.c:79-118 | else the first n pages leave, and the page behind them gets the flag and what is left of the length |
| `FirstFitRuns.SecondRunIsNeverTried` | mm/ff_mm.c:88-113 | an input on which it fails although a longer run is free |
| `FirstFitRuns.FreePagesDetermine` | mm/ff_mm.c:58-172 | the free pages determine list, flags, lengths and counter |
| `FirstFitRuns.FreeUndoesAlloc` | mm/ff_mm.c:79-172 | an allocation from a long enough first run followed by its free restores everything |
| `FirstFitRuns.FreesCommute` | mm/ff_mm.c:120-172 | pages may come back in any order |
| `FirstFit.PageAllocator.constructor` | mm/ff_mm.c:58-73 | all pages in one run |
| `FirstFit.PageAllocator.AllocPages` | mm/ff_mm.c:79-118 | the exact list, flags, counter and reserved flags afterwards, and when they are intact |
| `FirstFit.PageAllocator.FreePages` | mm/ff_mm.c:120-172 | for a run that starts with a page not reserved: the exact list, flags, counter and reference counts afterwards, with the invariant kept |
| `Paging.WriteEntry` | arch/i386/mm/vmm.c:68 | writing one table word changes one page's entry in the flat map and no other |
| `Paging.MapIsLocalIffFrameClear` | arch/i386/mm/vmm.c:60-68 | map changes its own page only, exactly if the frame it takes for a table is zero everywhere else, since it does not clear it |
| `Paging.LeftoverWordIsMapped` | arch/i386/mm/vmm.c:60-68 | an input on which it is not local: with a word left in the frame, mapping page 0 maps page 1 as well |
| `Paging.FrameReadBack` | arch/i386/mm/vmm.c:68-107 | what map stores reads back as the frame of pa exactly if the flags, which are not masked, have no bit above the page offset that pa has not |
| `Paging.WalkOfEntry` | arch/i386/mm/vmm.c:68 | the walk to the page that map has entered: present and writable as directory entry and flags both say, and open to user mode only if both say so |
| `Paging.FailedMapIsWalked` | arch/i386/mm/vmm.c:59-68 | when no page is left for the table, the processor finds the page through frame 0 while get_mapping does not |
| `Paging.KernelWalk` | arch/i386/mm/vmm.c:40-49 | after vmm_init the processor's walk sends each address from 0xC0000000 below 0xF8000000 to itself minus 0xC0000000, writable and closed to user mode, and faults on every other |
| `Paging.Directory.Map` | arch/i386/mm/vmm.c:54-71 | the exact directory and memory afterwards, for any flags; a new directory entry is present, writable and closed to user mode; what the processor's walk then finds; the flat map gains the page's entry and what a new table brings along, and is unchanged if alloc_pages gives 0 |
| `Paging.Directory.Unmap` | arch/i386/mm/vmm.c:73-90 | the flat map loses exactly the page; one word of memory changes, and none without a table |
| `Paging.Directory.GetMapping` | arch/i386/mm/vmm.c:92-112 | finds the frame exactly if the flat map has the page |
| `Paging.Directory.Init` | arch/i386/mm/vmm.c:31-52 | the two loops make the processor's walk what KernelWalk says, and change no frame but those of the tables |
| `Powers.OrBits` | arch/i386/mm/vmm.c:42-68 | a bit of the bitwise or is set exactly if it is set in one of the two |
| `Powers.OrAbsorbs` | arch/i386/mm/vmm.c:68 | or adds nothing exactly if all bits are there already |
| `Number.NumeralReadBack` | kernel/printk.c:119-126 | the digits read back in their base give the number, for every base from 2 to 36 |
| `Number.FormattedReadBack` | kernel/printk.c:102-126 | with SIGN, sign and digits read back as the number, -2^31 included; without, as its unsigned value; zeros for the precision do not matter |
| `Number.FormattedLength` | kernel/printk.c:107-164 | the output is as long as the larger of field width and sign + prefix + larger of precision and digit count |
| `Number.AtoiReadsNumber` | kernel/printk.c:60-165 | skip_atoi reads back what number writes for a non-negative int in base 10 without padding |
| `NumberField.NumeralIs` | kernel/printk.c:86-126 | the digits are below the base, lower-case only with SMALL, without superfluous zeros, and stand for the number |
| `NumberField.NumeralUnique` | kernel/printk.c:118-126 | and no other string is such a numeral |
| `NumberField.FieldIs` | kernel/printk.c:84-165 | the field character by character: sign and 0, 0x or 0X literally, then zeros and the numeral; blanks on the right with LEFT, else on the left, with ZEROPAD zeros behind the prefix instead |
| `NumberField.ZeroPaddedReadBack` | kernel/printk.c:100-165 | with ZEROPAD all that comes behind sign and prefix reads back as the number |
| `Number.StoreDigits` | kernel/printk.c:118-126 | at most 32 digits go into tmp[36], and backwards they are the numeral |
| `Number.FormatNumber` | kernel/printk.c:84-165 | the buffer gains exactly the field described by Formatted, and a base out of range writes nothing |
| `Number.SkipAtoi` | kernel/printk.c:60-69 | the value of the run of digits in 32-bit arithmetic, wherever it wraps, and where the run ends |

## Left out

- BuddyAllocator.Allocator.AllocPages: requires n to be at most 1024 or more than the counter, because get_order panics in between.
- BuddyAllocator.Allocator.FreePages: requires pages that are not free, as the source does; BuddySession.Release shows that every run handed out meets this.
- Slob.Heap.Kfree: takes the payload of a listed block; for any other address the source reads whatever lies there as a header.
- Slob.Heap.Kmalloc: addresses are unbounded numbers, so an arena that ends beyond 2^32 is not modelled; the length computation does wrap.
- Number.SkipAtoi: requires a terminating non-digit, without which the pointer leaves the string; overflow is taken to wrap around.
- Number.FormatNumber: field width and precision are unbounded, so an overflow while subtracting from the width is not modelled.
- FirstFit.PageAllocator.FreePages: requires pages that are not listed; the source tests only that the first one is not reserved, and it never reserves a page again.
- Tasks.Kernel.DoExit: idle never exits and a zombie only gets scheduled away, which is how the kernel calls it; nothing in the source makes a task sleep.
- Intrusive links of the free lists and of page descriptors in the buddy and first-fit allocators: these lists are sequences of page numbers, which List shows rings to realise; the slob heap and the task list keep their rings.
- Masks and shifts by whole fields in Paging are division and remainder, and or with flags is `Or` in map and addition where vmm_init sets the two low bits; page tables in memory are a map from frames to words.
- The packed parent and colour word is two fields in RbTree; RbPacked shows that the packing keeps them apart.
- Long functions of the source are cut into several methods, since each is verified against the whole heap: the two mirrored halves of the fix-up loops, the relinking in rb_erase, the stages of number.
- Tasks.Kernel.DoFork: the two returns of -E_NO_MEM are left out because nothing reaches them: alloc_task_struct panics without memory and never gives a null pointer, and copy_mm fails only for one. The task structure appears at the moment of the commit.
- task_run and switch_to: switching only changes which task is current.
- Port I/O, interrupt wiring, descriptor tables, clock, disk, console, keyboard and assembly stubs: hardware effects.
- The file systems, vsprintf, string helpers, device registration and system call dispatch: thin, or only easy members.
- Printing and test functions of the allocators.
- list_move, list_replace and the other list operations that none of the modelled code uses.
