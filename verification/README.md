# Lanthorn: a verified model

Lanthorn is a small 32-bit x86 kernel that ships with the Kconfig tool which configures it. This Dafny project
models the parts of both on which the rest leans, in the form the code has, and proves what they are for.
`dafny verify dfyconfig.toml` checks the whole project.

* **Red-black trees** (`RbtTree`, `RbtBalance`, `RbtAugment`, `RbtHeap`). Nodes are heap objects with parent pointers;
  every pointer write and recolouring of `lib/rbt.c` is there. A tree of values beside the heap, with a place in it (the
  way from a node up to the root), says what the pointers hold. The rebalancing loops are proved to be functions on
  that pair, and those functions to restore balance, keep the in-order sequence, and leave every wrong per-subtree
  value on the one path that `rbt_update` recomputes.
* **Range allocator and user heap** (`VmRanges`, `Vm`, `VmUnmerged`, `VmFork`, `Um`) and **id allocator** (`IdxAlct`), as clients of that tree.
* **Buddy allocator** (`BuddyTree`, `BuddyForest`, `Buddy`). Pages are heap objects linked to their buddy and to the page
  they were cut from. A forest beside the heap holds what each inserted block has been cut into; nothing depends
  on alignment.
* **Scheduler and sleeping mutex** (`Sched`, `Mutex`, `MutexSched`, `MutexCalls`, `SchedLock`, `SchedCalls`). `Sched` is the step system of any number of threads
  on any number of CPUs: one step is one access to shared state, timer interrupts come at any point outside a
  `scheduler.lock` section, and that lock is taken in one context and released in another. `Mutex` is a small system
  in which a thread is only what its place in the program means for the mutex. Every step of `Sched` is a step of
  `Mutex` or none, and so every run keeps what `Mutex` keeps. `SchedLock` follows `scheduler.lock` across switches,
  `SchedCalls` says what each call of the scheduler does as a whole, and `MutexCalls` what the mutex's calls do alone.
* **Spin locks** (`SpinLock.dfy`: `TicketLock`, `RwLock`), with 32-bit counters and the compare-and-swap loops.
* **Page tables** (`PageTable`), over an array of physical words, against the address translation of section 4.3 of the
  Intel 64 and IA-32 Software Developer's Manual, Volume 3A.
* **Kconfig expressions** (`KconfigExpr`, `KconfigEq`, `KconfigAc`, `KconfigTransform`, `KconfigDups`, `KconfigMenu`). The three values
  n < m < y, `expr_calc_value`, and each rewrite, with the trees in which two operands alias one list in
  `expr_eliminate_dups`.

## Where the code is not what one would expect

* `lib/idx_alct.c:24-27` adds the left child's count where the right child's is meant. `IdxAlct` uses the intended
  count, and `WrittenCount` says exactly when the written form gives the same number. `TwoIds` enters ids 0 and 1: the
  root has a right child only, the written form reads the count of the missing left one, and with 0 for that the root
  is counted 1 instead of 2.
* `kernel/memory/vm.c:120` ends `vm_merge` at the first later range that is not adjacent, before the earlier ranges are
  tried. Free ranges are therefore not always merged: `MergeLeavesLeft` says exactly when one is left, and
  `NeighboursUnmerged` is a run of `vm_insert`, `vm_alloc` and `vm_free` that ends that way. Conservation of addresses
  holds all the same.
* `kernel/memory/vm.c:287` rounds a size up in 32 bits; above 0xFFFFF000 the result is 0 (`RoundUpExactly`). `vm_alloc`
  then hands out a record of size 0 at the start of a free range. `Alloc` states that the ranges stay well formed
  exactly when the rounded size is not 0.
* `kernel/memory/um.c:13` and `kernel/memory/um.c:28` compare a 32-bit sum. A sum that wraps is taken for one that fits:
  the heap then shrinks, and the stack does not end where the gap ended. `StackAlloc` and `HeapAlloc` state the exact
  condition, and `HeapWraps` is the input 0xFFFFF000 after one page.
* `kernel/memory/um.c:49` takes E_NOMEM from `vm_alloc` for a lack of space. Records come from `kmalloc`
  (`kernel/memory/um.c:126`), so a missing record gives the same code, and the heap then grows although a free range
  fits. `MallocPage` states exactly when it grows and what it answers, and `GrowsThoughItFits` is such a run.
* `kernel/memory/vm.c:405-435` takes a range out of the tree before it asks for the record of its second half, and
  loses the range if there is none. The contracts of `SliceAt` and `Slice` say exactly which addresses then go.
* `kernel/memory/pm.c:293` rounds a size up in 32 bits. Above 0xFFFFF000 the result is 0 and a single page is handed
  out; `OrderForMeaning` states the least sufficient order exactly for the other sizes.
* `kernel/memory/ptb.c:37` returns with the lock still taken when no page can be had, and `kernel/memory/ptb.c:64`
  replaces the answer of `mmu_unmap`. Both are in the contracts of `Map` and `Unmap`.
* `mmu_map` takes the directory entry of a large page for a table (`arch/x86/src/mm/mmu.c:224-234`), and so do `mmu_unmap`
  and `mmu_v2p`. `LargePageWalk` shows that the page then keeps its translation; `Map`, `Unmap` and `V2p` say what they
  do there.
* `mmu_sync_kern_space` (`arch/x86/src/mm/mmu.c:262-270`) copies one entry for every begun 4 MB of the size. `SyncSpans`
  says exactly when those are all entries the range reaches into; 4 MB from KERN_BASE + 0x200000 on reach into two
  (`SyncMisses`).
* `ptb_fork` (`kernel/memory/ptb.c:118-131`) does not clean the new directory. `NoUserAddress` says exactly when no user
  address translates through a directory.
* `expr_calc_value` answers n to every order test of an S_OTHER symbol (`scripts/kconfig/expr.c:967-971`), so that a
  comparison and its negation can both be n. `NegateExactly` is the exact condition and `TransformOtherCounterexample` an
  input; the law of `expr_transform` is for expressions without such a test under a negation.
* `expr_eq` pairs operands greedily (`scripts/kconfig/expr.c:141-173`) and removes constants before it compares. It finds
  expressions equal exactly up to order and grouping where no connective has y or n as an operand (`EqExactlyWhere`). With
  constants it is not transitive, and a list in another order may be found different (`OrderMatters`).
* `expr_trans_compare` asks for the value of an expression exactly when no negated operand is m and the string of every
  symbol tells its value (`TransCompareExactly`). Two things go wrong otherwise. A negated m is tested as n
  (`scripts/kconfig/expr.c:839-840`, `TransCompareUnderNot`). A symbol that is neither boolean nor tristate has the value n,
  but its test reads y unless its string is "n" (`scripts/kconfig/expr.c:863-864`, `SymbolTestExactly`).
* The nesting test of `menu_finalize` compares such answers (`scripts/kconfig/menu.c:352-360`). On the normal form the
  entry's answer is too low exactly for its negated operands, and the parent's too high exactly for its plain symbols
  (`UnderExactly`, `OverExactly`). `NestingMisjudged` and `NestingMisjudgedString` are inputs that reach the test and are
  nested under a parent that cannot be seen.

## Assumptions

* Atomic accesses are sequentially consistent. `context_switch` saves the old context, runs its middle function and
  resumes the new one, in one step.
* No thread outside the mutex wakes or kills a thread that sleeps in `mutex_lock`, a thread locks a mutex it does not
  hold and unlocks one it holds, and calls of `schd_run` or `schd_kill` that panic end the run.
* Kconfig environments give a boolean symbol only n or y; constants are interned; `strtoll` and `strtoull` are a
  parameter that takes none of the letters y, m and n for a number.
* Address ranges lie inside the address space. The buddy allocator has enough page descriptors for the cuts of one
  allocation (`kernel/memory/pm.c:153-155` does not look at the answer of `new_page`).
* Whether a record, a page or kernel memory can be allocated is a parameter of the operation that asks for it. In the
  range allocator the parameter is the code that the record allocator answers.

## Model

| member | source | states |
|---|---|---|
| RbtTree.RotatedLeft | lib/rbt.c:7-39 | the cells after rotate_left hold the rotated subtree in unchanged surroundings |
| RbtTree.RotatedRight | lib/rbt.c:41-73 | the same for rotate_right |
| RbtTree.SuccessorMoved | lib/rbt.c:294-354 | the pointer writes for a node with two children put its successor in its place and leave the right subtree without its first node |
| RbtTree.SplicedOut | lib/rbt.c:356-379 | a node with at most one child is replaced by that child |
| RbtTree.Linked | include/rbt.h:26-31 | rb_link_node hangs a leaf at an empty place of any tree |
| RbtHeap.Rbt.SwingLeft | lib/rbt.c:7-39 | the new links of all nodes rotate_left touches, with or without an inner child or a parent |
| RbtHeap.Rbt.SwingRight | lib/rbt.c:41-73 | the same for rotate_right |
| RbtHeap.Rbt.RotateLeft | lib/rbt.c:7-39 | at any place of any tree the heap then holds the rotated tree |
| RbtHeap.Rbt.RotateRight | lib/rbt.c:41-73 | the same for rotate_right |
| RbtHeap.Rbt.InsertColor | lib/rbt.c:80-165 | the heap holds the tree that the recolouring and rotation function InsertFix gives, and the loop ends |
| RbtBalance.InsertFixRB | lib/rbt.c:80-165 | that tree is red-black again: black root, no red child of a red node, equal black heights |
| RbtBalance.InsertFixItems | lib/rbt.c:80-165 | and has the in-order sequence of the tree it started from |
| RbtAugment.InsertedCorrect | lib/rbt.c:80-165 | linking a red leaf at any gap and recolouring gives a red-black tree with the new record in that gap |
| RbtBalance.SiblingExists | lib/rbt.c:167-240 | the sibling that rbt_delete_color follows is never null, nor after a red one is lifted |
| RbtBalance.DeleteFixRB | lib/rbt.c:167-243 | the deletion fix-up ends in a red-black tree from every place that lacks one black node |
| RbtBalance.DeleteFixItems | lib/rbt.c:167-243 | and keeps the in-order sequence |
| RbtHeap.Rbt.DeleteColor | lib/rbt.c:167-243 | the heap holds the tree DeleteFix gives, and the loop ends |
| RbtBalance.CutRB | lib/rbt.c:280-386 | taking out a red node leaves a red-black tree, taking out a black one a place that lacks one black node |
| RbtBalance.CutItems | lib/rbt.c:280-386 | the in-order sequence loses exactly the record of the node |
| RbtBalance.DeletedCorrect | lib/rbt.c:280-386 | deleting any node of any red-black tree leaves a red-black tree with the other records in order |
| RbtHeap.Rbt.DeleteAt | lib/rbt.c:280-386 | the heap holds the tree that deletion gives |
| RbtHeap.Rbt.Delete | lib/rbt.c:280-386 | a valid tree stays valid, its records are the old ones without the node's, its nodes the old ones without it |
| RbtHeap.Rbt.Insert | lib/rbt.c:80-165 | with the owners' search: refused exactly for a key that is there, otherwise valid again with the record in its sorted place |
| RbtHeap.Rbt.Next | lib/rbt.c:245-261 | the node at the next place of the in-order sequence, null at its end |
| RbtHeap.Rbt.Prev | lib/rbt.c:262-278 | the node at the place before, null at the start |
| RbtHeap.Rbt.First | lib/rbt.c:465-476 | the node at the first place, null for the empty tree |
| RbtHeap.NextItem | lib/rbt.c:245-261 | the successor by links is the successor in the order |
| RbtHeap.PrevItem | lib/rbt.c:262-278 | the predecessor by links is the predecessor in the order |
| RbtHeap.Rbt.constructor | lib/rbt.c:75-78 | an empty valid tree |
| RbtAugment.RepairGood | lib/rbt.c:388-412 | recomputing one root path and its siblings makes every value right, when all wrong ones were there |
| RbtAugment.RepairSame | lib/rbt.c:388-412 | and changes nothing but those values |
| RbtHeap.Rbt.Update | lib/rbt.c:388-412 | the heap holds the tree that Repair gives |
| RbtAugment.InsertFixOff | lib/rbt.c:80-165 | after an insertion all wrong values lie where rbt_insert_update goes |
| RbtAugment.DeletedOff | lib/rbt.c:428-458 | after a deletion all wrong values lie where rbt_update goes from the node rbt_delete_update_begin picked; without such a node nothing is left |
| RbtHeap.Rbt.DeleteUpdateBegin | lib/rbt.c:428-458 | the deepest node whose subtree the deletion changes |
| RbtHeap.Rbt.InsertUpdate | lib/rbt.c:414-426 | every value in the whole tree is right afterwards |
| RbtHeap.Rbt.InsertAndUpdate | kernel/memory/vm.c:149-155 | insertion with its update: sorted, balanced, and every value right |
| RbtHeap.Rbt.DeleteAndUpdate | kernel/memory/vm.c:93-106 | deletion with its update: the other records in order, balanced, and every value right |
| VmRanges.MergeKeeps | kernel/memory/vm.c:108-147 | merging keeps the ranges apart and covers exactly the same addresses |
| VmRanges.MergeLeavesLeft | kernel/memory/vm.c:120 | an adjacent earlier range stays unmerged exactly when some later range does not begin where the one before it ends |
| VmRanges.MergeGrows | kernel/memory/vm.c:108-147 | after a merge there is still a free range as large as the one merged |
| VmRanges.MergeExactly | kernel/memory/vm.c:108-147 | where the run of neighbours around the record reaches the last range, the whole run becomes one range with no adjacent neighbour; otherwise its part from the record on does; all other ranges stay |
| VmUnmerged.NeighboursUnmerged | kernel/memory/vm.c:108-147 | a run of vm_insert, vm_alloc and vm_free after which two adjacent free ranges are separate records |
| Vm.MergeFree | kernel/memory/vm.c:108-147 | the two loops, with deletions and updates of the tree, compute Merge on the records, and every mx_size is right |
| Vm.MaxAug | kernel/memory/vm.c:25-44 | where every mx_size follows update, it is the largest size in the subtree |
| Vm.SearchSize | kernel/memory/vm.c:206-257 | the guided descent finds a range of at least the size exactly when a scan of all ranges would, also for size 0; it takes the root's record, or goes into the subtree whose largest is the smaller one |
| Vm.PickedSmall | kernel/memory/vm.c:206-257 | the record taken is no larger than the root's and than the largest of either subtree, where those are large enough |
| Vm.SearchAddr | kernel/memory/vm.c:171-204 | the one allocated range that contains the address, exactly when there is one |
| Vm.RoundUpExactly | kernel/memory/vm.c:287 | the rounded size is the least number of whole pages that holds the size exactly up to 0xFFFFF000, and 0 above |
| Vm.VpageAlct.constructor | kernel/memory/vm.c:484-497 | an allocator that owns no address |
| Vm.VpageAlct.InsertFree | kernel/memory/vm.c:149-160 | the free addresses grow by exactly the range; sorted, apart, mx_size right |
| Vm.VpageAlct.InsertNew | kernel/memory/vm.c:259-279 | the owned addresses grow by exactly the range, or not at all without a record; the answer is that of the record allocator |
| Vm.VpageAlct.Alloc | kernel/memory/vm.c:281-318 | E_NOMEM where no free range fits the rounded size, otherwise the answer of the record allocator; on success the front of the free record that the descent takes becomes a record and all others stay; the ranges stay well formed exactly when the rounded size is not 0 |
| Vm.VpageAlct.Free | kernel/memory/vm.c:320-333 | the allocated records are the others, unchanged; the free ones are the old ones with the record in its place and merged; the owned addresses do not change |
| Vm.VpageAlct.SliceAt | kernel/memory/vm.c:405-435 | the record gives way to its two halves and all others stay; without a new record it is lost, and only it, and the record allocator's code is the answer |
| Vm.VpageAlct.Slice | kernel/memory/vm.c:437-479 | the record gives way to the part asked for and the pieces left on its sides, and all others stay; which piece is lost and which code is answered where a record is missing |
| VmFork.CopyAlloced | kernel/memory/vm.c:343-379 | the new tree holds, in order, copies of as many records as could be allocated, all of them on success |
| VmFork.CopyFree | kernel/memory/vm.c:381-399 | the new free ranges cover exactly the addresses of the ranges copied, none begins where another ends, and every mx_size is right |
| VmFork.SameRanges | kernel/memory/vm.c:381-399 | ranges of which none begins where another ends are determined by the addresses they cover |
| VmFork.Fork | kernel/memory/vm.c:335-403 | fails exactly when the records do not suffice, with the record allocator's code; otherwise a valid allocator with the same allocated ranges and free addresses, and the original unchanged |
| Um.UserMemory.constructor | include/memory.h:91-102 | empty heap and stack around the whole gap |
| Um.UserMemory.StackAlloc | kernel/memory/um.c:9-22 | granted exactly when the gap has room or the 32-bit sum wraps; the new stack is the end of the gap exactly when it does not wrap, and then the layout stays gapless |
| Um.UserMemory.HeapAlloc | kernel/memory/um.c:24-37 | granted exactly when the gap has room or the 32-bit sum wraps; the heap grows into the gap, and a full heap stays one, exactly when it does not wrap |
| Um.UserMemory.MallocPage | kernel/memory/um.c:39-76 | the exact answer, and by how much the heap grows, for every answer of the record allocator to the three calls; the result is an allocated range of the heap, new to the allocated ones; free and allocated ranges stay all of the heap exactly unless the record of a grown heap is missing |
| Um.PageLeftFree | kernel/memory/um.c:51-61 | where the last record is missing, the page the heap grew by stays behind as a free range |
| Um.GrowsThoughItFits | kernel/memory/um.c:45-61 | with that page free and its record missing, a request for a page is granted from a heap of two pages |
| Um.HeapWraps | kernel/memory/um.c:28 | after one page a request of 0xFFFFF000 bytes is granted and leaves an empty heap |
| IdxAlct.CountAug | lib/idx_alct.c:14-30 | with the intended update every count is the number of ids in the subtree |
| IdxAlct.WrittenCount | lib/idx_alct.c:24-27 | the written update gives that number exactly when there is no right child or both subtrees are of one size |
| IdxAlct.TwoIds | lib/idx_alct.c:14-66 | after ids 0 and 1 the root has a right child only, and the written update, with 0 for the missing left count, gives 1 for two records |
| IdxAlct.FindFreeId | lib/idx_alct.c:93-130 | the least id that is not in the tree; its assertion holds and it never leaves the tree |
| IdxAlct.Allocator.constructor | lib/idx_alct.c:199-204 | the empty map |
| IdxAlct.Allocator.FindNode | lib/idx_alct.c:68-91 | a record exactly for the ids of the map |
| IdxAlct.Allocator.New | lib/idx_alct.c:132-156 | the map gets the address at the least id not in use |
| IdxAlct.Allocator.Find | lib/idx_alct.c:158-174 | the map's address for the id, E_NOTFOUND exactly outside the map |
| IdxAlct.Allocator.Delete | lib/idx_alct.c:176-197 | the map without the id, E_NOTFOUND exactly outside the map |
| BuddyTree.RoundTrip | kernel/memory/pm.c:113-176 | a page cut from a free block, freed again, leaves the tree as it was |
| BuddyTree.CarvedAddr | kernel/memory/pm.c:139-176 | the page left after all cuts begins where the block does |
| BuddyTree.ReleaseIsFreed | kernel/memory/pm.c:121-134 | the upward merging is the tree with the leaf freed and every pair of free buddies joined |
| BuddyTree.FreedNoPair | kernel/memory/pm.c:113-137 | freeing leaves no two free buddies |
| BuddyTree.BlocksTile | kernel/memory/pm.c:52-85 | the leaves of a tree follow each other without gap or overlap through its whole block |
| BuddyTree.BlocksArePages | kernel/memory/pm.c:52-85 | those leaves are the pages that are not virtual, with the address, size, order and state in their fields |
| BuddyForest.Collapse | kernel/memory/pm.c:37-50 | two allocated halves become the allocated block in a forest that is otherwise the same |
| BuddyForest.DivideChange | kernel/memory/pm.c:52-85 | an allocated block becomes its two allocated halves |
| BuddyForest.NoFreeBlock | kernel/memory/pm.c:139-176 | the lists from an order on are all empty exactly when no free block has that order or a larger one |
| BuddyForest.InsertedMemory | kernel/memory/pm.c:253-286 | the memory after an insertion is the old memory and the inserted range |
| BuddyForest.Partition | kernel/memory/pm.c:253-348 | every address of the inserted memory, and no other, is in exactly one page that is not virtual |
| Buddy.PageAlct.PagesPartition | kernel/memory/pm.c:253-348 | the same of the pages on the heap, in every valid state |
| Buddy.PageAlct.PageFacts | kernel/memory/pm.c:113-137 | a page of order k has 2^k pages, is in the list of its order exactly when free, and then its buddy is not free |
| Buddy.PageAlct.constructor | kernel/memory/pm.c:350-376 | an allocator without memory |
| Buddy.PageAlct.NewPage | kernel/memory/pm.c:12-30 | a page of its own, or none exactly when no descriptor is left |
| Buddy.PageAlct.GetPtc | kernel/memory/pm.c:102-111 | takes the page exactly when it is free |
| Buddy.PageAlct.MergePage | kernel/memory/pm.c:37-50 | its assertions hold, and the two halves and their descriptors go |
| Buddy.DividePage | kernel/memory/pm.c:52-85 | fails exactly for order 0; otherwise the two pages are the linked halves |
| Buddy.PageAlct.BuddyGet | kernel/memory/pm.c:87-100 | the front of the list becomes an allocated leaf; nothing changes for an empty list |
| Buddy.PageAlct.BuddyPut | kernel/memory/pm.c:113-137 | the tree after freeing and merging upwards, with two descriptors back for each merge; the merged page is last in the list of its order, the pages merged into it are in no list, and the others keep their order |
| Buddy.PageAlct.BuddyAlloc | kernel/memory/pm.c:139-176 | the front block of the least sufficient non-empty list is cut to its left end; fails exactly when there is none; each list between holds the half cut off there, and the other lists are as before |
| Buddy.OrderForMeaning | kernel/memory/pm.c:293-304 | the order is the least sufficient one exactly when rounding up does not wrap |
| Buddy.FindOrder | kernel/memory/pm.c:295-304 | the downward loop finds that order, and always assigns it |
| Buddy.PageAlct.Insert | kernel/memory/pm.c:253-286 | one free block for each bit of the number of pages, in ascending order, tiles exactly the range, or a first part of it when descriptors run out; new pages go to the end of their lists |
| Buddy.PageAlct.Alloc | kernel/memory/pm.c:288-326 | E_NOMEM exactly when no free block is of the order or larger; the page begins where the block it is cut from does; the index takes the page and its assertion holds |
| Buddy.PageAlct.Free | kernel/memory/pm.c:328-348 | the page's tree is the released one, all other trees the same, the index loses the page, and the merged page is last in its list |
| Buddy.AllocThenFree | kernel/memory/pm.c:288-348 | an allocation and its release restore pages, trees, free blocks, index and descriptors |
| Sched.TimerSched | kernel/proc/thread/schd.c:207-237 | a timer interrupt keeps the scheduler's invariant: lock, CPUs, states and list agree |
| Sched.LoopSched | kernel/proc/thread/schd.c:162-205 | so does every step of the scheduling loop |
| Sched.StartSched | kernel/proc/thread/thread.c:116-143 | so does the start of any operation, also with a new thread |
| Sched.RunSched | kernel/proc/thread/schd.c:9-40 | so does schd_run of a thread that is new or blocked, which is off every CPU then |
| Sched.KillSched | kernel/proc/thread/schd.c:97-135 | so does schd_kill of a runnable thread |
| Sched.TurnSched | kernel/proc/thread/schd.c:253-283 | so does every step of a thread inside schd_block, schd_run, schd_kill, mutex_lock and mutex_unlock, and the release of scheduler.lock by a context that has just been switched to |
| Mutex.NextInv | kernel/proc/thread/mutex.c:17-73 | every step of the simple system keeps owner, count, wait list, hand-over and spin lock consistent |
| Mutex.CountKept | kernel/proc/thread/mutex.c:17-73 | the count is 1 less the holder and the waiters without a grant, and is 1 exactly when the mutex is free |
| Mutex.WaitKept | kernel/proc/thread/mutex.c:33-65 | the wait list holds, once each, the waiters not taken off; they stay asleep |
| Mutex.FlightKept | kernel/proc/thread/mutex.c:59-73 | at most one hand-over is under way and its waiter sleeps until schd_run |
| Mutex.WakeKept | kernel/proc/thread/mutex.c:59-73 | an owner that is still asleep has its schd_run to come |
| MutexSched.TurnRefines | kernel/proc/thread/mutex.c:17-73 | every step of a thread on the scheduler is a step of the simple system or leaves it alone, and schd_run never meets a state it panics for |
| MutexSched.StepInv | kernel/proc/thread/mutex.c:17-73 | every enabled step keeps the joint invariant |
| MutexSched.EveryRunSafe | kernel/proc/thread/mutex.c:17-73 | in every state of every run: one holder, all assertions hold, an unlocker finds a BLOCKED waiter, first come first served, no wake-up lost, no thread on two CPUs, in the list once exactly when RUNNABEL, the thread a timer meets is RUNNING, scheduler.lock held exactly by the CPU whose context has to release it |
| SchedLock.SwitchOwes | kernel/proc/thread/schd.c:162-237 | a CPU is switched only by its own step, with scheduler.lock its own, and the context switched to has the release as its next step |
| SchedLock.OtherKeeps | kernel/proc/thread/schd.c:162-283 | no step of another CPU takes the lock or the release away |
| SchedLock.LockChanges | kernel/proc/thread/schd.c:16-283 | the lock goes from free to the stepping CPU or back, never between CPUs |
| SchedLock.SwitchReleased | kernel/proc/thread/schd.c:162-283 | in every run, from a switch of a CPU to its next step the lock and the context stay, and that step, made by the context switched to, is the one release |
| SchedLock.SwitchReleasable | kernel/proc/thread/thread.c:24-39 | and nothing can hold that step up |
| SchedCalls.QuietUntil | kernel/proc/thread/schd.c:16-283 | in every run, while a CPU has scheduler.lock and makes no step, the list, the CPUs, all thread states and its own thread stay as they are |
| SchedCalls.Begins | kernel/proc/thread/schd.c:16-283 | which operations a thread can begin, and that beginning one changes no other thread |
| SchedCalls.SchdRun | kernel/proc/thread/schd.c:9-40 | in every run, from the call of schd_run to its return, whatever other CPUs do: the thread is RUNNABEL and last in the list, and no other state, list place or CPU changes |
| SchedCalls.SchdKill | kernel/proc/thread/schd.c:97-135 | so for schd_kill of another thread: it is KILLED and off the list, and the others keep their order |
| SchedCalls.SchdExit | kernel/proc/thread/schd.c:97-135 | so for schd_kill of the running thread: it is KILLED and its CPU in its loop |
| SchedCalls.SchdBlock | kernel/proc/thread/schd.c:253-283 | so for schd_block without a mutex: the thread is BLOCKED, in no list, and its CPU in its loop |
| SchedCalls.SchdIntr | kernel/proc/thread/schd.c:207-237 | so for a timer interrupt: the preempted thread is RUNNABEL and last in the list, at its place |
| SchedCalls.SchdSchedule | kernel/proc/thread/schd.c:162-205 | so for a round of the scheduling loop: the front of the list gets the CPU and goes on where it was; with an empty list nothing changes |
| SchedCalls.NoOvertaking | kernel/proc/thread/schd.c:9-205 | in every run, a thread that gets a CPU has waited at least as long as every thread that still waits |
| MutexCalls.LockFree | kernel/proc/thread/mutex.c:17-34 | in every reachable state with the mutex free, mutex_lock alone takes it, with exactly this new state |
| MutexCalls.LockWaits | kernel/proc/thread/mutex.c:17-43 | with the mutex taken, the thread is last on the wait list and BLOCKED, and its CPU in its loop |
| MutexCalls.WaiterReturns | kernel/proc/thread/mutex.c:40-43 | a waiter that has its CPU again returns with the mutex |
| MutexCalls.UnlockFree | kernel/proc/thread/mutex.c:45-60 | mutex_unlock with no one waiting leaves the mutex free |
| MutexCalls.UnlockHandsOver | kernel/proc/thread/mutex.c:45-73 | with threads waiting, the first of the wait list owns the mutex and is RUNNABEL and last in the runnable list |
| TicketLock.StepInv | include/spinlock.h:30-56 | the threads with tickets stand in a queue whose tickets are consecutive 32-bit numbers and whose first may hold the lock |
| TicketLock.SeesFirst | include/spinlock.h:34-36 | a thread sees its number exactly when it is first, across the wrap of the counters |
| TicketLock.EveryRunSafe | include/spinlock.h:30-56 | in every run at most one thread holds the lock, and the lock is taken in ticket order |
| TicketLock.EveryRunServes | include/spinlock.h:30-56 | in every state of every run: drawing queues at the end, a look lets a thread in exactly when it is first, and unlocking lets the next one in at its next look |
| RwLock.StepInv | arch/x86/include/arch/atomic.h:134-160 | at each access of the compare-and-swap loops the counter is -1 for one writer and no reader, else the number of readers |
| RwLock.EveryRunSafe | include/spinlock.h:94-125 | in every run a writer excludes all others and none of the four assertions fails |
| RwLock.EveryRunServes | include/spinlock.h:94-125 | in every state of every run: with no writer a thread becomes a reader within three steps of its own, however many readers there are; a writer gets the free lock; a refused attempt changes nothing; holders give back what they took |
| PageTable.SetEntryWalk | arch/x86/src/mm/mmu.c:220-260 | a table entry decides the translation of its page and of no other page |
| PageTable.NewTableWalk | arch/x86/src/mm/mmu.c:322-327 | installing an empty table changes no translation |
| PageTable.LargePageWalk | arch/x86/src/mm/mmu.c:224-234 | a write through a large page's entry leaves that page's translation alone |
| PageTable.NoUserAddress | kernel/memory/ptb.c:118-131 | no user address translates exactly when every user entry is absent or leads to an empty table |
| PageTable.Entry | arch/x86/src/mm/mmu.c:234 | the entry of a page address is present, has the asked rights, the page's frame, and is not a large page's |
| PageTable.Mmu.PpClean | arch/x86/src/mm/mmu.c:63-76 | the page is zero and every other word as before |
| PageTable.Mmu.Map | arch/x86/src/mm/mmu.c:220-239 | E_NOTFOUND without a table, E_EXIST for a present entry, otherwise one word changes |
| PageTable.Mmu.Unmap | arch/x86/src/mm/mmu.c:241-260 | one word becomes 0, exactly when the entry was present |
| PageTable.Mmu.V2p | arch/x86/src/mm/mmu.c:272-289 | the processor's translation wherever the directory entry is not a large page's, and what is read there |
| PageTable.Mmu.SyncKernSpace | arch/x86/src/mm/mmu.c:262-270 | from the directory entry of the address on, exactly one entry for every begun 4 MB of the size is copied |
| PageTable.SyncSpans | arch/x86/src/mm/mmu.c:266 | those are all entries the range reaches into exactly when it does not start later in its first entry than it ends in its last |
| PageTable.SyncMisses | arch/x86/src/mm/mmu.c:266 | 4 MB from KERN_BASE + 0x200000 on reach into two entries and one is copied |
| PageTable.Ptb.Map | kernel/memory/ptb.c:21-49 | the page translates to the frame with the granted rights, every other address as before, also with a new table; every error case; the word written inside a large page |
| PageTable.Ptb.Unmap | kernel/memory/ptb.c:54-84 | the page does not translate, every other address as before; the one word that changes, in a large page too; the answer tells only whether there is a table |
| PageTable.Ptb.Setup | kernel/memory/ptb.c:97-116 | kernel addresses translate as in the kernel directory, user addresses not at all, and the kernel's own translation stays |
| PageTable.Ptb.Fork | kernel/memory/ptb.c:118-131 | kernel addresses translate as in the kernel directory; the user entries are what the page held |
| PageTable.MapThenUnmap | kernel/memory/ptb.c:21-84 | after mapping and unmapping every address translates as before, inside a large page too |
| KconfigExpr.ElimYn | scripts/kconfig/expr.c:246-327 | no connective is left with a constant, the tree shrinks where there was one, the normal form stays |
| KconfigExpr.ElimYnValue | scripts/kconfig/expr.c:246-327 | the value is the same in every environment |
| KconfigExpr.RelMeaning | scripts/kconfig/expr.c:917-995 | each test means the relation between the numbers, unsigned where a symbol is hexadecimal, and between the strings where one is no number; order tests of S_OTHER symbols are n |
| KconfigExpr.StrCmpMeaning | scripts/kconfig/expr.c:965-966 | strings are compared in the order of their characters |
| KconfigEq.ElimEqRecFactor | scripts/kconfig/expr.c:141-173 | a round takes one and the same value out of both sides, in every environment |
| KconfigEq.ElimEqReflectsOrder | scripts/kconfig/expr.c:175-195 | the order of the reduced expressions is the order of the originals, in every environment |
| KconfigEq.EqSound | scripts/kconfig/expr.c:200-244 | a yes of expr_eq means the same value in every environment |
| KconfigAc.EqExactly | scripts/kconfig/expr.c:200-244 | without constants among the operands, expr_eq answers yes exactly when the two are the same up to the order and grouping of operands |
| KconfigAc.EqExactlyWhere | scripts/kconfig/expr.c:200-244 | that holds for an expression exactly when no connective in it has y or n as an operand |
| KconfigAc.EqReflexive | scripts/kconfig/expr.c:200-244 | every expression equals itself |
| KconfigAc.EqSymmetric | scripts/kconfig/expr.c:200-244 | the order of the two arguments does not matter |
| KconfigAc.OrderMatters | scripts/kconfig/expr.c:141-173 | with constants, an input for which expr_eq is not transitive and a list does not equal itself in another order |
| KconfigAc.ElimEqExactly | scripts/kconfig/expr.c:175-195 | each side is left with the operands that the other does not have, each as often as it has more of them, and is the unit exactly when there are none |
| KconfigAc.ElimEqMixed | scripts/kconfig/expr.c:175-195 | so between lists of different connectives, where one side may be an operand of the other |
| KconfigAc.ElimEqSelf | scripts/kconfig/expr.c:175-195 | an expression against itself leaves one constant on both sides if it is a list, else itself |
| KconfigAc.SubsetTest | scripts/kconfig/menu.c:352-360 | the nesting test says yes exactly when every operand of the parent's condition is one of the entry's |
| KconfigEq.ElimEqImplication | scripts/kconfig/menu.c:352-360 | when only the constant y is left of the second expression, the first implies it in every environment |
| KconfigTransform.Transform | scripts/kconfig/expr.c:594-749 | ends although De Morgan steps grow the tree, and leaves negation only on symbols |
| KconfigTransform.TransformValue | scripts/kconfig/expr.c:594-749 | the value is the same in every environment |
| KconfigTransform.TransformRemovesBooleanTests | scripts/kconfig/expr.c:594-749 | no boolean symbol is compared with y, m or n afterwards |
| KconfigTransform.TransformIdempotent | scripts/kconfig/expr.c:594-749 | a second run changes nothing |
| KconfigTransform.NegateExactly | scripts/kconfig/expr.c:917-995 | a comparison and its negation are complementary exactly when the operands can be compared or the test is for equality |
| KconfigTransform.TransformOtherCounterexample | scripts/kconfig/expr.c:967-971 | order tests of S_OTHER symbols change value under expr_transform |
| KconfigTransform.TransBoolVisibility | scripts/kconfig/expr.c:332-356 | on the normal form, whether the value is n does not change |
| KconfigTransform.TransBoolUnderNot | scripts/kconfig/expr.c:332-356 | under a negation the rewrite can be seen exactly when the symbol is m |
| KconfigTransform.TransBoolRemovesTests | scripts/kconfig/expr.c:332-356 | no tristate symbol is tested for being other than n afterwards, and nothing else changes an expression without such a test |
| KconfigTransform.TransCompareValue | scripts/kconfig/expr.c:808-871 | the comparison with n asks whether the value is n, when negated operands are never m and the strings of the symbols tell their values |
| KconfigTransform.TransCompareTested | scripts/kconfig/expr.c:808-871 | for every expression and environment, the comparison with n is a reading of the expression with two values |
| KconfigTransform.TransCompareExactly | scripts/kconfig/expr.c:808-871 | it asks for the value, of the expression and of every operand, exactly under those two conditions |
| KconfigTransform.SymbolTestExactly | scripts/kconfig/expr.c:863-864 | the test of one symbol asks for its value exactly for y, m, n, boolean and tristate symbols and for the string "n" |
| KconfigTransform.OverExactly | scripts/kconfig/expr.c:808-871 | on the normal form no answer is too high exactly when the plain symbols tell their values |
| KconfigTransform.UnderExactly | scripts/kconfig/expr.c:808-871 | on the normal form no answer is too low exactly when the negated symbols tell their values and are not m |
| KconfigTransform.TransCompareUnderNot | scripts/kconfig/expr.c:839-840 | the negation case is right exactly when the negated symbol is not m, or has no value of its own and the string "n" |
| KconfigDups.JoinOrValue | scripts/kconfig/expr.c:361-423 | a join means the OR of its operands in every environment |
| KconfigDups.JoinAndValue | scripts/kconfig/expr.c:425-517 | a join means the AND of its operands in every environment |
| KconfigDups.JoinSound | scripts/kconfig/expr.c:361-517 | a join also shrinks the tree, keeps the normal form and opens no new operand list |
| KconfigDups.JoinExactly | scripts/kconfig/expr.c:361-517 | the pairs that are joined are exactly the equal ones and the listed pairs about one symbol, in either order |
| KconfigDups.JoinWrite | scripts/kconfig/expr.c:547-567 | blanking one operand and writing the join over the other keeps the value of the whole list |
| KconfigDups.Rewriter.EliminateDups1 | scripts/kconfig/expr.c:519-569 | a pass over two aliased operand lists keeps every value, changes the list only where it counts a rewrite, and otherwise no pair can be joined |
| KconfigDups.Rewriter.EliminateDups | scripts/kconfig/expr.c:571-592 | ends, keeps the value in every environment, never grows the tree, leaves in no list at any depth two operands that can be joined, and changes nothing where there were none |
| KconfigMenu.Conjoin | scripts/kconfig/menu.c:315-318 | a dependency's value is the minimum of the parent's and its own, and no two operands of it can be joined |
| KconfigMenu.FinalizeVisible | scripts/kconfig/menu.c:326-331 | the final visible expression gives the symbol the visibility of the minimum, with m promoted to y where the symbol is not tristate or modules are off |
| KconfigMenu.VisibilityMeaning | scripts/kconfig/symbol.c:234-235 | the promotion of m to y hides nothing, shows nothing hidden and leaves m only where it can be chosen |
| KconfigMenu.TestDep | scripts/kconfig/menu.c:343-344 | the tested dependency is y or n as the two-valued reading of the dependency answers, and no two operands of it can be joined |
| KconfigMenu.ShouldNest | scripts/kconfig/menu.c:346-366 | never where the symbol does not occur, at once where the entry depends on it; else a yes of the test means that an entry which can be seen has a parent which can be seen, where the symbols the two answers hang on tell their values |
| KconfigMenu.NestingMisjudged | scripts/kconfig/menu.c:352-360 | an entry that reaches the test, with a negated symbol that is m, is nested under a parent that cannot be seen |
| KconfigMenu.NestingMisjudgedString | scripts/kconfig/menu.c:352-360 | so is one without a negation, because of a string symbol |
| KconfigMenu.DependsImplies | scripts/kconfig/expr.c:779-806 | an entry that depends on a boolean or tristate symbol can be seen only while the symbol is not n |
| KconfigMenu.DependsExactly | scripts/kconfig/expr.c:779-806 | expr_depends_symbol answers yes exactly when the symbol or its test against y, m or n is an operand of the conjunction |
| KconfigMenu.ContainsExactly | scripts/kconfig/expr.c:751-777 | expr_contains_symbol answers yes exactly when the symbol occurs |
| KconfigMenu.OnlySymbolsMatter | scripts/kconfig/expr.c:917-995 | the value depends on no symbol that expr_contains_symbol does not find |

## Left out

- Vm.VpageAlct.InsertNew: takes a size above 0 and a range the allocator does not own yet, because a free record of size 0 or one that overlaps another is no range.
- Vm.VpageAlct.Slice: takes a size above 0; the asked range lies in the given record, as `vm_slice` asserts.
- Vm.VpageAlct.Free: like the other operations, starts from well-formed ranges; what follows an allocation of rounded size 0 is not modelled.
- Um.UserMemory.MallocPage: where the heap is to grow, takes a size above 0 for which free_s + size does not wrap; `HeapAlloc` states what a sum that wraps does, and `InsertNew` takes no empty range.
- IdxAlct.CountAug: holds for the intended update, because the written one at `lib/idx_alct.c:26` miscounts (`WrittenCount`).
- IdxAlct.Allocator.New: uses the intended update.
- IdxAlct.Allocator.Delete: uses the intended update.
- VmFork.CopyAlloced: leaves out the copying and mapping of pages for UM_NORMAL ranges.
- KconfigMenu.Conjoin: leaves out negated order tests of S_OTHER symbols, whose value `expr_transform` changes.
- KconfigMenu.ShouldNest: leaves out order tests of S_OTHER symbols.
- KconfigMenu.FinalizeVisible: leaves out negated order tests of S_OTHER symbols.
- KconfigMenu.TestDep: leaves out order tests of S_OTHER symbols.
- KconfigTransform.TransformValue: leaves out negated order tests of S_OTHER symbols, on which the law is false (`NegateExactly`, `TransformOtherCounterexample`).
- Buddy.PageAlct.constructor: takes the number of page descriptors; the E_NOMEM of `pm_init` for a region without room for the list heads is left out.
- Buddy.PageAlct.BuddyAlloc: asks for as many page descriptors as the cuts take.
- Buddy.AllocThenFree: asks for as many page descriptors as the cuts take.
- Buddy.PageAlct.Alloc: asks for as many page descriptors as the cuts take, because `buddy_alloc` does not look at the answer of `new_page`.
- PageTable.Ptb.Map: asks that the table pages of the address space are distinct and that a new page is none of them.
- MutexSched.EveryRunSafe: models one mutex; nesting of interrupts, the interrupt flag and memory barriers are not in it.
- Buddy.PageAlct.MergePage: the descriptors of merged pages are counted but not handed out again as the same objects.
- `alloced_rbt` of the buddy allocator is a finite map from addresses to pages; the tree itself is proved in `RbtHeap`.
- VmFork.Fork: does not model the copying and mapping of page contents, because the mapped page and type of a `vpage_t` are not in the model; nor the lock, which `vm_fork` leaves taken when it fails.
- `um_fork` and page faults.
- `vm.c`, `pm.c`, `idx_alct.c` and `um.c` are modelled inside their locks, one operation at a time.
- Liveness: that a waiting thread is served in the end, and fairness of the scheduler.
- `spinlock->owner`, which no code reads as a condition; `spin_unlock` clears it after the next holder may have set it.
- `schd_sleep` and `schd_wake`, whose bodies are commented out.
- Kconfig expressions are values, and the slots of `expr_eliminate_dups1` paths into one tree: freeing and sharing of nodes is not in the model, nor are E_LIST and E_RANGE.
- `menu_finalize` beyond the cited lines, choices, selects, and the front ends and files of Kconfig.
- Boot, interrupt gates, devices, ELF loading, the slab allocator, messages and services, and everything under `usr`.
